# Appointment agenda: the store, the service and the calendar views

This project models the data layer of a small Angular agenda in Dafny. The
agenda keeps appointments in a three-level tree: months (`mese`), each with
days (`giorno`), each with appointments. Every appointment has an id, a
description, a date and three flags: `confermato` (confirmed), `annullato`
(cancelled) and `selected`. The application has two interchangeable
implementations of the same operations:

- `AppointmentStore`, a signal store. Loading replaces `mainList` from
  local storage without writing it back. `clearAllData` empties the list
  and removes the stored entry. Every other operation replaces `mainList`
  and then writes it to local storage.
- `AppointmentService`, a class. It holds a signal state, and an effect writes
  the state to local storage whenever it changes.

Both implementations offer the same operations:

- Load the tree, clearing every selection; with no stored data, load a seed
  list.
- Add an appointment. This creates its month and day when they are missing
  and keeps months in calendar order, days by number and appointments by
  time.
- Select or deselect one appointment, a whole day or a whole month.
- Confirm, cancel or unconfirm every selected appointment, which also clears
  the selection.
- Count the selected appointments.
- Clear all data.

The day and month view components add the per-day status counts and the
state of their "select all" checkboxes: checked, or indeterminate.

The model has these modules:

- `Sequences` holds the stable sort by key that `Array.prototype.sort` gives
  with a key comparator, proved sorted, a permutation and stable. It also
  holds sums and filtered counts.
- `Appointments` holds the tree, the month-name list and the calendar. It
  defines the invariants: ordered, unique names and numbers, and every
  appointment filed under its own month and day. It also defines the
  counting functions.
- `Selection` holds the selection setters, the bulk status changes and the
  selection clearing done on load. The two implementations write these
  operations identically.
- `Insertion` holds `addAppointment` as the store computes it.
- `Persistence` holds the storage slot, the normalising load loop, the seed
  data and a JavaScript `Date` model for the seed.
- `Store` holds `AppointmentStore` as a class with `mainList` and the storage
  slot.
- `Service` holds `AppointmentService` as a class. Its `addAppointment` is
  written step by step with `findIndex` loops, and is proved to agree with
  the store's.
- `DayView` and `MonthView` hold the computed values of the two components.
- `Scenarios` holds the expected outcomes of the unit tests, stated on their
  fixture.

Dates are integers that the model only compares. A `Calendar` parameter
supplies each date's month (0 to 11) and day of the month, as `getMonth()`
and `getDate()` would in the user's time zone. The seed's dates use a
concrete encoding, YYYYMMDDhhmm. Local storage is the field `saved`: either
nothing, or a saved tree.

## Model

| member | source | states |
|---|---|---|
| Sequences.SortBy | src/app/services/appointment.store.ts:86 | the sorted list has the same elements with the same multiplicities and the same length |
| Sequences.SortBySorted | src/app/services/appointment.store.ts:69 | sorting by a key comparator yields a list in ascending key order |
| Sequences.SortByStable | src/app/services/appointment.store.ts:86 | sorting is stable: elements with equal keys keep their relative order, so a new appointment at an existing time goes after the existing ones |
| Sequences.SortByDistinct | src/app/services/appointment.store.ts:80 | sorting keeps a list free of repeated identities (day numbers, month names) |
| Sequences.SortByIdentity | src/app/services/appointment.store.ts:69 | sorting an already sorted list returns it unchanged |
| Sequences.PushThenSort | src/app/services/appointment.store.ts:84-86 | pushing an element and sorting equals inserting it after every element with a key not above its own |
| Sequences.SumBySortBy | src/app/services/appointment.store.ts:83-88 | sorting a list does not change a sum over it, so re-sorting days and appointments keeps the count |
| Sequences.CountIfIndices | src/app/app/day-view/day-view.ts:21-22 | `filter(p).length` equals the number of positions whose element satisfies `p` |
| Appointments.IndexOf | src/app/services/appointment.store.ts:69 | `monthNames.indexOf`: -1 exactly when the name is missing, otherwise the first position holding it |
| Appointments.MonthNamesDistinct | src/app/services/appointment.store.ts:33 | no two entries of the month-name list are equal |
| Appointments.MonthNameOf | src/app/services/appointment.store.ts:32-35 | `getMonthName`: the name returned sits at the date's month position and at no other, so its `indexOf` is that month |
| Appointments.TreeExtensionality | src/app/models/appointment.model.ts:1-19 | two trees of the same shape with the same appointment at every position are equal |
| Appointments.SkeletonKeepsInvariants | src/app/services/appointment.store.ts:98-192 | trees with the same months, days, ids and times are ordered, unique and filed alike |
| Appointments.SelectedCountBound | src/app/services/appointment.store.ts:19-23 | the selected count is at most the number of appointments, and equals it exactly when every appointment is selected |
| Appointments.SelectedCountZero | src/app/services/appointment.store.ts:19-23 | the selected count is zero exactly when no appointment is selected |
| Appointments.MonthSelectedBound | src/app/services/appointment.store.ts:19-23 | within one month the selected appointments are at most all of them, and equal them exactly when each one is selected |
| Appointments.MonthSelectedZero | src/app/services/appointment.store.ts:19-23 | within one month the selected count is zero exactly when no appointment is selected |
| Appointments.SameShapeTotal | src/app/services/appointment.store.ts:98-192 | trees of the same shape hold the same number of appointments |
| Appointments.SelectedAppointmentsCount | src/app/services/appointment.store.ts:19-23 | `selectedAppointmentsCount` never exceeds the number of appointments in the tree |
| Selection.SelectAppointment | src/app/services/appointment.store.ts:98-115 | only the `selected` flags change; the appointments matching month name, day number and id get the new value, and every other one keeps its old value |
| Selection.SelectDay | src/app/services/appointment.store.ts:117-132 | only the `selected` flags change; every appointment of the matching days gets the new value, and the rest keep theirs |
| Selection.SelectMonth | src/app/services/appointment.store.ts:134-147 | only the `selected` flags change; every appointment of the matching months gets the new value, and the rest keep theirs |
| Selection.ChangeSelectedStatus | src/app/services/appointment.store.ts:149-192 | same shape; each selected appointment gets the command's confirmed and cancelled flags and is deselected; unselected ones are unchanged |
| Selection.ClearSelection | src/app/services/appointment.store.ts:42-49 | only the `selected` flags change, and none is left set |
| Selection.ClearSelectionCanonical | src/app/services/appointment.store.ts:42-49 | two trees differ only in selection exactly when clearing gives the same tree |
| Selection.ClearSelectionIdempotent | src/app/services/appointment.store.ts:42-49 | clearing twice equals clearing once |
| Selection.SelectAppointmentNoMatch | src/app/services/appointment.store.ts:98-115 | when no appointment matches the key, selecting leaves the tree unchanged |
| Selection.ChangeSelectedStatusClearsSelection | src/app/services/appointment.store.ts:149-192 | after any bulk status change the selected count is 0 |
| Selection.ChangeSelectedStatusExclusive | src/app/services/appointment.store.ts:149-192 | after a status change, an appointment is both confirmed and cancelled only if it already was and was not selected |
| Selection.OperationsKeepSkeleton | src/app/services/appointment.store.ts:98-192 | selection setters, status changes and clearing keep every month, day, id and time in place |
| Selection.ConfirmThenUnconfirm | src/app/services/appointment.service.spec.ts:117-131 | confirming a selected appointment, selecting it again and unconfirming leaves it neither confirmed, cancelled nor selected, with its id, description and date unchanged |
| Selection.SelectMonthCount | src/app/services/appointment.store.ts:134-147 | on unique month names, selecting or deselecting a month changes the count by removing that month's selected appointments and, when selecting, adding all of its appointments |
| Insertion.WithMonth | src/app/services/appointment.store.ts:62-70 | after the find-or-create step a month with the name is present, and the list grew by one exactly when no month had it |
| Insertion.WithDay | src/app/services/appointment.store.ts:75-81 | after the find-or-create step a day with the number is present, and the list grew by one exactly when no day had it |
| Insertion.AddToDay | src/app/services/appointment.store.ts:83-88 | the day keeps its number, and its appointments are the old ones plus the unselected new one, counted with multiplicity |
| Insertion.AddToMonth | src/app/services/appointment.store.ts:72-91 | the month keeps its name, and gains a day exactly when none had the date's day number |
| Insertion.AddAppointment | src/app/services/appointment.store.ts:56-96 | the month list grows by one exactly when no month had the name of the date's month |
| Insertion.WithMonthMembers | src/app/services/appointment.store.ts:62-70 | the month step leaves a month with the name; it adds exactly one empty month when the name was missing and nothing otherwise |
| Insertion.WithMonthInvariants | src/app/services/appointment.store.ts:62-70 | the month step keeps months in calendar order and names unique |
| Insertion.WithMonthTotal | src/app/services/appointment.store.ts:62-70 | creating an empty month leaves the number of appointments unchanged |
| Insertion.WithDayMembers | src/app/services/appointment.store.ts:75-81 | the day step leaves a day with the number; it adds exactly one empty day when it was missing and nothing otherwise |
| Insertion.WithDayInvariants | src/app/services/appointment.store.ts:75-81 | the day step keeps days ascending and numbers unique |
| Insertion.WithDayTotal | src/app/services/appointment.store.ts:75-81 | creating an empty day leaves the number of appointments in the month unchanged |
| Insertion.AddToDayFacts | src/app/services/appointment.store.ts:83-88 | appending to a day adds the unselected appointment once, keeps the day number, leaves the list sorted by time, and places the new one after all others at its time |
| Insertion.AddToDayMembers | src/app/services/appointment.store.ts:83-88 | an appointment is in the day after adding exactly when it was there before or is the unselected new one |
| Insertion.AddToMonthTotal | src/app/services/appointment.store.ts:72-91 | with unique day numbers, adding within a month adds exactly one appointment |
| Insertion.AddToMonthKeepsOtherDays | src/app/services/appointment.store.ts:72-91 | days with other numbers are kept as they were, and the month gains a day exactly when the number was new |
| Insertion.AddToMonthKeepsDistinct | src/app/services/appointment.store.ts:72-91 | adding within a month keeps its day numbers unique |
| Insertion.AddToMonthPlaces | src/app/services/appointment.store.ts:72-91 | after adding within a month, a day with the date's number holds the unselected new appointment |
| Insertion.AddToMonthKeepsFiled | src/app/services/appointment.store.ts:72-91 | adding to the month named for the date keeps every appointment of the month under its own day |
| Insertion.MonthKeepsOrder | src/app/services/appointment.store.ts:72-91 | adding within a month keeps its days ascending and each day's appointments ascending by time |
| Insertion.AddToMonthNewDay | src/app/services/appointment.store.ts:75-81 | when the day was missing, the month gains a day holding just the new appointment |
| Insertion.AddToEmptyMonth | src/app/services/appointment.store.ts:62-81 | adding to a newly created month gives it one day holding just the new appointment |
| Insertion.AddAppointmentPlaces | src/app/services/appointment.store.ts:56-96 | after adding, the unselected appointment is in a day numbered by its date, inside a month named by its date |
| Insertion.AddAppointmentKeepsOtherMonths | src/app/services/appointment.store.ts:72-91 | months with other names are kept as they were, and the list grows by one month exactly when the name was new |
| Insertion.AddAppointmentNewMonth | src/app/services/appointment.store.ts:62-91 | a month created by adding holds exactly one day, which holds exactly the new appointment |
| Insertion.AddAppointmentTotal | src/app/services/appointment.store.ts:56-96 | on a tree with unique names and numbers, adding adds exactly one appointment |
| Insertion.AddAppointmentKeepsDistinct | src/app/services/appointment.store.ts:56-96 | adding keeps month names and day numbers unique |
| Insertion.AddAppointmentKeepsOrder | src/app/services/appointment.store.ts:56-96 | adding keeps months in calendar order, days ascending and appointments ascending by time |
| Insertion.AddAppointmentKeepsFiled | src/app/services/appointment.store.ts:56-96 | if every appointment sits under its own date's month and day, that still holds after adding |
| Persistence.NormalizeDay | src/app/services/appointment.store.ts:44-47 | the loop clears the selection of every appointment of the day and keeps everything else |
| Persistence.NormalizeMonth | src/app/services/appointment.store.ts:43-48 | the loop normalises every day of the month and keeps its name |
| Persistence.Normalize | src/app/services/appointment.store.ts:42-49 | the nested `forEach` loops compute exactly the selection-cleared tree |
| Persistence.NewDate | src/app/services/appointment.store.ts:276 | `new Date(y, m, d, h, min)`: the month is m mod 12 and the year is the full year of y (1900 + y for y from 0 to 99) plus m div 12 |
| Persistence.FullYear | src/app/services/appointment.store.ts:276 | a year argument from 0 to 99 stands for 1900 to 1999; any other is taken as given |
| Persistence.TwoDigitYearRollover | src/app/services/appointment.store.ts:276 | `new Date(99, 12, 1)` falls in January 2000 |
| Persistence.EncodeDecode | src/app/services/appointment.store.ts:202-281 | the seed's date encoding gives back the year, month and day it was built from |
| Persistence.SeedAsWritten | src/app/services/appointment.store.ts:202-281 | the seed list as written is ordered, has unique names and numbers, and holds nine appointments, none selected |
| Persistence.Seed | src/app/services/appointment.store.ts:202-281 | the seed list with appointment 9 dated 17 March 2025 is ordered, has unique names and numbers, and holds nine appointments, none selected |
| Persistence.SeedAsWrittenMisfiled | src/app/services/appointment.store.ts:270-278 | the seed as written files appointment 9 under Marzo, day 17, but its date lies in January 2026, so the seed is not filed by date |
| Persistence.SeedFiled | src/app/services/appointment.store.ts:202-281 | with the intended date, every seed appointment sits under its own month and day |
| Persistence.SeedCounts | src/app/services/appointment.store.ts:202-281 | the seed holds nine appointments, none selected |
| Persistence.SeedInvariants | src/app/services/appointment.store.ts:202-281 | the seed is ordered and has unique names and numbers, with either date for appointment 9 |
| Persistence.Restore | src/app/services/appointment.store.ts:38-54 | loading leaves nothing selected; a stored tree comes back differing from it only in selection; an empty slot gives the seed as written |
| Persistence.SaveThenRestore | src/app/services/appointment.store.ts:28-54 | saving and loading keeps every month, day, id and time, the count, order and uniqueness; a tree without selections comes back unchanged |
| Persistence.RestoreEmptySlot | src/app/services/appointment.store.ts:50-53 | loading with nothing stored installs the seed as written: ordered, unique, nine appointments, none selected, and not filed by date because of appointment 9 |
| Store.AppointmentStore.constructor | src/app/services/appointment.store.ts:10-17 | the store starts with an empty list and leaves the stored slot as it is |
| Store.AppointmentStore.SelectedAppointmentsCount | src/app/services/appointment.store.ts:19-23 | the count of selected appointments; at most the total; 0 exactly when none is selected; the total exactly when all are |
| Store.AppointmentStore.LoadAppointments | src/app/services/appointment.store.ts:38-54 | installs the restored tree (the seed as written when the slot is empty) with nothing selected, and does not write the slot |
| Store.AppointmentStore.AddAppointment | src/app/services/appointment.store.ts:56-96 | installs the added tree and saves it; keeps uniqueness (then one more appointment), order and filing by date |
| Store.AppointmentStore.UpdateAppointmentSelection | src/app/services/appointment.store.ts:98-115 | installs the selected tree and saves it |
| Store.AppointmentStore.UpdateDaySelection | src/app/services/appointment.store.ts:117-132 | installs the day-selected tree and saves it |
| Store.AppointmentStore.UpdateMonthSelection | src/app/services/appointment.store.ts:134-147 | installs the month-selected tree and saves it |
| Store.AppointmentStore.ConfirmSelectedAppointments | src/app/services/appointment.store.ts:149-162 | installs the confirmed tree, saves it, and leaves nothing selected |
| Store.AppointmentStore.CancelSelectedAppointments | src/app/services/appointment.store.ts:164-177 | installs the cancelled tree, saves it, and leaves nothing selected |
| Store.AppointmentStore.UnconfirmSelectedAppointments | src/app/services/appointment.store.ts:179-192 | installs the unconfirmed tree, saves it, and leaves nothing selected |
| Store.AppointmentStore.ClearAllData | src/app/services/appointment.store.ts:194-197 | empties the list and removes the slot, so the next load gives the seed as written |
| Service.FindMonthIndex | src/app/services/appointment.service.ts:53 | `findIndex` on months: -1 exactly when no month has the name, otherwise the first one that does |
| Service.FindDayIndex | src/app/services/appointment.service.ts:63 | `findIndex` on days: -1 exactly when no day has the number, otherwise the first one that does |
| Service.FindOrCreateMonth | src/app/services/appointment.service.ts:53-61 | the month list after the month step equals the store's, and the returned index is the first month with the name |
| Service.FindOrCreateDay | src/app/services/appointment.service.ts:63-72 | the day list after the day step equals the store's, and the returned index is the first day with the number |
| Service.DayStepTotal | src/app/services/appointment.service.ts:63-72 | creating an empty day inside one month leaves the number of appointments unchanged |
| Service.AppendStep | src/app/services/appointment.service.ts:74-80 | appending the new appointment at one month and day position adds exactly one appointment |
| Service.SameAsStore | src/app/services/appointment.service.ts:46-81 | on unique names and numbers, updating the first matching month at its first matching day gives the store's `addAppointment` result |
| Service.AddAtPositions | src/app/services/appointment.service.ts:74-80 | appending at the found positions adds exactly one appointment and files it by its date; on unique names and numbers it matches the store's `addAppointment` |
| Service.AppointmentService.constructor | src/app/services/appointment.service.ts:17-40 | the service starts with the restored tree (the seed as written when the slot is empty), nothing selected, and the effect's first save |
| Service.AppointmentService.SelectedAppointmentsCount | src/app/services/appointment.service.ts:189-193 | the count of selected appointments; at most the total; 0 exactly when none is selected; the total exactly when all are |
| Service.AppointmentService.AddAppointment | src/app/services/appointment.service.ts:46-81 | adds exactly one appointment and files it under its own month and day; on unique names and numbers the result is the store's; the result is saved |
| Service.AppointmentService.UpdateAppointmentSelection | src/app/services/appointment.service.ts:88-108 | installs the selected tree and saves it |
| Service.AppointmentService.UpdateDaySelection | src/app/services/appointment.service.ts:110-125 | installs the day-selected tree and saves it |
| Service.AppointmentService.UpdateMonthSelection | src/app/services/appointment.service.ts:127-139 | installs the month-selected tree and saves it |
| Service.AppointmentService.ConfirmSelectedAppointments | src/app/services/appointment.service.ts:141-155 | installs the confirmed tree, saves it, and leaves nothing selected |
| Service.AppointmentService.CancelSelectedAppointments | src/app/services/appointment.service.ts:157-171 | installs the cancelled tree, saves it, and leaves nothing selected |
| Service.AppointmentService.UnconfirmSelectedAppointments | src/app/services/appointment.service.ts:173-187 | installs the unconfirmed tree, saves it, and leaves nothing selected |
| Service.AppointmentService.ClearAllData | src/app/services/appointment.service.ts:83-86 | empties the list; the effect then saves the empty list, so the next load gives an empty list |
| DayView.AppointmentCounts | src/app/app/day-view/day-view.ts:19-25 | total is the day's length; `confirmed` and `cancelled` are the numbers of positions holding a confirmed and a cancelled appointment; the three parts add up to the total; both counts lie between 0 and the total |
| DayView.FlagPositions | src/app/app/day-view/day-view.ts:21-22 | `filter(..).length` on the confirmed and the cancelled flag counts the positions holding such appointments |
| DayView.CountsPartition | src/app/app/day-view/day-view.ts:19-25 | when no appointment is both confirmed and cancelled, every appointment is counted exactly once as confirmed, cancelled or pending |
| DayView.ToConfirmIsPending | src/app/app/day-view/day-view.ts:23 | with exclusive flags, `toConfirm` is the number of pending appointments and is never negative |
| DayView.ToConfirmNegative | src/app/app/day-view/day-view.ts:23 | an appointment both confirmed and cancelled makes `toConfirm` negative |
| DayView.AllDaySelected | src/app/app/day-view/day-view.ts:27-29 | true exactly when every appointment of the day is selected, which is exactly when the selected count equals the length |
| DayView.IsDayIndeterminate | src/app/app/day-view/day-view.ts:31-38 | true exactly when some appointment is selected and some is not; never for an empty day; never together with "all selected" |
| MonthView.CurrentMonth | src/app/app/month-view/month-view.ts:20-22 | none exactly when no month has the name, otherwise the first month that has it |
| MonthView.CurrentMonthAt | src/app/app/month-view/month-view.ts:20-22 | the month found is the one at the first position holding the name |
| MonthView.Flatten | src/app/app/month-view/month-view.ts:27-28 | the flattened list has as many appointments, and as many selected ones, as the days together |
| MonthView.AllMonthSelected | src/app/app/month-view/month-view.ts:24-30 | false when the month is missing; otherwise true exactly when all of its appointments are selected, which is exactly when its selected count equals its size |
| MonthView.IsMonthIndeterminate | src/app/app/month-view/month-view.ts:32-41 | true exactly when the month exists and has both a selected and an unselected appointment; never together with "all selected" |
| MonthView.SelectMonthChecksBox | src/app/app/month-view/month-view.ts:43-46 | after selecting a present month, its checkbox is checked and not indeterminate |
| MonthView.DeselectMonthClearsBox | src/app/app/month-view/month-view.ts:43-46 | after deselecting a present month, its checkbox is not indeterminate, and is checked only when the month has no appointments |
| Scenarios.CountSequence | src/app/services/appointment.service.spec.ts:133-141 | on the fixture, select, select day, deselect give the counts 0, 1, 2, 1 |
| Scenarios.FixtureByAdding | src/app/services/appointment.store.spec.ts:43-48 | clearing the store and adding the fixture's two appointments one by one builds exactly the fixture tree |
| Scenarios.IntoEmptyTree | src/app/services/appointment.store.ts:56-96 | adding to an empty tree gives one month, named for the date, with one day, numbered for the date, holding just the unselected appointment |
| Scenarios.IntoOnlyMonth | src/app/services/appointment.store.ts:56-96 | adding to a one-month tree whose month is the date's month updates that month in place |
| Scenarios.AppendLaterDay | src/app/services/appointment.store.ts:72-91 | adding to a one-day month an appointment for a later day appends a day holding just it |
| Scenarios.AddToExistingDay | src/app/services/appointment.service.spec.ts:53-64 | a 14:00 appointment on 2 January goes into day 2, after the 10:00 one |
| Scenarios.AddToNewMonth | src/app/services/appointment.service.spec.ts:66-79 | an appointment on 15 February creates Febbraio with day 15 holding just it, beside the unchanged Gennaio |
| Scenarios.CancelSelected | src/app/services/appointment.store.spec.ts:110-117 | selecting and cancelling appointment 1 leaves it cancelled, not confirmed and not selected, and leaves appointment 2 unchanged |
| Scenarios.SaveAndReload | src/app/services/appointment.service.spec.ts:143-153 | a second service loading the saved slot finds the added appointment under its own month and day |
| Scenarios.StoreSaveAndReload | src/app/services/appointment.store.spec.ts:143-151 | a second store loading the saved slot finds the added appointment under its own month and day |
| Scenarios.ClearThenReload | src/app/services/appointment.store.ts:194-197 | after `clearAllData`, a store loading the slot gets the seed as written, nine appointments, not filed by date |
| Scenarios.LaterIntoSingleDay | src/app/services/appointment.store.ts:83-88 | adding to a one-appointment day an appointment later than it puts the new one second |
| Scenarios.PlacedSurvivesReload | src/app/services/appointment.store.ts:42-49 | clearing selections keeps an added appointment in its month and day |

## Left out

- Local storage and JSON are modelled as the field `saved`, which holds
  either nothing or a saved tree. Serialisation, the storage key and
  re-parsing dates with `new Date(...)` are not modelled. A date survives the
  round trip here unchanged.
- Dates and time zones are not modelled. Each date is an integer that the
  model only compares; the `Calendar` parameter supplies its month and day
  of the month. `toLocaleString` and `getTime` are not modelled.
- Persistence.NewDate: models the two-digit year and month overflow. It
  requires a day from 1 to 28, so rollover of the day of the month is not
  modelled; no seed date needs it.
- The service's save runs in an Angular `effect`, after the signal changes.
  The model performs that save at the end of each operation. So after
  `clearAllData` the slot holds an empty list, and the next load gives an
  empty list rather than the seed.
- Service.AppointmentService.AddAppointment: the `list ==
  Insertion.AddAppointment(...)` clause holds only on trees with unique month
  names and day numbers. Those are the only trees the store and the service
  ever build. On other trees the service edits only the first month and
  day that match, while the store edits every match.
- The last step of the service's `addAppointment` writes the new day into
  the `giorni` array of the month object in place
  (src/app/services/appointment.service.ts:70 and 79): `newList` is a
  shallow copy, so the month object, and with a new day its `giorni`, is
  the one the previous state holds. The month keeps its identity, so the
  month view's `currentMonth` (src/app/app/month-view/month-view.ts:20-22)
  can return a value equal by reference to the one before, and the
  computed checkbox states at month-view.ts:24-41 may not recompute and
  stay stale. The model treats the write as a value update, so it does not
  capture this aliasing or the stale views it can cause.
- Angular signals and `computed` values are modelled as plain functions of
  the current tree, recomputed on every read. In the day view the
  `computed` values `allDayAppointmentsSelected` and `isDayIndeterminate`
  (src/app/app/day-view/day-view.ts:27-38) read only `this.day`, a plain
  `@Input` and not a signal. Angular computes them once and never again,
  so the day checkbox can keep its first state, while
  `DayView.AllDaySelected` and `DayView.IsDayIndeterminate` always reflect
  the current day. The model does not capture this staleness.
- The intermediate `patchState` calls inside the service's `addAppointment`
  (service.ts:58 and 70) are not observable states of the model. Only the
  final list is stated.
- `isLoading` in the store's state (src/app/services/appointment.store.ts:7
  and 12) is never read or changed by the core, so it is not modelled.
- DOM event handlers `toggleDaySelection` and `toggleAppointmentSelection`
  (src/app/app/day-view/day-view.ts:40-54) are not modelled. They derive the
  month name from `toLocaleString`, which is locale- and browser-dependent.
  Their effect is the modelled `UpdateDaySelection` and
  `UpdateAppointmentSelection`. `toggleMonthSelection` is the modelled
  `UpdateMonthSelection`.
- MonthView.Flatten: states the length and the selected count of the
  flattened list, which is all the views read. It does not state the order
  of its elements.
- The application shell (`app.ts`, `app.config.ts`), templates and styles
  are not part of this model.
- Optional flags (`confermato?`, `annullato?`, `selected?`) are booleans
  that default to false. `undefined` and `false` behave the same in every
  test the code makes.

## Findings

| source | as written | input that shows it | evidently intended | confidence | as-written member | corrected member |
|---|---|---|---|---|---|---|
| src/app/services/appointment.store.ts:276 (same at src/app/services/appointment.service.ts:269) | the seed's appointment 9, filed under "Marzo", day 17, is dated `new Date(2025, 12, 17, 20, 0, 0)`; JavaScript months are 0-based, so month 12 rolls over to January 2026 | the seed list itself: `getMonth()` of that date is 0 (Gennaio) while the appointment sits under Marzo | `new Date(2025, 2, 17, 20, 0, 0)`, 17 March 2025, like the other Marzo entries | high, not executed | Persistence.SeedAsWrittenMisfiled (on Persistence.SeedAsWritten) | Persistence.SeedFiled (on Persistence.Seed) |

Loading from an empty slot installs the seed as written
(`Persistence.Restore`, `Store.AppointmentStore.LoadAppointments`, the
service's constructor). `Persistence.Seed` is the corrected list, with the
same order, uniqueness and counts, and filed by date.
