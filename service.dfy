/**
 * `AppointmentService`: the injectable service holding the month list in a
 * signal. Its `addAppointment` works by positions: it looks up the month and
 * the day with `findIndex`, creates and re-sorts them when missing, looks
 * them up again, and assigns the re-sorted day at those positions.
 *
 * An `effect` writes the list to the storage slot whenever it changes; the
 * model performs that write at the end of every operation, so even
 * `clearAllData`, which removes the slot, leaves the empty list saved.
 */
module Service {
  import opened Sequences
  import opened Appointments
  import opened Selection
  import opened Persistence
  import Insertion

  /** `list.findIndex(m => m.mese === name)`: the first month with that name, or -1. */
  method FindMonthIndex(t: Tree, name: string) returns (r: int)
    ensures -1 <= r < |t|
    ensures r == -1 <==> !Insertion.HasMonth(t, name)
    ensures r >= 0 ==> t[r].name == name && forall i :: 0 <= i < r ==> t[i].name != name
  {
    r := 0;
    while r < |t| && t[r].name != name
      invariant 0 <= r <= |t|
      invariant forall i :: 0 <= i < r ==> t[i].name != name
    {
      r := r + 1;
    }
    if r == |t| {
      r := -1;
    }
  }

  /** `giorni.findIndex(d => d.giorno === dayNumber)`: the first day with that number, or -1. */
  method FindDayIndex(days: seq<Day>, dayNumber: int) returns (r: int)
    ensures -1 <= r < |days|
    ensures r == -1 <==> !Insertion.HasDay(days, dayNumber)
    ensures r >= 0 ==> days[r].dayNumber == dayNumber && forall j :: 0 <= j < r ==> days[j].dayNumber != dayNumber
  {
    r := 0;
    while r < |days| && days[r].dayNumber != dayNumber
      invariant 0 <= r <= |days|
      invariant forall j :: 0 <= j < r ==> days[j].dayNumber != dayNumber
    {
      r := r + 1;
    }
    if r == |days| {
      r := -1;
    }
  }

  class AppointmentService {
    /** The month list (`state().list`). */
    var list: Tree
    /** The storage slot under the key 'todo-app-data': a saved tree, or nothing. */
    var saved: Option<Tree>

    /** Loads from the slot (the seed list when it is empty); the effect then saves the list. */
    constructor(slot: Option<Tree>)
      ensures list == Restore(slot) && NoneSelected(list)
      ensures saved == Some(list)
    {
      match slot {
        case None =>
          list := SeedAsWritten();
        case Some(parsed) =>
          var normalized := Normalize(parsed);
          list := normalized;
      }
      saved := Some(list);
    }

    /** `selectedAppointmentsCount`, zero exactly when none is selected and the total exactly when all are. */
    function SelectedAppointmentsCount(): (n: nat)
      reads this
      ensures n == Appointments.SelectedAppointmentsCount(list)
      ensures n <= Total(list)
      ensures n == 0 <==> NoneSelected(list)
      ensures n == Total(list) <==> AllSelected(list)
    {
      SelectedCountBound(list);
      SelectedCountZero(list);
      Appointments.SelectedAppointmentsCount(list)
    }

    /**
     * `addAppointment`: one appointment more, in a month named for its date
     * and a day numbered for its date, whatever the tree. On a tree with
     * unique month names and day numbers the result is the store's.
     */
    method AddAppointment(cal: Calendar, a: Appointment)
      modifies this
      ensures Total(list) == Total(old(list)) + 1
      ensures Insertion.Placed(list, cal, a)
      ensures Distinct(old(list)) ==> list == Insertion.AddAppointment(old(list), cal, a)
      ensures saved == Some(list)
    {
      var monthName := MonthNames[cal.monthOf(a.time)];
      var dayNumber := cal.dayOf(a.time);

      var months, monthIndex := FindOrCreateMonth(list, monthName);
      list := months;

      var month := list[monthIndex];
      var newDays, dayIndex := FindOrCreateDay(month.days, dayNumber);
      list := list[monthIndex := month.(days := newDays)];

      var day := list[monthIndex].days[dayIndex];
      var apps := SortBy(day.appointments + [Unselected(a)], TimeKey);
      list := list[monthIndex := list[monthIndex].(days := list[monthIndex].days[dayIndex := day.(appointments := apps)])];

      assert list == months[monthIndex := month.(days := newDays[dayIndex := Insertion.AddToDay(newDays[dayIndex], a)])];
      AddAtPositions(old(list), cal, a, monthIndex, dayIndex);
      saved := Some(list);
    }

    /** `updateAppointmentSelection`; the effect saves the new list. */
    method UpdateAppointmentSelection(monthName: string, dayNumber: int, id: int, selected: bool)
      modifies this
      ensures list == SelectAppointment(old(list), monthName, dayNumber, id, selected)
      ensures saved == Some(list)
    {
      list := SelectAppointment(list, monthName, dayNumber, id, selected);
      saved := Some(list);
    }

    /** `updateDaySelection`; the effect saves the new list. */
    method UpdateDaySelection(monthName: string, dayNumber: int, selected: bool)
      modifies this
      ensures list == SelectDay(old(list), monthName, dayNumber, selected)
      ensures saved == Some(list)
    {
      list := SelectDay(list, monthName, dayNumber, selected);
      saved := Some(list);
    }

    /** `updateMonthSelection`; the effect saves the new list. */
    method UpdateMonthSelection(monthName: string, selected: bool)
      modifies this
      ensures list == SelectMonth(old(list), monthName, selected)
      ensures saved == Some(list)
    {
      list := SelectMonth(list, monthName, selected);
      saved := Some(list);
    }

    /** `confirmSelectedAppointments`; no appointment is left selected. */
    method ConfirmSelectedAppointments()
      modifies this
      ensures list == ChangeSelectedStatus(old(list), Confirm)
      ensures saved == Some(list)
      ensures Appointments.SelectedAppointmentsCount(list) == 0
    {
      ChangeSelectedStatusClearsSelection(list, Confirm);
      list := ChangeSelectedStatus(list, Confirm);
      saved := Some(list);
    }

    /** `cancelSelectedAppointments`; no appointment is left selected. */
    method CancelSelectedAppointments()
      modifies this
      ensures list == ChangeSelectedStatus(old(list), Cancel)
      ensures saved == Some(list)
      ensures Appointments.SelectedAppointmentsCount(list) == 0
    {
      ChangeSelectedStatusClearsSelection(list, Cancel);
      list := ChangeSelectedStatus(list, Cancel);
      saved := Some(list);
    }

    /** `unconfirmSelectedAppointments`; no appointment is left selected. */
    method UnconfirmSelectedAppointments()
      modifies this
      ensures list == ChangeSelectedStatus(old(list), Unconfirm)
      ensures saved == Some(list)
      ensures Appointments.SelectedAppointmentsCount(list) == 0
    {
      ChangeSelectedStatusClearsSelection(list, Unconfirm);
      list := ChangeSelectedStatus(list, Unconfirm);
      saved := Some(list);
    }

    /**
     * `clearAllData`: removes the slot and empties the list; the effect then
     * saves the empty list, so the next load finds an empty tree.
     */
    method ClearAllData()
      modifies this
      ensures list == [] && saved == Some([])
      ensures Restore(saved) == []
    {
      list := [];
      saved := Some(list);
    }
  }

  /**
   * The month step of the service's `addAppointment`: look the month up and,
   * when it is missing, append it, re-sort the months and look it up again.
   */
  method FindOrCreateMonth(t: Tree, name: string) returns (months: Tree, i: int)
    ensures months == Insertion.WithMonth(t, name)
    ensures 0 <= i < |months| && months[i].name == name
    ensures forall i' :: 0 <= i' < i ==> months[i'].name != name
  {
    months := t;
    i := FindMonthIndex(t, name);
    if i == -1 {
      months := SortBy(t + [Month(name, [])], MonthKey);
      Insertion.WithMonthMembers(t, name);
      i := FindMonthIndex(months, name);
    }
  }

  /**
   * The day step: look the day up and, when it is missing, append it,
   * re-sort the days and look it up again.
   */
  method FindOrCreateDay(days: seq<Day>, dayNumber: int) returns (newDays: seq<Day>, j: int)
    ensures newDays == Insertion.WithDay(days, dayNumber)
    ensures 0 <= j < |newDays| && newDays[j].dayNumber == dayNumber
    ensures forall j' :: 0 <= j' < j ==> newDays[j'].dayNumber != dayNumber
  {
    newDays := days;
    j := FindDayIndex(days, dayNumber);
    if j == -1 {
      newDays := SortBy(days + [Day(dayNumber, [])], DayKey);
      Insertion.WithDayMembers(days, dayNumber);
      j := FindDayIndex(newDays, dayNumber);
    }
  }

  /**
   * The tree the service builds: the day at position j of the month at
   * position i, after both find-or-create steps, receives the appointment.
   */
  function AddedAt(t: Tree, cal: Calendar, a: Appointment, i: int, j: int): Tree
    requires 0 <= i < |Insertion.WithMonth(t, MonthNameOf(cal, a.time))|
    requires 0 <= j < |Insertion.WithDay(Insertion.WithMonth(t, MonthNameOf(cal, a.time))[i].days, cal.dayOf(a.time))|
  {
    var months := Insertion.WithMonth(t, MonthNameOf(cal, a.time));
    var days := Insertion.WithDay(months[i].days, cal.dayOf(a.time));
    months[i := months[i].(days := days[j := Insertion.AddToDay(days[j], a)])]
  }

  /**
   * Adding at the positions the lookups return adds exactly one appointment,
   * under its own month and day; on unique names and numbers it is the
   * store's result.
   */
  lemma AddAtPositions(t: Tree, cal: Calendar, a: Appointment, i: int, j: int)
    requires var months := Insertion.WithMonth(t, MonthNameOf(cal, a.time));
      0 <= i < |months| && months[i].name == MonthNameOf(cal, a.time) &&
      var days := Insertion.WithDay(months[i].days, cal.dayOf(a.time));
      0 <= j < |days| && days[j].dayNumber == cal.dayOf(a.time)
    ensures Total(AddedAt(t, cal, a, i, j)) == Total(t) + 1
    ensures Insertion.Placed(AddedAt(t, cal, a, i, j), cal, a)
    ensures Distinct(t) ==> AddedAt(t, cal, a, i, j) == Insertion.AddAppointment(t, cal, a)
  {
    var name, dayNumber := MonthNameOf(cal, a.time), cal.dayOf(a.time);
    var months := Insertion.WithMonth(t, name);
    var days := Insertion.WithDay(months[i].days, dayNumber);
    var r := AddedAt(t, cal, a, i, j);
    Insertion.WithMonthTotal(t, name);
    DayStepTotal(months, i, dayNumber);
    AppendStep(months[i := months[i].(days := days)], i, j, a);
    assert r == months[i := months[i].(days := days)][i := months[i].(days := days[j := Insertion.AddToDay(days[j], a)])];
    Insertion.AddToDayMembers(days[j], a, Unselected(a));
    assert r[i].days[j] == Insertion.AddToDay(days[j], a);
    Insertion.AddToDayFacts(days[j], a);
    if Distinct(t) {
      SameAsStore(t, cal, a, i, j);
    }
  }

  /** The day step leaves the number of appointments of the tree unchanged. */
  lemma DayStepTotal(months: Tree, i: int, dayNumber: int)
    requires 0 <= i < |months|
    ensures Total(months[i := months[i].(days := Insertion.WithDay(months[i].days, dayNumber))]) == Total(months)
  {
    var m := months[i].(days := Insertion.WithDay(months[i].days, dayNumber));
    Insertion.WithDayTotal(months[i].days, dayNumber);
    assert MonthTotal(m) == MonthTotal(months[i]);
    SumByUpdate(months, i, m, MonthTotal);
  }

  /** Appending at one position adds exactly one appointment to the tree. */
  lemma AppendStep(t: Tree, i: int, j: int, a: Appointment)
    requires 0 <= i < |t| && 0 <= j < |t[i].days|
    ensures var d := Insertion.AddToDay(t[i].days[j], a);
      Total(t[i := t[i].(days := t[i].days[j := d])]) == Total(t) + 1
  {
    var d := Insertion.AddToDay(t[i].days[j], a);
    var m := t[i].(days := t[i].days[j := d]);
    Insertion.AddToDayFacts(t[i].days[j], a);
    SumByUpdate(t[i].days, j, d, DayTotal);
    SumByUpdate(t, i, m, MonthTotal);
  }

  /**
   * On unique month names and day numbers, updating the first month with the
   * target name at the first day with the target number is the store's result.
   */
  lemma SameAsStore(t: Tree, cal: Calendar, a: Appointment, i: int, j: int)
    requires Distinct(t)
    requires var months := Insertion.WithMonth(t, MonthNameOf(cal, a.time));
      0 <= i < |months| && months[i].name == MonthNameOf(cal, a.time) &&
      var days := Insertion.WithDay(months[i].days, cal.dayOf(a.time));
      0 <= j < |days| && days[j].dayNumber == cal.dayOf(a.time)
    ensures var months := Insertion.WithMonth(t, MonthNameOf(cal, a.time));
      var days := Insertion.WithDay(months[i].days, cal.dayOf(a.time));
      Insertion.AddAppointment(t, cal, a) ==
        months[i := months[i].(days := days[j := Insertion.AddToDay(days[j], a)])]
  {
    var name, dayNumber := MonthNameOf(cal, a.time), cal.dayOf(a.time);
    var months := Insertion.WithMonth(t, name);
    Insertion.WithMonthInvariants(t, name);
    Insertion.WithMonthOrigin(t, name, i);
    assert DistinctBy(months[i].days, DayKey);
    Insertion.WithDayInvariants(months[i].days, dayNumber);
    Insertion.AddAppointmentAsUpdate(t, cal, a, i);
    Insertion.AddToMonthAsUpdate(months[i], dayNumber, a, j);
  }
}
