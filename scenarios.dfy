/**
 * The expected outcomes of the store's and the service's unit tests
 * (`appointment.store.spec.ts`, `appointment.service.spec.ts`), stated on
 * their fixture: one month, Gennaio, with day 2 holding appointment 1 at
 * 10:00 and day 12 holding the confirmed appointment 2 at 12:00.
 */
module Scenarios {
  import opened Sequences
  import opened Appointments
  import opened Selection
  import opened Persistence
  import Insertion
  import MonthView
  import Service
  import Store

  /**
   * The test fixture, given as the tree itself; `FixtureByAdding` shows
   * that adding its two appointments to a cleared store builds this tree.
   */
  function Fixture(): Tree {
    [Month("Gennaio", [
      Day(2, [Appointment(1, "Test Appointment 1", NewDate(2025, 0, 2, 10, 0), false, false, false)]),
      Day(12, [Appointment(2, "Test Appointment 2", NewDate(2025, 0, 12, 12, 0), true, false, false)])])]
  }

  /**
   * The tests build their fixture by clearing the store and adding its two
   * appointments one by one; doing so yields exactly the fixture tree.
   */
  lemma FixtureByAdding()
    ensures var f := Fixture();
      var a1, a2 := f[0].days[0].appointments[0], f[0].days[1].appointments[0];
      Insertion.AddAppointment(Insertion.AddAppointment([], EncodedCalendar, a1), EncodedCalendar, a2) == f
  {
    var f := Fixture();
    var a1, a2 := f[0].days[0].appointments[0], f[0].days[1].appointments[0];
    assert MonthNameOf(EncodedCalendar, a1.time) == "Gennaio" && EncodedCalendar.dayOf(a1.time) == 2;
    IntoEmptyTree(EncodedCalendar, a1);
    assert Unselected(a1) == a1;
    var first := Month("Gennaio", [Day(2, [a1])]);
    assert MonthNameOf(EncodedCalendar, a2.time) == "Gennaio" && EncodedCalendar.dayOf(a2.time) == 12;
    IntoOnlyMonth(first, EncodedCalendar, a2);
    AppendLaterDay("Gennaio", Day(2, [a1]), 12, a2);
    assert Unselected(a2) == a2;
  }

  /** Adding to an empty tree creates the date's month holding the date's day holding just the appointment. */
  lemma IntoEmptyTree(cal: Calendar, a: Appointment)
    ensures Insertion.AddAppointment([], cal, a) ==
      [Month(MonthNameOf(cal, a.time), [Day(cal.dayOf(a.time), [Unselected(a)])])]
  {
    Insertion.AddAppointmentNewMonth([], cal, a);
    var r := Insertion.AddAppointment([], cal, a);
    assert |r| == 1 && r[0] in r;
  }

  /** Adding to a one-month tree whose month is the date's month updates that month. */
  lemma IntoOnlyMonth(m: Month, cal: Calendar, a: Appointment)
    requires m.name == MonthNameOf(cal, a.time)
    ensures Insertion.AddAppointment([m], cal, a) == [Insertion.AddToMonth(m, cal.dayOf(a.time), a)]
  {
    assert Insertion.HasMonth([m], m.name) by { assert [m][0].name == m.name; }
    Insertion.AddAppointmentShape([m], cal, a);
  }

  /** Adding to a one-day month an appointment for a later day appends a day holding just it. */
  lemma AppendLaterDay(name: string, d: Day, dayNumber: int, a: Appointment)
    requires d.dayNumber < dayNumber
    ensures Insertion.AddToMonth(Month(name, [d]), dayNumber, a) == Month(name, [d, Day(dayNumber, [Unselected(a)])])
  {
    var days := [d] + [Day(dayNumber, [])];
    assert !Insertion.HasDay([d], dayNumber);
    assert SortedBy(days, DayKey);
    SortByIdentity(days, DayKey);
    assert Insertion.WithDay([d], dayNumber) == days;
    Insertion.AddToMonthShape(Month(name, [d]), dayNumber, a);
    SortByIdentity([Unselected(a)], TimeKey);
    assert [] + [Unselected(a)] == [Unselected(a)];
  }

  function Flag(b: bool): nat { if b then 1 else 0 }

  /** A one-month tree with two one-appointment days counts its two flags. */
  lemma TwoAppointmentCount(t: Tree)
    requires |t| == 1 && |t[0].days| == 2
    requires |t[0].days[0].appointments| == 1 && |t[0].days[1].appointments| == 1
    ensures SelectedAppointmentsCount(t) ==
      Flag(t[0].days[0].appointments[0].selected) + Flag(t[0].days[1].appointments[0].selected)
  {
    var d0, d1 := t[0].days[0], t[0].days[1];
    assert DaySelected(d0) == Flag(d0.appointments[0].selected) by { assert d0.appointments[1..] == []; }
    assert DaySelected(d1) == Flag(d1.appointments[0].selected) by { assert d1.appointments[1..] == []; }
    assert t[0].days == [d0, d1];
    SumByPair(d0, d1, DaySelected);
    assert SelectedAppointmentsCount(t) == MonthSelected(t[0]) + SumBy(t[1..], MonthSelected);
    assert t[1..] == [];
  }

  /**
   * "should correctly calculate selectedAppointmentsCount": selecting
   * appointment 1, then day 12, then deselecting appointment 1 gives the
   * counts 0, 1, 2, 1.
   */
  lemma CountSequence()
    ensures var t0 := Fixture();
      var t1 := SelectAppointment(t0, "Gennaio", 2, 1, true);
      var t2 := SelectDay(t1, "Gennaio", 12, true);
      var t3 := SelectAppointment(t2, "Gennaio", 2, 1, false);
      [SelectedAppointmentsCount(t0), SelectedAppointmentsCount(t1),
       SelectedAppointmentsCount(t2), SelectedAppointmentsCount(t3)] == [0, 1, 2, 1]
  {
    var t0 := Fixture();
    var t1 := SelectAppointment(t0, "Gennaio", 2, 1, true);
    var t2 := SelectDay(t1, "Gennaio", 12, true);
    var t3 := SelectAppointment(t2, "Gennaio", 2, 1, false);
    assert ValidPos(t0, 0, 0, 0) && ValidPos(t0, 0, 1, 0);
    assert SelectedAppointmentsCount(t0) == 0 by { TwoAppointmentCount(t0); }
    assert SelectedAppointmentsCount(t1) == 1 by { TwoAppointmentCount(t1); }
    assert SelectedAppointmentsCount(t2) == 2 by { TwoAppointmentCount(t2); }
    assert SelectedAppointmentsCount(t3) == 1 by { TwoAppointmentCount(t3); }
  }

  /**
   * "should add a new appointment to an existing day": a 14:00 appointment
   * on 2 January lands in day 2 after the 10:00 one, unselected.
   */
  lemma AddToExistingDay(a: Appointment)
    requires a.time == NewDate(2025, 0, 2, 14, 0)
    ensures var r := Insertion.AddAppointment(Fixture(), EncodedCalendar, a);
      |r| == 1 && r[0].name == "Gennaio" && |r[0].days| == 2 && r[0].days[0].dayNumber == 2 &&
      r[0].days[0].appointments == [Fixture()[0].days[0].appointments[0], Unselected(a)]
  {
    var t := Fixture();
    var name := MonthNameOf(EncodedCalendar, a.time);
    assert name == "Gennaio" && EncodedCalendar.dayOf(a.time) == 2;
    assert Insertion.HasMonth(t, name) by { assert t[0].name == name; }
    Insertion.AddAppointmentShape(t, EncodedCalendar, a);
    assert Insertion.HasDay(t[0].days, 2);
    Insertion.AddToMonthShape(t[0], 2, a);
    LaterIntoSingleDay(t[0].days[0], a);
  }

  /** Adding to a one-appointment day an appointment later than it puts the new one second. */
  lemma LaterIntoSingleDay(d: Day, a: Appointment)
    requires |d.appointments| == 1 && d.appointments[0].time < a.time
    ensures Insertion.AddToDay(d, a).appointments == [d.appointments[0], Unselected(a)]
  {
    Insertion.AddToDayFacts(d, a);
    assert d.appointments[1..] == [];
    assert InsertBy(Unselected(a), d.appointments[1..], TimeKey) == [Unselected(a)];
  }

  /**
   * "should add a new appointment to a new month and day": an appointment on
   * 15 February creates Febbraio, whose day 15 holds just that appointment,
   * beside the untouched Gennaio.
   */
  lemma AddToNewMonth(a: Appointment)
    requires a.time == NewDate(2025, 1, 15, 10, 0)
    ensures var r := Insertion.AddAppointment(Fixture(), EncodedCalendar, a);
      MonthView.CurrentMonth(r, "Febbraio") == Some(Month("Febbraio", [Day(15, [Unselected(a)])])) &&
      |r| == 2 && Fixture()[0] in r
  {
    var t := Fixture();
    var r := Insertion.AddAppointment(t, EncodedCalendar, a);
    var name := MonthNameOf(EncodedCalendar, a.time);
    assert name == "Febbraio";
    assert !Insertion.HasMonth(t, name) by {
      assert |"Gennaio"| != |"Febbraio"|;
    }
    Insertion.AddAppointmentNewMonth(t, EncodedCalendar, a);
    Insertion.AddAppointmentKeepsOtherMonths(t, EncodedCalendar, a);
    assert t[0] in t && t[0].name != name;
    var created := Month("Febbraio", [Day(15, [Unselected(a)])]);
    assert created in r;
    var i :| 0 <= i < |r| && r[i] == created;
    var c := MonthView.CurrentMonth(r, name);
    assert c.Some?;
    var i0 :| MonthView.FirstWithName(r, name, i0) && r[i0] == c.value;
    assert r[i0] in r;
  }

  /**
   * "should cancel selected appointments": selecting appointment 1 and
   * cancelling leaves it cancelled, not confirmed and not selected.
   */
  lemma CancelSelected()
    ensures var r := ChangeSelectedStatus(SelectAppointment(Fixture(), "Gennaio", 2, 1, true), Cancel);
      ValidPos(r, 0, 0, 0) &&
      AppAt(r, 0, 0, 0).cancelled && !AppAt(r, 0, 0, 0).confirmed && !AppAt(r, 0, 0, 0).selected &&
      AppAt(r, 0, 1, 0) == AppAt(Fixture(), 0, 1, 0)
  {
    var t := Fixture();
    assert ValidPos(t, 0, 0, 0) && ValidPos(t, 0, 1, 0);
  }

  /**
   * "should save to and load from localStorage" with the service: after
   * adding, a new service loading the saved slot finds the appointment,
   * with its selection dropped, under its own month and day.
   */
  method SaveAndReload(cal: Calendar, a: Appointment) returns (reloaded: Tree)
    ensures Insertion.Placed(reloaded, cal, a)
  {
    var service := new Service.AppointmentService(Some(Fixture()));
    service.AddAppointment(cal, a);
    var restored := new Service.AppointmentService(service.saved);
    reloaded := restored.list;
    PlacedSurvivesReload(service.list, cal, a);
  }

  /**
   * The same test with the store: after loading and adding, a second store
   * loading the saved slot finds the appointment under its own month and day.
   */
  method StoreSaveAndReload(cal: Calendar, a: Appointment) returns (reloaded: Tree)
    ensures Insertion.Placed(reloaded, cal, a)
  {
    var store := new Store.AppointmentStore(Some(Fixture()));
    store.LoadAppointments();
    var before := store.mainList;
    store.AddAppointment(cal, a);
    Insertion.AddAppointmentPlaces(before, cal, a);
    var second := new Store.AppointmentStore(store.saved);
    second.LoadAppointments();
    reloaded := second.mainList;
    PlacedSurvivesReload(store.mainList, cal, a);
  }

  /**
   * `clearAllData`, which the store tests call before each case, followed
   * by a reload: a store loading the cleared slot installs the seed as
   * written, whose appointment 9 is not under the month of its own date.
   */
  method ClearThenReload() returns (reloaded: Tree)
    ensures reloaded == SeedAsWritten() && Total(reloaded) == 9
    ensures !Filed(reloaded, EncodedCalendar)
  {
    var store := new Store.AppointmentStore(Some(Fixture()));
    store.LoadAppointments();
    store.ClearAllData();
    var second := new Store.AppointmentStore(store.saved);
    second.LoadAppointments();
    reloaded := second.mainList;
    RestoreEmptySlot();
  }

  /** Clearing selections keeps an unselected appointment where it was. */
  lemma PlacedSurvivesReload(t: Tree, cal: Calendar, a: Appointment)
    requires Insertion.Placed(t, cal, a)
    ensures Insertion.Placed(ClearSelection(t), cal, a)
  {
    var c := ClearSelection(t);
    var i, j :| 0 <= i < |t| && 0 <= j < |t[i].days| &&
      t[i].name == MonthNameOf(cal, a.time) && t[i].days[j].dayNumber == cal.dayOf(a.time) &&
      Unselected(a) in t[i].days[j].appointments;
    var k :| 0 <= k < |t[i].days[j].appointments| && t[i].days[j].appointments[k] == Unselected(a);
    assert ValidPos(t, i, j, k);
    assert Unselected(AppAt(c, i, j, k)) == Unselected(a);
    assert AppAt(c, i, j, k) == Unselected(a);
    assert c[i].days[j].appointments[k] in c[i].days[j].appointments;
  }
}
