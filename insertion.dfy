/**
 * The grouping and insertion algorithm of the store's `addAppointment`:
 * find or create the month of the appointment's date (re-sorting the months
 * by calendar position when one is created), find or create its day
 * (re-sorting the days by number when one is created), append a copy of the
 * appointment with `selected` cleared and re-sort the day by time.
 *
 * The store rebuilds the tree with `map`, so every month carrying the target
 * name, and in it every day carrying the target number, receives the
 * appointment. On a tree with distinct month names and day numbers that is
 * exactly one day; `AddAppointmentAsUpdate` states it.
 */
module Insertion {
  import opened Sequences
  import opened Appointments

  /** `mainList.some(m => m.mese === name)`. */
  predicate HasMonth(t: Tree, name: string) {
    exists i :: 0 <= i < |t| && t[i].name == name
  }

  /** `giorni.some(d => d.giorno === dayNumber)`. */
  predicate HasDay(days: seq<Day>, dayNumber: int) {
    exists j :: 0 <= j < |days| && days[j].dayNumber == dayNumber
  }

  /** The unselected copy of `a` sits in a month named for its date, in a day numbered for its date. */
  ghost predicate Placed(t: Tree, cal: Calendar, a: Appointment) {
    exists i, j :: 0 <= i < |t| && 0 <= j < |t[i].days| &&
      t[i].name == MonthNameOf(cal, a.time) && t[i].days[j].dayNumber == cal.dayOf(a.time) &&
      Unselected(a) in t[i].days[j].appointments
  }

  /**
   * The month list after the find-or-create step for `name`: a month with
   * that name is present, and the list grew by one exactly when none was.
   */
  function WithMonth(t: Tree, name: string): (r: Tree)
    ensures HasMonth(r, name)
    ensures |r| == |t| + if HasMonth(t, name) then 0 else 1
  {
    if HasMonth(t, name) then t
    else
      var r := SortBy(t + [Month(name, [])], MonthKey);
      assert Month(name, []) in multiset(r);
      r
  }

  /**
   * The day list after the find-or-create step for `dayNumber`: a day with
   * that number is present, and the list grew by one exactly when none was.
   */
  function WithDay(days: seq<Day>, dayNumber: int): (r: seq<Day>)
    ensures HasDay(r, dayNumber)
    ensures |r| == |days| + if HasDay(days, dayNumber) then 0 else 1
  {
    if HasDay(days, dayNumber) then days
    else
      var r := SortBy(days + [Day(dayNumber, [])], DayKey);
      assert Day(dayNumber, []) in multiset(r);
      r
  }

  /**
   * Appends the unselected copy of `a` to the day and re-sorts the day by
   * time: the day keeps its number and gains exactly that appointment.
   */
  function AddToDay(d: Day, a: Appointment): (r: Day)
    ensures r.dayNumber == d.dayNumber
    ensures multiset(r.appointments) == multiset(d.appointments) + multiset{Unselected(a)}
  {
    d.(appointments := SortBy(d.appointments + [Unselected(a)], TimeKey))
  }

  /**
   * The month after the day step and the `map` over its days: it keeps its
   * name and gains a day exactly when it had none with the number
   * (`AddToMonthPlaces` shows where the appointment lands).
   */
  function AddToMonth(m: Month, dayNumber: int, a: Appointment): (r: Month)
    ensures r.name == m.name
    ensures |r.days| == |m.days| + if HasDay(m.days, dayNumber) then 0 else 1
  {
    var days := WithDay(m.days, dayNumber);
    var newDays := seq(|days|, j requires 0 <= j < |days| =>
      if days[j].dayNumber != dayNumber then days[j] else AddToDay(days[j], a));
    assert forall j :: 0 <= j < |days| ==> newDays[j].dayNumber == days[j].dayNumber;
    m.(days := newDays)
  }

  /**
   * The store's `addAppointment`, with `cal` giving the month and day of the
   * appointment's time: a month was added exactly when none had the name of
   * the date's month (`AddAppointmentPlaces` shows where the appointment lands).
   */
  function AddAppointment(t: Tree, cal: Calendar, a: Appointment): (r: Tree)
    ensures |r| == |t| + if HasMonth(t, MonthNameOf(cal, a.time)) then 0 else 1
  {
    var name := MonthNameOf(cal, a.time);
    var dayNumber := cal.dayOf(a.time);
    var months := WithMonth(t, name);
    var r := seq(|months|, i requires 0 <= i < |months| =>
      if months[i].name != name then months[i] else AddToMonth(months[i], dayNumber, a));
    assert forall i :: 0 <= i < |months| ==> r[i].name == months[i].name;
    r
  }

  // ---------------------------------------------------------------------------
  // The find-or-create steps
  // ---------------------------------------------------------------------------

  /** The month step: the month exists afterwards and is the only new one. */
  lemma WithMonthMembers(t: Tree, name: string)
    ensures HasMonth(WithMonth(t, name), name)
    ensures |WithMonth(t, name)| == |t| + (if HasMonth(t, name) then 0 else 1)
    ensures forall m :: m in WithMonth(t, name) <==> m in t || (!HasMonth(t, name) && m == Month(name, []))
  {
    if !HasMonth(t, name) {
      var x := Month(name, []);
      var r := SortBy(t + [x], MonthKey);
      forall m ensures m in r <==> m in t || m == x {
        assert m in r <==> m in multiset(r);
        assert m in t + [x] <==> m in multiset(t + [x]);
      }
      assert x in r;
      var i :| 0 <= i < |r| && r[i] == x;
    }
  }

  /** The month step keeps the months in calendar order and their names distinct. */
  lemma WithMonthInvariants(t: Tree, name: string)
    ensures SortedBy(t, MonthKey) ==> SortedBy(WithMonth(t, name), MonthKey)
    ensures DistinctBy(t, MonthName) ==> DistinctBy(WithMonth(t, name), MonthName)
  {
    if !HasMonth(t, name) {
      var x := Month(name, []);
      SortBySorted(t + [x], MonthKey);
      if DistinctBy(t, MonthName) {
        DistinctBySnoc(t, x, MonthName);
        SortByDistinct(t + [x], MonthKey, MonthName);
      }
    }
  }

  /** The month step adds no appointment. */
  lemma WithMonthTotal(t: Tree, name: string)
    ensures Total(WithMonth(t, name)) == Total(t)
  {
    if !HasMonth(t, name) {
      var x := Month(name, []);
      SumBySortBy(t + [x], MonthKey, MonthTotal);
      SumByConcat(t, [x], MonthTotal);
    }
  }

  /** The day step: the day exists afterwards and is the only new one. */
  lemma WithDayMembers(days: seq<Day>, dayNumber: int)
    ensures HasDay(WithDay(days, dayNumber), dayNumber)
    ensures |WithDay(days, dayNumber)| == |days| + (if HasDay(days, dayNumber) then 0 else 1)
    ensures forall d :: d in WithDay(days, dayNumber) <==>
      d in days || (!HasDay(days, dayNumber) && d == Day(dayNumber, []))
  {
    if !HasDay(days, dayNumber) {
      var x := Day(dayNumber, []);
      var r := SortBy(days + [x], DayKey);
      forall d ensures d in r <==> d in days || d == x {
        assert d in r <==> d in multiset(r);
        assert d in days + [x] <==> d in multiset(days + [x]);
      }
      assert x in r;
      var j :| 0 <= j < |r| && r[j] == x;
    }
  }

  /** The day step keeps the days ascending and their numbers distinct. */
  lemma WithDayInvariants(days: seq<Day>, dayNumber: int)
    ensures SortedBy(days, DayKey) ==> SortedBy(WithDay(days, dayNumber), DayKey)
    ensures DistinctBy(days, DayKey) ==> DistinctBy(WithDay(days, dayNumber), DayKey)
  {
    if !HasDay(days, dayNumber) {
      var x := Day(dayNumber, []);
      SortBySorted(days + [x], DayKey);
      if DistinctBy(days, DayKey) {
        DistinctBySnoc(days, x, DayKey);
        SortByDistinct(days + [x], DayKey, DayKey);
      }
    }
  }

  /** The day step adds no appointment. */
  lemma WithDayTotal(days: seq<Day>, dayNumber: int)
    ensures SumBy(WithDay(days, dayNumber), DayTotal) == SumBy(days, DayTotal)
  {
    if !HasDay(days, dayNumber) {
      var x := Day(dayNumber, []);
      SumBySortBy(days + [x], DayKey, DayTotal);
      SumByConcat(days, [x], DayTotal);
    }
  }

  // ---------------------------------------------------------------------------
  // Appending to a day
  // ---------------------------------------------------------------------------

  /**
   * Appending to a day grows it by exactly the unselected copy of `a`, leaves it
   * sorted by time, and puts the copy after every appointment with the same
   * time (the sort is stable). On a sorted day this is an insertion in place.
   */
  lemma AddToDayFacts(d: Day, a: Appointment)
    ensures AddToDay(d, a).dayNumber == d.dayNumber
    ensures |AddToDay(d, a).appointments| == |d.appointments| + 1
    ensures multiset(AddToDay(d, a).appointments) == multiset(d.appointments) + multiset{Unselected(a)}
    ensures SortedBy(AddToDay(d, a).appointments, TimeKey)
    ensures WithKey(AddToDay(d, a).appointments, TimeKey, a.time)
         == WithKey(d.appointments, TimeKey, a.time) + [Unselected(a)]
    ensures SortedBy(d.appointments, TimeKey) ==>
      AddToDay(d, a).appointments == InsertBy(Unselected(a), d.appointments, TimeKey)
  {
    var u := Unselected(a);
    SortBySorted(d.appointments + [u], TimeKey);
    SortByStable(d.appointments + [u], TimeKey, a.time);
    WithKeyConcat(d.appointments, [u], TimeKey, a.time);
    if SortedBy(d.appointments, TimeKey) {
      PushThenSort(d.appointments, u, TimeKey);
    }
  }

  // ---------------------------------------------------------------------------
  // Adding to a month
  // ---------------------------------------------------------------------------

  /** Adding to a month keeps its name and, position by position, the days of the day step. */
  lemma AddToMonthShape(m: Month, dayNumber: int, a: Appointment)
    ensures var days := WithDay(m.days, dayNumber);
      var r := AddToMonth(m, dayNumber, a);
      r.name == m.name && |r.days| == |days| &&
      forall j :: 0 <= j < |days| ==>
        r.days[j].dayNumber == days[j].dayNumber &&
        r.days[j] == if days[j].dayNumber == dayNumber then AddToDay(days[j], a) else days[j]
  {
  }

  /** On distinct day numbers, adding to a month updates the one day with the target number. */
  lemma AddToMonthAsUpdate(m: Month, dayNumber: int, a: Appointment, j: int)
    requires DistinctBy(WithDay(m.days, dayNumber), DayKey)
    requires 0 <= j < |WithDay(m.days, dayNumber)| && WithDay(m.days, dayNumber)[j].dayNumber == dayNumber
    ensures var days := WithDay(m.days, dayNumber);
      AddToMonth(m, dayNumber, a) == m.(days := days[j := AddToDay(days[j], a)])
  {
    var days := WithDay(m.days, dayNumber);
    AddToMonthShape(m, dayNumber, a);
    assert AddToMonth(m, dayNumber, a).days == days[j := AddToDay(days[j], a)];
  }

  /** On distinct day numbers, adding to a month adds exactly one appointment to it. */
  lemma AddToMonthTotal(m: Month, dayNumber: int, a: Appointment)
    requires DistinctBy(m.days, DayKey)
    ensures MonthTotal(AddToMonth(m, dayNumber, a)) == MonthTotal(m) + 1
  {
    var days := WithDay(m.days, dayNumber);
    WithDayMembers(m.days, dayNumber);
    WithDayInvariants(m.days, dayNumber);
    WithDayTotal(m.days, dayNumber);
    var j :| 0 <= j < |days| && days[j].dayNumber == dayNumber;
    AddToMonthAsUpdate(m, dayNumber, a, j);
    AddToDayFacts(days[j], a);
    SumByUpdate(days, j, AddToDay(days[j], a), DayTotal);
  }

  /** Adding to a month leaves every day with another number as it was, and adds no other day. */
  lemma AddToMonthKeepsOtherDays(m: Month, dayNumber: int, a: Appointment)
    ensures forall x: Day :: x.dayNumber != dayNumber ==> (x in AddToMonth(m, dayNumber, a).days <==> x in m.days)
    ensures |AddToMonth(m, dayNumber, a).days| == |m.days| + (if HasDay(m.days, dayNumber) then 0 else 1)
  {
    var days := WithDay(m.days, dayNumber);
    var r := AddToMonth(m, dayNumber, a);
    AddToMonthShape(m, dayNumber, a);
    WithDayMembers(m.days, dayNumber);
    forall x: Day | x.dayNumber != dayNumber ensures x in r.days <==> x in m.days {
      if x in r.days {
        var j :| 0 <= j < |r.days| && r.days[j] == x;
        assert days[j] == x;
      }
      if x in m.days {
        assert x in days;
        var j :| 0 <= j < |days| && days[j] == x;
        assert r.days[j] == x;
      }
    }
  }

  /** A day created by the day step holds exactly the new appointment. */
  lemma AddToMonthNewDay(m: Month, dayNumber: int, a: Appointment)
    requires !HasDay(m.days, dayNumber)
    ensures Day(dayNumber, [Unselected(a)]) in AddToMonth(m, dayNumber, a).days
    ensures forall x :: x in AddToMonth(m, dayNumber, a).days && x.dayNumber == dayNumber ==>
      x == Day(dayNumber, [Unselected(a)])
  {
    var days := WithDay(m.days, dayNumber);
    var r := AddToMonth(m, dayNumber, a);
    AddToMonthShape(m, dayNumber, a);
    WithDayMembers(m.days, dayNumber);
    var u := Unselected(a);
    assert SortBy([u], TimeKey) == [u] by {
      assert [u][..0] == [];
    }
    assert AddToDay(Day(dayNumber, []), a) == Day(dayNumber, [u]) by {
      assert [] + [u] == [u];
    }
    forall x | x in r.days && x.dayNumber == dayNumber ensures x == Day(dayNumber, [u]) {
      var j :| 0 <= j < |r.days| && r.days[j] == x;
      assert days[j] in days;
      assert days[j] !in m.days;
    }
    var j :| 0 <= j < |days| && days[j].dayNumber == dayNumber;
    assert r.days[j] == Day(dayNumber, [u]) by {
      assert days[j] !in m.days;
    }
  }

  // ---------------------------------------------------------------------------
  // Adding to the tree
  // ---------------------------------------------------------------------------

  /** Adding keeps, position by position, the months of the month step and their names. */
  lemma AddAppointmentShape(t: Tree, cal: Calendar, a: Appointment)
    ensures var name := MonthNameOf(cal, a.time);
      var months := WithMonth(t, name);
      var r := AddAppointment(t, cal, a);
      |r| == |months| &&
      forall i :: 0 <= i < |months| ==>
        r[i].name == months[i].name &&
        r[i] == if months[i].name == name then AddToMonth(months[i], cal.dayOf(a.time), a) else months[i]
  {
  }

  /** Each month of the month step is a month of the tree or the new empty one. */
  lemma WithMonthOrigin(t: Tree, name: string, i: int)
    requires 0 <= i < |WithMonth(t, name)|
    ensures WithMonth(t, name)[i] == Month(name, []) || exists i' :: 0 <= i' < |t| && t[i'] == WithMonth(t, name)[i]
  {
    WithMonthMembers(t, name);
    assert WithMonth(t, name)[i] in WithMonth(t, name);
  }

  /** On distinct month names, adding updates the one month with the target name. */
  lemma AddAppointmentAsUpdate(t: Tree, cal: Calendar, a: Appointment, i: int)
    requires DistinctBy(WithMonth(t, MonthNameOf(cal, a.time)), MonthName)
    requires 0 <= i < |WithMonth(t, MonthNameOf(cal, a.time))|
    requires WithMonth(t, MonthNameOf(cal, a.time))[i].name == MonthNameOf(cal, a.time)
    ensures var months := WithMonth(t, MonthNameOf(cal, a.time));
      AddAppointment(t, cal, a) == months[i := AddToMonth(months[i], cal.dayOf(a.time), a)]
  {
    AddAppointmentShape(t, cal, a);
  }

  /** Adding to a month leaves the unselected copy in a day with the target number. */
  lemma AddToMonthPlaces(m: Month, dayNumber: int, a: Appointment)
    ensures var r := AddToMonth(m, dayNumber, a);
      exists j :: 0 <= j < |r.days| && r.days[j].dayNumber == dayNumber &&
        Unselected(a) in r.days[j].appointments
  {
    var days := WithDay(m.days, dayNumber);
    var r := AddToMonth(m, dayNumber, a);
    WithDayMembers(m.days, dayNumber);
    AddToMonthShape(m, dayNumber, a);
    var j :| 0 <= j < |days| && days[j].dayNumber == dayNumber;
    AddToDayFacts(days[j], a);
    assert r.days[j] == AddToDay(days[j], a);
    assert Unselected(a) in multiset(r.days[j].appointments);
  }

  /**
   * After adding, the unselected copy of the appointment sits in a month named
   * for its date, in a day numbered for its date.
   */
  lemma AddAppointmentPlaces(t: Tree, cal: Calendar, a: Appointment)
    ensures Placed(AddAppointment(t, cal, a), cal, a)
  {
    var name := MonthNameOf(cal, a.time);
    var months := WithMonth(t, name);
    var r := AddAppointment(t, cal, a);
    WithMonthMembers(t, name);
    AddAppointmentShape(t, cal, a);
    var i :| 0 <= i < |months| && months[i].name == name;
    assert r[i] == AddToMonth(months[i], cal.dayOf(a.time), a);
    AddToMonthPlaces(months[i], cal.dayOf(a.time), a);
  }

  /**
   * A month is created only when none carries the target name; every month with
   * another name is kept as it was, and no other month appears.
   */
  lemma AddAppointmentKeepsOtherMonths(t: Tree, cal: Calendar, a: Appointment)
    ensures |AddAppointment(t, cal, a)| == |t| + (if HasMonth(t, MonthNameOf(cal, a.time)) then 0 else 1)
    ensures forall m: Month :: m.name != MonthNameOf(cal, a.time) ==> (m in AddAppointment(t, cal, a) <==> m in t)
  {
    var name := MonthNameOf(cal, a.time);
    var months := WithMonth(t, name);
    var r := AddAppointment(t, cal, a);
    forall m: Month | m.name != name ensures m in r <==> m in t {
      KeptMonth(t, cal, a, m);
    }
  }

  /** A month whose name is not the target one is in the result exactly when it was in the tree. */
  lemma KeptMonth(t: Tree, cal: Calendar, a: Appointment, m: Month)
    requires m.name != MonthNameOf(cal, a.time)
    ensures m in AddAppointment(t, cal, a) <==> m in t
  {
    var name := MonthNameOf(cal, a.time);
    AddAppointmentShape(t, cal, a);
    KeptUnderUpdate(AddAppointment(t, cal, a), WithMonth(t, name), name, m);
    WithMonthMembers(t, name);
  }

  /** A list that differs from `months` only at months named `name` holds the same months of any other name. */
  lemma KeptUnderUpdate(r: Tree, months: Tree, name: string, m: Month)
    requires |r| == |months| && m.name != name
    requires forall i :: 0 <= i < |months| ==> r[i].name == months[i].name && (months[i].name != name ==> r[i] == months[i])
    ensures m in r <==> m in months
  {
    if m in r {
      var i :| 0 <= i < |r| && r[i] == m;
      assert months[i] == m;
    }
    if m in months {
      var i :| 0 <= i < |months| && months[i] == m;
      assert r[i] == m;
    }
  }

  /** Adding to a month without days gives it one day holding just the new appointment. */
  lemma AddToEmptyMonth(name: string, dayNumber: int, a: Appointment)
    ensures AddToMonth(Month(name, []), dayNumber, a) == Month(name, [Day(dayNumber, [Unselected(a)])])
  {
    var empty := Month(name, []);
    assert !HasDay([], dayNumber);
    AddToMonthNewDay(empty, dayNumber, a);
    AddToMonthKeepsOtherDays(empty, dayNumber, a);
    var ds := AddToMonth(empty, dayNumber, a).days;
    assert |ds| == 1 && ds[0] in ds;
    assert ds == [Day(dayNumber, [Unselected(a)])];
  }

  /** A month created by the month step holds exactly one day holding exactly the new appointment. */
  lemma AddAppointmentNewMonth(t: Tree, cal: Calendar, a: Appointment)
    requires !HasMonth(t, MonthNameOf(cal, a.time))
    ensures var created := Month(MonthNameOf(cal, a.time), [Day(cal.dayOf(a.time), [Unselected(a)])]);
      created in AddAppointment(t, cal, a) &&
      forall m :: m in AddAppointment(t, cal, a) && m.name == MonthNameOf(cal, a.time) ==> m == created
  {
    var name, dayNumber := MonthNameOf(cal, a.time), cal.dayOf(a.time);
    var months := WithMonth(t, name);
    var r := AddAppointment(t, cal, a);
    var u := Unselected(a);
    var created := Month(name, [Day(dayNumber, [u])]);
    var empty := Month(name, []);
    AddAppointmentShape(t, cal, a);
    AddToEmptyMonth(name, dayNumber, a);
    forall m | m in r && m.name == name ensures m == created {
      var i :| 0 <= i < |r| && r[i] == m;
      CreatedMonth(t, name, i);
    }
    assert empty in months by { WithMonthMembers(t, name); }
    var i :| 0 <= i < |months| && months[i] == empty;
    assert r[i] == created;
  }

  /** When no month had the name, the only month with it after the find-or-create step is the new empty one. */
  lemma CreatedMonth(t: Tree, name: string, i: int)
    requires !HasMonth(t, name)
    requires 0 <= i < |WithMonth(t, name)| && WithMonth(t, name)[i].name == name
    ensures WithMonth(t, name)[i] == Month(name, [])
  {
    WithMonthMembers(t, name);
    assert WithMonth(t, name)[i] in WithMonth(t, name);
  }

  /** On a tree with distinct names and numbers, adding adds exactly one appointment. */
  lemma AddAppointmentTotal(t: Tree, cal: Calendar, a: Appointment)
    requires Distinct(t)
    ensures Total(AddAppointment(t, cal, a)) == Total(t) + 1
  {
    var name, dayNumber := MonthNameOf(cal, a.time), cal.dayOf(a.time);
    var months := WithMonth(t, name);
    WithMonthMembers(t, name);
    WithMonthInvariants(t, name);
    WithMonthTotal(t, name);
    var i :| 0 <= i < |months| && months[i].name == name;
    AddAppointmentAsUpdate(t, cal, a, i);
    WithMonthOrigin(t, name, i);
    AddToMonthTotal(months[i], dayNumber, a);
    SumByUpdate(months, i, AddToMonth(months[i], dayNumber, a), MonthTotal);
  }

  /** Adding keeps month names distinct in the tree and day numbers distinct in each month. */
  lemma AddAppointmentKeepsDistinct(t: Tree, cal: Calendar, a: Appointment)
    requires Distinct(t)
    ensures Distinct(AddAppointment(t, cal, a))
  {
    var name, dayNumber := MonthNameOf(cal, a.time), cal.dayOf(a.time);
    var months := WithMonth(t, name);
    var r := AddAppointment(t, cal, a);
    WithMonthInvariants(t, name);
    AddAppointmentShape(t, cal, a);
    DistinctBySameKeys(r, months, MonthName);
    forall i | 0 <= i < |r| ensures DistinctBy(r[i].days, DayKey) {
      MonthKeepsDistinctDays(t, cal, a, i);
    }
  }

  /** Each month of the result has distinct day numbers when every month of the tree had. */
  lemma MonthKeepsDistinctDays(t: Tree, cal: Calendar, a: Appointment, i: int)
    requires Distinct(t)
    requires 0 <= i < |AddAppointment(t, cal, a)|
    ensures DistinctBy(AddAppointment(t, cal, a)[i].days, DayKey)
  {
    var name := MonthNameOf(cal, a.time);
    var months := WithMonth(t, name);
    AddAppointmentShape(t, cal, a);
    assert DistinctBy(months[i].days, DayKey) by {
      WithMonthOrigin(t, name, i);
    }
    AddToMonthKeepsDistinct(months[i], cal.dayOf(a.time), a);
  }

  /** Adding to a month whose day numbers are distinct keeps them distinct. */
  lemma AddToMonthKeepsDistinct(m: Month, dayNumber: int, a: Appointment)
    requires DistinctBy(m.days, DayKey)
    ensures DistinctBy(AddToMonth(m, dayNumber, a).days, DayKey)
  {
    WithDayInvariants(m.days, dayNumber);
    AddToMonthShape(m, dayNumber, a);
    DistinctBySameKeys(AddToMonth(m, dayNumber, a).days, WithDay(m.days, dayNumber), DayKey);
  }

  /**
   * Adding keeps months in calendar order, days ascending and appointments
   * ascending by time.
   */
  lemma AddAppointmentKeepsOrder(t: Tree, cal: Calendar, a: Appointment)
    requires Ordered(t)
    ensures Ordered(AddAppointment(t, cal, a))
  {
    var name, dayNumber := MonthNameOf(cal, a.time), cal.dayOf(a.time);
    var months := WithMonth(t, name);
    var r := AddAppointment(t, cal, a);
    WithMonthInvariants(t, name);
    AddAppointmentShape(t, cal, a);
    SortedBySameKeys(r, months, MonthKey);
    forall i | 0 <= i < |r|
      ensures SortedBy(r[i].days, DayKey)
      ensures forall j :: 0 <= j < |r[i].days| ==> SortedBy(r[i].days[j].appointments, TimeKey)
    {
      WithMonthOrigin(t, name, i);
      assert SortedBy(months[i].days, DayKey);
      assert forall j :: 0 <= j < |months[i].days| ==> SortedBy(months[i].days[j].appointments, TimeKey);
      if months[i].name == name {
        MonthKeepsOrder(months[i], dayNumber, a);
      }
    }
  }

  lemma MonthKeepsOrder(m: Month, dayNumber: int, a: Appointment)
    requires SortedBy(m.days, DayKey)
    requires forall j :: 0 <= j < |m.days| ==> SortedBy(m.days[j].appointments, TimeKey)
    ensures SortedBy(AddToMonth(m, dayNumber, a).days, DayKey)
    ensures forall j :: 0 <= j < |AddToMonth(m, dayNumber, a).days| ==>
      SortedBy(AddToMonth(m, dayNumber, a).days[j].appointments, TimeKey)
  {
    var days := WithDay(m.days, dayNumber);
    var r := AddToMonth(m, dayNumber, a);
    WithDayInvariants(m.days, dayNumber);
    WithDayMembers(m.days, dayNumber);
    AddToMonthShape(m, dayNumber, a);
    SortedBySameKeys(r.days, days, DayKey);
    forall j | 0 <= j < |r.days| ensures SortedBy(r.days[j].appointments, TimeKey) {
      if days[j].dayNumber == dayNumber {
        AddToDayFacts(days[j], a);
      } else {
        assert days[j] in m.days;
        var j' :| 0 <= j' < |m.days| && m.days[j'] == days[j];
      }
    }
  }

  /** The appointments of a day after appending are the old ones and the unselected copy. */
  lemma AddToDayMembers(d: Day, a: Appointment, x: Appointment)
    ensures x in AddToDay(d, a).appointments <==> x in d.appointments || x == Unselected(a)
  {
    AddToDayFacts(d, a);
    assert x in AddToDay(d, a).appointments <==> x in multiset(AddToDay(d, a).appointments);
  }

  /** One day of the month after adding still holds only appointments of its own date. */
  lemma AddToMonthDayFiled(m: Month, cal: Calendar, a: Appointment, j: int, x: Appointment)
    requires MonthFiled(m, cal) && m.name == MonthNameOf(cal, a.time)
    requires 0 <= j < |AddToMonth(m, cal.dayOf(a.time), a).days|
    requires x in AddToMonth(m, cal.dayOf(a.time), a).days[j].appointments
    ensures MonthNameOf(cal, x.time) == m.name && cal.dayOf(x.time) == AddToMonth(m, cal.dayOf(a.time), a).days[j].dayNumber
  {
    var dayNumber := cal.dayOf(a.time);
    var days := WithDay(m.days, dayNumber);
    WithDayMembers(m.days, dayNumber);
    AddToMonthShape(m, dayNumber, a);
    assert days[j] in days;
    if days[j].dayNumber == dayNumber {
      AddToDayMembers(days[j], a, x);
      if x != Unselected(a) {
        assert x in days[j].appointments;
      }
    } else {
      assert days[j] in m.days;
    }
  }

  /** Adding to the month named for the appointment's date keeps that month filed by date. */
  lemma AddToMonthKeepsFiled(m: Month, cal: Calendar, a: Appointment)
    requires MonthFiled(m, cal) && m.name == MonthNameOf(cal, a.time)
    ensures MonthFiled(AddToMonth(m, cal.dayOf(a.time), a), cal)
  {
    var r := AddToMonth(m, cal.dayOf(a.time), a);
    forall d, x | d in r.days && x in d.appointments
      ensures MonthNameOf(cal, x.time) == r.name && cal.dayOf(x.time) == d.dayNumber
    {
      var j :| 0 <= j < |r.days| && r.days[j] == d;
      AddToMonthDayFiled(m, cal, a, j, x);
    }
  }

  /**
   * Adding keeps every appointment under the month and day of its own date:
   * trees built by adding alone are filed by date.
   */
  lemma AddAppointmentKeepsFiled(t: Tree, cal: Calendar, a: Appointment)
    requires Filed(t, cal)
    ensures Filed(AddAppointment(t, cal, a), cal)
  {
    var name := MonthNameOf(cal, a.time);
    var months := WithMonth(t, name);
    var r := AddAppointment(t, cal, a);
    WithMonthMembers(t, name);
    AddAppointmentShape(t, cal, a);
    forall m | m in r ensures MonthFiled(m, cal) {
      var i :| 0 <= i < |r| && r[i] == m;
      assert months[i] in months;
      assert MonthFiled(months[i], cal);
      if months[i].name == name {
        AddToMonthKeepsFiled(months[i], cal, a);
      }
    }
  }
}
