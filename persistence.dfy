/**
 * Loading: the browser's storage slot, the normalisation applied to a
 * stored tree, and the seed list installed when nothing is stored.
 *
 * The storage slot holds a snapshot of the tree or nothing (`None` for an
 * absent key). JSON text and its parsing are not modelled: a snapshot is
 * the tree itself, and a stored time comes back as the same time.
 */
module Persistence {
  import opened Sequences
  import opened Appointments
  import opened Selection

  // ---------------------------------------------------------------------------
  // Normalisation of a stored tree (the nested `forEach` of `loadAppointments`)
  // ---------------------------------------------------------------------------

  /** Clears `selected` on every appointment of one day, one position at a time. */
  method NormalizeDay(d: Day) returns (r: Day)
    ensures r.dayNumber == d.dayNumber && |r.appointments| == |d.appointments|
    ensures forall k :: 0 <= k < |d.appointments| ==> r.appointments[k] == Unselected(d.appointments[k])
  {
    var apps := d.appointments;
    var k := 0;
    while k < |apps|
      invariant 0 <= k <= |apps| == |d.appointments|
      invariant forall k' :: 0 <= k' < k ==> apps[k'] == Unselected(d.appointments[k'])
      invariant forall k' :: k <= k' < |apps| ==> apps[k'] == d.appointments[k']
    {
      apps := apps[k := Unselected(apps[k])];
      k := k + 1;
    }
    r := d.(appointments := apps);
  }

  /** Clears `selected` on every appointment of one month, day by day. */
  method NormalizeMonth(m: Month) returns (r: Month)
    ensures r.name == m.name && |r.days| == |m.days|
    ensures forall j :: 0 <= j < |m.days| ==>
      r.days[j].dayNumber == m.days[j].dayNumber &&
      |r.days[j].appointments| == |m.days[j].appointments| &&
      forall k :: 0 <= k < |m.days[j].appointments| ==>
        r.days[j].appointments[k] == Unselected(m.days[j].appointments[k])
  {
    var days := m.days;
    var j := 0;
    while j < |days|
      invariant 0 <= j <= |days| == |m.days|
      invariant forall j' :: 0 <= j' < j ==>
        days[j'].dayNumber == m.days[j'].dayNumber &&
        |days[j'].appointments| == |m.days[j'].appointments| &&
        forall k :: 0 <= k < |m.days[j'].appointments| ==>
          days[j'].appointments[k] == Unselected(m.days[j'].appointments[k])
      invariant forall j' :: j <= j' < |days| ==> days[j'] == m.days[j']
    {
      var day := NormalizeDay(days[j]);
      days := days[j := day];
      j := j + 1;
    }
    r := m.(days := days);
  }

  /**
   * The normalisation `loadAppointments` applies to a parsed tree: every
   * appointment loses its selection, and nothing else changes.
   */
  method Normalize(parsed: Tree) returns (r: Tree)
    ensures r == ClearSelection(parsed)
  {
    r := parsed;
    var i := 0;
    while i < |r|
      invariant 0 <= i <= |r| == |parsed|
      invariant forall i' :: 0 <= i' < i ==>
        r[i'].name == parsed[i'].name && |r[i'].days| == |parsed[i'].days| &&
        forall j :: 0 <= j < |parsed[i'].days| ==>
          r[i'].days[j].dayNumber == parsed[i'].days[j].dayNumber &&
          |r[i'].days[j].appointments| == |parsed[i'].days[j].appointments| &&
          forall k :: 0 <= k < |parsed[i'].days[j].appointments| ==>
            r[i'].days[j].appointments[k] == Unselected(parsed[i'].days[j].appointments[k])
      invariant forall i' :: i <= i' < |r| ==> r[i'] == parsed[i']
    {
      var month := NormalizeMonth(r[i]);
      r := r[i := month];
      i := i + 1;
    }
    var c := ClearSelection(parsed);
    forall i, j, k | ValidPos(r, i, j, k) ensures AppAt(r, i, j, k) == AppAt(c, i, j, k) {
      assert ValidPos(parsed, i, j, k);
      assert Unselected(AppAt(c, i, j, k)) == Unselected(AppAt(parsed, i, j, k));
      assert !AppAt(c, i, j, k).selected;
    }
    TreeExtensionality(r, c);
  }

  // ---------------------------------------------------------------------------
  // Dates of the seed list
  // ---------------------------------------------------------------------------

  /**
   * A point in time written as the decimal digits YYYYMMDDhhmm (month 01..12).
   * For a fixed time zone this numbering orders times chronologically.
   */
  function Encode(year: nat, month: MonthIndex, day: DayOfMonth, hours: nat, minutes: nat): int
    requires hours < 24 && minutes < 60
  {
    (((year * 100 + (month + 1)) * 100 + day) * 100 + hours) * 100 + minutes
  }

  /** The calendar that reads the month and the day back out of an encoded time. */
  const EncodedCalendar: Calendar := Calendar(
    t => var m := t / 1000000 % 100 - 1; if 0 <= m < 12 then m else 0,
    t => var d := t / 10000 % 100; if 1 <= d <= 31 then d else 1)

  /** The year digits of an encoded time. */
  function YearOf(t: int): int { t / 100000000 }

  /**
   * The year the `Date` constructor uses for a year argument: 0 to 99
   * stand for 1900 to 1999, any other year is taken as given.
   */
  function FullYear(year: int): (y: int)
    ensures 0 <= year <= 99 ==> y == 1900 + year
    ensures !(0 <= year <= 99) ==> y == year
  {
    if 0 <= year <= 99 then 1900 + year else year
  }

  /**
   * `new Date(year, month, day, hours, minutes)`: a two-digit year stands
   * for a year of the 1900s, and a month argument past 11 (or below 0) rolls
   * over into the next (or previous) years, as the JavaScript constructor
   * does. Day-of-month overflow is not modelled, so the day is kept within
   * every month's length.
   */
  function NewDate(year: int, month: int, day: int, hours: nat, minutes: nat): (r: int)
    requires 0 <= FullYear(year) + month / 12
    requires 1 <= day <= 28 && hours < 24 && minutes < 60
    ensures EncodedCalendar.monthOf(r) == month % 12
    ensures EncodedCalendar.dayOf(r) == day
    ensures YearOf(r) == FullYear(year) + month / 12
  {
    var y: nat := FullYear(year) + month / 12;
    var m: MonthIndex := month % 12;
    EncodeDecode(y, m, day, hours, minutes);
    Encode(y, m, day, hours, minutes)
  }

  /** Year 99 with month 12 is January of year 2000, not of year 100. */
  lemma TwoDigitYearRollover()
    ensures YearOf(NewDate(99, 12, 1, 0, 0)) == 2000
    ensures EncodedCalendar.monthOf(NewDate(99, 12, 1, 0, 0)) == 0
  {
  }

  /** Encoding then reading the calendar back returns the month, the day and the year. */
  lemma EncodeDecode(year: nat, month: MonthIndex, day: DayOfMonth, hours: nat, minutes: nat)
    requires hours < 24 && minutes < 60
    ensures EncodedCalendar.monthOf(Encode(year, month, day, hours, minutes)) == month
    ensures EncodedCalendar.dayOf(Encode(year, month, day, hours, minutes)) == day
    ensures YearOf(Encode(year, month, day, hours, minutes)) == year
  {
    var t := Encode(year, month, day, hours, minutes);
    var low := hours * 100 + minutes;
    assert 0 <= low < 10000;
    assert t == (year * 100 + (month + 1)) * 1000000 + day * 10000 + low;
    assert t / 10000 == (year * 100 + (month + 1)) * 100 + day;
    assert t / 1000000 == year * 100 + (month + 1);
    assert t / 100000000 == year;
  }

  // ---------------------------------------------------------------------------
  // The seed list
  // ---------------------------------------------------------------------------

  function Pending(id: int, description: string, time: int): Appointment {
    Appointment(id, description, time, false, false, false)
  }

  /** Gennaio of the seed list: three confirmed appointments. */
  function SeedJanuary(): Month {
    Month("Gennaio", [
      Day(2, [Appointment(1, "Concerto al palazzetto", NewDate(2025, 0, 2, 20, 0), true, false, false)]),
      Day(12, [Appointment(2, "Dentista", NewDate(2025, 0, 12, 12, 0), true, false, false),
               Appointment(3, "Cena fuori con amici", NewDate(2025, 0, 12, 20, 0), true, false, false)])])
  }

  /** Febbraio of the seed list: one cancelled appointment and two pending ones. */
  function SeedFebruary(): Month {
    Month("Febbraio", [
      Day(6, [Appointment(4, "Degustazione vini", NewDate(2025, 1, 6, 20, 0), false, true, false)]),
      Day(25, [Pending(5, "Biciclettata", NewDate(2025, 1, 25, 12, 0)),
               Pending(6, "Cena fuori con amici", NewDate(2025, 1, 25, 20, 0))])])
  }

  /** Marzo of the seed list, with the date of "Cena con colleghi" (id 9) given as a parameter. */
  function SeedMarch(dinnerTime: int): Month {
    Month("Marzo", [
      Day(9, [Pending(7, "Gita a Firenze", NewDate(2025, 2, 9, 20, 0))]),
      Day(17, [Pending(8, "Manutenzione auto", NewDate(2025, 2, 17, 12, 0)),
               Pending(9, "Cena con colleghi", dinnerTime)])])
  }

  /**
   * The nine appointments of `getInitialDummyData` / `getInitialData`. The
   * flags the source leaves out are false.
   */
  function SeedWith(dinnerTime: int): Tree {
    [SeedJanuary(), SeedFebruary(), SeedMarch(dinnerTime)]
  }

  /**
   * The seed as the source writes it and as loading installs it: id 9 dated
   * `new Date(2025, 12, 17, 20, 0, 0)`. It holds nine appointments, none
   * selected, with months, days and times in order and names and numbers unique.
   */
  function SeedAsWritten(): (t: Tree)
    ensures Ordered(t) && Distinct(t)
    ensures Total(t) == 9 && SelectedAppointmentsCount(t) == 0 && NoneSelected(t)
  {
    var dinnerTime := NewDate(2025, 12, 17, 20, 0);
    SeedInvariants(dinnerTime);
    SeedCounts(dinnerTime);
    SelectedCountZero(SeedWith(dinnerTime));
    SeedWith(dinnerTime)
  }

  /**
   * The seed as evidently intended: id 9 dated 17 March 2025, the day it is
   * filed under. Order, uniqueness and the counts are those of the seed as written.
   */
  function Seed(): (t: Tree)
    ensures Ordered(t) && Distinct(t)
    ensures Total(t) == 9 && SelectedAppointmentsCount(t) == 0 && NoneSelected(t)
  {
    var dinnerTime := NewDate(2025, 2, 17, 20, 0);
    SeedInvariants(dinnerTime);
    SeedCounts(dinnerTime);
    SelectedCountZero(SeedWith(dinnerTime));
    SeedWith(dinnerTime)
  }

  /**
   * As written, appointment 9 sits under Marzo, day 17, but its date falls in
   * January 2026, so the seed is not filed by date.
   */
  lemma SeedAsWrittenMisfiled()
    ensures ValidPos(SeedAsWritten(), 2, 1, 1)
    ensures var a := AppAt(SeedAsWritten(), 2, 1, 1);
      a.id == 9 && SeedAsWritten()[2].name == "Marzo" && SeedAsWritten()[2].days[1].dayNumber == 17 &&
      MonthNameOf(EncodedCalendar, a.time) == "Gennaio" && YearOf(a.time) == 2026
    ensures !Filed(SeedAsWritten(), EncodedCalendar)
  {
    var t := SeedAsWritten();
    var a := AppAt(t, 2, 1, 1);
    assert EncodedCalendar.monthOf(a.time) == 0;
    assert t[2] in t && t[2].days[1] in t[2].days && a in t[2].days[1].appointments;
  }

  /** A month whose days each hold appointments of that month and day only is filed by date. */
  lemma MonthFiledByDays(m: Month, cal: Calendar)
    requires forall j, k :: 0 <= j < |m.days| && 0 <= k < |m.days[j].appointments| ==>
      MonthNameOf(cal, m.days[j].appointments[k].time) == m.name &&
      cal.dayOf(m.days[j].appointments[k].time) == m.days[j].dayNumber
    ensures MonthFiled(m, cal)
  {
    forall d, a | d in m.days && a in d.appointments
      ensures MonthNameOf(cal, a.time) == m.name && cal.dayOf(a.time) == d.dayNumber
    {
      var j :| 0 <= j < |m.days| && m.days[j] == d;
      var k :| 0 <= k < |d.appointments| && d.appointments[k] == a;
    }
  }

  lemma SeedJanuaryFiled()
    ensures MonthFiled(SeedJanuary(), EncodedCalendar)
  {
    MonthFiledByDays(SeedJanuary(), EncodedCalendar);
  }

  lemma SeedFebruaryFiled()
    ensures MonthFiled(SeedFebruary(), EncodedCalendar)
  {
    MonthFiledByDays(SeedFebruary(), EncodedCalendar);
  }

  lemma SeedMarchFiled()
    ensures MonthFiled(SeedMarch(NewDate(2025, 2, 17, 20, 0)), EncodedCalendar)
  {
    MonthFiledByDays(SeedMarch(NewDate(2025, 2, 17, 20, 0)), EncodedCalendar);
  }

  /** The corrected seed is filed by date: every appointment sits under its own month and day. */
  lemma SeedFiled()
    ensures Filed(Seed(), EncodedCalendar)
  {
    var dinnerTime := NewDate(2025, 2, 17, 20, 0);
    assert Filed(SeedWith(dinnerTime), EncodedCalendar) by {
      SeedJanuaryFiled();
      SeedFebruaryFiled();
      SeedMarchFiled();
      ThreeFiled(SeedJanuary(), SeedFebruary(), SeedMarch(dinnerTime), EncodedCalendar);
    }
    assert Seed() == SeedWith(dinnerTime);
  }

  /** Three months each filed by the calendar make a filed tree. */
  lemma ThreeFiled(x: Month, y: Month, z: Month, cal: Calendar)
    requires MonthFiled(x, cal) && MonthFiled(y, cal) && MonthFiled(z, cal)
    ensures Filed([x, y, z], cal)
  {
    forall m | m in [x, y, z] ensures MonthFiled(m, cal) {
      if m == x {} else if m == y {} else { assert m == z; }
    }
  }

  /** The calendar positions of the seed's three month names. */
  lemma SeedMonthKeys(dinnerTime: int)
    ensures MonthKey(SeedJanuary()) == 0 && MonthKey(SeedFebruary()) == 1 && MonthKey(SeedMarch(dinnerTime)) == 2
  {
    assert MonthNames[0] == "Gennaio" && MonthNames[1] == "Febbraio" && MonthNames[2] == "Marzo";
    assert |"Gennaio"| != |"Febbraio"| && |"Gennaio"| != |"Marzo"| && |"Febbraio"| != |"Marzo"|;
  }

  /** Days ascending and unique, and each day's appointments ascending by time. */
  ghost predicate DaysInOrder(m: Month) {
    SortedBy(m.days, DayKey) && DistinctBy(m.days, DayKey) &&
    forall j :: 0 <= j < |m.days| ==> SortedBy(m.days[j].appointments, TimeKey)
  }

  /** A month of two days holding one and two appointments, in ascending order. */
  lemma TwoDayMonth(m: Month)
    requires |m.days| == 2 && m.days[0].dayNumber < m.days[1].dayNumber
    requires |m.days[0].appointments| == 1 && |m.days[1].appointments| == 2
    requires m.days[1].appointments[0].time <= m.days[1].appointments[1].time
    ensures MonthTotal(m) == 3
    ensures DaysInOrder(m)
  {
    SumByPair(m.days[0], m.days[1], DayTotal);
    assert m.days == [m.days[0], m.days[1]];
  }

  /** Three months in calendar order, with different names and their days in order, form an ordered tree with unique keys. */
  lemma ThreeMonths(x: Month, y: Month, z: Month)
    requires MonthKey(x) <= MonthKey(y) <= MonthKey(z)
    requires x.name != y.name && x.name != z.name && y.name != z.name
    requires DaysInOrder(x) && DaysInOrder(y) && DaysInOrder(z)
    ensures Ordered([x, y, z]) && Distinct([x, y, z])
  {
    var t := [x, y, z];
    SortedTriple(x, y, z, MonthKey);
    DistinctTriple(x, y, z, MonthName);
    forall i | 0 <= i < |t|
      ensures DaysInOrder(t[i])
    {
      if i == 0 {
        assert t[i] == x;
      } else if i == 1 {
        assert t[i] == y;
      } else {
        assert t[i] == z;
      }
    }
  }

  /** The seed holds nine appointments, none of them selected. */
  lemma SeedCounts(dinnerTime: int)
    requires dinnerTime >= NewDate(2025, 2, 17, 12, 0)
    ensures Total(SeedWith(dinnerTime)) == 9 && SelectedAppointmentsCount(SeedWith(dinnerTime)) == 0
  {
    TwoDayMonth(SeedJanuary());
    TwoDayMonth(SeedFebruary());
    TwoDayMonth(SeedMarch(dinnerTime));
    SumByTriple(SeedJanuary(), SeedFebruary(), SeedMarch(dinnerTime), MonthTotal);
    SelectedCountZero(SeedWith(dinnerTime));
  }

  /**
   * The seed is ordered and has unique month names and day numbers, whatever
   * date appointment 9 carries as long as it is not before appointment 8:
   * both the written and the intended date qualify.
   */
  lemma SeedInvariants(dinnerTime: int)
    requires dinnerTime >= NewDate(2025, 2, 17, 12, 0)
    ensures Ordered(SeedWith(dinnerTime)) && Distinct(SeedWith(dinnerTime))
  {
    TwoDayMonth(SeedJanuary());
    TwoDayMonth(SeedFebruary());
    TwoDayMonth(SeedMarch(dinnerTime));
    SeedMonthKeys(dinnerTime);
    assert |"Gennaio"| != |"Febbraio"| && |"Gennaio"| != |"Marzo"| && |"Febbraio"| != |"Marzo"|;
    ThreeMonths(SeedJanuary(), SeedFebruary(), SeedMarch(dinnerTime));
  }

  // ---------------------------------------------------------------------------
  // Loading
  // ---------------------------------------------------------------------------

  /**
   * The tree `loadAppointments` installs: the stored tree with every
   * selection cleared, or the seed as the source writes it when nothing is stored.
   */
  function Restore(slot: Option<Tree>): (r: Tree)
    ensures NoneSelected(r)
    ensures slot.Some? ==> EqualExceptSelection(slot.value, r)
  {
    match slot
    case None => SeedAsWritten()
    case Some(t) => ClearSelection(t)
  }

  /**
   * Loading a saved tree gives back the same appointments in the same places,
   * with their selections dropped: a tree without selections comes back as
   * it was, and order, uniqueness and the count survive the round trip.
   */
  lemma SaveThenRestore(t: Tree)
    ensures SameSkeleton(t, Restore(Some(t))) && Total(Restore(Some(t))) == Total(t)
    ensures Ordered(Restore(Some(t))) <==> Ordered(t)
    ensures Distinct(Restore(Some(t))) <==> Distinct(t)
    ensures NoneSelected(t) ==> Restore(Some(t)) == t
  {
    var r := Restore(Some(t));
    EqualExceptSelectionSkeleton(t, r);
    SkeletonKeepsInvariants(t, r);
    SameShapeTotal(t, r);
    if NoneSelected(t) {
      forall i, j, k | ValidPos(t, i, j, k) ensures AppAt(t, i, j, k) == AppAt(r, i, j, k) {
        assert Unselected(AppAt(t, i, j, k)) == Unselected(AppAt(r, i, j, k));
      }
      TreeExtensionality(t, r);
    }
  }

  /**
   * With nothing stored, loading installs the seed as written: ordered, with
   * unique names and numbers, nine appointments and none selected, but with
   * appointment 9 not filed under its own date.
   */
  lemma RestoreEmptySlot()
    ensures Restore(None) == SeedAsWritten()
    ensures Ordered(Restore(None)) && Distinct(Restore(None))
    ensures Total(Restore(None)) == 9 && SelectedAppointmentsCount(Restore(None)) == 0
    ensures !Filed(Restore(None), EncodedCalendar)
  {
    SeedAsWrittenMisfiled();
  }
}
