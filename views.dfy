/**
 * The aggregates `DayViewComponent` computes over one day: the status
 * counts and the "all selected" / "indeterminate" state of the day checkbox.
 */
module DayView {
  import opened Sequences
  import opened Appointments

  function IsConfirmed(a: Appointment): bool { a.confirmed }

  function IsCancelled(a: Appointment): bool { a.cancelled }

  /** Neither confirmed nor cancelled: still to be confirmed. */
  function IsPending(a: Appointment): bool { !a.confirmed && !a.cancelled }

  datatype Counts = Counts(total: int, confirmed: int, cancelled: int, toConfirm: int)

  /**
   * `getAppointmentCounts`: the day's length, the number of positions
   * holding a confirmed and a cancelled appointment, and what remains. The
   * three parts add up to the total by construction; `toConfirm` may be
   * negative when an appointment carries both flags.
   */
  function AppointmentCounts(d: Day): (c: Counts)
    ensures c.total == |d.appointments|
    ensures c.confirmed == |set k | 0 <= k < |d.appointments| && d.appointments[k].confirmed|
    ensures c.cancelled == |set k | 0 <= k < |d.appointments| && d.appointments[k].cancelled|
    ensures c.total == c.confirmed + c.cancelled + c.toConfirm
    ensures 0 <= c.confirmed <= c.total && 0 <= c.cancelled <= c.total
  {
    var total := |d.appointments|;
    var confirmed := CountIf(d.appointments, IsConfirmed);
    var cancelled := CountIf(d.appointments, IsCancelled);
    FlagPositions(d.appointments);
    Counts(total, confirmed, cancelled, total - confirmed - cancelled)
  }

  /** The confirmed and cancelled counts are the numbers of positions holding such appointments. */
  lemma FlagPositions(apps: seq<Appointment>)
    ensures CountIf(apps, IsConfirmed) == |set k | 0 <= k < |apps| && apps[k].confirmed|
    ensures CountIf(apps, IsCancelled) == |set k | 0 <= k < |apps| && apps[k].cancelled|
  {
    CountIfIndices(apps, IsConfirmed);
    CountIfIndices(apps, IsCancelled);
    assert IndicesWhere(apps, IsConfirmed) == set k | 0 <= k < |apps| && apps[k].confirmed;
    assert IndicesWhere(apps, IsCancelled) == set k | 0 <= k < |apps| && apps[k].cancelled;
  }

  /** No appointment is both confirmed and cancelled. */
  ghost predicate FlagsExclusive(apps: seq<Appointment>) {
    forall k :: 0 <= k < |apps| ==> !(apps[k].confirmed && apps[k].cancelled)
  }

  /** With exclusive flags, every appointment is counted exactly once as confirmed, cancelled or pending. */
  lemma {:induction false} CountsPartition(apps: seq<Appointment>)
    requires FlagsExclusive(apps)
    ensures CountIf(apps, IsConfirmed) + CountIf(apps, IsCancelled) + CountIf(apps, IsPending) == |apps|
  {
    if apps != [] {
      assert FlagsExclusive(apps[1..]) by {
        assert forall k :: 1 <= k < |apps| ==> apps[k] == apps[1..][k - 1];
      }
      CountsPartition(apps[1..]);
    }
  }

  /** With exclusive flags, `toConfirm` is the number of pending appointments, so never negative. */
  lemma ToConfirmIsPending(d: Day)
    requires FlagsExclusive(d.appointments)
    ensures AppointmentCounts(d).toConfirm == CountIf(d.appointments, IsPending)
    ensures AppointmentCounts(d).toConfirm >= 0
  {
    CountsPartition(d.appointments);
  }

  /** An appointment carrying both flags makes `toConfirm` negative on a one-appointment day. */
  lemma ToConfirmNegative(a: Appointment)
    requires a.confirmed && a.cancelled
    ensures AppointmentCounts(Day(1, [a])).toConfirm == -1
  {
    assert [a][1..] == [];
  }

  /** `allDayAppointmentsSelected`: every appointment of the day is selected (true for an empty day). */
  function AllDaySelected(d: Day): (r: bool)
    ensures r <==> forall k :: 0 <= k < |d.appointments| ==> d.appointments[k].selected
    ensures r <==> DaySelected(d) == |d.appointments|
  {
    CountIfAll(d.appointments, IsSelected);
    forall a | a in d.appointments :: a.selected
  }

  /**
   * `isDayIndeterminate`: false for an empty day, otherwise some but not
   * all appointments are selected.
   */
  function IsDayIndeterminate(d: Day): (r: bool)
    ensures r <==>
      (exists k :: 0 <= k < |d.appointments| && d.appointments[k].selected) &&
      (exists k :: 0 <= k < |d.appointments| && !d.appointments[k].selected)
    ensures |d.appointments| == 0 ==> !r
    ensures !(r && AllDaySelected(d))
  {
    var all := d.appointments;
    CountIfAll(all, IsSelected);
    CountIfNone(all, IsSelected);
    if |all| == 0 then false
    else
      var selected := CountIf(all, IsSelected);
      selected > 0 && selected < |all|
  }
}

/**
 * The aggregates `MonthViewComponent` computes over the month it shows,
 * looked up by name in the month list.
 */
module MonthView {
  import opened Sequences
  import opened Appointments
  import Selection

  /** Position i holds the first month with the given name. */
  ghost predicate FirstWithName(t: Tree, monthName: string, i: int) {
    0 <= i < |t| && t[i].name == monthName &&
    forall i' :: 0 <= i' < i ==> t[i'].name != monthName
  }

  /** `mainList().find(m => m.mese === monthName)`: the first month with that name, if any. */
  function CurrentMonth(t: Tree, monthName: string): (r: Option<Month>)
    ensures r.None? <==> forall i :: 0 <= i < |t| ==> t[i].name != monthName
    ensures r.Some? ==> exists i :: FirstWithName(t, monthName, i) && t[i] == r.value
  {
    if t == [] then None
    else if t[0].name == monthName then (assert FirstWithName(t, monthName, 0); Some(t[0]))
    else
      var r := CurrentMonth(t[1..], monthName);
      assert forall i :: 1 <= i < |t| ==> t[i] == t[1..][i - 1];
      assert r.Some? ==> exists i :: FirstWithName(t, monthName, i) && t[i] == r.value by {
        if r.Some? {
          var i :| FirstWithName(t[1..], monthName, i) && t[1..][i] == r.value;
          assert FirstWithName(t, monthName, i + 1);
        }
      }
      r
  }

  /** The month found is the one at the first position carrying the name. */
  lemma CurrentMonthAt(t: Tree, monthName: string, i: int)
    requires FirstWithName(t, monthName, i)
    ensures CurrentMonth(t, monthName) == Some(t[i])
  {
    assert t[i].name == monthName;
    var r := CurrentMonth(t, monthName);
    assert r.Some?;
    var i0 :| FirstWithName(t, monthName, i0) && t[i0] == r.value;
    assert 0 <= i0 < |t| && t[i0].name == monthName;
    assert !(i0 < i) && !(i < i0);
  }

  /** `giorni.flatMap(day => day.appuntamenti)`: the appointments of the days, in order. */
  function Flatten(days: seq<Day>): (r: seq<Appointment>)
    ensures |r| == SumBy(days, DayTotal)
    ensures CountIf(r, IsSelected) == SumBy(days, DaySelected)
  {
    if days == [] then []
    else
      var rest := Flatten(days[1..]);
      CountIfConcat(days[0].appointments, rest, IsSelected);
      days[0].appointments + rest
  }

  /**
   * `allMonthAppointmentsSelected`: false when the month is missing,
   * otherwise every appointment of every day is selected (true for a month
   * without appointments).
   */
  function AllMonthSelected(t: Tree, monthName: string): (r: bool)
    ensures r <==> (CurrentMonth(t, monthName).Some? &&
      var m := CurrentMonth(t, monthName).value;
      forall j, k :: 0 <= j < |m.days| && 0 <= k < |m.days[j].appointments| ==> m.days[j].appointments[k].selected)
    ensures r <==> (CurrentMonth(t, monthName).Some? &&
      MonthSelected(CurrentMonth(t, monthName).value) == MonthTotal(CurrentMonth(t, monthName).value))
  {
    match CurrentMonth(t, monthName)
    case None => false
    case Some(m) =>
      MonthSelectedBound(m);
      forall d | d in m.days :: forall a | a in d.appointments :: a.selected
  }

  /**
   * `isMonthIndeterminate`: false when the month is missing or has no
   * appointments, otherwise some but not all of its appointments are selected.
   */
  function IsMonthIndeterminate(t: Tree, monthName: string): (r: bool)
    ensures r <==> (CurrentMonth(t, monthName).Some? &&
      var m := CurrentMonth(t, monthName).value;
      (exists j, k :: 0 <= j < |m.days| && 0 <= k < |m.days[j].appointments| && m.days[j].appointments[k].selected) &&
      (exists j, k :: 0 <= j < |m.days| && 0 <= k < |m.days[j].appointments| && !m.days[j].appointments[k].selected))
    ensures !(r && AllMonthSelected(t, monthName))
  {
    match CurrentMonth(t, monthName)
    case None => false
    case Some(m) =>
      var all := Flatten(m.days);
      MonthSelectedBound(m);
      MonthSelectedZero(m);
      SumByZero(m.days, DayTotal);
      if |all| == 0 then
        false
      else
        var selected := CountIf(all, IsSelected);
        selected > 0 && selected < |all|
  }

  /**
   * After `updateMonthSelection(m, true)` on a list that holds m, the month's
   * checkbox is fully checked and not indeterminate.
   */
  lemma SelectMonthChecksBox(t: Tree, monthName: string)
    requires exists i :: 0 <= i < |t| && t[i].name == monthName
    ensures AllMonthSelected(Selection.SelectMonth(t, monthName, true), monthName)
    ensures !IsMonthIndeterminate(Selection.SelectMonth(t, monthName, true), monthName)
  {
    var r := Selection.SelectMonth(t, monthName, true);
    var m := CurrentMonth(r, monthName).value;
    var i :| FirstWithName(r, monthName, i) && r[i] == m;
    forall j, k | 0 <= j < |m.days| && 0 <= k < |m.days[j].appointments|
      ensures m.days[j].appointments[k].selected
    {
      assert ValidPos(t, i, j, k);
    }
  }

  /**
   * After `updateMonthSelection(m, false)` on a list that holds m, the
   * month's checkbox is neither indeterminate nor, unless the month has no
   * appointments, checked.
   */
  lemma DeselectMonthClearsBox(t: Tree, monthName: string)
    requires exists i :: 0 <= i < |t| && t[i].name == monthName
    ensures !IsMonthIndeterminate(Selection.SelectMonth(t, monthName, false), monthName)
    ensures AllMonthSelected(Selection.SelectMonth(t, monthName, false), monthName) <==>
      MonthTotal(CurrentMonth(t, monthName).value) == 0
  {
    var r := Selection.SelectMonth(t, monthName, false);
    var m := CurrentMonth(r, monthName).value;
    var i :| FirstWithName(r, monthName, i) && r[i] == m;
    forall j, k | 0 <= j < |m.days| && 0 <= k < |m.days[j].appointments|
      ensures !m.days[j].appointments[k].selected
    {
      assert ValidPos(t, i, j, k);
    }
    CurrentMonthAt(t, monthName, i);
    MonthSelectedZero(m);
    SameShapeTotal(t, r);
  }
}
