/**
 * The data model of the appointment tracker: a tree Month -> Day -> Appointment.
 *
 * Field names follow the source's interfaces in English:
 *   Appointment { id, descrizione, date, confermato?, annullato?, selected? }
 *   Day { giorno, appuntamenti }     Month { mese, giorni }
 * The three optional flags are plain booleans here: the source treats a
 * missing flag as false everywhere it reads one.
 */
module Appointments {
  import opened Sequences

  datatype Option<T> = None | Some(value: T)

  /** A point in time is an integer (the source's `Date.getTime()`). */
  datatype Appointment = Appointment(
    id: int,
    description: string,
    time: int,
    confirmed: bool,
    cancelled: bool,
    selected: bool)

  datatype Day = Day(dayNumber: int, appointments: seq<Appointment>)

  /** `name` is the Italian month name the source stores in `mese`. */
  datatype Month = Month(name: string, days: seq<Day>)

  type Tree = seq<Month>

  /** The fixed list of month names the source uses for grouping and ordering. */
  const MonthNames: seq<string> := [
    "Gennaio", "Febbraio", "Marzo", "Aprile", "Maggio", "Giugno",
    "Luglio", "Agosto", "Settembre", "Ottobre", "Novembre", "Dicembre"]

  /** A value of `Date.getMonth()`. */
  type MonthIndex = i: int | 0 <= i < 12

  /** A value of `Date.getDate()`. */
  type DayOfMonth = d: int | 1 <= d <= 31 witness 1

  /**
   * The local-time calendar of the browser: which month and which day of the
   * month a point in time falls on. It depends on the time zone, so the
   * model leaves it as a parameter.
   */
  datatype Calendar = Calendar(monthOf: int -> MonthIndex, dayOf: int -> DayOfMonth)

  /** `Array.prototype.indexOf` on a list of names: the first position of `x`, or -1. */
  function IndexOf(names: seq<string>, x: string): (r: int)
    ensures -1 <= r < |names|
    ensures r == -1 <==> x !in names
    ensures r >= 0 ==> names[r] == x && forall i :: 0 <= i < r ==> names[i] != x
  {
    if names == [] then -1
    else if names[0] == x then 0
    else
      var r := IndexOf(names[1..], x);
      assert forall i :: 1 <= i < |names| ==> names[i] == names[1..][i - 1];
      if r == -1 then -1 else r + 1
  }

  /** No two months share a name. */
  lemma MonthNamesDistinct()
    ensures forall i, j :: 0 <= i < j < |MonthNames| ==> MonthNames[i] != MonthNames[j]
  {
    forall i, j | 0 <= i < j < |MonthNames| ensures MonthNames[i] != MonthNames[j] {
      var x, y := MonthNames[i], MonthNames[j];
      assert |x| != |y| || x[0] != y[0] || x[2] != y[2] || x[3] != y[3];
    }
  }

  /**
   * The month name the source derives from a date (`getMonthName`): the
   * name whose position in the calendar is the date's month, so that the
   * sort key of a month made for the date is that month's index.
   */
  function MonthNameOf(cal: Calendar, time: int): (r: string)
    ensures forall k :: 0 <= k < |MonthNames| && MonthNames[k] == r ==> k == cal.monthOf(time)
  {
    MonthNamesDistinct();
    MonthNames[cal.monthOf(time)]
  }

  /** Sort key of a month: its calendar position, or -1 for a name not in the list. */
  function MonthKey(m: Month): int { IndexOf(MonthNames, m.name) }

  /** Sort key of a day: its number. */
  function DayKey(d: Day): int { d.dayNumber }

  /** Sort key of an appointment: its time. */
  function TimeKey(a: Appointment): int { a.time }

  /** Identity key of a month within the tree: its name. */
  function MonthName(m: Month): string { m.name }

  /** The copy of an appointment with its transient selection cleared. */
  function Unselected(a: Appointment): Appointment { a.(selected := false) }

  function IsSelected(a: Appointment): bool { a.selected }

  // ---------------------------------------------------------------------------
  // Positions in the tree
  // ---------------------------------------------------------------------------

  /** (i, j, k) names appointment k of day j of month i. */
  ghost predicate ValidPos(t: Tree, i: int, j: int, k: int) {
    0 <= i < |t| && 0 <= j < |t[i].days| && 0 <= k < |t[i].days[j].appointments|
  }

  function AppAt(t: Tree, i: int, j: int, k: int): Appointment
    requires ValidPos(t, i, j, k)
  {
    t[i].days[j].appointments[k]
  }

  /** Same months in the same order, same day numbers, same number of appointments per day. */
  ghost predicate SameShape(t: Tree, u: Tree) {
    |t| == |u| &&
    forall i :: 0 <= i < |t| ==>
      t[i].name == u[i].name && |t[i].days| == |u[i].days| &&
      forall j :: 0 <= j < |t[i].days| ==>
        t[i].days[j].dayNumber == u[i].days[j].dayNumber &&
        |t[i].days[j].appointments| == |u[i].days[j].appointments|
  }

  /** `u` differs from `t` at most in the `selected` flags of its appointments. */
  ghost predicate EqualExceptSelection(t: Tree, u: Tree) {
    SameShape(t, u) &&
    forall i, j, k | ValidPos(t, i, j, k) :: Unselected(AppAt(t, i, j, k)) == Unselected(AppAt(u, i, j, k))
  }

  /** Two trees of the same shape with the same appointment at every position are equal. */
  lemma TreeExtensionality(t: Tree, u: Tree)
    requires SameShape(t, u)
    requires forall i, j, k | ValidPos(t, i, j, k) :: AppAt(t, i, j, k) == AppAt(u, i, j, k)
    ensures t == u
  {
    forall i | 0 <= i < |t| ensures t[i] == u[i] {
      forall j | 0 <= j < |t[i].days| ensures t[i].days[j] == u[i].days[j] {
        forall k | 0 <= k < |t[i].days[j].appointments|
          ensures t[i].days[j].appointments[k] == u[i].days[j].appointments[k]
        {
          assert ValidPos(t, i, j, k);
        }
      }
    }
  }

  // ---------------------------------------------------------------------------
  // Invariants of trees built by addAppointment
  // ---------------------------------------------------------------------------

  /** Month names are unique in the tree and day numbers are unique within each month. */
  ghost predicate Distinct(t: Tree) {
    DistinctBy(t, MonthName) &&
    forall i :: 0 <= i < |t| ==> DistinctBy(t[i].days, DayKey)
  }

  /** Months in calendar order, days ascending, appointments ascending by time. */
  ghost predicate Ordered(t: Tree) {
    SortedBy(t, MonthKey) &&
    forall i :: 0 <= i < |t| ==>
      SortedBy(t[i].days, DayKey) &&
      forall j :: 0 <= j < |t[i].days| ==> SortedBy(t[i].days[j].appointments, TimeKey)
  }

  /** Every appointment of the month sits under the month's name and in a day numbered for its own date. */
  ghost predicate MonthFiled(m: Month, cal: Calendar) {
    forall d, a | d in m.days && a in d.appointments ::
      MonthNameOf(cal, a.time) == m.name && cal.dayOf(a.time) == d.dayNumber
  }

  /** Every appointment of the tree sits under the month and day of its own date. */
  ghost predicate Filed(t: Tree, cal: Calendar) {
    forall m | m in t :: MonthFiled(m, cal)
  }

  /**
   * Same shape, and the same id and time at every position: what the
   * selection and status operations keep.
   */
  ghost predicate SameSkeleton(t: Tree, u: Tree) {
    SameShape(t, u) &&
    forall i, j, k | ValidPos(t, i, j, k) ::
      AppAt(t, i, j, k).id == AppAt(u, i, j, k).id && AppAt(t, i, j, k).time == AppAt(u, i, j, k).time
  }

  lemma EqualExceptSelectionSkeleton(t: Tree, u: Tree)
    requires EqualExceptSelection(t, u)
    ensures SameSkeleton(t, u)
  {
    forall i, j, k | ValidPos(t, i, j, k)
      ensures AppAt(t, i, j, k).id == AppAt(u, i, j, k).id && AppAt(t, i, j, k).time == AppAt(u, i, j, k).time
    {
      assert Unselected(AppAt(t, i, j, k)) == Unselected(AppAt(u, i, j, k));
    }
  }

  lemma DaysKeepInvariants(a: seq<Day>, b: seq<Day>)
    requires |a| == |b|
    requires forall j :: 0 <= j < |a| ==>
      a[j].dayNumber == b[j].dayNumber && |a[j].appointments| == |b[j].appointments| &&
      forall k :: 0 <= k < |a[j].appointments| ==> a[j].appointments[k].time == b[j].appointments[k].time
    ensures SortedBy(a, DayKey) <==> SortedBy(b, DayKey)
    ensures DistinctBy(a, DayKey) <==> DistinctBy(b, DayKey)
    ensures forall j :: 0 <= j < |a| ==>
      (SortedBy(a[j].appointments, TimeKey) <==> SortedBy(b[j].appointments, TimeKey))
  {
    SortedBySameKeys(a, b, DayKey);
    DistinctBySameKeys(a, b, DayKey);
    forall j | 0 <= j < |a|
      ensures SortedBy(a[j].appointments, TimeKey) <==> SortedBy(b[j].appointments, TimeKey)
    {
      SortedBySameKeys(a[j].appointments, b[j].appointments, TimeKey);
    }
  }

  /** The ordering and uniqueness invariants depend only on the skeleton. */
  lemma SkeletonKeepsInvariants(t: Tree, u: Tree)
    requires SameSkeleton(t, u)
    ensures Ordered(t) <==> Ordered(u)
    ensures Distinct(t) <==> Distinct(u)
  {
    SortedBySameKeys(t, u, MonthKey);
    DistinctBySameKeys(t, u, MonthName);
    forall i | 0 <= i < |t|
      ensures SortedBy(t[i].days, DayKey) <==> SortedBy(u[i].days, DayKey)
      ensures DistinctBy(t[i].days, DayKey) <==> DistinctBy(u[i].days, DayKey)
      ensures forall j :: 0 <= j < |t[i].days| ==>
        (SortedBy(t[i].days[j].appointments, TimeKey) <==> SortedBy(u[i].days[j].appointments, TimeKey))
    {
      forall j, k | 0 <= j < |t[i].days| && 0 <= k < |t[i].days[j].appointments|
        ensures t[i].days[j].appointments[k].time == u[i].days[j].appointments[k].time
      {
        assert ValidPos(t, i, j, k);
      }
      DaysKeepInvariants(t[i].days, u[i].days);
    }
  }

  // ---------------------------------------------------------------------------
  // Counts (the source's nested `reduce` over `filter(..).length`)
  // ---------------------------------------------------------------------------

  function DayTotal(d: Day): nat { |d.appointments| }

  function MonthTotal(m: Month): nat { SumBy(m.days, DayTotal) }

  /** The number of appointments in the tree. */
  function Total(t: Tree): nat { SumBy(t, MonthTotal) }

  function DaySelected(d: Day): nat { CountIf(d.appointments, IsSelected) }

  function MonthSelected(m: Month): nat { SumBy(m.days, DaySelected) }

  /**
   * `selectedAppointmentsCount`: selected appointments summed over months
   * and days, never more than the appointments there are.
   */
  function SelectedAppointmentsCount(t: Tree): (n: nat)
    ensures n <= Total(t)
  {
    MonthSumsBound(t);
    SumBy(t, MonthSelected)
  }

  /** Month by month, the selected appointments are at most all of them. */
  lemma MonthSumsBound(t: Tree)
    ensures SumBy(t, MonthSelected) <= SumBy(t, MonthTotal)
  {
    forall i | 0 <= i < |t| ensures MonthSelected(t[i]) <= MonthTotal(t[i]) {
      MonthSelectedBound(t[i]);
    }
    SumByMono(t, MonthSelected, MonthTotal);
  }

  ghost predicate AllSelected(t: Tree) {
    forall i, j, k | ValidPos(t, i, j, k) :: AppAt(t, i, j, k).selected
  }

  ghost predicate NoneSelected(t: Tree) {
    forall i, j, k | ValidPos(t, i, j, k) :: !AppAt(t, i, j, k).selected
  }

  lemma MonthSelectedBound(m: Month)
    ensures MonthSelected(m) <= MonthTotal(m)
    ensures MonthSelected(m) == MonthTotal(m) <==>
      forall j, k :: 0 <= j < |m.days| && 0 <= k < |m.days[j].appointments| ==> m.days[j].appointments[k].selected
  {
    SumByMono(m.days, DaySelected, DayTotal);
    forall j | 0 <= j < |m.days| {
      CountIfAll(m.days[j].appointments, IsSelected);
    }
  }

  /** No more appointments are selected than exist; all are exactly when the counts agree. */
  lemma SelectedCountBound(t: Tree)
    ensures SelectedAppointmentsCount(t) <= Total(t)
    ensures SelectedAppointmentsCount(t) == Total(t) <==> AllSelected(t)
  {
    forall i | 0 <= i < |t| ensures MonthSelected(t[i]) <= MonthTotal(t[i]) &&
      (MonthSelected(t[i]) == MonthTotal(t[i]) <==>
        forall j, k :: 0 <= j < |t[i].days| && 0 <= k < |t[i].days[j].appointments| ==> t[i].days[j].appointments[k].selected)
    {
      MonthSelectedBound(t[i]);
    }
    SumByMono(t, MonthSelected, MonthTotal);
    if AllSelected(t) {
      forall i, j, k | 0 <= i < |t| && 0 <= j < |t[i].days| && 0 <= k < |t[i].days[j].appointments|
        ensures t[i].days[j].appointments[k].selected
      {
        assert ValidPos(t, i, j, k);
      }
    }
  }

  lemma MonthSelectedZero(m: Month)
    ensures MonthSelected(m) == 0 <==>
      forall j, k :: 0 <= j < |m.days| && 0 <= k < |m.days[j].appointments| ==> !m.days[j].appointments[k].selected
  {
    SumByZero(m.days, DaySelected);
    forall j | 0 <= j < |m.days| ensures DaySelected(m.days[j]) == 0 <==>
      forall k :: 0 <= k < |m.days[j].appointments| ==> !m.days[j].appointments[k].selected
    {
      CountIfNone(m.days[j].appointments, IsSelected);
    }
  }

  /** The selected count is zero exactly when no appointment is selected. */
  lemma SelectedCountZero(t: Tree)
    ensures SelectedAppointmentsCount(t) == 0 <==> NoneSelected(t)
  {
    SumByZero(t, MonthSelected);
    forall i | 0 <= i < |t| ensures MonthSelected(t[i]) == 0 <==>
      forall j, k :: 0 <= j < |t[i].days| && 0 <= k < |t[i].days[j].appointments| ==> !t[i].days[j].appointments[k].selected
    {
      MonthSelectedZero(t[i]);
    }
    if NoneSelected(t) {
      forall i, j, k | 0 <= i < |t| && 0 <= j < |t[i].days| && 0 <= k < |t[i].days[j].appointments|
        ensures !t[i].days[j].appointments[k].selected
      {
        assert ValidPos(t, i, j, k);
      }
    }
  }

  /** Trees of the same shape hold the same number of appointments, month by month. */
  lemma SameShapeTotal(t: Tree, u: Tree)
    requires SameShape(t, u)
    ensures Total(t) == Total(u)
    ensures forall i :: 0 <= i < |t| ==> MonthTotal(t[i]) == MonthTotal(u[i])
  {
    forall i | 0 <= i < |t| ensures MonthTotal(t[i]) == MonthTotal(u[i]) {
      assert SumBy(t[i].days, DayTotal) == SumBy(u[i].days, DayTotal) by {
        SumBySameTerms(t[i].days, u[i].days, DayTotal);
      }
    }
    SumBySameTerms(t, u, MonthTotal);
  }
}
