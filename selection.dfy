/**
 * The operations of the store and the service that rebuild the tree with
 * nested `map`s: the three selection setters, the three bulk status changes
 * on selected appointments, and the normalisation applied on load.
 * Both implementations write these operations identically, so they are
 * defined once here and used by both classes.
 */
module Selection {
  import opened Sequences
  import opened Appointments

  // ---------------------------------------------------------------------------
  // Selection setters
  // ---------------------------------------------------------------------------

  /**
   * `updateAppointmentSelection`: sets `selected` on the appointments with the
   * given id, in the days with the given number, in the months with the given name.
   */
  function SelectAppointment(t: Tree, monthName: string, dayNumber: int, id: int, selected: bool): (r: Tree)
    ensures EqualExceptSelection(t, r)
    ensures forall i, j, k | ValidPos(t, i, j, k) ::
      AppAt(r, i, j, k).selected ==
        if t[i].name == monthName && t[i].days[j].dayNumber == dayNumber && AppAt(t, i, j, k).id == id
        then selected else AppAt(t, i, j, k).selected
  {
    seq(|t|, i requires 0 <= i < |t| =>
      if t[i].name != monthName then t[i]
      else t[i].(days := seq(|t[i].days|, j requires 0 <= j < |t[i].days| =>
        var d := t[i].days[j];
        if d.dayNumber != dayNumber then d
        else d.(appointments := seq(|d.appointments|, k requires 0 <= k < |d.appointments| =>
          var a := d.appointments[k];
          if a.id != id then a else a.(selected := selected))))))
  }

  /** `updateDaySelection`: sets `selected` on every appointment of the matching days. */
  function SelectDay(t: Tree, monthName: string, dayNumber: int, selected: bool): (r: Tree)
    ensures EqualExceptSelection(t, r)
    ensures forall i, j, k | ValidPos(t, i, j, k) ::
      AppAt(r, i, j, k).selected ==
        if t[i].name == monthName && t[i].days[j].dayNumber == dayNumber
        then selected else AppAt(t, i, j, k).selected
  {
    seq(|t|, i requires 0 <= i < |t| =>
      if t[i].name != monthName then t[i]
      else t[i].(days := seq(|t[i].days|, j requires 0 <= j < |t[i].days| =>
        var d := t[i].days[j];
        if d.dayNumber != dayNumber then d
        else d.(appointments := seq(|d.appointments|, k requires 0 <= k < |d.appointments| =>
          d.appointments[k].(selected := selected))))))
  }

  /** `updateMonthSelection`: sets `selected` on every appointment of the matching months. */
  function SelectMonth(t: Tree, monthName: string, selected: bool): (r: Tree)
    ensures EqualExceptSelection(t, r)
    ensures forall i, j, k | ValidPos(t, i, j, k) ::
      AppAt(r, i, j, k).selected == if t[i].name == monthName then selected else AppAt(t, i, j, k).selected
  {
    seq(|t|, i requires 0 <= i < |t| =>
      if t[i].name != monthName then t[i]
      else t[i].(days := seq(|t[i].days|, j requires 0 <= j < |t[i].days| =>
        var d := t[i].days[j];
        d.(appointments := seq(|d.appointments|, k requires 0 <= k < |d.appointments| =>
          d.appointments[k].(selected := selected))))))
  }

  // ---------------------------------------------------------------------------
  // Bulk status changes
  // ---------------------------------------------------------------------------

  /** The three bulk commands: confirm, cancel and unconfirm the selected appointments. */
  datatype StatusChange = Confirm | Cancel | Unconfirm {
    /** The `confermato` flag this command leaves on the appointments it touches. */
    function Confirmed(): bool { this == Confirm }
    /** The `annullato` flag this command leaves on the appointments it touches. */
    function Cancelled(): bool { this == Cancel }
  }

  /**
   * `confirmSelectedAppointments`, `cancelSelectedAppointments` and
   * `unconfirmSelectedAppointments`: every selected appointment gets the
   * command's flags and loses its selection; every other one is left as it was.
   */
  function ChangeSelectedStatus(t: Tree, c: StatusChange): (r: Tree)
    ensures SameShape(t, r)
    ensures forall i, j, k | ValidPos(t, i, j, k) && !AppAt(t, i, j, k).selected ::
      AppAt(r, i, j, k) == AppAt(t, i, j, k)
    ensures forall i, j, k | ValidPos(t, i, j, k) && AppAt(t, i, j, k).selected ::
      AppAt(r, i, j, k) == AppAt(t, i, j, k).(confirmed := c.Confirmed(), cancelled := c.Cancelled(), selected := false)
  {
    seq(|t|, i requires 0 <= i < |t| =>
      t[i].(days := seq(|t[i].days|, j requires 0 <= j < |t[i].days| =>
        var d := t[i].days[j];
        d.(appointments := seq(|d.appointments|, k requires 0 <= k < |d.appointments| =>
          var a := d.appointments[k];
          if !a.selected then a
          else a.(confirmed := c.Confirmed(), cancelled := c.Cancelled(), selected := false))))))
  }

  // ---------------------------------------------------------------------------
  // Normalisation on load
  // ---------------------------------------------------------------------------

  /** The tree with every `selected` flag forced to false, as `loadAppointments` leaves it. */
  function ClearSelection(t: Tree): (r: Tree)
    ensures EqualExceptSelection(t, r)
    ensures NoneSelected(r)
  {
    seq(|t|, i requires 0 <= i < |t| =>
      t[i].(days := seq(|t[i].days|, j requires 0 <= j < |t[i].days| =>
        var d := t[i].days[j];
        d.(appointments := seq(|d.appointments|, k requires 0 <= k < |d.appointments| =>
          Unselected(d.appointments[k]))))))
  }

  // ---------------------------------------------------------------------------
  // Properties
  // ---------------------------------------------------------------------------

  /** Two trees agree up to selection exactly when their normalised forms are equal. */
  lemma ClearSelectionCanonical(t: Tree, u: Tree)
    ensures EqualExceptSelection(t, u) <==> ClearSelection(t) == ClearSelection(u)
  {
    var ct, cu := ClearSelection(t), ClearSelection(u);
    forall i, j, k | ValidPos(t, i, j, k) ensures AppAt(ct, i, j, k) == Unselected(AppAt(t, i, j, k)) {
      assert !AppAt(ct, i, j, k).selected;
    }
    forall i, j, k | ValidPos(u, i, j, k) ensures AppAt(cu, i, j, k) == Unselected(AppAt(u, i, j, k)) {
      assert !AppAt(cu, i, j, k).selected;
    }
    if EqualExceptSelection(t, u) {
      TreeExtensionality(ct, cu);
    }
    if ct == cu {
      assert SameShape(t, u);
      forall i, j, k | ValidPos(t, i, j, k)
        ensures Unselected(AppAt(t, i, j, k)) == Unselected(AppAt(u, i, j, k))
      {
        assert ValidPos(u, i, j, k);
        assert AppAt(ct, i, j, k) == AppAt(cu, i, j, k);
      }
    }
  }

  /** Normalising twice is normalising once. */
  lemma ClearSelectionIdempotent(t: Tree)
    ensures ClearSelection(ClearSelection(t)) == ClearSelection(t)
  {
    var c := ClearSelection(t);
    var cc := ClearSelection(c);
    forall i, j, k | ValidPos(c, i, j, k) ensures AppAt(cc, i, j, k) == AppAt(c, i, j, k) {
      assert !AppAt(c, i, j, k).selected && !AppAt(cc, i, j, k).selected;
      assert Unselected(AppAt(c, i, j, k)) == Unselected(AppAt(cc, i, j, k));
    }
    TreeExtensionality(cc, c);
  }

  /** `updateAppointmentSelection` with a key path that resolves nowhere changes nothing. */
  lemma SelectAppointmentNoMatch(t: Tree, monthName: string, dayNumber: int, id: int, selected: bool)
    requires forall i, j, k | ValidPos(t, i, j, k) ::
      !(t[i].name == monthName && t[i].days[j].dayNumber == dayNumber && AppAt(t, i, j, k).id == id)
    ensures SelectAppointment(t, monthName, dayNumber, id, selected) == t
  {
    var r := SelectAppointment(t, monthName, dayNumber, id, selected);
    forall i, j, k | ValidPos(t, i, j, k) ensures AppAt(t, i, j, k) == AppAt(r, i, j, k) {
      assert Unselected(AppAt(t, i, j, k)) == Unselected(AppAt(r, i, j, k));
    }
    TreeExtensionality(t, r);
  }

  /** After a bulk status change no appointment is selected, so the selected count is 0. */
  lemma ChangeSelectedStatusClearsSelection(t: Tree, c: StatusChange)
    ensures SelectedAppointmentsCount(ChangeSelectedStatus(t, c)) == 0
  {
    var r := ChangeSelectedStatus(t, c);
    forall i, j, k | ValidPos(r, i, j, k) ensures !AppAt(r, i, j, k).selected {
      assert ValidPos(t, i, j, k);
    }
    SelectedCountZero(r);
  }

  /**
   * A status change never leaves an appointment both confirmed and cancelled
   * unless it already was and was not selected.
   */
  lemma ChangeSelectedStatusExclusive(t: Tree, c: StatusChange, i: int, j: int, k: int)
    requires ValidPos(t, i, j, k)
    ensures ValidPos(ChangeSelectedStatus(t, c), i, j, k)
    ensures AppAt(ChangeSelectedStatus(t, c), i, j, k).confirmed && AppAt(ChangeSelectedStatus(t, c), i, j, k).cancelled
        ==> !AppAt(t, i, j, k).selected && AppAt(t, i, j, k).confirmed && AppAt(t, i, j, k).cancelled
  {
  }

  /** The selection setters and the status changes keep months, days, ids and times in place. */
  lemma OperationsKeepSkeleton(t: Tree, monthName: string, dayNumber: int, id: int, selected: bool, c: StatusChange)
    ensures SameSkeleton(t, SelectAppointment(t, monthName, dayNumber, id, selected))
    ensures SameSkeleton(t, SelectDay(t, monthName, dayNumber, selected))
    ensures SameSkeleton(t, SelectMonth(t, monthName, selected))
    ensures SameSkeleton(t, ChangeSelectedStatus(t, c))
    ensures SameSkeleton(t, ClearSelection(t))
  {
    EqualExceptSelectionSkeleton(t, SelectAppointment(t, monthName, dayNumber, id, selected));
    EqualExceptSelectionSkeleton(t, SelectDay(t, monthName, dayNumber, selected));
    EqualExceptSelectionSkeleton(t, SelectMonth(t, monthName, selected));
    EqualExceptSelectionSkeleton(t, ClearSelection(t));
    var r := ChangeSelectedStatus(t, c);
    forall i, j, k | ValidPos(t, i, j, k)
      ensures AppAt(t, i, j, k).id == AppAt(r, i, j, k).id && AppAt(t, i, j, k).time == AppAt(r, i, j, k).time
    {
    }
  }

  /**
   * The unit tests' "unconfirm" scenario: confirm a selected appointment, select it
   * again by its (month, day, id) key and unconfirm: it is pending and unselected.
   */
  lemma ConfirmThenUnconfirm(t: Tree, i: int, j: int, k: int)
    requires ValidPos(t, i, j, k) && AppAt(t, i, j, k).selected
    ensures var a := AppAt(t, i, j, k);
      var confirmed := ChangeSelectedStatus(t, Confirm);
      var reselected := SelectAppointment(confirmed, t[i].name, t[i].days[j].dayNumber, a.id, true);
      var pending := ChangeSelectedStatus(reselected, Unconfirm);
      ValidPos(confirmed, i, j, k) && AppAt(confirmed, i, j, k).confirmed && !AppAt(confirmed, i, j, k).cancelled &&
      ValidPos(pending, i, j, k) && AppAt(pending, i, j, k) == a.(confirmed := false, cancelled := false, selected := false)
  {
    var a := AppAt(t, i, j, k);
    var confirmed := ChangeSelectedStatus(t, Confirm);
    assert ValidPos(confirmed, i, j, k);
    var reselected := SelectAppointment(confirmed, t[i].name, t[i].days[j].dayNumber, a.id, true);
    assert ValidPos(reselected, i, j, k);
    assert Unselected(AppAt(confirmed, i, j, k)) == Unselected(AppAt(reselected, i, j, k));
    assert AppAt(reselected, i, j, k) == a.(confirmed := true, cancelled := false, selected := true);
  }

  /**
   * Setting the selection of a whole month, on a list with unique month
   * names, replaces that month's contribution to the selected count: its
   * previously selected appointments are no longer counted, and all of its
   * appointments are counted when selecting, none when deselecting.
   */
  lemma SelectMonthCount(t: Tree, i: int, selected: bool)
    requires 0 <= i < |t| && DistinctBy(t, MonthName)
    ensures SelectedAppointmentsCount(SelectMonth(t, t[i].name, selected)) + MonthSelected(t[i]) ==
      SelectedAppointmentsCount(t) + (if selected then MonthTotal(t[i]) else 0)
  {
    var name := t[i].name;
    var r := SelectMonth(t, name, selected);
    assert r == t[i := r[i]] by {
      forall i' | 0 <= i' < |t| && i' != i ensures r[i'] == t[i'] {
        assert MonthName(t[i']) != MonthName(t[i]);
      }
    }
    SumByUpdate(t, i, r[i], MonthSelected);
    SameShapeTotal(t, r);
    forall j, k | 0 <= j < |r[i].days| && 0 <= k < |r[i].days[j].appointments|
      ensures r[i].days[j].appointments[k].selected == selected
    {
      assert ValidPos(t, i, j, k);
    }
    if selected {
      MonthSelectedBound(r[i]);
    } else {
      MonthSelectedZero(r[i]);
    }
  }

}
