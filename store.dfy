/**
 * `AppointmentStore`: the signal store holding the month list. Every
 * operation replaces `mainList` with a new tree and then writes it to the
 * storage slot; `clearAllData` empties the list and removes the slot.
 */
module Store {
  import opened Appointments
  import opened Selection
  import opened Persistence
  import Insertion

  class AppointmentStore {
    /** The month list (`mainList`). */
    var mainList: Tree
    /** The storage slot under the key 'todo-app-data': a saved tree, or nothing. */
    var saved: Option<Tree>

    /** The initial state: an empty list, with whatever the slot already holds. */
    constructor(slot: Option<Tree>)
      ensures mainList == [] && saved == slot
    {
      mainList := [];
      saved := slot;
    }

    /**
     * `selectedAppointmentsCount`: the number of selected appointments, which
     * is zero exactly when none is selected and the total exactly when all are.
     */
    function SelectedAppointmentsCount(): (n: nat)
      reads this
      ensures n == Appointments.SelectedAppointmentsCount(mainList)
      ensures n <= Total(mainList)
      ensures n == 0 <==> NoneSelected(mainList)
      ensures n == Total(mainList) <==> AllSelected(mainList)
    {
      SelectedCountBound(mainList);
      SelectedCountZero(mainList);
      Appointments.SelectedAppointmentsCount(mainList)
    }

    /**
     * `loadAppointments`: installs the stored tree with every selection
     * cleared, or the seed list as written when the slot is empty. The slot is not written.
     */
    method LoadAppointments()
      modifies this
      ensures saved == old(saved)
      ensures mainList == Restore(saved)
      ensures NoneSelected(mainList)
    {
      match saved {
        case None =>
          mainList := SeedAsWritten();
        case Some(parsed) =>
          mainList := Normalize(parsed);
      }
    }

    /**
     * `addAppointment`: files the unselected copy of `a` under the month and
     * day of its date, creating them when missing, then saves. Uniqueness of
     * names and numbers, order and filing by date are kept, and on a tree
     * with unique names and numbers exactly one appointment is added.
     */
    method AddAppointment(cal: Calendar, a: Appointment)
      modifies this
      ensures mainList == Insertion.AddAppointment(old(mainList), cal, a)
      ensures saved == Some(mainList)
      ensures Distinct(old(mainList)) ==> Distinct(mainList) && Total(mainList) == Total(old(mainList)) + 1
      ensures Ordered(old(mainList)) ==> Ordered(mainList)
      ensures Filed(old(mainList), cal) ==> Filed(mainList, cal)
    {
      if Distinct(mainList) {
        Insertion.AddAppointmentKeepsDistinct(mainList, cal, a);
        Insertion.AddAppointmentTotal(mainList, cal, a);
      }
      if Ordered(mainList) {
        Insertion.AddAppointmentKeepsOrder(mainList, cal, a);
      }
      if Filed(mainList, cal) {
        Insertion.AddAppointmentKeepsFiled(mainList, cal, a);
      }
      mainList := Insertion.AddAppointment(mainList, cal, a);
      saved := Some(mainList);
    }

    /** `updateAppointmentSelection`, then save. */
    method UpdateAppointmentSelection(monthName: string, dayNumber: int, id: int, selected: bool)
      modifies this
      ensures mainList == SelectAppointment(old(mainList), monthName, dayNumber, id, selected)
      ensures saved == Some(mainList)
    {
      mainList := SelectAppointment(mainList, monthName, dayNumber, id, selected);
      saved := Some(mainList);
    }

    /** `updateDaySelection`, then save. */
    method UpdateDaySelection(monthName: string, dayNumber: int, selected: bool)
      modifies this
      ensures mainList == SelectDay(old(mainList), monthName, dayNumber, selected)
      ensures saved == Some(mainList)
    {
      mainList := SelectDay(mainList, monthName, dayNumber, selected);
      saved := Some(mainList);
    }

    /** `updateMonthSelection`, then save. */
    method UpdateMonthSelection(monthName: string, selected: bool)
      modifies this
      ensures mainList == SelectMonth(old(mainList), monthName, selected)
      ensures saved == Some(mainList)
    {
      mainList := SelectMonth(mainList, monthName, selected);
      saved := Some(mainList);
    }

    /** `confirmSelectedAppointments`, then save; no appointment is left selected. */
    method ConfirmSelectedAppointments()
      modifies this
      ensures mainList == ChangeSelectedStatus(old(mainList), Confirm)
      ensures saved == Some(mainList)
      ensures Appointments.SelectedAppointmentsCount(mainList) == 0
    {
      ChangeSelectedStatusClearsSelection(mainList, Confirm);
      mainList := ChangeSelectedStatus(mainList, Confirm);
      saved := Some(mainList);
    }

    /** `cancelSelectedAppointments`, then save; no appointment is left selected. */
    method CancelSelectedAppointments()
      modifies this
      ensures mainList == ChangeSelectedStatus(old(mainList), Cancel)
      ensures saved == Some(mainList)
      ensures Appointments.SelectedAppointmentsCount(mainList) == 0
    {
      ChangeSelectedStatusClearsSelection(mainList, Cancel);
      mainList := ChangeSelectedStatus(mainList, Cancel);
      saved := Some(mainList);
    }

    /** `unconfirmSelectedAppointments`, then save; no appointment is left selected. */
    method UnconfirmSelectedAppointments()
      modifies this
      ensures mainList == ChangeSelectedStatus(old(mainList), Unconfirm)
      ensures saved == Some(mainList)
      ensures Appointments.SelectedAppointmentsCount(mainList) == 0
    {
      ChangeSelectedStatusClearsSelection(mainList, Unconfirm);
      mainList := ChangeSelectedStatus(mainList, Unconfirm);
      saved := Some(mainList);
    }

    /**
     * `clearAllData`: empties the list and removes the slot, so the next
     * load installs the seed list again.
     */
    method ClearAllData()
      modifies this
      ensures mainList == [] && saved == None
      ensures Restore(saved) == SeedAsWritten()
    {
      mainList := [];
      saved := None;
    }
  }
}
