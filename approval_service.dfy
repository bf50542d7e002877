/**
 * The approval workflow (ApprovalService.kt): a closed set of statuses, a
 * table of allowed transitions and a table of which role may move a
 * reservation into which status. A status change that passes both checks
 * rewrites one reservation and appends exactly one audit log, in one step.
 */
module ApprovalService {
  import opened Wrappers
  import opened Model
  import opened Seqs
  import opened Persistence
  import JavaTime
  import Reservations = EventReservationRepository

  datatype ApprovalResult = ApprovalResult(success: bool, message: string, reservation: Option<EventReservation>)

  datatype ValidationResult = ValidationResult(isValid: bool, errorMessage: Option<string>)

  /** The transition table; a status missing from it has no way out. */
  const ValidTransitions: map<ReservationStatus, set<ReservationStatus>> :=
    map[
      Pending := {AdvisorApproved, Rejected, Cancelled},
      AdvisorApproved := {Approved, Rejected},
      Approved := {Cancelled}]

  /** The statuses a reservation in `current` may move to (`validTransitions[current].orEmpty()`). */
  function AllowedNext(current: ReservationStatus): set<ReservationStatus>
  {
    if current in ValidTransitions then ValidTransitions[current] else {}
  }

  /** The role table: which approver roles may move a reservation into `newStatus`. */
  predicate HasPermission(newStatus: ReservationStatus, approverRole: string)
  {
    match newStatus
    case AdvisorApproved => approverRole in {"ADVISOR", "ADMIN"}
    case Approved => approverRole == "ADMIN"
    case Rejected => approverRole in {"ADVISOR", "ADMIN"}
    case Cancelled => approverRole in {"STUDENT", "ADMIN"}
    case Pending => false
  }

  /** REJECTED and CANCELLED are final; the other three statuses each have a way on. */
  lemma FinalStatuses(s: ReservationStatus)
    ensures AllowedNext(s) == {} <==> s == Rejected || s == Cancelled
  {
    if s == Pending { assert AdvisorApproved in AllowedNext(s); }
    if s == AdvisorApproved { assert Approved in AllowedNext(s); }
    if s == Approved { assert Cancelled in AllowedNext(s); }
  }

  /** No role may put a reservation back to PENDING, and only an administrator may give final approval. */
  lemma RoleTableRestrictions(approverRole: string)
    ensures !HasPermission(Pending, approverRole)
    ensures HasPermission(Approved, approverRole) <==> approverRole == "ADMIN"
    ensures HasPermission(Cancelled, approverRole) ==> approverRole != "ADVISOR"
  {
  }

  /** An administrator passes the role check for every allowed transition. */
  lemma AdminMayTakeEveryTransition(current: ReservationStatus, newStatus: ReservationStatus)
    requires newStatus in AllowedNext(current)
    ensures HasPermission(newStatus, "ADMIN")
  {
  }

  /**
   * `validateStatusTransition`: valid exactly when the transition is in the
   * table and the role may take it; the transition is checked first, so an
   * illegal transition reports that whatever the role.
   */
  function ValidateStatusTransition(currentStatus: ReservationStatus, newStatus: ReservationStatus,
                                    approverRole: string): (r: ValidationResult)
    ensures r.isValid <==> newStatus in AllowedNext(currentStatus) && HasPermission(newStatus, approverRole)
    ensures r.isValid <==> r.errorMessage.None?
    ensures newStatus !in AllowedNext(currentStatus) ==>
      r.errorMessage == Some("Invalid status transition: " + currentStatus.Name() + " \U{2192} " + newStatus.Name())
    ensures newStatus in AllowedNext(currentStatus) && !HasPermission(newStatus, approverRole) ==>
      r.errorMessage == Some("Role '" + approverRole + "' cannot transition to " + newStatus.Name())
  {
    if newStatus !in AllowedNext(currentStatus) then
      ValidationResult(false, Some("Invalid status transition: " + currentStatus.Name() + " \U{2192} " + newStatus.Name()))
    else if !HasPermission(newStatus, approverRole) then
      ValidationResult(false, Some("Role '" + approverRole + "' cannot transition to " + newStatus.Name()))
    else
      ValidationResult(true, None)
  }

  /** How far along the workflow a status is. */
  function Stage(s: ReservationStatus): nat
  {
    match s
    case Pending => 0
    case AdvisorApproved => 1
    case Approved => 2
    case Rejected => 3
    case Cancelled => 3
  }

  /** Every allowed transition moves strictly forward. */
  lemma TransitionsMoveForward(current: ReservationStatus, newStatus: ReservationStatus)
    requires newStatus in AllowedNext(current)
    ensures Stage(current) < Stage(newStatus)
  {
  }

  /** A run of statuses in which each step is an allowed transition. */
  predicate IsWorkflowPath(path: seq<ReservationStatus>)
  {
    forall i :: 0 <= i < |path| - 1 ==> path[i + 1] in AllowedNext(path[i])
  }

  lemma {:induction false} WorkflowPathsAdvance(path: seq<ReservationStatus>)
    requires |path| > 0 && IsWorkflowPath(path)
    ensures Stage(path[|path| - 1]) >= Stage(path[0]) + |path| - 1
  {
    if |path| > 1 {
      var prefix := path[..|path| - 1];
      assert IsWorkflowPath(prefix) by {
        forall i | 0 <= i < |prefix| - 1 ensures prefix[i + 1] in AllowedNext(prefix[i]) {
          assert prefix[i] == path[i] && prefix[i + 1] == path[i + 1];
        }
      }
      WorkflowPathsAdvance(prefix);
      TransitionsMoveForward(path[|path| - 2], path[|path| - 1]);
    }
  }

  /**
   * The workflow cannot loop: a reservation passes through at most four
   * statuses, and a path never returns to a status it has already held.
   */
  lemma WorkflowTerminates(path: seq<ReservationStatus>)
    requires |path| > 0 && IsWorkflowPath(path)
    ensures |path| <= 4
    ensures |path| > 1 ==> path[|path| - 1] != path[0]
    ensures forall i, j :: 0 <= i < j < |path| ==> path[i] != path[j]
  {
    WorkflowPathsAdvance(path);
    forall i, j | 0 <= i < j < |path| ensures path[i] != path[j] {
      var segment := path[i..j + 1];
      assert IsWorkflowPath(segment) by {
        forall k | 0 <= k < |segment| - 1 ensures segment[k + 1] in AllowedNext(segment[k]) {
          assert segment[k] == path[i + k] && segment[k + 1] == path[i + k + 1];
        }
      }
      WorkflowPathsAdvance(segment);
    }
  }

  /** No allowed transition makes a reservation hold its room if it did not already. */
  lemma TransitionsNeverOccupy(current: ReservationStatus, newStatus: ReservationStatus)
    requires newStatus in AllowedNext(current)
    ensures Reservations.Occupying(newStatus) ==> Reservations.Occupying(current)
  {
  }

  /**
   * The reservation as the status change writes it: the new status, the
   * approver and the time recorded only on final approval, every other field
   * unchanged.
   */
  function Transitioned(e: EventReservation, newStatus: ReservationStatus, approvedBy: string,
                        now: JavaTime.LocalDateTime): (r: EventReservation)
    ensures r.status == newStatus
    ensures newStatus == Approved ==> r.approvedBy == Some(approvedBy) && r.approvedAt == Some(now)
    ensures newStatus != Approved ==> r.approvedBy == e.approvedBy && r.approvedAt == e.approvedAt
    ensures r == e.(status := newStatus, approvedBy := r.approvedBy, approvedAt := r.approvedAt)
  {
    e.(status := newStatus,
       approvedBy := if newStatus == Approved then Some(approvedBy) else e.approvedBy,
       approvedAt := if newStatus == Approved then Some(now) else e.approvedAt)
  }

  /** What a status-change request returns, with both tables after it. */
  datatype Outcome = Outcome(result: Result<ApprovalResult>, reservations: seq<EventReservation>,
                             logs: seq<ApprovalLog>)

  predicate Succeeded(o: Outcome)
  {
    o.result.Ok? && o.result.value.success
  }

  /**
   * `approveReservation` on the tables `rows` and `logs`, with `now` for the
   * clock: an unknown id is an error, a refused change leaves both tables as
   * they were and says whether the transition or the role was refused, and an
   * accepted one rewrites that reservation in place and
   * appends one log entry recording the status before and after.
   */
  function Approval(rows: seq<EventReservation>, logs: seq<ApprovalLog>, reservationId: int,
                    newStatus: ReservationStatus, approvedBy: string, approverRole: string,
                    comments: Option<string>, now: JavaTime.LocalDateTime): (o: Outcome)
    requires KeyedRows(rows)
    ensures o.result.Err? <==> forall e :: e in rows ==> e.id != Some(reservationId)
    ensures o.result.Err? ==> o.result.error == ReservationNotFound(reservationId)
    ensures o.result.Ok? ==> (o.result.value.success <==> o.result.value.reservation.Some?)
    ensures !Succeeded(o) ==> o.reservations == rows && o.logs == logs
    ensures Succeeded(o) <==>
      && Reservations.IndexOfId(rows, reservationId).Some?
      && newStatus in AllowedNext(rows[Reservations.IndexOfId(rows, reservationId).value].status)
      && HasPermission(newStatus, approverRole)
    ensures o.result.Ok? && !o.result.value.success ==>
      var current := rows[Reservations.IndexOfId(rows, reservationId).value].status;
      o.result.value.message ==
        if newStatus !in AllowedNext(current) then
          "Invalid status transition: " + current.Name() + " \U{2192} " + newStatus.Name()
        else
          "Role '" + approverRole + "' cannot transition to " + newStatus.Name()
    ensures Succeeded(o) ==>
      var i := Reservations.IndexOfId(rows, reservationId).value;
      var saved := Transitioned(rows[i], newStatus, approvedBy, now);
      && o.reservations == rows[i := saved]
      && o.result.value.reservation == Some(saved)
      && o.result.value.message == "Status changed from " + rows[i].status.Name() + " to " + newStatus.Name()
      && o.logs == logs + [ApprovalLog(Some(|logs| + 1), saved, rows[i].status, newStatus,
                                       Some(approvedBy), now, comments, Some(approverRole))]
  {
    match Reservations.FindById(rows, reservationId)
    case None => Outcome(Err(ReservationNotFound(reservationId)), rows, logs)
    case Some(reservation) =>
      var validation := ValidateStatusTransition(reservation.status, newStatus, approverRole);
      if !validation.isValid then
        Outcome(Ok(ApprovalResult(false, validation.errorMessage.value, None)), rows, logs)
      else
        var previousStatus := reservation.status;
        var written := Upsert(rows, Transitioned(reservation, newStatus, approvedBy, now));
        SaveOfStoredRowReplacesIt(rows, Reservations.IndexOfId(rows, reservationId).value,
                                  Transitioned(reservation, newStatus, approvedBy, now));
        var log := ApprovalLog(Some(|logs| + 1), written.1, previousStatus, newStatus,
                               Some(approvedBy), now, comments, Some(approverRole));
        Outcome(Ok(ApprovalResult(true, "Status changed from " + previousStatus.Name() + " to " + newStatus.Name(),
                                  Some(written.1))),
                written.0, logs + [log])
  }

  /** Saving an entity under the id of the stored row `i` replaces exactly that row. */
  lemma SaveOfStoredRowReplacesIt(rows: seq<EventReservation>, i: nat, e: EventReservation)
    requires KeyedRows(rows)
    requires i < |rows| && e.id == rows[i].id
    ensures Upsert(rows, e) == (rows[i := e], e)
  {
    var r := Upsert(rows, e);
    assert |r.0| == |rows|;
    assert r.1 == e;
    assert r.0 == rows[i := e] by {
      forall k | 0 <= k < |rows| ensures r.0[k] == rows[i := e][k] {
        if k != i {
          assert rows[k].id != rows[i].id;
        }
      }
    }
  }

  /** `approveReservation`, as one transaction on the store. */
  method ApproveReservation(store: ReservationStore, reservationId: int, newStatus: ReservationStatus,
                            approvedBy: string, approverRole: string, comments: Option<string>,
                            now: JavaTime.LocalDateTime)
    returns (r: Result<ApprovalResult>)
    requires store.Valid()
    modifies store
    ensures store.Valid()
    ensures Approval(old(store.reservations), old(store.logs), reservationId, newStatus, approvedBy,
                     approverRole, comments, now)
            == Outcome(r, store.reservations, store.logs)
  {
    var found := Reservations.FindById(store.reservations, reservationId);
    if found.None? {
      return Err(ReservationNotFound(reservationId));
    }
    var reservation := found.value;
    var validation := ValidateStatusTransition(reservation.status, newStatus, approverRole);
    if !validation.isValid {
      return Ok(ApprovalResult(false, validation.errorMessage.value, None));
    }
    var previousStatus := reservation.status;
    var updatedReservation := Transitioned(reservation, newStatus, approvedBy, now);
    var saved := store.Save(updatedReservation);
    var log := ApprovalLog(None, saved, previousStatus, newStatus, Some(approvedBy), now, comments,
                           Some(approverRole));
    var _ := store.AppendLog(log);
    r := Ok(ApprovalResult(true, "Status changed from " + previousStatus.Name() + " to " + newStatus.Name(),
                           Some(saved)));
  }

  /** `rejectReservation`: a change to REJECTED whose log comment carries the reason. */
  method RejectReservation(store: ReservationStore, reservationId: int, rejectedBy: string,
                           rejectorRole: string, reason: string, now: JavaTime.LocalDateTime)
    returns (r: Result<ApprovalResult>)
    requires store.Valid()
    modifies store
    ensures store.Valid()
    ensures Approval(old(store.reservations), old(store.logs), reservationId, Rejected, rejectedBy,
                     rejectorRole, Some("REJECTED: " + reason), now)
            == Outcome(r, store.reservations, store.logs)
  {
    r := ApproveReservation(store, reservationId, Rejected, rejectedBy, rejectorRole,
                            Some("REJECTED: " + reason), now);
  }

  /** `cancelReservation`: a change to CANCELLED, always made in the STUDENT role. */
  method CancelReservation(store: ReservationStore, reservationId: int, cancelledBy: string,
                           now: JavaTime.LocalDateTime)
    returns (r: Result<ApprovalResult>)
    requires store.Valid()
    modifies store
    ensures store.Valid()
    ensures Approval(old(store.reservations), old(store.logs), reservationId, Cancelled, cancelledBy,
                     "STUDENT", Some("Cancelled by requester"), now)
            == Outcome(r, store.reservations, store.logs)
  {
    r := ApproveReservation(store, reservationId, Cancelled, cancelledBy, "STUDENT",
                            Some("Cancelled by requester"), now);
  }

  /** A cancellation of a stored reservation goes through exactly when it is PENDING or APPROVED. */
  lemma CancelSucceedsIffPendingOrApproved(rows: seq<EventReservation>, logs: seq<ApprovalLog>,
                                           reservationId: int, cancelledBy: string,
                                           now: JavaTime.LocalDateTime)
    requires KeyedRows(rows)
    requires Reservations.FindById(rows, reservationId).Some?
    ensures Succeeded(Approval(rows, logs, reservationId, Cancelled, cancelledBy, "STUDENT",
                               Some("Cancelled by requester"), now))
            <==> Reservations.FindById(rows, reservationId).value.status in {Pending, Approved}
  {
  }

  /** An advisor asking for final approval is refused and nothing is written. */
  lemma AdvisorCannotGiveFinalApproval(rows: seq<EventReservation>, logs: seq<ApprovalLog>,
                                       reservationId: int, approvedBy: string, comments: Option<string>,
                                       now: JavaTime.LocalDateTime)
    requires KeyedRows(rows)
    ensures var o := Approval(rows, logs, reservationId, Approved, approvedBy, "ADVISOR", comments, now);
            !Succeeded(o) && o.reservations == rows && o.logs == logs
  {
  }

  /**
   * An illegal transition is reported as such whatever the role, and nothing
   * is written.
   */
  lemma IllegalTransitionReportedBeforeRole(rows: seq<EventReservation>, logs: seq<ApprovalLog>,
                                            reservationId: int, newStatus: ReservationStatus,
                                            approvedBy: string, approverRole: string,
                                            comments: Option<string>, now: JavaTime.LocalDateTime)
    requires KeyedRows(rows)
    requires Reservations.FindById(rows, reservationId).Some?
    requires newStatus !in AllowedNext(Reservations.FindById(rows, reservationId).value.status)
    ensures Approval(rows, logs, reservationId, newStatus, approvedBy, approverRole, comments, now)
            == Outcome(Ok(ApprovalResult(false,
                 "Invalid status transition: " + Reservations.FindById(rows, reservationId).value.status.Name()
                 + " \U{2192} " + newStatus.Name(), None)), rows, logs)
  {
  }

  /**
   * The workflow keeps the store invariants: a status change never makes two
   * reservations hold the same room at once, nor a reservation hold a room
   * during a class, if none did before.
   */
  lemma ApprovalKeepsInvariants(schedules: seq<AcademicSchedule>, rows: seq<EventReservation>,
                                logs: seq<ApprovalLog>, reservationId: int, newStatus: ReservationStatus,
                                approvedBy: string, approverRole: string, comments: Option<string>,
                                now: JavaTime.LocalDateTime)
    requires KeyedRows(rows)
    requires NoDoubleBooking(rows) && ClearOfClasses(schedules, rows)
    ensures var o := Approval(rows, logs, reservationId, newStatus, approvedBy, approverRole, comments, now);
            NoDoubleBooking(o.reservations) && ClearOfClasses(schedules, o.reservations)
  {
    var o := Approval(rows, logs, reservationId, newStatus, approvedBy, approverRole, comments, now);
    if Succeeded(o) {
      var i := Reservations.IndexOfId(rows, reservationId).value;
      TransitionsNeverOccupy(rows[i].status, newStatus);
      ReplacingWithoutActivatingKeepsInvariants(schedules, rows, i,
                                                Transitioned(rows[i], newStatus, approvedBy, now));
    }
  }

  /** The log entries of one reservation, newest first (`approvedAt` descending). */
  predicate NewerOrSame(a: ApprovalLog, b: ApprovalLog)
  {
    a.approvedAt >= b.approvedAt
  }

  lemma NewerOrSameIsTotalPreorder()
    ensures TotalPreorder(NewerOrSame)
  {
  }

  predicate LogOf(l: ApprovalLog, reservationId: int)
  {
    l.reservation.id == Some(reservationId)
  }

  /**
   * `getApprovalHistory`: every log entry of the reservation, each as often as
   * it is stored, and none of another, newest first.
   */
  function GetApprovalHistory(logs: seq<ApprovalLog>, reservationId: int): (r: seq<ApprovalLog>)
    ensures forall l :: l in r ==> l in logs && l.reservation.id == Some(reservationId)
    ensures forall l :: l in logs && l.reservation.id == Some(reservationId) ==> l in r
    ensures multiset(r) == multiset(Filter(logs, (l: ApprovalLog) => LogOf(l, reservationId)))
    ensures forall i, j :: 0 <= i < j < |r| ==> r[i].approvedAt >= r[j].approvedAt
  {
    var matching := Filter(logs, (l: ApprovalLog) => LogOf(l, reservationId));
    NewerOrSameIsTotalPreorder();
    var r := SortBy(matching, NewerOrSame);
    assert forall l :: l in r <==> l in matching by {
      forall l ensures l in r <==> l in matching {
        assert l in r <==> l in multiset(r);
      }
    }
    r
  }

  /**
   * A successful status change adds exactly one entry, the new log, to that
   * reservation's history, and leaves every other reservation's history as it was.
   */
  lemma ApprovalExtendsHistoryByOne(rows: seq<EventReservation>, logs: seq<ApprovalLog>, reservationId: int,
                                    newStatus: ReservationStatus, approvedBy: string, approverRole: string,
                                    comments: Option<string>, now: JavaTime.LocalDateTime, otherId: int)
    requires KeyedRows(rows)
    requires Succeeded(Approval(rows, logs, reservationId, newStatus, approvedBy, approverRole, comments, now))
    requires otherId != reservationId
    ensures var o := Approval(rows, logs, reservationId, newStatus, approvedBy, approverRole, comments, now);
            && multiset(GetApprovalHistory(o.logs, reservationId))
               == multiset(GetApprovalHistory(logs, reservationId)) + multiset{o.logs[|logs|]}
            && multiset(GetApprovalHistory(o.logs, otherId)) == multiset(GetApprovalHistory(logs, otherId))
  {
    var o := Approval(rows, logs, reservationId, newStatus, approvedBy, approverRole, comments, now);
    var log := o.logs[|logs|];
    assert o.logs == logs + [log];
    assert LogOf(log, reservationId);
    FilterAppend(logs, [log], (l: ApprovalLog) => LogOf(l, reservationId));
    FilterAppend(logs, [log], (l: ApprovalLog) => LogOf(l, otherId));
    assert Filter([log], (l: ApprovalLog) => LogOf(l, reservationId)) == [log];
    assert Filter([log], (l: ApprovalLog) => LogOf(l, otherId)) == [];
  }
}
