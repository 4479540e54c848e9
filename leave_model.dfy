/** The leave tables as values, and the effect of each leave handler on them.
    A store holds the leave-request table (keyed by request id), the balance
    table (one `UserLeave` row per user, keyed by the user's id) and the next
    id the request table's auto-increment column will hand out. */
module LeaveModel {
  import opened LeaveArith

  /** The authenticated caller's id, as the auth middleware supplies it. */
  type UserId = int
  type RequestId = nat

  const Approved: string := "approved"
  const Rejected: string := "rejected"

  datatype Option<+T> = None | Some(value: T)

  /** A leave request row. Dates are milliseconds since the epoch. */
  datatype LeaveRequest = LeaveRequest(
    id: RequestId,
    userId: UserId,
    startDate: int,
    endDate: int,
    status: string,
    reason: string)

  /** The body of an application, passed through to the table unchanged
      except for its owner. */
  datatype LeaveBody = LeaveBody(
    userId: Option<UserId>,
    startDate: int,
    endDate: int,
    status: string,
    reason: string)

  /** A per-user balance row. */
  datatype UserLeave = UserLeave(
    userId: UserId,
    totalWorkingDays: int,
    usedLeave: int,
    availableLeave: int,
    attendancePerc: int)

  /** The two error answers of the approval handler: a missing request or
      balance row (`message.RECORD_NOT_FOUND`), and a status that may no
      longer change ("Leave status can't update"). */
  datatype Error = RecordNotFound | StatusCannotUpdate

  datatype Result<+T> = Ok(value: T) | Err(error: Error)

  datatype Store = Store(
    requests: map<RequestId, LeaveRequest>,
    balances: map<UserId, UserLeave>,
    nextId: RequestId)

  /** What the tables' keys and the handlers rely on: every row sits under its
      own key, every request id was handed out already, and every balance row
      has a positive number of working days (the attendance ratio divides by
      it). */
  predicate WellFormed(s: Store)
  {
    && (forall id :: id in s.requests ==> s.requests[id].id == id && id < s.nextId)
    && (forall u :: u in s.balances ==> s.balances[u].userId == u && s.balances[u].totalWorkingDays > 0)
  }

  /** A status from which no update is accepted. */
  predicate IsFinal(status: string)
  {
    status == Approved || status == Rejected
  }

  /** The result of an application: the new store and the created row. */
  datatype Applied = Applied(store: Store, created: LeaveRequest)

  /** Apply for leave: insert a row owned by the caller, whatever owner the
      body names, under the next auto-increment id. */
  function ApplyLeave(s: Store, caller: UserId, body: LeaveBody): (r: Applied)
    requires WellFormed(s)
    ensures WellFormed(r.store)
    ensures r.created.id == s.nextId && s.nextId !in s.requests
    ensures r.created.userId == caller
    ensures r.created.startDate == body.startDate && r.created.endDate == body.endDate
    ensures r.created.status == body.status && r.created.reason == body.reason
    ensures r.store.requests.Keys == s.requests.Keys + {s.nextId}
    ensures r.store.requests[s.nextId] == r.created
    ensures forall id :: id in s.requests ==> r.store.requests[id] == s.requests[id]
    ensures r.store.balances == s.balances
    ensures r.store.nextId > s.nextId
  {
    var leave := LeaveRequest(s.nextId, caller, body.startDate, body.endDate, body.status, body.reason);
    Applied(Store(s.requests[s.nextId := leave], s.balances, s.nextId + 1), leave)
  }

  /** Lines 84-86 of the approval handler applied to one balance row: debit the
      available leave, credit the used leave, recompute the attendance
      percentage from the new used leave. */
  function Debit(b: UserLeave, days: int): (r: UserLeave)
    requires b.totalWorkingDays > 0
    ensures r.userId == b.userId && r.totalWorkingDays == b.totalWorkingDays
    ensures r.availableLeave == b.availableLeave - days
    ensures r.usedLeave == b.usedLeave + days
    ensures r.availableLeave + r.usedLeave == b.availableLeave + b.usedLeave
    ensures 2 * r.totalWorkingDays * r.attendancePerc - r.totalWorkingDays
            <= 200 * (r.totalWorkingDays - r.usedLeave)
            < 2 * r.totalWorkingDays * r.attendancePerc + r.totalWorkingDays
  {
    var available := b.availableLeave - days;
    var used := b.usedLeave + days;
    b.(availableLeave := available, usedLeave := used,
       attendancePerc := AttendancePerc(b.totalWorkingDays, used))
  }

  /** The result of an update: the store as the handler leaves it, and its
      answer (the updated request, or an error). */
  datatype Outcome = Outcome(store: Store, result: Result<LeaveRequest>)

  /** Update leave status, step by step as the handler does it: find the
      request, refuse a final status, save the new status, and, for an
      approval, find the owner's balance row and debit it. The status is saved
      before the balance row is looked up, so a missing row leaves the request
      approved and answers with an error. */
  function UpdateStatus(s: Store, id: RequestId, status: string): (o: Outcome)
    requires WellFormed(s)
    ensures WellFormed(o.store)
    ensures o.store.nextId == s.nextId && o.store.balances.Keys == s.balances.Keys
    // a request that does not exist: an error, and nothing changes
    ensures id !in s.requests ==> o == Outcome(s, Err(RecordNotFound))
    // a final request: an error, and nothing changes
    ensures id in s.requests && IsFinal(s.requests[id].status) ==>
              o == Outcome(s, Err(StatusCannotUpdate))
    // otherwise the new status is saved exactly as given, and no other
    // field and no other request changes
    ensures id in s.requests && !IsFinal(s.requests[id].status) ==>
              && o.store.requests.Keys == s.requests.Keys
              && o.store.requests[id] == s.requests[id].(status := status)
              && (forall other :: other in s.requests && other != id ==>
                    o.store.requests[other] == s.requests[other])
    // balances change only on an approval
    ensures (id !in s.requests || IsFinal(s.requests[id].status) || status != Approved) ==>
              o.store.balances == s.balances
    ensures id in s.requests && !IsFinal(s.requests[id].status) && status != Approved ==>
              o.result == Ok(s.requests[id].(status := status))
    // an approval whose owner has no balance row: approved anyway, and an error
    ensures id in s.requests && !IsFinal(s.requests[id].status) && status == Approved
            && s.requests[id].userId !in s.balances ==>
              o.result == Err(RecordNotFound) && o.store.balances == s.balances
    // an approval: the owner's row is debited by the request's day count,
    // every other row stays as it was
    ensures id in s.requests && !IsFinal(s.requests[id].status) && status == Approved
            && s.requests[id].userId in s.balances ==>
              var leave := s.requests[id];
              var before := s.balances[leave.userId];
              var after := o.store.balances[leave.userId];
              var days := LeaveDays(leave.startDate, leave.endDate);
              && o.result == Ok(leave.(status := status))
              && after.userId == before.userId
              && after.totalWorkingDays == before.totalWorkingDays
              && after.availableLeave == before.availableLeave - days
              && after.usedLeave == before.usedLeave + days
              && after.attendancePerc == AttendancePerc(after.totalWorkingDays, after.usedLeave)
              && (forall u :: u in s.balances && u != leave.userId ==>
                    o.store.balances[u] == s.balances[u])
  {
    if id !in s.requests then Outcome(s, Err(RecordNotFound))
    else
      var leave := s.requests[id];
      if IsFinal(leave.status) then Outcome(s, Err(StatusCannotUpdate))
      else
        var updated := leave.(status := status);
        var saved := s.(requests := s.requests[id := updated]);
        if updated.status != Approved then Outcome(saved, Ok(updated))
        else
          var days := LeaveDays(updated.startDate, updated.endDate);
          if updated.userId !in saved.balances then Outcome(saved, Err(RecordNotFound))
          else
            var debited := Debit(saved.balances[updated.userId], days);
            Outcome(saved.(balances := saved.balances[updated.userId := debited]), Ok(updated))
  }
}
