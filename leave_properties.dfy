/** What holds of the leave tables across any sequence of handler calls, and
    worked examples of single calls. */
module LeaveProperties {
  import opened LeaveArith
  import opened LeaveModel

  /** A call that can change the tables; the two view handlers change nothing. */
  datatype Command =
    | Apply(caller: UserId, body: LeaveBody)
    | SetStatus(id: RequestId, status: string)

  function Step(s: Store, c: Command): (r: Store)
    requires WellFormed(s)
    ensures WellFormed(r)
    ensures r.balances.Keys == s.balances.Keys
    ensures s.requests.Keys <= r.requests.Keys
  {
    match c
    case Apply(caller, body) => ApplyLeave(s, caller, body).store
    case SetStatus(id, status) => UpdateStatus(s, id, status).store
  }

  /** The tables after a sequence of calls; no request row and no balance row
      is ever removed, and none is added to the balance table. */
  function Run(s: Store, cmds: seq<Command>): (r: Store)
    requires WellFormed(s)
    ensures WellFormed(r)
    ensures r.balances.Keys == s.balances.Keys
    ensures s.requests.Keys <= r.requests.Keys
    decreases |cmds|
  {
    if cmds == [] then s else Run(Step(s, cmds[0]), cmds[1..])
  }

  /** One call never changes a request whose status is approved or rejected. */
  lemma StepKeepsFinal(s: Store, c: Command, id: RequestId)
    requires WellFormed(s)
    requires id in s.requests && IsFinal(s.requests[id].status)
    ensures id in Step(s, c).requests && Step(s, c).requests[id] == s.requests[id]
  {
  }

  /** The one-shot guard: once a request is approved or rejected, no sequence
      of later calls changes it, so it is never debited again. */
  lemma {:induction false} FinalIsForever(s: Store, cmds: seq<Command>, id: RequestId)
    requires WellFormed(s)
    requires id in s.requests && IsFinal(s.requests[id].status)
    ensures id in Run(s, cmds).requests && Run(s, cmds).requests[id] == s.requests[id]
    decreases |cmds|
  {
    if cmds != [] {
      StepKeepsFinal(s, cmds[0], id);
      FinalIsForever(Step(s, cmds[0]), cmds[1..], id);
    }
  }

  /** One call keeps every user's available plus used leave and working days. */
  lemma StepConservesLeave(s: Store, c: Command, u: UserId)
    requires WellFormed(s) && u in s.balances
    ensures var b, b' := s.balances[u], Step(s, c).balances[u];
            && b'.availableLeave + b'.usedLeave == b.availableLeave + b.usedLeave
            && b'.totalWorkingDays == b.totalWorkingDays
  {
  }

  /** Leave moves from available to used and never appears or disappears:
      across any sequence of calls, each user's available plus used leave and
      total working days stay as they were. */
  lemma {:induction false} RunConservesLeave(s: Store, cmds: seq<Command>, u: UserId)
    requires WellFormed(s) && u in s.balances
    ensures var b, b' := s.balances[u], Run(s, cmds).balances[u];
            && b'.availableLeave + b'.usedLeave == b.availableLeave + b.usedLeave
            && b'.totalWorkingDays == b.totalWorkingDays
    decreases |cmds|
  {
    if cmds != [] {
      StepConservesLeave(s, cmds[0], u);
      RunConservesLeave(Step(s, cmds[0]), cmds[1..], u);
    }
  }

  /** A second update of an approved request fails, whatever status it asks
      for, and leaves both tables as the first left them. */
  lemma SecondUpdateFails(s: Store, id: RequestId, status: string)
    requires WellFormed(s) && id in s.requests
    ensures var first := UpdateStatus(s, id, Approved);
            UpdateStatus(first.store, id, status) == Outcome(first.store, Err(StatusCannotUpdate))
  {
  }

  /** Applying with a body whose status is already "approved" stores a final
      request without touching any balance; no later call debits for it. */
  lemma {:induction false} PreApprovedNeverDebited(s: Store, caller: UserId, body: LeaveBody, cmds: seq<Command>)
    requires WellFormed(s) && body.status == Approved
    ensures var a := ApplyLeave(s, caller, body);
            && a.store.balances == s.balances
            && a.created.id in Run(a.store, cmds).requests
            && Run(a.store, cmds).requests[a.created.id] == a.created
  {
    var a := ApplyLeave(s, caller, body);
    FinalIsForever(a.store, cmds, a.created.id);
  }

  /** The approval of a request from day 0 to day 2, for an owner with 250
      working days of which 10 are used: 3 days are debited, 13 are used and
      attendance is round(237 * 100 / 250) = 95. */
  lemma ApprovalExample()
    ensures var leave := LeaveRequest(7, 1, 0, 2 * MsPerDay, "pending", "trip");
            var balance := UserLeave(1, 250, 10, 20, 96);
            var s := Store(map[7 := leave], map[1 := balance], 8);
            var o := UpdateStatus(s, 7, Approved);
            && o.result == Ok(leave.(status := Approved))
            && o.store.requests[7].status == Approved
            && o.store.balances[1] == UserLeave(1, 250, 13, 17, 95)
  {
  }

  /** The approval of a request whose owner has no balance row answers with
      an error, yet the request stays approved and no balance changes. */
  lemma MissingBalanceExample()
    ensures var leave := LeaveRequest(3, 5, 0, MsPerDay, "pending", "");
            var s := Store(map[3 := leave], map[], 4);
            var o := UpdateStatus(s, 3, Approved);
            && o.result == Err(RecordNotFound)
            && o.store.requests[3].status == Approved
            && o.store.balances == map[]
  {
  }

  /** No date validation: an end date three days before the start date counts
      -2 days, so approving it gives the owner two more available days. */
  lemma ReversedRangeCredits()
    ensures LeaveDays(3 * MsPerDay, 0) == -2
    ensures var leave := LeaveRequest(0, 1, 3 * MsPerDay, 0, "pending", "");
            var s := Store(map[0 := leave], map[1 := UserLeave(1, 250, 10, 20, 96)], 1);
            UpdateStatus(s, 0, Approved).store.balances[1].availableLeave == 22
  {
  }
}
