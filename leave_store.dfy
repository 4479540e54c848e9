/** The leave controller over an in-memory store: the request and balance
    tables are fields that the handlers read and reassign. Each method follows
    its handler statement by statement, and is proved to leave the store in
    the state the matching function of `LeaveModel` describes. */
module LeaveController {
  import opened LeaveArith
  import opened LeaveModel

  class LeaveStore {
    var requests: map<RequestId, LeaveRequest>
    var balances: map<UserId, UserLeave>
    var nextId: RequestId

    /** The tables as a value. */
    ghost function State(): Store
      reads this
    {
      Store(requests, balances, nextId)
    }

    ghost predicate Valid()
      reads this
    {
      WellFormed(State())
    }

    /** An empty request table beside balance rows set up elsewhere (no
        handler of this controller creates one). */
    constructor (seeded: map<UserId, UserLeave>)
      requires forall u :: u in seeded ==> seeded[u].userId == u && seeded[u].totalWorkingDays > 0
      ensures Valid()
      ensures requests == map[] && balances == seeded && nextId == 0
    {
      requests := map[];
      balances := seeded;
      nextId := 0;
    }

    /** Apply for leave: the caller becomes the owner of the new row. */
    method ApplyForLeave(caller: UserId, body: LeaveBody) returns (leave: LeaveRequest)
      requires Valid()
      modifies this
      ensures Valid()
      ensures Applied(State(), leave) == ApplyLeave(old(State()), caller, body)
      ensures leave.userId == caller && leave.id !in old(requests)
      ensures forall id :: id in old(requests) ==> id in requests && requests[id] == old(requests)[id]
      ensures balances == old(balances)
    {
      leave := LeaveRequest(nextId, caller, body.startDate, body.endDate, body.status, body.reason);
      requests := requests[nextId := leave];
      nextId := nextId + 1;
    }

    /** View leave status: exactly the caller's requests, by id. */
    method ViewLeaveStatus(caller: UserId) returns (mine: map<RequestId, LeaveRequest>)
      ensures forall id :: id in mine <==> id in requests && requests[id].userId == caller
      ensures forall id :: id in mine ==> mine[id] == requests[id]
    {
      mine := map id | id in requests && requests[id].userId == caller :: requests[id];
    }

    /** View leave balance: exactly the caller's balance rows (at most one). */
    method ViewLeaveBalance(caller: UserId) returns (rows: seq<UserLeave>)
      requires Valid()
      ensures |rows| <= 1
      ensures |rows| == 1 <==> caller in balances
      ensures forall i :: 0 <= i < |rows| ==> rows[i] == balances[caller] && rows[i].userId == caller
    {
      if caller in balances {
        rows := [balances[caller]];
      } else {
        rows := [];
      }
    }

    /** Update leave status. Meant for admins, but no role is checked: any
        caller may invoke it, and it never looks at who the caller is. The
        status is saved before the balance row is looked up, and nothing
        undoes it when that row is missing. */
    method UpdateLeaveStatus(id: RequestId, status: string) returns (res: Result<LeaveRequest>)
      requires Valid()
      modifies this
      ensures Valid()
      ensures Outcome(State(), res) == UpdateStatus(old(State()), id, status)
      ensures id !in old(requests) || IsFinal(old(requests)[id].status) ==>
                requests == old(requests) && balances == old(balances)
      ensures status != Approved ==> balances == old(balances)
    {
      if id !in requests {
        return Err(RecordNotFound);
      }
      var leave := requests[id];
      if leave.status == Approved || leave.status == Rejected {
        return Err(StatusCannotUpdate);
      }

      leave := leave.(status := status);
      requests := requests[id := leave];
      var updatedLeave := leave;

      if updatedLeave.status == Approved {
        var userId := leave.userId;
        var leaveDays := LeaveDays(leave.startDate, leave.endDate);

        if userId !in balances {
          return Err(RecordNotFound);
        }
        var userLeave := balances[userId];

        userLeave := userLeave.(availableLeave := userLeave.availableLeave - leaveDays);
        userLeave := userLeave.(usedLeave := userLeave.usedLeave + leaveDays);
        userLeave := userLeave.(attendancePerc :=
          AttendancePerc(userLeave.totalWorkingDays, userLeave.usedLeave));

        balances := balances[userId := userLeave];
      }
      return Ok(updatedLeave);
    }
  }
}
