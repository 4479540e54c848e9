# Leave approval and balance accounting

A Dafny model of the leave controller of a small HR backend
(`controllers/leave.js`). The controller has four handlers over two tables.
The leave-request table is keyed by request id. The balance table holds one
`UserLeave` row per user, with `totalWorkingDays`, `usedLeave`,
`availableLeave` and `attendancePerc`.

- **Apply for leave** stores the request body as a new row. The owner is always
  the authenticated caller, whatever `userId` the body names.
- **View leave status** returns the caller's requests.
- **View leave balance** returns the caller's balance rows.
- **Update leave status** is meant for admins, but no role check exists: the
  route (routes/leave.js:9) uses the same sign-in check as the employee routes,
  and the handler never reads the caller. It looks the request up, then
  refuses a request already `approved` or `rejected`. Otherwise it saves the
  new status, whatever it is. Only when that status is `approved` does it look
  up the owner's balance row. It debits `availableLeave` and credits `usedLeave`
  by an inclusive day count, then recomputes `attendancePerc` by rounding.

The files:

- `leave_arith.dfy` (module `LeaveArith`) has the day count and the rounding
  as exact integer functions.
- `leave_model.dfy` (module `LeaveModel`) has the rows, the tables as a value
  (`Store`), and what each state-changing handler does to them. Errors are a
  `Result` value.
- `leave_store.dfy` (module `LeaveController`) has the class `LeaveStore`.
  Its fields are the two tables and the id counter, and its methods follow the
  handlers statement by statement. Each state-changing method is proved to
  reach exactly the state the matching `LeaveModel` function gives.
- `leave_properties.dfy` (module `LeaveProperties`) has properties of any
  sequence of calls, plus worked examples.

Modelling decisions:

- Dates are milliseconds since the epoch, held as integers, so the difference
  of two dates is an integer number of milliseconds.
- The day count is written `parseInt((end - start) / day + 1)`. That is the
  quotient `(end - start + day) / day` truncated toward zero (`TruncDiv`). It
  is not `trunc((end - start) / day) + 1`. The two agree whenever
  `end >= start`, and both then equal the floor of the elapsed days plus one.
  They differ only for a reversed range shorter than one day, which the code
  counts as 0 days. The model follows the code.
- `Math.round(a / t)` is the ratio rounded to the nearest integer, with ties
  toward +∞. For `t > 0` this is exactly `(2a + t) / (2t)` in Euclidean
  integer division (`RoundHalfUp`).
- The update is not atomic, and the model keeps the source's order. The status
  is saved before the balance row is looked up. So an approval whose owner has
  no balance row answers `RecordNotFound`, yet leaves the request approved
  with no debit.
- The creation handler (controllers/leave.js:10-13) passes the body's `status`
  through, so nothing makes a new request pending. A new request can be
  created already `approved`, and then no update ever debits for it
  (`PreApprovedNeverDebited`).
- Both not-found exits of the update handler send the same message
  (`message.RECORD_NOT_FOUND`), so both are `RecordNotFound`.

## Model

| member | source | states |
|---|---|---|
| LeaveArith.TruncDiv | controllers/leave.js:77 | `parseInt` of a quotient truncates toward zero: for a non-negative dividend the result is the floor quotient, for a negative one it is the ceiling quotient, the least q with q * d >= a; both are truncation toward zero |
| LeaveArith.LeaveDays | controllers/leave.js:77 | for an end date not before the start date the day count is at least 1 and equals the whole elapsed days plus one; a reversed range shorter than a day counts 0, and a reversal of one day or more counts minus the whole days by which the reversal exceeds one day (three days reversed count -2) |
| LeaveArith.LeaveDaysWholeDays | controllers/leave.js:77 | a range of exactly k whole days counts k + 1 days, for every integer k |
| LeaveArith.RoundHalfUp | controllers/leave.js:86 | `Math.round(a / t)` is the integer within one half of a/t, ties going up |
| LeaveArith.RoundHalfUpUnique | controllers/leave.js:86 | the rounding condition determines the rounded value uniquely |
| LeaveArith.AttendancePerc | controllers/leave.js:86 | the attendance percentage is the rounded value of (total - used) * 100 / total, and lies in 0..100 when 0 <= used <= total |
| LeaveArith.PercBounds | controllers/leave.js:86 | a rounded percentage of a share between 0 and 1 lies between 0 and 100 |
| LeaveModel.ApplyLeave | controllers/leave.js:8-23 | the new row gets a fresh id, the caller as owner and the body's other fields; every existing request and the whole balance table are unchanged |
| LeaveModel.Debit | controllers/leave.js:84-86 | available leave goes down and used leave goes up by the day count, so their sum is kept; working days and owner are unchanged; the percentage is the rounded attendance from the new used leave |
| LeaveModel.UpdateStatus | controllers/leave.js:58-100 | a missing id or a final status gives an error with nothing changed; otherwise the status becomes exactly the given value, leaving other fields and other requests alone; balances change only on approval, and then only the owner's row is debited by the day count; a missing owner row gives an error but the request stays approved |
| LeaveController.LeaveStore.ApplyForLeave | controllers/leave.js:8-23 | the handler inserts the caller-owned row and reaches the state `ApplyLeave` gives; existing rows and balances are unchanged |
| LeaveController.LeaveStore.ViewLeaveStatus | controllers/leave.js:26-39 | returns exactly the requests whose owner is the caller, unchanged |
| LeaveController.LeaveStore.ViewLeaveBalance | controllers/leave.js:42-55 | returns exactly the caller's balance row, or none when the caller has none |
| LeaveController.LeaveStore.UpdateLeaveStatus | controllers/leave.js:58-100 | the handler, statement by statement, reaches the state and answer `UpdateStatus` gives; a missing or final request changes nothing, and a non-approval status leaves the balances alone |
| LeaveProperties.Step | controllers/leave.js:13-88 | a state-changing call keeps the tables well formed, removes no request and adds or removes no balance row |
| LeaveProperties.Run | controllers/leave.js:13-88 | the same holds for any sequence of calls |
| LeaveProperties.StepKeepsFinal | controllers/leave.js:68-70 | no single call changes an approved or rejected request |
| LeaveProperties.FinalIsForever | controllers/leave.js:68-73 | once approved or rejected, a request is never changed by any later sequence of calls, so it is never debited twice |
| LeaveProperties.StepConservesLeave | controllers/leave.js:84-85 | one call keeps each user's available plus used leave and working days |
| LeaveProperties.RunConservesLeave | controllers/leave.js:84-85 | any sequence of calls keeps each user's available plus used leave and working days |
| LeaveProperties.SecondUpdateFails | controllers/leave.js:68-70 | after an approval, a second update of the same request fails with nothing changed |
| LeaveProperties.PreApprovedNeverDebited | controllers/leave.js:10-13 | a request created with status "approved" touches no balance and is never changed afterwards |
| LeaveProperties.ApprovalExample | controllers/leave.js:77-88 | days 0 to 2 with 250 working days and 10 used: 3 days debited, 13 used, 17 available, attendance 95 |
| LeaveProperties.MissingBalanceExample | controllers/leave.js:72-82 | approving for an owner with no balance row answers not-found, yet the request stays approved and no balance changes |
| LeaveProperties.ReversedRangeCredits | controllers/leave.js:77-85 | an end date three days before the start counts -2 days, and approving it adds two available days |

## Left out

- No role check: neither the route (routes/leave.js:9) nor the handler (controllers/leave.js:58-61) restricts who may update a status, so any signed-in user may approve their own request. `UpdateLeaveStatus` takes no caller at all, which models exactly that.
- HTTP wiring, the auth middleware, the JSON response envelope and the Boom error formatting are not modelled. The caller's id `req.user` is a parameter, and errors are a `Result` value.
- Asynchronous sequencing is not modelled, nor the race between two concurrent approvals of one request. Each handler runs to completion before the next.
- Store failures (a `create`, `findAll` or `save` that throws and becomes `badImplementation`) are not modelled. Every store call succeeds.
- The database setup (database/config.js) is not part of this model. It never registers the balance table that the controller reads. The model simply has one.
- The account handlers (controllers/user.js) are left out. They are thin wrappers over the store, password hashing and token signing.
- Request ids come from a counter standing in for the table's auto-increment column. An `id` supplied in the body is not modelled.
- The schema of the request table (defaults, validation) is not available. `status` and `reason` come from the body as given, and an absent field is not modelled.
- The balance table is assumed to hold at most one row per user, so `findAll` returns at most one row and `findOne` returns that row. Duplicate rows and their order are not modelled.
- `ViewLeaveStatus` returns the matching rows as a map keyed by id. The store's row order is not modelled.
- LeaveStore.UpdateLeaveStatus: requires every balance row to have `totalWorkingDays > 0` (part of the store invariant). With zero working days the source computes NaN or Infinity in floating point, and that is not modelled.
- LeaveArith.LeaveDays: floating-point effects of the day-count division are not modelled. In particular, `parseInt` reads a quotient below 1e-6 in exponent notation, which happens only when the end date lies within 86.4 ms of exactly one day before the start. The JavaScript `Date` parsing of the body's date strings is not modelled either.
- LeaveArith.AttendancePerc: computed exactly over the integers. The source divides in floating point, which gives the same rounded value for working-day counts of realistic size.
