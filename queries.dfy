/** The database queries the handlers issue, as functions over table
    snapshots. Lookups return the position of the row they find, so that the
    handlers that change that row can update it in place. A lookup by a
    column returns the first match in table order. `.first()` without
    `order_by` lets the database choose the row, but under the integrity
    rules of `Models.Consistent` every such lookup matches at most one row. */
module Queries {
  import opened Wrappers
  import opened Timing
  import opened Models

  /** `User.query.get(id)`. */
  function FindUser(us: seq<User>, id: int): (r: Option<nat>)
    ensures r.Some? ==> r.value < |us| && us[r.value].id == id
    ensures r.Some? ==> forall j | 0 <= j < r.value :: us[j].id != id
    ensures r.None? <==> !HasUser(us, id)
  {
    if |us| == 0 then None
    else if us[0].id == id then Some(0)
    else
      match FindUser(us[1..], id)
      case None => (assert forall u | u in us :: u == us[0] || u in us[1..]; None)
      case Some(i) => Some(i + 1)
  }

  /** `User.query.filter_by(username=..., password=...).first()`. */
  function FindCredentials(us: seq<User>, username: string, password: string): (r: Option<nat>)
    ensures r.Some? ==> r.value < |us| && us[r.value].username == username && us[r.value].password == password
    ensures r.Some? ==> forall j | 0 <= j < r.value :: !(us[j].username == username && us[j].password == password)
    ensures r.None? <==> forall u | u in us :: !(u.username == username && u.password == password)
  {
    if |us| == 0 then None
    else if us[0].username == username && us[0].password == password then Some(0)
    else
      match FindCredentials(us[1..], username, password)
      case None => (assert forall u | u in us :: u == us[0] || u in us[1..]; None)
      case Some(i) => Some(i + 1)
  }

  /** `Employee.query.get(id)` and `get_or_404(id)`. */
  function FindEmployee(es: seq<Employee>, id: int): (r: Option<nat>)
    ensures r.Some? ==> r.value < |es| && es[r.value].id == id
    ensures r.Some? ==> forall j | 0 <= j < r.value :: es[j].id != id
    ensures r.None? <==> !HasEmployee(es, id)
  {
    if |es| == 0 then None
    else if es[0].id == id then Some(0)
    else
      match FindEmployee(es[1..], id)
      case None => (assert forall e | e in es :: e == es[0] || e in es[1..]; None)
      case Some(i) => Some(i + 1)
  }

  /** `Employee.query.filter_by(user_id=...).first()`. */
  function EmployeeOfUser(es: seq<Employee>, userId: int): (r: Option<nat>)
    ensures r.Some? ==> r.value < |es| && es[r.value].userId == userId
    ensures r.Some? ==> forall j | 0 <= j < r.value :: es[j].userId != userId
    ensures r.None? <==> forall e | e in es :: e.userId != userId
  {
    if |es| == 0 then None
    else if es[0].userId == userId then Some(0)
    else
      match EmployeeOfUser(es[1..], userId)
      case None => (assert forall e | e in es :: e == es[0] || e in es[1..]; None)
      case Some(i) => Some(i + 1)
  }

  /** `LeaveRequest.query.get(id)`. */
  function FindLeave(ls: seq<LeaveRequest>, id: int): (r: Option<nat>)
    ensures r.Some? ==> r.value < |ls| && ls[r.value].id == id
    ensures r.Some? ==> forall j | 0 <= j < r.value :: ls[j].id != id
    ensures r.None? <==> forall l | l in ls :: l.id != id
  {
    if |ls| == 0 then None
    else if ls[0].id == id then Some(0)
    else
      match FindLeave(ls[1..], id)
      case None => (assert forall l | l in ls :: l == ls[0] || l in ls[1..]; None)
      case Some(i) => Some(i + 1)
  }

  /** `User.query.filter_by(username=...).first()` found a row. */
  predicate UsernameTaken(us: seq<User>, username: string) {
    exists u | u in us :: u.username == username
  }

  /** `User.query.filter(User.username == ..., User.id != ...).first()` found a row. */
  predicate UsernameTakenByOther(us: seq<User>, username: string, userId: int) {
    exists u | u in us :: u.username == username && u.id != userId
  }

  /** `Employee.query.filter_by(unique_id_number=...).first()` found a row. */
  predicate UniqueIdTaken(es: seq<Employee>, uniqueIdNumber: string) {
    exists e | e in es :: e.uniqueIdNumber == uniqueIdNumber
  }

  /** The same query restricted to other employees (`Employee.id != ...`). */
  predicate UniqueIdTakenByOther(es: seq<Employee>, uniqueIdNumber: string, employeeId: int) {
    exists e | e in es :: e.uniqueIdNumber == uniqueIdNumber && e.id != employeeId
  }

  /** The attendance rows that do not belong to `employeeId`, in table order. */
  function AttendanceExcept(as_: seq<Attendance>, employeeId: int): (r: seq<Attendance>)
    ensures forall a :: a in r <==> a in as_ && a.employeeId != employeeId
    ensures |r| <= |as_|
  {
    if |as_| == 0 then []
    else
      var last := as_[|as_| - 1];
      assert as_ == as_[..|as_| - 1] + [last];
      AttendanceExcept(as_[..|as_| - 1], employeeId) + (if last.employeeId != employeeId then [last] else [])
  }

  /** The leave requests that do not belong to `employeeId`, in table order. */
  function LeavesExcept(ls: seq<LeaveRequest>, employeeId: int): (r: seq<LeaveRequest>)
    ensures forall l :: l in r <==> l in ls && l.employeeId != employeeId
    ensures |r| <= |ls|
  {
    if |ls| == 0 then []
    else
      var last := ls[|ls| - 1];
      assert ls == ls[..|ls| - 1] + [last];
      LeavesExcept(ls[..|ls| - 1], employeeId) + (if last.employeeId != employeeId then [last] else [])
  }

  lemma {:induction false} AttendanceExceptDistinct(as_: seq<Attendance>, employeeId: int)
    requires Distinct(as_, AttendanceKey)
    ensures Distinct(AttendanceExcept(as_, employeeId), AttendanceKey)
  {
    if |as_| > 0 {
      var init := as_[..|as_| - 1];
      var last := as_[|as_| - 1];
      assert Distinct(init, AttendanceKey) by {
        forall i, j | 0 <= i < |init| && 0 <= j < |init| && i != j
          ensures init[i].id != init[j].id
        {
          assert init[i] == as_[i] && init[j] == as_[j];
        }
      }
      AttendanceExceptDistinct(init, employeeId);
      if last.employeeId != employeeId {
        var rest := AttendanceExcept(init, employeeId);
        forall y | y in rest ensures y.id != last.id {
          var i :| 0 <= i < |init| && init[i] == y;
          assert as_[i] == y;
        }
        DistinctAppend(rest, last, AttendanceKey);
      }
    }
  }

  lemma {:induction false} LeavesExceptDistinct(ls: seq<LeaveRequest>, employeeId: int)
    requires Distinct(ls, LeaveKey)
    ensures Distinct(LeavesExcept(ls, employeeId), LeaveKey)
  {
    if |ls| > 0 {
      var init := ls[..|ls| - 1];
      var last := ls[|ls| - 1];
      assert Distinct(init, LeaveKey) by {
        forall i, j | 0 <= i < |init| && 0 <= j < |init| && i != j
          ensures init[i].id != init[j].id
        {
          assert init[i] == ls[i] && init[j] == ls[j];
        }
      }
      LeavesExceptDistinct(init, employeeId);
      if last.employeeId != employeeId {
        var rest := LeavesExcept(init, employeeId);
        forall y | y in rest ensures y.id != last.id {
          var i :| 0 <= i < |init| && init[i] == y;
          assert ls[i] == y;
        }
        DistinctAppend(rest, last, LeaveKey);
      }
    }
  }

  /** The sort key of `order_by(Attendance.checkin_time)`: MySQL puts a
      missing check-in time before every present one. */
  function CheckinRank(a: Attendance): int {
    if a.checkinTime.None? then -1 else a.checkinTime.value
  }

  /** A row of `employeeId` dated `today`; with `openOnly`, also without a
      checkout time. */
  predicate IsToday(a: Attendance, employeeId: int, today: Date, openOnly: bool) {
    a.employeeId == employeeId && a.date == today && (openOnly ==> a.checkoutTime.None?)
  }

  /** The row of `employeeId` dated `today` (open ones only, with `openOnly`)
      with the greatest check-in time: the first row of the query ordered by
      `checkin_time` descending, and the last row of the same query ordered
      ascending. Among rows with equal check-in times the database fixes no
      order; the model takes the first in table order. */
  function LatestToday(as_: seq<Attendance>, employeeId: int, today: Date, openOnly: bool): (r: Option<nat>)
    ensures r.Some? ==> r.value < |as_| && IsToday(as_[r.value], employeeId, today, openOnly)
    ensures r.Some? ==> forall j | 0 <= j < |as_| && IsToday(as_[j], employeeId, today, openOnly) ::
                          CheckinRank(as_[j]) <= CheckinRank(as_[r.value])
    ensures r.None? <==> forall j | 0 <= j < |as_| :: !IsToday(as_[j], employeeId, today, openOnly)
  {
    if |as_| == 0 then None
    else
      var rest := LatestToday(as_[1..], employeeId, today, openOnly);
      if IsToday(as_[0], employeeId, today, openOnly)
         && (rest.None? || CheckinRank(as_[1 + rest.value]) <= CheckinRank(as_[0]))
      then Some(0)
      else if rest.None? then None
      else Some(rest.value + 1)
  }

  /** How many rows of `employeeId` dated `today` are still open. */
  function OpenCount(as_: seq<Attendance>, employeeId: int, today: Date): (n: nat)
    ensures n <= |as_|
    ensures n == 0 <==> forall j | 0 <= j < |as_| :: !IsToday(as_[j], employeeId, today, true)
  {
    if |as_| == 0 then 0
    else OpenCount(as_[1..], employeeId, today) + (if IsToday(as_[0], employeeId, today, true) then 1 else 0)
  }

  /** `LeaveRequest.query.filter_by(status='Pending').count()`. */
  function PendingCount(ls: seq<LeaveRequest>): (n: nat)
    ensures n <= |ls|
    ensures n == 0 <==> forall l | l in ls :: l.status != StatusPending
  {
    if |ls| == 0 then 0
    else
      assert forall l | l in ls :: l == ls[0] || l in ls[1..];
      PendingCount(ls[1..]) + (if ls[0].status == StatusPending then 1 else 0)
  }

  /** The attendance table after a check-out at `now`: the open row of
      `employeeId` dated `today` with the greatest check-in gets `now`, as
      the table stores it, for its checkout time; with no open row of today
      nothing changes. Only the checkout column of that one row can differ. */
  function CloseLatest(as_: seq<Attendance>, employeeId: int, today: Date, now: Time): (r: seq<Attendance>)
    ensures |r| == |as_|
    ensures forall j | 0 <= j < |as_| :: r[j] == as_[j].(checkoutTime := r[j].checkoutTime)
    ensures forall j | 0 <= j < |as_| && r[j] != as_[j] ::
              IsToday(as_[j], employeeId, today, true) && r[j].checkoutTime == Some(StoredTime(now))
    ensures forall j, m | 0 <= j < |as_| && 0 <= m < |as_| && r[j] != as_[j] && r[m] != as_[m] :: j == m
    // The row that closes has the greatest check-in among the open rows of today.
    ensures forall j | 0 <= j < |as_| && r[j] != as_[j] ::
              forall m | 0 <= m < |as_| && IsToday(as_[m], employeeId, today, true) ::
                CheckinRank(as_[m]) <= CheckinRank(as_[j])
    // And some row does close when there is an open row of today.
    ensures (exists j | 0 <= j < |as_| :: IsToday(as_[j], employeeId, today, true)) ==> r != as_
  {
    match LatestToday(as_, employeeId, today, true)
    case None => as_
    case Some(i) =>
      var r := as_[i := as_[i].(checkoutTime := Some(StoredTime(now)))];
      assert r[i] != as_[i];
      r
  }

  lemma {:induction false} OpenCountAppend(as_: seq<Attendance>, employeeId: int, today: Date, a: Attendance)
    ensures OpenCount(as_ + [a], employeeId, today) ==
            OpenCount(as_, employeeId, today) + (if IsToday(a, employeeId, today, true) then 1 else 0)
  {
    if |as_| > 0 {
      assert (as_ + [a])[1..] == as_[1..] + [a];
      OpenCountAppend(as_[1..], employeeId, today, a);
    }
  }

  lemma {:induction false} OpenCountClose(as_: seq<Attendance>, employeeId: int, today: Date, i: int, a: Attendance)
    requires 0 <= i < |as_| && IsToday(as_[i], employeeId, today, true) && !IsToday(a, employeeId, today, true)
    ensures OpenCount(as_[i := a], employeeId, today) == OpenCount(as_, employeeId, today) - 1
  {
    if i == 0 {
      assert as_[i := a][1..] == as_[1..];
    } else {
      assert as_[i := a][1..] == as_[1..][i - 1 := a];
      OpenCountClose(as_[1..], employeeId, today, i - 1, a);
    }
  }

  /** A check-in opens exactly one more row for the day. */
  lemma CheckInOpensOne(as_: seq<Attendance>, id: int, employeeId: int, today: Date, now: Time)
    ensures OpenCount(as_ + [Attendance(id, employeeId, today, Some(StoredTime(now)), None)], employeeId, today) ==
            OpenCount(as_, employeeId, today) + 1
  {
    OpenCountAppend(as_, employeeId, today, Attendance(id, employeeId, today, Some(StoredTime(now)), None));
  }

  /** A check-out closes exactly one open row of the day when there is one,
      and changes nothing otherwise. */
  lemma CheckOutClosesOne(as_: seq<Attendance>, employeeId: int, today: Date, now: Time)
    ensures OpenCount(as_, employeeId, today) == 0 ==> CloseLatest(as_, employeeId, today, now) == as_
    ensures OpenCount(as_, employeeId, today) > 0 ==>
            OpenCount(CloseLatest(as_, employeeId, today, now), employeeId, today) ==
            OpenCount(as_, employeeId, today) - 1
  {
    match LatestToday(as_, employeeId, today, true)
    case None =>
    case Some(i) =>
      OpenCountClose(as_, employeeId, today, i, as_[i].(checkoutTime := Some(StoredTime(now))));
  }

  /** The worked seconds the attendance page shows for `employeeId` on
      `today`, from the row with the latest check-in: checkout minus checkin
      when both are set, the clock `now` minus checkin when the row is
      still open, and 0 without a check-in or without a row. */
  function TodayWorkedSeconds(as_: seq<Attendance>, employeeId: int, today: Date, now: Time): (r: int)
    ensures 0 <= r < SecondsPerDay
    ensures LatestToday(as_, employeeId, today, false).None? ==> r == 0
    ensures (forall j | 0 <= j < |as_| && IsToday(as_[j], employeeId, today, false) :: as_[j].checkinTime.None?) ==> r == 0
    // With a check-in today, it is measured on the row of the day with the latest check-in.
    ensures (exists j | 0 <= j < |as_| :: IsToday(as_[j], employeeId, today, false) && as_[j].checkinTime.Some?) ==>
      exists j | 0 <= j < |as_| && IsToday(as_[j], employeeId, today, false) && as_[j].checkinTime.Some? ::
        && (forall m | 0 <= m < |as_| && IsToday(as_[m], employeeId, today, false) :: CheckinRank(as_[m]) <= CheckinRank(as_[j]))
        && r == WorkedSeconds(as_[j].checkinTime.value,
                              if as_[j].checkoutTime.Some? then as_[j].checkoutTime.value else now)
  {
    match LatestToday(as_, employeeId, today, false)
    case None => 0
    case Some(i) =>
      var a := as_[i];
      if a.checkinTime.Some? && a.checkoutTime.Some? then WorkedSeconds(a.checkinTime.value, a.checkoutTime.value)
      else if a.checkinTime.Some? then WorkedSeconds(a.checkinTime.value, now)
      else 0
  }

  /** Submitting a leave request adds one pending request. */
  lemma {:induction false} PendingAfterSubmit(ls: seq<LeaveRequest>, l: LeaveRequest)
    requires l.status == StatusPending
    ensures PendingCount(ls + [l]) == PendingCount(ls) + 1
  {
    if |ls| > 0 {
      assert (ls + [l])[1..] == ls[1..] + [l];
      PendingAfterSubmit(ls[1..], l);
    }
  }

  /** Accepting or rejecting a request removes it from the pending count if
      it was pending, and leaves the count alone otherwise. */
  lemma {:induction false} PendingAfterDecision(ls: seq<LeaveRequest>, k: int, action: string)
    requires 0 <= k < |ls| && (action == StatusAccepted || action == StatusRejected)
    ensures PendingCount(ls[k := ls[k].(status := action)]) ==
            PendingCount(ls) - (if ls[k].status == StatusPending then 1 else 0)
  {
    if k == 0 {
      assert ls[k := ls[k].(status := action)][1..] == ls[1..];
    } else {
      assert ls[k := ls[k].(status := action)][1..] == ls[1..][k - 1 := ls[k].(status := action)];
      PendingAfterDecision(ls[1..], k - 1, action);
    }
  }
}
