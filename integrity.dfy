/** Each kind of change the handlers make to the tables keeps the integrity
    rules of `Models.Consistent`: unique keys, foreign keys, one employee per
    user and the known leave statuses. */
module Integrity {
  import opened Wrappers
  import opened Timing
  import opened Models
  import opened Queries

  /** A new user with a fresh id and a fresh username (add_hr). */
  lemma AddUserConsistent(us: seq<User>, es: seq<Employee>, as_: seq<Attendance>, ls: seq<LeaveRequest>, u: User)
    requires Consistent(us, es, as_, ls)
    requires forall v | v in us :: v.id != u.id && v.username != u.username
    ensures Consistent(us + [u], es, as_, ls)
  {
    DistinctAppend(us, u, UserKey);
    DistinctAppend(us, u, UsernameKey);
    forall f | f in es ensures HasUser(us + [u], f.userId) {
      var v :| v in us && v.id == f.userId;
      assert v in us + [u];
    }
  }

  /** A new user and a new employee linked to it (add_employee). */
  lemma AddEmployeeConsistent(us: seq<User>, es: seq<Employee>, as_: seq<Attendance>, ls: seq<LeaveRequest>,
                              u: User, e: Employee)
    requires Consistent(us, es, as_, ls)
    requires forall v | v in us :: v.id != u.id && v.username != u.username
    requires forall f | f in es :: f.id != e.id && f.uniqueIdNumber != e.uniqueIdNumber
    requires e.userId == u.id
    ensures Consistent(us + [u], es + [e], as_, ls)
  {
    AddUserConsistent(us, es, as_, ls, u);
    var us' := us + [u];
    forall f | f in es ensures f.userId != e.userId {
      var v :| v in us && v.id == f.userId;
    }
    DistinctAppend(es, e, EmployeeKey);
    DistinctAppend(es, e, UniqueIdKey);
    DistinctAppend(es, e, UserLinkKey);
    assert u in us';
    forall a | a in as_ ensures HasEmployee(es + [e], a.employeeId) {
      var f :| f in es && f.id == a.employeeId;
      assert f in es + [e];
    }
    forall l | l in ls ensures HasEmployee(es + [e], l.employeeId) {
      var f :| f in es && f.id == l.employeeId;
      assert f in es + [e];
    }
  }

  /** Rewriting a user's username and password, keeping its id and role
      (edit_employee), with a username no other user has. */
  lemma UpdateUserConsistent(us: seq<User>, es: seq<Employee>, as_: seq<Attendance>, ls: seq<LeaveRequest>,
                             j: int, u: User)
    requires Consistent(us, es, as_, ls) && 0 <= j < |us|
    requires u.id == us[j].id
    requires forall i | 0 <= i < |us| && i != j :: us[i].username != u.username
    ensures Consistent(us[j := u], es, as_, ls)
  {
    DistinctUpdate(us, j, u, UserKey);
    DistinctUpdate(us, j, u, UsernameKey);
    forall f | f in es ensures HasUser(us[j := u], f.userId) {
      var v :| v in us && v.id == f.userId;
      var i :| 0 <= i < |us| && us[i] == v;
      assert us[j := u][i].id == f.userId;
    }
  }

  /** Rewriting an employee's columns other than its id and user link
      (edit_employee, employee_edit_profile), with a `unique_id_number` no
      other employee has. */
  lemma UpdateEmployeeConsistent(us: seq<User>, es: seq<Employee>, as_: seq<Attendance>, ls: seq<LeaveRequest>,
                                 k: int, e: Employee)
    requires Consistent(us, es, as_, ls) && 0 <= k < |es|
    requires e.id == es[k].id && e.userId == es[k].userId
    requires forall i | 0 <= i < |es| && i != k :: es[i].uniqueIdNumber != e.uniqueIdNumber
    ensures Consistent(us, es[k := e], as_, ls)
  {
    DistinctUpdate(es, k, e, EmployeeKey);
    DistinctUpdate(es, k, e, UniqueIdKey);
    DistinctUpdate(es, k, e, UserLinkKey);
    assert es[k] in es;
    forall a | a in as_ ensures HasEmployee(es[k := e], a.employeeId) {
      var f :| f in es && f.id == a.employeeId;
      var i :| 0 <= i < |es| && es[i] == f;
      assert es[k := e][i].id == f.id;
    }
    forall l | l in ls ensures HasEmployee(es[k := e], l.employeeId) {
      var f :| f in es && f.id == l.employeeId;
      var i :| 0 <= i < |es| && es[i] == f;
      assert es[k := e][i].id == f.id;
    }
  }

  /** Removing an employee, its attendance and leave rows and the user it
      is linked to (delete_employee, and delete_hr through the cascade). */
  lemma RemoveEmployeeConsistent(us: seq<User>, es: seq<Employee>, as_: seq<Attendance>, ls: seq<LeaveRequest>,
                                 k: int, j: int)
    requires Consistent(us, es, as_, ls) && 0 <= k < |es| && 0 <= j < |us|
    requires es[k].userId == us[j].id
    ensures Consistent(us[..j] + us[j + 1..], es[..k] + es[k + 1..],
                       AttendanceExcept(as_, es[k].id), LeavesExcept(ls, es[k].id))
  {
    var us', es' := us[..j] + us[j + 1..], es[..k] + es[k + 1..];
    DistinctRemove(us, j, UserKey);
    DistinctRemove(us, j, UsernameKey);
    DistinctRemove(es, k, EmployeeKey);
    DistinctRemove(es, k, UniqueIdKey);
    DistinctRemove(es, k, UserLinkKey);
    AttendanceExceptDistinct(as_, es[k].id);
    LeavesExceptDistinct(ls, es[k].id);
    forall f | f in es' ensures HasUser(us', f.userId) {
      var m :| 0 <= m < |es'| && es'[m] == f;
      var m' := if m < k then m else m + 1;
      assert es'[m] == es[m'];
      assert UserLinkKey(es[m']) != UserLinkKey(es[k]);
      var v :| v in us && v.id == f.userId;
      InRemoved(us, j, v);
    }
    forall a | a in AttendanceExcept(as_, es[k].id) ensures HasEmployee(es', a.employeeId) {
      var f :| f in es && f.id == a.employeeId;
      InRemoved(es, k, f);
    }
    forall l | l in LeavesExcept(ls, es[k].id) ensures HasEmployee(es', l.employeeId) {
      var f :| f in es && f.id == l.employeeId;
      InRemoved(es, k, f);
    }
  }

  /** Removing a user no employee is linked to (delete_hr). */
  lemma RemoveUnlinkedUserConsistent(us: seq<User>, es: seq<Employee>, as_: seq<Attendance>, ls: seq<LeaveRequest>,
                                     j: int)
    requires Consistent(us, es, as_, ls) && 0 <= j < |us|
    requires forall f | f in es :: f.userId != us[j].id
    ensures Consistent(us[..j] + us[j + 1..], es, as_, ls)
  {
    DistinctRemove(us, j, UserKey);
    DistinctRemove(us, j, UsernameKey);
    forall f | f in es ensures HasUser(us[..j] + us[j + 1..], f.userId) {
      var v :| v in us && v.id == f.userId;
      InRemoved(us, j, v);
    }
  }

  /** A new attendance row with a fresh id for an existing employee (check-in). */
  lemma AddAttendanceConsistent(us: seq<User>, es: seq<Employee>, as_: seq<Attendance>, ls: seq<LeaveRequest>,
                                a: Attendance)
    requires Consistent(us, es, as_, ls)
    requires HasEmployee(es, a.employeeId)
    requires forall b | b in as_ :: b.id != a.id
    ensures Consistent(us, es, as_ + [a], ls)
  {
    DistinctAppend(as_, a, AttendanceKey);
  }

  /** Rewriting an attendance row's times, keeping its id and employee (check-out). */
  lemma UpdateAttendanceConsistent(us: seq<User>, es: seq<Employee>, as_: seq<Attendance>, ls: seq<LeaveRequest>,
                                   i: int, a: Attendance)
    requires Consistent(us, es, as_, ls) && 0 <= i < |as_|
    requires a.id == as_[i].id && a.employeeId == as_[i].employeeId
    ensures Consistent(us, es, as_[i := a], ls)
  {
    DistinctUpdate(as_, i, a, AttendanceKey);
    assert as_[i] in as_;
  }

  /** A new leave request with a fresh id, a known status and an existing
      employee (leave_request). */
  lemma AddLeaveConsistent(us: seq<User>, es: seq<Employee>, as_: seq<Attendance>, ls: seq<LeaveRequest>,
                           l: LeaveRequest)
    requires Consistent(us, es, as_, ls)
    requires HasEmployee(es, l.employeeId) && IsLeaveStatus(l.status)
    requires forall m | m in ls :: m.id != l.id
    ensures Consistent(us, es, as_, ls + [l])
  {
    DistinctAppend(ls, l, LeaveKey);
  }

  /** Setting a leave request's status to a known status (hr_leave_requests). */
  lemma UpdateLeaveConsistent(us: seq<User>, es: seq<Employee>, as_: seq<Attendance>, ls: seq<LeaveRequest>,
                              k: int, status: string)
    requires Consistent(us, es, as_, ls) && 0 <= k < |ls|
    requires IsLeaveStatus(status)
    ensures Consistent(us, es, as_, ls[k := ls[k].(status := status)])
  {
    DistinctUpdate(ls, k, ls[k].(status := status), LeaveKey);
    assert ls[k] in ls;
  }
}
