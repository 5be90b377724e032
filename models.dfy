/** The four tables of the portal (users, employees, attendance, leave
    requests) and the integrity rules the database schema and the handlers
    keep on them. */
module Models {
  import opened Wrappers
  import opened Timing

  /** A calendar date, as a day number. */
  type Date = int

  const RoleEmployee := "employee"
  const RoleHr := "hr"
  const RoleAdmin := "admin"

  const StatusPending := "Pending"
  const StatusAccepted := "Accepted"
  const StatusRejected := "Rejected"

  /** The leave statuses the application writes. */
  predicate IsLeaveStatus(s: string) {
    s == StatusPending || s == StatusAccepted || s == StatusRejected
  }

  /** A login account; the password is stored as given. */
  datatype User = User(id: int, username: string, password: string, role: string)

  datatype Employee = Employee(
    id: int,
    name: string,
    address: string,
    phoneNumber: string,
    uniqueIdNumber: string,
    jobRole: Option<string>,
    salary: Option<real>,
    userId: int,
    profilePic: Option<seq<bv8>>,
    profilePicMimetype: Option<string>)

  datatype Attendance = Attendance(
    id: int,
    employeeId: int,
    date: Date,
    checkinTime: Option<Time>,
    checkoutTime: Option<Time>)

  datatype LeaveRequest = LeaveRequest(
    id: int,
    employeeId: int,
    leaveType: string,
    startDate: string,
    endDate: string,
    reason: string,
    status: string,
    requestDate: Date)

  // The columns that must not repeat within a table.
  function UserKey(u: User): int { u.id }
  function UsernameKey(u: User): string { u.username }
  function EmployeeKey(e: Employee): int { e.id }
  function UniqueIdKey(e: Employee): string { e.uniqueIdNumber }
  function UserLinkKey(e: Employee): int { e.userId }
  function AttendanceKey(a: Attendance): int { a.id }
  function LeaveKey(l: LeaveRequest): int { l.id }

  /** No two rows of `s` agree on `key`. */
  ghost predicate Distinct<T, K>(s: seq<T>, key: T -> K) {
    forall i, j | 0 <= i < |s| && 0 <= j < |s| && i != j :: key(s[i]) != key(s[j])
  }

  predicate HasUser(us: seq<User>, id: int) {
    exists u | u in us :: u.id == id
  }

  predicate HasEmployee(es: seq<Employee>, id: int) {
    exists e | e in es :: e.id == id
  }

  /** Unique primary key and unique username (`unique=True`). */
  ghost predicate UsersValid(us: seq<User>) {
    Distinct(us, UserKey) && Distinct(us, UsernameKey)
  }

  /** Unique primary key and `unique_id_number`; the `user_id` foreign key
      names an existing user; and, as the one-to-one `User.employee`
      relationship expects, no two employees share a user. */
  ghost predicate EmployeesValid(es: seq<Employee>, us: seq<User>) {
    && Distinct(es, EmployeeKey)
    && Distinct(es, UniqueIdKey)
    && Distinct(es, UserLinkKey)
    && (forall e | e in es :: HasUser(us, e.userId))
  }

  /** Unique primary key; the `employee_id` foreign key names an employee. */
  ghost predicate AttendanceValid(as_: seq<Attendance>, es: seq<Employee>) {
    && Distinct(as_, AttendanceKey)
    && (forall a | a in as_ :: HasEmployee(es, a.employeeId))
  }

  /** Unique primary key; the `employee_id` foreign key names an employee;
      the status is one the application writes. */
  ghost predicate LeavesValid(ls: seq<LeaveRequest>, es: seq<Employee>) {
    && Distinct(ls, LeaveKey)
    && (forall l | l in ls :: HasEmployee(es, l.employeeId))
    && (forall l | l in ls :: IsLeaveStatus(l.status))
  }

  ghost predicate Consistent(us: seq<User>, es: seq<Employee>, as_: seq<Attendance>, ls: seq<LeaveRequest>) {
    UsersValid(us) && EmployeesValid(es, us) && AttendanceValid(as_, es) && LeavesValid(ls, es)
  }

  lemma DistinctAppend<T, K>(s: seq<T>, x: T, key: T -> K)
    requires Distinct(s, key)
    requires forall y | y in s :: key(y) != key(x)
    ensures Distinct(s + [x], key)
  {
    var t := s + [x];
    forall i, j | 0 <= i < |t| && 0 <= j < |t| && i != j
      ensures key(t[i]) != key(t[j])
    {
      if i < |s| && j < |s| {
        assert t[i] == s[i] && t[j] == s[j];
      } else if i < |s| {
        assert t[i] in s;
      } else {
        assert t[j] in s;
      }
    }
  }

  lemma DistinctRemove<T, K>(s: seq<T>, k: int, key: T -> K)
    requires Distinct(s, key) && 0 <= k < |s|
    ensures Distinct(s[..k] + s[k + 1..], key)
  {
    var t := s[..k] + s[k + 1..];
    forall i, j | 0 <= i < |t| && 0 <= j < |t| && i != j
      ensures key(t[i]) != key(t[j])
    {
      var i' := if i < k then i else i + 1;
      var j' := if j < k then j else j + 1;
      assert t[i] == s[i'] && t[j] == s[j'];
    }
  }

  lemma DistinctUpdate<T, K>(s: seq<T>, k: int, x: T, key: T -> K)
    requires Distinct(s, key) && 0 <= k < |s|
    requires forall j | 0 <= j < |s| && j != k :: key(s[j]) != key(x)
    ensures Distinct(s[k := x], key)
  {
  }

  /** Removing one row keeps every other row. */
  lemma InRemoved<T>(s: seq<T>, k: int, x: T)
    requires 0 <= k < |s| && x in s && x != s[k]
    ensures x in s[..k] + s[k + 1..]
  {
    var i :| 0 <= i < |s| && s[i] == x;
    if i < k {
      assert (s[..k] + s[k + 1..])[i] == x;
    } else {
      assert (s[..k] + s[k + 1..])[i - 1] == x;
    }
  }

  /** A row that survives a removal was there before. */
  lemma FromRemoved<T>(s: seq<T>, k: int, x: T)
    requires 0 <= k < |s| && x in s[..k] + s[k + 1..]
    ensures x in s
  {
    assert x in s[..k] || x in s[k + 1..];
  }
}
