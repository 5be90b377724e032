/** The database behind the portal and the handlers that change it.

    Each table is a sequence of rows in primary-key order; each table's
    AUTO_INCREMENT counter hands out ids starting at 1. A handler that
    rejects its input leaves every table as it was. */
module Portal {
  import opened Wrappers
  import opened Timing
  import opened Models
  import opened Queries
  import opened Integrity
  import opened Auth
  import opened Http

  /** An uploaded file; only a non-empty filename makes it count as supplied. */
  datatype Upload = Upload(filename: string, mimetype: string, content: seq<bv8>)

  class Store {
    var users: seq<User>
    var employees: seq<Employee>
    var attendances: seq<Attendance>
    var leaves: seq<LeaveRequest>
    var nextUserId: int
    var nextEmployeeId: int
    var nextAttendanceId: int
    var nextLeaveId: int

    /** The integrity rules hold and every id is below its table's counter. */
    ghost predicate Valid()
      reads this
    {
      && Consistent(users, employees, attendances, leaves)
      && 0 < nextUserId && 0 < nextEmployeeId && 0 < nextAttendanceId && 0 < nextLeaveId
      && (forall u | u in users :: 0 < u.id < nextUserId)
      && (forall e | e in employees :: 0 < e.id < nextEmployeeId)
      && (forall a | a in attendances :: 0 < a.id < nextAttendanceId)
      && (forall l | l in leaves :: 0 < l.id < nextLeaveId)
    }

    /** An empty database. */
    constructor ()
      ensures Valid()
      ensures users == [] && employees == [] && attendances == [] && leaves == []
    {
      users, employees, attendances, leaves := [], [], [], [];
      nextUserId, nextEmployeeId, nextAttendanceId, nextLeaveId := 1, 1, 1, 1;
    }

    /** add_employee on a POST: a duplicate username is reported before a
        duplicate `unique_id_number`; otherwise one user with role
        `employee` and one employee linked to it are added. */
    method AddEmployee(name: string, address: string, phoneNumber: string, uniqueIdNumber: string,
                       username: string, password: string, jobRole: Option<string>, salary: Option<real>)
      returns (reply: Reply)
      requires Valid()
      modifies this
      ensures Valid()
      ensures UsernameTaken(old(users), username) ==>
                reply == Show(AddEmployeePage, Some(UsernameExistsMsg)) && unchanged(this)
      ensures !UsernameTaken(old(users), username) && UniqueIdTaken(old(employees), uniqueIdNumber) ==>
                reply == Show(AddEmployeePage, Some(UniqueIdExistsMsg)) && unchanged(this)
      ensures !UsernameTaken(old(users), username) && !UniqueIdTaken(old(employees), uniqueIdNumber) ==>
                && reply == Show(AddEmployeePage, Some(EmployeeAddedMsg))
                && users == old(users) + [User(old(nextUserId), username, password, RoleEmployee)]
                && employees == old(employees) + [Employee(old(nextEmployeeId), name, address, phoneNumber,
                                                           uniqueIdNumber, jobRole, salary, old(nextUserId), None, None)]
                && attendances == old(attendances) && leaves == old(leaves)
                && nextUserId == old(nextUserId) + 1 && nextEmployeeId == old(nextEmployeeId) + 1
                && nextAttendanceId == old(nextAttendanceId) && nextLeaveId == old(nextLeaveId)
    {
      if UsernameTaken(users, username) {
        reply := Show(AddEmployeePage, Some(UsernameExistsMsg));
      } else if UniqueIdTaken(employees, uniqueIdNumber) {
        reply := Show(AddEmployeePage, Some(UniqueIdExistsMsg));
      } else {
        var user := User(nextUserId, username, password, RoleEmployee);
        var employee := Employee(nextEmployeeId, name, address, phoneNumber, uniqueIdNumber, jobRole, salary,
                                 user.id, None, None);
        AddEmployeeConsistent(users, employees, attendances, leaves, user, employee);
        users := users + [user];
        nextUserId := nextUserId + 1;
        employees := employees + [employee];
        nextEmployeeId := nextEmployeeId + 1;
        reply := Show(AddEmployeePage, Some(EmployeeAddedMsg));
      }
    }

    /** edit_employee on a POST: an unknown id is a 404; the uniqueness
        checks ignore the row being edited; on success the employee's listed
        columns and its user's username and password are overwritten. */
    method EditEmployee(employeeId: int, name: string, address: string, phoneNumber: string,
                        uniqueIdNumber: string, username: string, password: string,
                        jobRole: Option<string>, salary: Option<real>)
      returns (reply: Reply)
      requires Valid()
      modifies this
      ensures Valid()
      ensures FindEmployee(old(employees), employeeId).None? ==> reply == NotFound && unchanged(this)
      ensures FindEmployee(old(employees), employeeId).Some? ==>
        var k := FindEmployee(old(employees), employeeId).value;
        var e := old(employees)[k];
        FindUser(old(users), e.userId).Some? &&
        var j := FindUser(old(users), e.userId).value;
        if UsernameTakenByOther(old(users), username, e.userId) then
          reply == Show(EditEmployeePage, Some(UsernameExistsMsg)) && unchanged(this)
        else if UniqueIdTakenByOther(old(employees), uniqueIdNumber, employeeId) then
          reply == Show(EditEmployeePage, Some(UniqueIdExistsMsg)) && unchanged(this)
        else
          && reply == Show(EditEmployeePage, Some(EmployeeUpdatedMsg))
          && employees == old(employees)[k := e.(name := name, address := address, phoneNumber := phoneNumber,
                                                 uniqueIdNumber := uniqueIdNumber, jobRole := jobRole, salary := salary)]
          && users == old(users)[j := old(users)[j].(username := username, password := password)]
          && attendances == old(attendances) && leaves == old(leaves)
          && nextUserId == old(nextUserId) && nextEmployeeId == old(nextEmployeeId)
          && nextAttendanceId == old(nextAttendanceId) && nextLeaveId == old(nextLeaveId)
    {
      var found := FindEmployee(employees, employeeId);
      if found.None? {
        return NotFound;
      }
      var k := found.value;
      var e := employees[k];
      assert e in employees;
      var j := FindUser(users, e.userId).value;
      if UsernameTakenByOther(users, username, e.userId) {
        reply := Show(EditEmployeePage, Some(UsernameExistsMsg));
      } else if UniqueIdTakenByOther(employees, uniqueIdNumber, employeeId) {
        reply := Show(EditEmployeePage, Some(UniqueIdExistsMsg));
      } else {
        var e' := e.(name := name, address := address, phoneNumber := phoneNumber,
                     uniqueIdNumber := uniqueIdNumber, jobRole := jobRole, salary := salary);
        var u' := users[j].(username := username, password := password);
        forall i | 0 <= i < |employees| && i != k ensures employees[i].uniqueIdNumber != uniqueIdNumber {
          assert EmployeeKey(employees[i]) != EmployeeKey(employees[k]);
          assert employees[i] in employees;
        }
        UpdateEmployeeConsistent(users, employees, attendances, leaves, k, e');
        forall i | 0 <= i < |users| && i != j ensures users[i].username != username {
          assert UserKey(users[i]) != UserKey(users[j]);
          assert users[i] in users;
        }
        UpdateUserConsistent(users, employees[k := e'], attendances, leaves, j, u');
        employees := employees[k := e'];
        users := users[j := u'];
        reply := Show(EditEmployeePage, Some(EmployeeUpdatedMsg));
      }
    }

    /** The loop of delete_employee over the employee's attendance rows. */
    method DropAttendanceOf(employeeId: int)
      modifies this`attendances
      ensures attendances == AttendanceExcept(old(attendances), employeeId)
    {
      var rows := attendances;
      var kept: seq<Attendance> := [];
      var i := 0;
      while i < |rows|
        invariant 0 <= i <= |rows|
        invariant kept == AttendanceExcept(rows[..i], employeeId)
      {
        assert rows[..i + 1][..i] == rows[..i];
        if rows[i].employeeId != employeeId {
          kept := kept + [rows[i]];
        }
        i := i + 1;
      }
      assert rows[..i] == rows;
      attendances := kept;
    }

    /** The loop of delete_employee over the employee's leave requests. */
    method DropLeavesOf(employeeId: int)
      modifies this`leaves
      ensures leaves == LeavesExcept(old(leaves), employeeId)
    {
      var rows := leaves;
      var kept: seq<LeaveRequest> := [];
      var i := 0;
      while i < |rows|
        invariant 0 <= i <= |rows|
        invariant kept == LeavesExcept(rows[..i], employeeId)
      {
        assert rows[..i + 1][..i] == rows[..i];
        if rows[i].employeeId != employeeId {
          kept := kept + [rows[i]];
        }
        i := i + 1;
      }
      assert rows[..i] == rows;
      leaves := kept;
    }

    /** delete_employee: an unknown id raises inside the handler's `try` and
        is reported as a deletion error; otherwise the employee's attendance
        and leave rows, the employee and its user are removed, and nothing
        of any other employee changes. */
    method DeleteEmployee(employeeId: int) returns (reply: Reply)
      requires Valid()
      modifies this
      ensures Valid()
      ensures FindEmployee(old(employees), employeeId).None? ==>
                reply == Redirect(HrEmployeesPage, Some(DeleteErrorMsg)) && unchanged(this)
      ensures FindEmployee(old(employees), employeeId).Some? ==>
        var k := FindEmployee(old(employees), employeeId).value;
        FindUser(old(users), old(employees)[k].userId).Some? &&
        var j := FindUser(old(users), old(employees)[k].userId).value;
        && reply == Redirect(HrEmployeesPage, Some(EmployeeDeletedMsg))
        && attendances == AttendanceExcept(old(attendances), employeeId)
        && leaves == LeavesExcept(old(leaves), employeeId)
        && employees == old(employees)[..k] + old(employees)[k + 1..]
        && users == old(users)[..j] + old(users)[j + 1..]
        && nextUserId == old(nextUserId) && nextEmployeeId == old(nextEmployeeId)
        && nextAttendanceId == old(nextAttendanceId) && nextLeaveId == old(nextLeaveId)
    {
      var found := FindEmployee(employees, employeeId);
      if found.None? {
        return Redirect(HrEmployeesPage, Some(DeleteErrorMsg));
      }
      var k := found.value;
      assert employees[k] in employees;
      var j := FindUser(users, employees[k].userId).value;
      RemoveEmployeeAndUser(k, j);
      reply := Redirect(HrEmployeesPage, Some(EmployeeDeletedMsg));
    }

    /** Removes the employee at position `k`, its rows, and its user at position `j`. */
    method RemoveEmployeeAndUser(k: int, j: int)
      requires Valid() && 0 <= k < |employees| && 0 <= j < |users| && employees[k].userId == users[j].id
      modifies this
      ensures Valid()
      ensures attendances == AttendanceExcept(old(attendances), old(employees)[k].id)
      ensures leaves == LeavesExcept(old(leaves), old(employees)[k].id)
      ensures employees == old(employees)[..k] + old(employees)[k + 1..]
      ensures users == old(users)[..j] + old(users)[j + 1..]
      ensures nextUserId == old(nextUserId) && nextEmployeeId == old(nextEmployeeId)
      ensures nextAttendanceId == old(nextAttendanceId) && nextLeaveId == old(nextLeaveId)
    {
      RemoveEmployeeConsistent(users, employees, attendances, leaves, k, j);
      ghost var us, es := users, employees;
      RemoveEmployeeAt(k);
      users := users[..j] + users[j + 1..];
      forall u | u in users ensures 0 < u.id < nextUserId {
        FromRemoved(us, j, u);
      }
      forall e | e in employees ensures 0 < e.id < nextEmployeeId {
        FromRemoved(es, k, e);
      }
    }

    /** Removes the user at position `j`, which no employee is linked to. */
    method RemoveUnlinkedUser(j: int)
      requires Valid() && 0 <= j < |users|
      requires forall e | e in employees :: e.userId != users[j].id
      modifies this`users
      ensures Valid()
      ensures users == old(users)[..j] + old(users)[j + 1..]
    {
      RemoveUnlinkedUserConsistent(users, employees, attendances, leaves, j);
      ghost var us := users;
      users := users[..j] + users[j + 1..];
      forall u | u in users ensures 0 < u.id < nextUserId {
        FromRemoved(us, j, u);
      }
    }

    /** Removes the employee at position `k` with its attendance and leave rows. */
    method RemoveEmployeeAt(k: int)
      requires 0 <= k < |employees|
      modifies this
      ensures attendances == AttendanceExcept(old(attendances), old(employees)[k].id)
      ensures leaves == LeavesExcept(old(leaves), old(employees)[k].id)
      ensures employees == old(employees)[..k] + old(employees)[k + 1..]
      ensures users == old(users)
      ensures nextUserId == old(nextUserId) && nextEmployeeId == old(nextEmployeeId)
      ensures nextAttendanceId == old(nextAttendanceId) && nextLeaveId == old(nextLeaveId)
    {
      var employeeId := employees[k].id;
      DropAttendanceOf(employeeId);
      DropLeavesOf(employeeId);
      employees := employees[..k] + employees[k + 1..];
    }

    /** check-in: a new open row for today, its check-in time rounded to
        the second as the table stores it. */
    method CheckIn(employeeId: int, today: Date, now: Time)
      requires Valid() && HasEmployee(employees, employeeId)
      modifies this
      ensures Valid()
      ensures attendances == old(attendances) + [Attendance(old(nextAttendanceId), employeeId, today, Some(StoredTime(now)), None)]
      ensures nextAttendanceId == old(nextAttendanceId) + 1
      ensures users == old(users) && employees == old(employees) && leaves == old(leaves)
      ensures nextUserId == old(nextUserId) && nextEmployeeId == old(nextEmployeeId) && nextLeaveId == old(nextLeaveId)
    {
      var row := Attendance(nextAttendanceId, employeeId, today, Some(StoredTime(now)), None);
      AddAttendanceConsistent(users, employees, attendances, leaves, row);
      attendances := attendances + [row];
      nextAttendanceId := nextAttendanceId + 1;
    }

    /** check-out: the open row of today with the latest check-in gets `now`,
        rounded to the second, as its checkout time. */
    method CheckOut(employeeId: int, today: Date, now: Time)
      requires Valid()
      modifies this`attendances
      ensures Valid()
      ensures attendances == CloseLatest(old(attendances), employeeId, today, now)
    {
      var latest := LatestToday(attendances, employeeId, today, true);
      if latest.Some? {
        var i := latest.value;
        UpdateAttendanceConsistent(users, employees, attendances, leaves, i,
                                   attendances[i].(checkoutTime := Some(StoredTime(now))));
        attendances := attendances[i := attendances[i].(checkoutTime := Some(StoredTime(now)))];
      }
    }

    /** employee_attendance: for the session's employee, the action
        `checkin` or `checkout` at time `now`, then the worked seconds shown
        for today, with `pageNow` the clock read while building the page.
        The times written to the table are rounded to the second; `pageNow`
        is not. Without an employee nothing happens and 0 is shown. */
    method EmployeeAttendance(s: Session, action: string, today: Date, now: Time, pageNow: Time)
      returns (worked: int)
      requires Valid()
      modifies this
      ensures Valid()
      ensures users == old(users) && employees == old(employees) && leaves == old(leaves)
      ensures nextUserId == old(nextUserId) && nextEmployeeId == old(nextEmployeeId) && nextLeaveId == old(nextLeaveId)
      ensures SessionEmployee(old(employees), s).None? ==>
                attendances == old(attendances) && nextAttendanceId == old(nextAttendanceId) && worked == 0
      ensures SessionEmployee(old(employees), s).Some? ==>
        var employeeId := old(employees)[SessionEmployee(old(employees), s).value].id;
        && (action == "checkin" ==>
              && attendances == old(attendances) + [Attendance(old(nextAttendanceId), employeeId, today,
                                                               Some(StoredTime(now)), None)]
              && nextAttendanceId == old(nextAttendanceId) + 1)
        && (action == "checkout" ==>
              attendances == CloseLatest(old(attendances), employeeId, today, now)
              && nextAttendanceId == old(nextAttendanceId))
        && (action != "checkin" && action != "checkout" ==>
              attendances == old(attendances) && nextAttendanceId == old(nextAttendanceId))
        && worked == TodayWorkedSeconds(attendances, employeeId, today, pageNow)
    {
      var found := SessionEmployee(employees, s);
      if found.None? {
        return 0;
      }
      var employeeId := employees[found.value].id;
      assert employees[found.value] in employees;
      if action == "checkin" {
        CheckIn(employeeId, today, now);
      } else if action == "checkout" {
        CheckOut(employeeId, today, now);
      }
      worked := TodayWorkedSeconds(attendances, employeeId, today, pageNow);
    }

    /** leave_request on a POST: the session's employee files a request,
        pending and dated today; without an employee nothing happens. */
    method SubmitLeave(s: Session, leaveType: string, startDate: string, endDate: string, reason: string,
                       today: Date)
      returns (reply: Reply)
      requires Valid()
      modifies this
      ensures Valid()
      ensures SessionEmployee(old(employees), s).None? ==> reply == Show(LeaveRequestPage, None) && unchanged(this)
      ensures SessionEmployee(old(employees), s).Some? ==>
        var employeeId := old(employees)[SessionEmployee(old(employees), s).value].id;
        && reply == Show(LeaveRequestPage, Some(LeaveSubmittedMsg))
        && leaves == old(leaves) + [LeaveRequest(old(nextLeaveId), employeeId, leaveType, startDate, endDate,
                                                 reason, StatusPending, today)]
        && nextLeaveId == old(nextLeaveId) + 1
        && users == old(users) && employees == old(employees) && attendances == old(attendances)
        && nextUserId == old(nextUserId) && nextEmployeeId == old(nextEmployeeId)
        && nextAttendanceId == old(nextAttendanceId)
    {
      var found := SessionEmployee(employees, s);
      if found.None? {
        return Show(LeaveRequestPage, None);
      }
      assert employees[found.value] in employees;
      var request := LeaveRequest(nextLeaveId, employees[found.value].id, leaveType, startDate, endDate,
                                  reason, StatusPending, today);
      AddLeaveConsistent(users, employees, attendances, leaves, request);
      leaves := leaves + [request];
      nextLeaveId := nextLeaveId + 1;
      reply := Show(LeaveRequestPage, Some(LeaveSubmittedMsg));
    }

    /** hr_leave_requests on a POST: the status changes only when the request
        exists and the action is `Accepted` or `Rejected`. */
    method DecideLeave(leaveId: Option<int>, action: string) returns (reply: Reply)
      requires Valid()
      modifies this`leaves
      ensures Valid()
      ensures var found := if leaveId.None? then None else FindLeave(old(leaves), leaveId.value);
        if found.Some? && (action == StatusAccepted || action == StatusRejected) then
          && leaves == old(leaves)[found.value := old(leaves)[found.value].(status := action)]
          && reply == Show(HrLeaveRequestsPage,
                           Some(if action == StatusAccepted then LeaveAcceptedMsg else LeaveRejectedMsg))
        else
          leaves == old(leaves) && reply == Show(HrLeaveRequestsPage, None)
    {
      var found := if leaveId.None? then None else FindLeave(leaves, leaveId.value);
      if found.Some? && (action == StatusAccepted || action == StatusRejected) {
        var k := found.value;
        UpdateLeaveConsistent(users, employees, attendances, leaves, k, action);
        leaves := leaves[k := leaves[k].(status := action)];
        reply := Show(HrLeaveRequestsPage,
                      Some(if action == StatusAccepted then LeaveAcceptedMsg else LeaveRejectedMsg));
      } else {
        reply := Show(HrLeaveRequestsPage, None);
      }
    }

    /** add_hr on a POST, behind the admin guard. Missing username or
        password is checked first, then the confirmation, then a duplicate
        username; otherwise one user with role `hr` is added. */
    method AddHr(s: Session, username: string, password: string, confirmPassword: string)
      returns (reply: Reply)
      requires Valid()
      modifies this
      ensures Valid()
      ensures !AdminAllowed(s) ==> reply == AdminDenied && unchanged(this)
      ensures AdminAllowed(s) ==>
        if username == "" || password == "" then
          reply == Show(AddHrPage, Some(CredentialsRequiredMsg)) && unchanged(this)
        else if password != confirmPassword then
          reply == Show(AddHrPage, Some(PasswordMismatchMsg)) && unchanged(this)
        else if UsernameTaken(old(users), username) then
          reply == Show(AddHrPage, Some(UsernameExistsMsg)) && unchanged(this)
        else
          && reply == Show(AddHrPage, Some(HrAddedMsg))
          && users == old(users) + [User(old(nextUserId), username, password, RoleHr)]
          && nextUserId == old(nextUserId) + 1
          && employees == old(employees) && attendances == old(attendances) && leaves == old(leaves)
          && nextEmployeeId == old(nextEmployeeId) && nextAttendanceId == old(nextAttendanceId)
          && nextLeaveId == old(nextLeaveId)
    {
      if !AdminAllowed(s) {
        return AdminDenied;
      }
      if username == "" || password == "" {
        reply := Show(AddHrPage, Some(CredentialsRequiredMsg));
      } else if password != confirmPassword {
        reply := Show(AddHrPage, Some(PasswordMismatchMsg));
      } else if UsernameTaken(users, username) {
        reply := Show(AddHrPage, Some(UsernameExistsMsg));
      } else {
        var user := User(nextUserId, username, password, RoleHr);
        AddUserConsistent(users, employees, attendances, leaves, user);
        users := users + [user];
        nextUserId := nextUserId + 1;
        reply := Show(AddHrPage, Some(HrAddedMsg));
      }
    }

    /** delete_hr, behind the admin guard: only an existing user whose role
        is `hr` is removed, together with the employee the `User.employee`
        relationship cascades to, if any, and that employee's rows. */
    method DeleteHr(s: Session, hrId: int) returns (reply: Reply)
      requires Valid()
      modifies this
      ensures Valid()
      ensures !AdminAllowed(s) ==> reply == AdminDenied && unchanged(this)
      ensures AdminAllowed(s) ==>
        var found := FindUser(old(users), hrId);
        if found.Some? && old(users)[found.value].role == RoleHr then
          && reply == Redirect(AdminViewHrPage, Some(HrDeletedMsg))
          && users == old(users)[..found.value] + old(users)[found.value + 1..]
          && (EmployeeOfUser(old(employees), hrId).None? ==>
                employees == old(employees) && attendances == old(attendances) && leaves == old(leaves))
          && (EmployeeOfUser(old(employees), hrId).Some? ==>
                var k := EmployeeOfUser(old(employees), hrId).value;
                && employees == old(employees)[..k] + old(employees)[k + 1..]
                && attendances == AttendanceExcept(old(attendances), old(employees)[k].id)
                && leaves == LeavesExcept(old(leaves), old(employees)[k].id))
          && nextUserId == old(nextUserId) && nextEmployeeId == old(nextEmployeeId)
          && nextAttendanceId == old(nextAttendanceId) && nextLeaveId == old(nextLeaveId)
        else
          reply == Redirect(AdminViewHrPage, Some(HrNotFoundMsg)) && unchanged(this)
    {
      if !AdminAllowed(s) {
        return AdminDenied;
      }
      var found := FindUser(users, hrId);
      if found.None? || users[found.value].role != RoleHr {
        return Redirect(AdminViewHrPage, Some(HrNotFoundMsg));
      }
      var j := found.value;
      var linked := EmployeeOfUser(employees, hrId);
      if linked.Some? {
        RemoveEmployeeAndUser(linked.value, j);
      } else {
        RemoveUnlinkedUser(j);
      }
      reply := Redirect(AdminViewHrPage, Some(HrDeletedMsg));
    }

    /** employee_edit_profile on a POST, behind the employee guard: only the
        phone number and address change, plus the picture and its mimetype
        when a file with a non-empty filename is supplied. A session whose
        user has no employee row makes the handler fail. */
    method EditProfile(s: Session, phoneNumber: string, address: string, file: Option<Upload>)
      returns (reply: Reply)
      requires Valid()
      modifies this
      ensures Valid()
      ensures !EmployeeAllowed(s) ==> reply == EmployeeDenied && unchanged(this)
      ensures EmployeeAllowed(s) && SessionEmployee(old(employees), s).None? ==>
                reply == ServerError && unchanged(this)
      ensures EmployeeAllowed(s) && SessionEmployee(old(employees), s).Some? ==>
        var k := SessionEmployee(old(employees), s).value;
        var e := old(employees)[k].(phoneNumber := phoneNumber, address := address);
        && reply == Redirect(EmployeeProfilePage, Some(ProfileUpdatedMsg))
        && employees == old(employees)[k := if file.Some? && file.value.filename != ""
                                            then e.(profilePic := Some(file.value.content),
                                                    profilePicMimetype := Some(file.value.mimetype))
                                            else e]
        && users == old(users) && attendances == old(attendances) && leaves == old(leaves)
        && nextUserId == old(nextUserId) && nextEmployeeId == old(nextEmployeeId)
        && nextAttendanceId == old(nextAttendanceId) && nextLeaveId == old(nextLeaveId)
    {
      if !EmployeeAllowed(s) {
        return EmployeeDenied;
      }
      var found := SessionEmployee(employees, s);
      if found.None? {
        return ServerError;
      }
      var k := found.value;
      var e := employees[k].(phoneNumber := phoneNumber, address := address);
      if file.Some? && file.value.filename != "" {
        e := e.(profilePic := Some(file.value.content), profilePicMimetype := Some(file.value.mimetype));
      }
      forall i | 0 <= i < |employees| && i != k ensures employees[i].uniqueIdNumber != e.uniqueIdNumber {
        assert UniqueIdKey(employees[i]) != UniqueIdKey(employees[k]);
      }
      UpdateEmployeeConsistent(users, employees, attendances, leaves, k, e);
      employees := employees[k := e];
      reply := Redirect(EmployeeProfilePage, Some(ProfileUpdatedMsg));
    }
  }
}
