/** The handlers that only read the tables: the admin lists, the HR
    attendance view, the profile page, the profile picture and the picture
    URL injected into every template. They take a snapshot of the tables. */
module Views {
  import opened Wrappers
  import opened Timing
  import opened Models
  import opened Queries
  import opened Auth
  import opened Http

  /** `User.query.filter_by(role='hr').all()`, in table order. */
  function HrUsers(us: seq<User>): (r: seq<User>)
    ensures forall u :: u in r <==> u in us && u.role == RoleHr
  {
    if |us| == 0 then []
    else
      var last := us[|us| - 1];
      assert us == us[..|us| - 1] + [last];
      HrUsers(us[..|us| - 1]) + (if last.role == RoleHr then [last] else [])
  }

  datatype HrRow = HrRow(id: int, username: string, role: string)

  /** view_hr, behind the admin guard: one row per HR user, in table order. */
  method ViewHr(s: Session, us: seq<User>) returns (reply: Reply, rows: seq<HrRow>)
    ensures !AdminAllowed(s) ==> reply == AdminDenied && rows == []
    ensures AdminAllowed(s) ==>
      && reply == Show(AdminViewHrPage, None)
      && |rows| == |HrUsers(us)|
      && (forall i | 0 <= i < |rows| ::
            rows[i] == HrRow(HrUsers(us)[i].id, HrUsers(us)[i].username, HrUsers(us)[i].role))
      && (forall r | r in rows :: r.role == RoleHr)
      && (forall u | u in us && u.role == RoleHr :: HrRow(u.id, u.username, u.role) in rows)
  {
    if !AdminAllowed(s) {
      return AdminDenied, [];
    }
    var hr := HrUsers(us);
    rows := [];
    var i := 0;
    while i < |hr|
      invariant 0 <= i <= |hr|
      invariant |rows| == i
      invariant forall m | 0 <= m < i :: rows[m] == HrRow(hr[m].id, hr[m].username, hr[m].role)
    {
      rows := rows + [HrRow(hr[i].id, hr[i].username, hr[i].role)];
      i := i + 1;
    }
    forall r | r in rows ensures r.role == RoleHr {
      var m :| 0 <= m < |rows| && rows[m] == r;
      assert hr[m] in hr;
    }
    forall u | u in us && u.role == RoleHr ensures HrRow(u.id, u.username, u.role) in rows {
      var m :| 0 <= m < |hr| && hr[m] == u;
      assert rows[m] == HrRow(u.id, u.username, u.role);
    }
    reply := Show(AdminViewHrPage, None);
  }

  datatype EmployeeRow = EmployeeRow(
    id: int, name: string, address: string, phoneNumber: string, uniqueIdNumber: string,
    username: string, role: string, jobRole: Option<string>)

  /** The columns an employee row takes from its linked user, empty when the
      user is missing. */
  predicate ShowsUser(row: EmployeeRow, us: seq<User>, userId: int) {
    match FindUser(us, userId)
    case Some(j) => row.username == us[j].username && row.role == us[j].role
    case None => row.username == "" && row.role == ""
  }

  /** The admin view_employees, behind the admin guard: one row per employee,
      in table order, with the username and role of its user. */
  method ViewEmployees(s: Session, us: seq<User>, es: seq<Employee>) returns (reply: Reply, rows: seq<EmployeeRow>)
    ensures !AdminAllowed(s) ==> reply == AdminDenied && rows == []
    ensures AdminAllowed(s) ==>
      && reply == Show(AdminViewEmployeesPage, None)
      && |rows| == |es|
      && forall i | 0 <= i < |es| ::
           && rows[i].id == es[i].id && rows[i].name == es[i].name && rows[i].address == es[i].address
           && rows[i].phoneNumber == es[i].phoneNumber && rows[i].uniqueIdNumber == es[i].uniqueIdNumber
           && rows[i].jobRole == es[i].jobRole
           && ShowsUser(rows[i], us, es[i].userId)
  {
    if !AdminAllowed(s) {
      return AdminDenied, [];
    }
    rows := [];
    var i := 0;
    while i < |es|
      invariant 0 <= i <= |es|
      invariant |rows| == i
      invariant forall m | 0 <= m < i ::
        && rows[m].id == es[m].id && rows[m].name == es[m].name && rows[m].address == es[m].address
        && rows[m].phoneNumber == es[m].phoneNumber && rows[m].uniqueIdNumber == es[m].uniqueIdNumber
        && rows[m].jobRole == es[m].jobRole
        && ShowsUser(rows[m], us, es[m].userId)
    {
      var emp := es[i];
      var user := FindUser(us, emp.userId);
      var username := if user.Some? then us[user.value].username else "";
      var role := if user.Some? then us[user.value].role else "";
      rows := rows + [EmployeeRow(emp.id, emp.name, emp.address, emp.phoneNumber, emp.uniqueIdNumber,
                                  username, role, emp.jobRole)];
      i := i + 1;
    }
    reply := Show(AdminViewEmployeesPage, None);
  }

  /** `Attendance.query.join(Employee).filter(Attendance.date == today)`:
      today's rows that have an employee, in table order. */
  function TodayJoined(as_: seq<Attendance>, es: seq<Employee>, today: Date): (r: seq<Attendance>)
    ensures forall a :: a in r <==> a in as_ && a.date == today && HasEmployee(es, a.employeeId)
  {
    if |as_| == 0 then []
    else
      var last := as_[|as_| - 1];
      assert as_ == as_[..|as_| - 1] + [last];
      TodayJoined(as_[..|as_| - 1], es, today)
        + (if last.date == today && HasEmployee(es, last.employeeId) then [last] else [])
  }

  datatype AttendanceRow = AttendanceRow(
    employeeName: string, date: Date, checkinTime: Option<Time>, checkoutTime: Option<Time>,
    duration: Option<Hms>)

  /** The duration column of a row: present exactly when both times are,
      and then the hours, minutes and seconds of the signed duration. */
  predicate ShowsDuration(row: AttendanceRow, a: Attendance) {
    && (row.duration.Some? <==> a.checkinTime.Some? && a.checkoutTime.Some?)
    && (row.duration.Some? ==>
          var h := row.duration.value;
          && h.hours * SecondsPerHour + h.minutes * SecondsPerMinute + h.seconds
               == DurationSeconds(a.checkinTime.value, a.checkoutTime.value)
          && 0 <= h.minutes < 60 && 0 <= h.seconds < 60)
  }

  /** view_attendance: one row per attendance row of today, with the name
      of its employee and its duration split into hours, minutes and
      seconds. The query orders by date only, which fixes no order among
      rows of one day; the model keeps table order. */
  method ViewAttendance(as_: seq<Attendance>, es: seq<Employee>, today: Date) returns (rows: seq<AttendanceRow>)
    ensures |rows| == |TodayJoined(as_, es, today)|
    ensures forall i | 0 <= i < |rows| ::
      var a := TodayJoined(as_, es, today)[i];
      && FindEmployee(es, a.employeeId).Some?
      && rows[i].employeeName == es[FindEmployee(es, a.employeeId).value].name
      && rows[i].date == today && rows[i].checkinTime == a.checkinTime && rows[i].checkoutTime == a.checkoutTime
      && ShowsDuration(rows[i], a)
  {
    var records := TodayJoined(as_, es, today);
    rows := [];
    var i := 0;
    while i < |records|
      invariant 0 <= i <= |records|
      invariant |rows| == i
      invariant forall m | 0 <= m < i ::
        && FindEmployee(es, records[m].employeeId).Some?
        && rows[m].employeeName == es[FindEmployee(es, records[m].employeeId).value].name
        && rows[m].date == today && rows[m].checkinTime == records[m].checkinTime
        && rows[m].checkoutTime == records[m].checkoutTime
        && ShowsDuration(rows[m], records[m])
    {
      var rec := records[i];
      assert rec in records;
      var employee := es[FindEmployee(es, rec.employeeId).value];
      var duration := None;
      if rec.checkinTime.Some? && rec.checkoutTime.Some? {
        duration := Some(DurationSplit(DurationSeconds(rec.checkinTime.value, rec.checkoutTime.value)));
      }
      rows := rows + [AttendanceRow(employee.name, rec.date, rec.checkinTime, rec.checkoutTime, duration)];
      i := i + 1;
    }
  }

  /** A served picture: its bytes and the mimetype of the response. */
  datatype Picture = Picture(content: seq<bv8>, mimetype: string)

  /** The mimetype `send_file` guesses from the download name
      `profile_<id>.jpg` when the row stores none. */
  const GuessedMimetype := "image/jpeg"

  /** employee_profile_pic: a 404 (None) when the employee does not exist or
      its picture is missing or empty; otherwise its bytes, with the stored
      mimetype or, without one, the one guessed from the download name. */
  function ProfilePic(es: seq<Employee>, employeeId: int): (r: Option<Picture>)
    ensures !HasEmployee(es, employeeId) ==> r.None?
    ensures (forall e | e in es && e.id == employeeId :: e.profilePic.None? || e.profilePic.value == []) ==> r.None?
    ensures r.Some? ==>
      exists e | e in es && e.id == employeeId ::
        && e.profilePic == Some(r.value.content) && r.value.content != []
        && r.value.mimetype == (if e.profilePicMimetype.Some? then e.profilePicMimetype.value else GuessedMimetype)
    // A non-empty picture of the employee found is always served.
    ensures FindEmployee(es, employeeId).Some? ==>
      var e := es[FindEmployee(es, employeeId).value];
      e.profilePic.Some? && e.profilePic.value != [] ==>
        r == Some(Picture(e.profilePic.value,
                          if e.profilePicMimetype.Some? then e.profilePicMimetype.value else GuessedMimetype))
  {
    match FindEmployee(es, employeeId)
    case None => None
    case Some(k) =>
      assert es[k] in es;
      if es[k].profilePic.None? || es[k].profilePic.value == [] then None
      else
        Some(Picture(es[k].profilePic.value,
                     if es[k].profilePicMimetype.Some? then es[k].profilePicMimetype.value else GuessedMimetype))
  }

  /** inject_profile_pic_url: the id of the employee whose picture URL is
      given to every template, or None. */
  function ProfilePicUrl(es: seq<Employee>, s: Session): (r: Option<int>)
    ensures !HasTruthyUserId(s) ==> r.None?
    ensures r.Some? ==>
      exists e | e in es && e.userId == s.userId.value ::
        e.id == r.value && e.profilePic.Some? && e.profilePic.value != []
    ensures HasTruthyUserId(s) &&
            (forall e | e in es && e.userId == s.userId.value :: e.profilePic.None? || e.profilePic.value == [])
            ==> r.None?
    // The URL is given whenever the user's first employee row has a picture.
    ensures HasTruthyUserId(s) && EmployeeOfUser(es, s.userId.value).Some? ==>
      var e := es[EmployeeOfUser(es, s.userId.value).value];
      e.profilePic.Some? && e.profilePic.value != [] ==> r == Some(e.id)
  {
    match SessionEmployee(es, s)
    case None => None
    case Some(k) =>
      assert es[k] in es;
      if es[k].profilePic.Some? && es[k].profilePic.value != [] then Some(es[k].id) else None
  }

  datatype ProfileView = ProfileDenied | Profile(user: Option<User>, employee: Option<Employee>)

  /** employee_profile, behind the employee guard: the session's user and
      its employee row, either of which may be missing. */
  function EmployeeProfile(us: seq<User>, es: seq<Employee>, s: Session): (r: ProfileView)
    ensures r.ProfileDenied? <==> !EmployeeAllowed(s)
    ensures r.Profile? ==>
      && (r.user.Some? <==> HasUser(us, s.userId.value))
      && (r.user.Some? ==> r.user.value in us && r.user.value.id == s.userId.value)
      && (r.employee.Some? <==> exists e | e in es :: e.userId == s.userId.value)
      && (r.employee.Some? ==> r.employee.value in es && r.employee.value.userId == s.userId.value)
  {
    if !EmployeeAllowed(s) then ProfileDenied
    else
      var user := FindUser(us, s.userId.value);
      var employee := SessionEmployee(es, s);
      Profile(if user.Some? then Some(us[user.value]) else None,
              if employee.Some? then Some(es[employee.value]) else None)
  }

  /** With unique employee ids, looking an employee up by its own id finds it. */
  lemma FindOwnEmployee(es: seq<Employee>, k: int)
    requires Distinct(es, EmployeeKey) && 0 <= k < |es|
    ensures FindEmployee(es, es[k].id) == Some(k)
  {
    assert es[k] in es;
  }

  /** After a profile edit stores an uploaded file, the picture endpoint
      serves exactly that file with its mimetype, unless the file is empty. */
  lemma PictureAfterUpload(es: seq<Employee>, k: int, content: seq<bv8>, mimetype: string)
    requires Distinct(es, EmployeeKey) && 0 <= k < |es|
    ensures var es' := es[k := es[k].(profilePic := Some(content), profilePicMimetype := Some(mimetype))];
            ProfilePic(es', es[k].id) == if content == [] then None else Some(Picture(content, mimetype))
  {
    var es' := es[k := es[k].(profilePic := Some(content), profilePicMimetype := Some(mimetype))];
    DistinctUpdate(es, k, es'[k], EmployeeKey);
    FindOwnEmployee(es', k);
  }

  /** After a profile edit stores an uploaded file, every page the user sees
      links the picture of the user's own employee row, unless the file is
      empty. */
  lemma PictureUrlAfterUpload(es: seq<Employee>, k: int, s: Session, content: seq<bv8>, mimetype: string)
    requires Distinct(es, UserLinkKey) && 0 <= k < |es|
    requires HasTruthyUserId(s) && es[k].userId == s.userId.value
    ensures var es' := es[k := es[k].(profilePic := Some(content), profilePicMimetype := Some(mimetype))];
            ProfilePicUrl(es', s) == if content == [] then None else Some(es[k].id)
  {
    var es' := es[k := es[k].(profilePic := Some(content), profilePicMimetype := Some(mimetype))];
    DistinctUpdate(es, k, es'[k], UserLinkKey);
    assert es'[k] in es';
    var i := EmployeeOfUser(es', s.userId.value).value;
    assert UserLinkKey(es'[i]) == UserLinkKey(es'[k]);
  }
}
