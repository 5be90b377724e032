# HRMS portal — a Dafny model of its tables and handlers

HRMS is a Flask HR portal. Employees check in and out and file leave
requests. HR staff add, edit and delete employees, view today's attendance
and accept or reject leave requests. An administrator adds and removes HR
accounts. Everything lives in four tables: users, employees, attendance
and leave requests.

This project models those four tables as an in-memory database and models
each request handler over it.

- **`Models`** (`models.dfy`): one datatype per table row. `Consistent`
  holds the integrity rules:
  - unique primary keys, usernames and `unique_id_number`s;
  - the `user_id` and `employee_id` foreign keys;
  - at most one employee per user, which the one-to-one `User.employee`
    relationship expects;
  - the three leave statuses.
- **`Integrity`** (`integrity.dfy`): one lemma per kind of change a handler
  makes, each proving that the change keeps `Consistent`.
- **`Portal.Store`** (`store.dfy`): a class holding the four tables and
  their AUTO_INCREMENT counters. It has one method per state-changing
  handler.
  - Each method states its whole new state: what is appended, removed or
    overwritten, and that everything else is unchanged.
  - Each method keeps `Valid()`.
  - The error branches, checked in the source's order, leave the store
    unchanged.
- **`Queries`** (`queries.dfy`): the queries the handlers issue (lookups by
  key or by column with `.first()`, filters, counts) as functions on
  table snapshots. It also holds the attendance arithmetic: which row a
  check-out closes and which row the worked seconds are read from.
- **`Auth`** (`auth.dfy`): the session, login and its role dispatch,
  logout, and the two guards.
- **`Views`** (`views.dfy`): the read-only handlers:
  - the admin HR and employee lists;
  - HR's attendance view of today;
  - the profile page;
  - the profile picture endpoint;
  - the picture URL injected into every template.
- **`Timing`** (`timing.dfy`): the two duration computations.
  - Times of day are microseconds since midnight, because a time read from
    the clock carries microseconds.
  - The attendance table stores whole seconds. Its `TIME` columns declare no
    fractional digits, so MySQL rounds a written time to the nearest second,
    halves up (`Timing.StoredTime`). From 23:59:59.5 on, that gives
    24:00:00, which the model reads back as midnight.
  - Check-in and check-out write the rounded time. After the commit, the
    attendance page reads the rows back, so it measures from the stored
    times; the page clock itself is not rounded. A check-in whose fraction
    rounds up therefore shows 86399 worked seconds until the clock reaches
    the stored second (`Timing.WorkedRightAfterRoundedCheckIn`).
  - The attendance page reads a difference with `timedelta.seconds`, which
    wraps a negative difference around the day.
  - The HR view uses `int(total_seconds())`, which truncates toward zero,
    and splits the result into hours, minutes and seconds with Python's
    floor division.

The clock (`datetime.now()`, `date.today()`) and the form fields are
parameters. A missing optional column is `None`. A form field the
handlers read with `.get` is modelled as a string. The HR leave decision's
`leave_id` is optional because `LeaveRequest.query.get(None)` finds
nothing.

Where the code differs from its own documentation, the model follows the
code:

- **No guard on HR handlers.** The HR handlers in `app/routes.py` check
  no session. `add_employee`, `edit_employee`, `delete_employee`,
  `hr_leave_requests` and `view_attendance` therefore take no session in
  the model. Only the admin blueprint and the employee profile pages are
  guarded.
- **The two guards differ.** The admin guard tests whether the
  `user_id` key is present. The employee guards test whether its value is
  truthy, so a user id of 0 fails them.
- **`delete_employee` with an unknown id.** `get_or_404` raises inside
  the handler's `try`, so the result is the deletion-error flash and the
  redirect to the employee list, not a 404.
- **`delete_hr` cascades.** It removes the user through the ORM, and the
  `User.employee` backref cascades. If an employee row is linked to that
  user, it goes too, together with its attendance and leave rows.
- **`employee_edit_profile` without an employee row.** The handler
  dereferences `None` and fails. The model returns `ServerError` and
  changes nothing.
- **Unknown role at login.** The session is written before the role is
  dispatched. A user with an unknown role is therefore sent back to the
  login page already logged in.

## Model

| member | source | states |
|---|---|---|
| Timing.ElapsedOnClock | app/routes.py:68-71 | the time from check-in forward to the next moment the clock shows the checkout, in [0, one day), landing on the checkout modulo a day |
| Timing.WorkedSeconds | app/routes.py:67-76 | the worked seconds are the whole seconds of the clock-forward interval, so they lie in [0, 86400) even when the checkout is earlier than the check-in |
| Timing.DurationSeconds | app/routes.py:262-266 | the HR duration is the signed difference truncated toward zero, bracketed from below for a forward interval and from above for a backward one |
| Timing.DurationSplit | app/routes.py:266-270 | hours*3600 + minutes*60 + seconds equals the total, with minutes and seconds in [0, 60), for every total including negative ones |
| Timing.SplitIsUnique | app/routes.py:266-270 | any hours/minutes/seconds triple that adds up to the total with minutes and seconds below 60 is the split, so the split is the unique such reading |
| Timing.StoredTime | app/models.py:28-29 | a stored time is a whole number of seconds within half a second of the written one, rounding halves up; from 23:59:59.5 on it is midnight |
| Timing.StoredWholeSeconds | app/models.py:28-29 | a time already in whole seconds is stored unchanged |
| Timing.WorkedRightAfterRoundedCheckIn | app/routes.py:72-76 | when the check-in rounds up and the page clock has not yet reached the stored second, the page shows 86399 worked seconds |
| Timing.WorkedVersusDuration | app/routes.py:68-76 | the attendance page and the HR view agree on a forward interval; on a backward one the page shows the duration plus a day, minus one for a fractional second |
| Queries.FindUser | app/routes.py:285 | `User.query.get`: the position of the first user with the id; none exactly when no user has it |
| Queries.FindCredentials | app/routes.py:16 | the first user with both the username and the password; none exactly when no user has both |
| Queries.FindEmployee | app/routes.py:284 | `get_or_404`: the first employee with the id; none exactly when there is no such employee |
| Queries.EmployeeOfUser | app/routes.py:47 | `filter_by(user_id=...).first()`: the first employee linked to the user; none exactly when no employee is |
| Queries.FindLeave | app/routes.py:401 | the first leave request with the id; none exactly when there is none |
| Queries.UsernameTakenByOther | app/routes.py:297 | some user other than the edited one already has the username |
| Queries.UniqueIdTakenByOther | app/routes.py:299 | some employee other than the edited one already has the `unique_id_number` |
| Queries.AttendanceExcept | app/routes.py:323-325 | a row survives exactly when it is in the table and belongs to another employee |
| Queries.LeavesExcept | app/routes.py:329-331 | a leave request survives exactly when it is in the table and belongs to another employee |
| Queries.AttendanceExceptDistinct | app/routes.py:323-325 | removing an employee's rows keeps the attendance ids unique |
| Queries.LeavesExceptDistinct | app/routes.py:329-331 | removing an employee's requests keeps the leave ids unique |
| Queries.LatestToday | app/routes.py:60 | the employee's row of today (open only, when asked) with the greatest check-in, with a missing check-in ranked first as MySQL sorts it; none exactly when there is no such row |
| Queries.OpenCount | app/routes.py:60 | the number of the employee's open rows of today; zero exactly when there is none |
| Queries.PendingCount | app/routes.py:151 | the number of pending requests; zero exactly when none is pending |
| Queries.CloseLatest | app/routes.py:59-63 | a check-out changes only the checkout column, of at most one row. That row is an open row of today with the greatest check-in, and its checkout becomes `now` rounded to the second. Some row does close whenever an open row of today exists |
| Queries.OpenCountAppend | app/routes.py:56-58 | appending a row adds one to the open count exactly when the row is open and of today |
| Queries.OpenCountClose | app/routes.py:62-63 | closing one open row of today lowers the open count by one |
| Queries.CheckInOpensOne | app/routes.py:55-58 | a check-in opens exactly one more row for the day |
| Queries.CheckOutClosesOne | app/routes.py:59-63 | a check-out closes exactly one open row when there is one and changes nothing otherwise |
| Queries.TodayWorkedSeconds | app/routes.py:64-76 | the seconds shown lie in [0, 86400). They are 0 without a row of today or without a check-in. When some row of today has a check-in, they are the worked seconds of a row with the latest check-in, up to its checkout or else the clock |
| Queries.PendingAfterSubmit | app/routes.py:381-390 | submitting a request raises the pending count by one |
| Queries.PendingAfterDecision | app/routes.py:401-404 | accepting or rejecting a request lowers the pending count by one if it was pending and leaves it alone otherwise |
| Models.Consistent | app/models.py:5-41 | the store invariant. Ids, usernames and `unique_id_number`s are unique. Every employee's user exists, and no two employees share a user. Every attendance and leave row's employee exists. Every leave status is `Pending`, `Accepted` or `Rejected` |
| Integrity.AddUserConsistent | app/admin/routes.py:69-71 | a new user with a fresh id and username keeps every integrity rule |
| Integrity.AddEmployeeConsistent | app/routes.py:200-213 | a new user plus a new employee linked to it, with fresh keys, keep every integrity rule |
| Integrity.UpdateUserConsistent | app/routes.py:308-310 | rewriting a user's username and password with a username no other user has keeps every rule |
| Integrity.UpdateEmployeeConsistent | app/routes.py:302-310 | rewriting an employee's columns, keeping its id and user, with a `unique_id_number` no other employee has, keeps every rule |
| Integrity.RemoveEmployeeConsistent | app/routes.py:323-345 | removing an employee, its user and all its attendance and leave rows keeps every rule, the foreign keys included |
| Integrity.RemoveUnlinkedUserConsistent | app/admin/routes.py:83-86 | removing a user no employee references keeps every rule |
| Integrity.AddAttendanceConsistent | app/routes.py:55-58 | a new attendance row with a fresh id for an existing employee keeps every rule |
| Integrity.UpdateAttendanceConsistent | app/routes.py:59-63 | changing an attendance row's times keeps every rule |
| Integrity.AddLeaveConsistent | app/routes.py:380-390 | a new leave request with a fresh id, a known status and an existing employee keeps every rule |
| Integrity.UpdateLeaveConsistent | app/routes.py:401-404 | setting a leave request to a known status keeps every rule |
| Auth.RoleReply | app/routes.py:20-28 | `employee` goes to attendance, `hr` to the HR dashboard and `admin` to the admin dashboard, with no message. Any other role goes back to login with "Unknown user role." |
| Auth.Login | app/routes.py:13-31 | login fails exactly when no user has both the username and the password, and then the session is untouched; otherwise the session holds a matching user's id and role, and the redirect follows the role |
| Auth.Logout | app/routes.py:364-367 | `session.clear()` leaves neither a user id nor a role, so neither guard passes |
| Auth.AdminAllowed | app/admin/routes.py:10-12 | the admin guard passes exactly when the `user_id` key is present and the role is `admin` |
| Auth.EmployeeAllowed | app/employee/routes.py:34-35 | the employee guard passes exactly when the user id is truthy (present and not 0) and the role is `employee` |
| Auth.GuardsExclusive | app/admin/routes.py:10-12 | the admin guard and the employee guard never both pass |
| Auth.GuardsAfterLogin | app/routes.py:18-19 | with positive user ids, after a successful login each guard passes exactly when the user's role is its role |
| Auth.LoginAfterAdd | app/admin/routes.py:65-71 | a user added under a fresh username can log in with its password and is sent where its role leads |
| Auth.FindCredentialsAppend | app/routes.py:16 | with a fresh username, the credentials of an appended user are found at its own position |
| Auth.NoLoginAfterRemove | app/admin/routes.py:83-86 | once a user is removed, no password logs in under its username |
| Auth.SessionEmployee | app/routes.py:378-379 | the session's employee exists only for a truthy user id and is linked to it; none exactly when no employee is |
| Portal.Store.constructor | app/models.py:5-41 | an empty database satisfies every integrity rule |
| Portal.Store.AddEmployee | app/routes.py:194-214 | a duplicate username is reported before a duplicate unique id, and either leaves the store unchanged; otherwise exactly one `employee` user and one employee linked to it are appended |
| Portal.Store.EditEmployee | app/routes.py:284-311 | an unknown id is a 404; the uniqueness checks exclude the edited rows, in order, and a failure changes nothing; success overwrites exactly the listed employee columns and the user's username and password |
| Portal.Store.DropAttendanceOf | app/routes.py:323-325 | the loop leaves exactly the attendance rows of other employees, in order |
| Portal.Store.DropLeavesOf | app/routes.py:329-331 | the loop leaves exactly the leave requests of other employees, in order |
| Portal.Store.DeleteEmployee | app/routes.py:317-358 | an unknown id reports a deletion error and changes nothing; otherwise the employee's attendance and leave rows, the employee and its user are removed, and nothing else changes |
| Portal.Store.RemoveEmployeeAndUser | app/routes.py:323-345 | removes one employee with its rows and its user, keeping the integrity rules |
| Portal.Store.RemoveUnlinkedUser | app/admin/routes.py:85-86 | removes a user no employee references, keeping the integrity rules |
| Portal.Store.RemoveEmployeeAt | app/routes.py:323-338 | removes one employee and its attendance and leave rows, leaving the users alone |
| Portal.Store.CheckIn | app/routes.py:55-58 | appends exactly one row for today, with the check-in time rounded to the second and no checkout; the counter advances by one and nothing else changes |
| Portal.Store.CheckOut | app/routes.py:59-63 | the attendance table becomes `CloseLatest` of the old one: the open row of today with the greatest check-in, if any, gets the rounded checkout time, and nothing else changes |
| Portal.Store.EmployeeAttendance | app/routes.py:45-76 | without the session's employee nothing changes and 0 is shown. Otherwise: a check-in appends a row and advances the counter; a check-out closes as `CloseLatest` says; any other action changes nothing. The worked seconds are read from the new table with the unrounded page clock |
| Portal.Store.SubmitLeave | app/routes.py:373-392 | without the session's employee nothing changes; otherwise exactly one `Pending` request dated today is appended for that employee |
| Portal.Store.DecideLeave | app/routes.py:398-405 | the status changes, on that request only, exactly when the request exists and the action is `Accepted` or `Rejected`; any other input changes no request |
| Portal.Store.AddHr | app/admin/routes.py:50-72 | the admin guard comes first; then missing username or password, mismatched confirmation and a taken username are checked in that order, each leaving the store unchanged; success appends exactly one `hr` user |
| Portal.Store.DeleteHr | app/admin/routes.py:79-91 | the admin guard comes first; only an existing user with role `hr` is removed, together with the employee the relationship cascades to; otherwise "HR user not found." and nothing changes |
| Portal.Store.EditProfile | app/employee/routes.py:33-50 | the employee guard comes first; only the phone number and address change, plus the picture and its mimetype when a file with a non-empty filename is supplied |
| Views.HrUsers | app/admin/routes.py:37 | a user is listed exactly when it is in the table and its role is `hr` |
| Views.ViewHr | app/admin/routes.py:31-45 | the admin guard comes first; the rows are exactly the HR users, one row each, in table order |
| Views.ViewEmployees | app/admin/routes.py:8-28 | the admin guard comes first; there is one row per employee, carrying its columns and its user's username and role, which are empty when the user is missing |
| Views.TodayJoined | app/routes.py:256 | an attendance row is listed exactly when it is dated today and has an employee |
| Views.ViewAttendance | app/routes.py:252-278 | one row per attendance row of today, with its employee's name and times; a duration appears exactly when both times are set, and then it is the split of the signed duration |
| Views.ProfilePic | app/employee/routes.py:9-19 | an unknown employee, or one whose picture is missing or empty, gives a 404. Otherwise the picture is always served: the stored bytes with the stored mimetype, or, when none is stored, with `image/jpeg`, guessed from the download name `profile_<id>.jpg` |
| Views.ProfilePicUrl | app/employee/routes.py:21-29 | a URL is given only for a truthy user id whose employee has a non-empty picture, and then it names that employee. It is given whenever the user's first employee row has a non-empty picture |
| Views.EmployeeProfile | app/employee/routes.py:54-61 | the employee guard decides; the page shows the session's user and its employee, each present exactly when it exists |
| Views.FindOwnEmployee | app/employee/routes.py:11 | with unique employee ids, looking an employee up by its id finds that employee |
| Views.PictureAfterUpload | app/employee/routes.py:44-46 | after a profile edit stores a file, the picture endpoint serves exactly that file and mimetype, or a 404 when the file is empty |
| Views.PictureUrlAfterUpload | app/employee/routes.py:23-29 | with one employee per user, after a profile edit stores a file, the injected URL names the user's own employee, or is absent when the file is empty |

## Left out

- `app/password_utils.py` is not part of this model. It wraps foreign hashing, encryption and randomness, and no handler calls it. Login compares plain-text passwords.
- The HR handlers `view_employees` (app/routes.py:217-236) and `employee_list` are left out. Both only render tables. The first repeats the loop that `Views.ViewEmployees` models, without the guard and with the salary.
- `employee_dashboard` is left out as a second copy. It repeats the worked-seconds read that `Queries.TodayWorkedSeconds` models (app/routes.py:105-130), and renders today's check-in and check-out times. It reaches the employee through a `'user_id' in session` presence check and `User.query.get`, not the truthiness test of the attendance page.
- `hr_dashboard` and `admin_dashboard` are left out. They render names and counts. The one count with logic, the pending leaves, is `Queries.PendingCount`.
- `employee_attendance_detail` and `leave_status` are left out. They only list one employee's rows by date.
- The GET-side listing in `hr_leave_requests` is left out for the same reason.
- `home` only redirects to login and is left out.
- `app/routes.py:420-437` repeats `employee_profile` and `inject_profile_pic_url`. The copies in `app/employee/routes.py` are modelled: the two `employee_profile` copies are the same, and the two `inject_profile_pic_url` copies compute the same value.
- Templates, `flash` categories, `url_for`, `send_file` and file reading are left out. Replies are the `Http.Reply` variants. A flash is its message text, and the deletion error omits the exception text.
- `strftime` formatting of times and dates (12- and 24-hour) is left out as library formatting. Rows carry the times themselves.
- Salary parsing with `float()` is left out as floating point. The salary is an optional real passed in already parsed.
- Session signing and lifetime are left out, as are `print` logging and the `b64encode` template filter.
- Column lengths, MySQL collation and case-insensitive comparison are left out. String equality is exact.
- Database failures are left out: rollback, and the foreign-key error branch of `delete_employee`. The model has no failures, so it treats each handler as one step.
- `delete_employee` commits in two stages (app/routes.py:335 and :345), so it is not atomic under a failure between them.
- `add_employee` also commits twice (app/routes.py:202 and :213). If the employee insert fails, for instance because a form field such as `name` is missing and NULL goes into a NOT NULL column, an `employee` user without an employee row remains. The model takes every form field as a string, so it never reaches that state.
- The order of rows that the database leaves unspecified is not modelled:
  - Among rows tied on `checkin_time`, the database fixes no order; the model picks the first tied row in table order.
  - `view_attendance` orders only by date, so its rows of one day appear in table order.
  - `.first()` without `order_by` lets the database pick the row; the model takes the first match in table order, which is the only match under `Models.Consistent`.
- Views.ProfilePic: stated for the first employee with the id. It is exact under the integrity rule that ids are unique.
- One employee per user is kept as an invariant that the handlers maintain. The database does not enforce it, so rows written by other means are not covered.
