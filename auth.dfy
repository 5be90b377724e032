/** The session, the login and logout handlers and the two role guards.

    Flask's session is a dictionary; the handlers only ever read and write
    its `user_id` and `role` keys, which are modelled as optional fields.
    The admin guard tests whether the `user_id` key is present; the employee
    guards test whether its value is truthy, so a user id of 0 fails them. */
module Auth {
  import opened Wrappers
  import opened Models
  import opened Queries
  import opened Http

  datatype Session = Session(userId: Option<int>, role: Option<string>)

  /** `session.clear()`. */
  const EmptySession := Session(None, None)

  /** `session.get('user_id')` is truthy. */
  predicate HasTruthyUserId(s: Session) {
    s.userId.Some? && s.userId.value != 0
  }

  /** The admin guard of app/admin/routes.py passes:
      `'user_id' in session and session.get('role') == 'admin'`. */
  predicate AdminAllowed(s: Session) {
    s.userId.Some? && s.role == Some(RoleAdmin)
  }

  /** The employee guard of the profile pages passes:
      `session.get('user_id')` is truthy and `session.get('role') == 'employee'`. */
  predicate EmployeeAllowed(s: Session) {
    HasTruthyUserId(s) && s.role == Some(RoleEmployee)
  }

  /** The reply of a guard that fails. */
  const AdminDenied := Redirect(LoginPage, Some(AccessDeniedMsg))
  const EmployeeDenied := Redirect(LoginPage, None)

  /** Where a logged-in user is sent, by role. */
  function RoleReply(role: string): (r: Reply)
    ensures r.Redirect?
    ensures r.target == LoginPage <==> !(role == RoleEmployee || role == RoleHr || role == RoleAdmin)
    ensures r.note.Some? <==> r.target == LoginPage
    ensures role == RoleEmployee ==> r.target == EmployeeAttendancePage
    ensures role == RoleHr ==> r.target == HrDashboardPage
    ensures role == RoleAdmin ==> r.target == AdminDashboardPage
    ensures r.target == LoginPage ==> r.note == Some(UnknownRoleMsg)
  {
    if role == RoleEmployee then Redirect(EmployeeAttendancePage, None)
    else if role == RoleHr then Redirect(HrDashboardPage, None)
    else if role == RoleAdmin then Redirect(AdminDashboardPage, None)
    else Redirect(LoginPage, Some(UnknownRoleMsg))
  }

  datatype LoginResult = LoginResult(session: Session, reply: Reply)

  /** The login handler on a POST. */
  function Login(us: seq<User>, s: Session, username: string, password: string): (r: LoginResult)
    // No user has both the username and the password: the session is untouched.
    ensures (forall u | u in us :: !(u.username == username && u.password == password)) <==>
            r.reply == Show(LoginPage, Some(InvalidCredentialsMsg))
    ensures r.reply == Show(LoginPage, Some(InvalidCredentialsMsg)) ==> r.session == s
    // Otherwise the session holds a matching user's id and role, whatever the role.
    ensures r.reply != Show(LoginPage, Some(InvalidCredentialsMsg)) ==>
            exists u | u in us && u.username == username && u.password == password ::
              && r.session == Session(Some(u.id), Some(u.role))
              && (u.role == RoleEmployee ==> r.reply == Redirect(EmployeeAttendancePage, None))
              && (u.role == RoleHr ==> r.reply == Redirect(HrDashboardPage, None))
              && (u.role == RoleAdmin ==> r.reply == Redirect(AdminDashboardPage, None))
              && (u.role != RoleEmployee && u.role != RoleHr && u.role != RoleAdmin ==>
                    r.reply == Redirect(LoginPage, Some(UnknownRoleMsg)))
  {
    match FindCredentials(us, username, password)
    case None => LoginResult(s, Show(LoginPage, Some(InvalidCredentialsMsg)))
    case Some(i) =>
      assert us[i] in us;
      LoginResult(Session(Some(us[i].id), Some(us[i].role)), RoleReply(us[i].role))
  }

  /** The logout handler. */
  function Logout(s: Session): (r: Session)
    ensures r.userId.None? && r.role.None?
    ensures !AdminAllowed(r) && !EmployeeAllowed(r)
  {
    EmptySession
  }

  /** The two guards never both pass. */
  lemma GuardsExclusive(s: Session)
    ensures !(AdminAllowed(s) && EmployeeAllowed(s))
  {
  }

  /** On a session written by a successful login from a store whose ids are
      positive, each guard passes exactly when the user's role is its role. */
  lemma GuardsAfterLogin(us: seq<User>, s: Session, username: string, password: string)
    requires forall u | u in us :: u.id > 0
    ensures var r := Login(us, s, username, password);
            r.reply != Show(LoginPage, Some(InvalidCredentialsMsg)) ==>
              exists u | u in us && u.username == username && u.password == password ::
                && (AdminAllowed(r.session) <==> u.role == RoleAdmin)
                && (EmployeeAllowed(r.session) <==> u.role == RoleEmployee)
  {
  }

  /** A user appended with a fresh username can log in with its credentials
      and lands where its role sends it. */
  lemma {:induction false} LoginAfterAdd(us: seq<User>, s: Session, u: User)
    requires !UsernameTaken(us, u.username)
    ensures Login(us + [u], s, u.username, u.password) ==
            LoginResult(Session(Some(u.id), Some(u.role)), RoleReply(u.role))
  {
    FindCredentialsAppend(us, u);
  }

  lemma {:induction false} FindCredentialsAppend(us: seq<User>, u: User)
    requires !UsernameTaken(us, u.username)
    ensures FindCredentials(us + [u], u.username, u.password) == Some(|us|)
  {
    if |us| > 0 {
      assert us[0] in us;
      assert (us + [u])[1..] == us[1..] + [u];
      assert !UsernameTaken(us[1..], u.username) by {
        forall v | v in us[1..] ensures v.username != u.username {
          assert v in us;
        }
      }
      FindCredentialsAppend(us[1..], u);
    }
  }

  /** Once a user row is removed from a table with unique usernames, nobody
      can log in with that username any more. */
  lemma NoLoginAfterRemove(us: seq<User>, k: int, s: Session, password: string)
    requires UsersValid(us) && 0 <= k < |us|
    ensures Login(us[..k] + us[k + 1..], s, us[k].username, password).reply ==
            Show(LoginPage, Some(InvalidCredentialsMsg))
  {
    var rest := us[..k] + us[k + 1..];
    forall v | v in rest ensures v.username != us[k].username {
      var i :| 0 <= i < |rest| && rest[i] == v;
      var i' := if i < k then i else i + 1;
      assert rest[i] == us[i'];
      assert UsernameKey(us[i']) != UsernameKey(us[k]);
    }
  }

  /** The employee a session resolves to:
      `Employee.query.filter_by(user_id=user_id).first() if user_id else None`. */
  function SessionEmployee(es: seq<Employee>, s: Session): (r: Option<nat>)
    ensures r.Some? ==> HasTruthyUserId(s) && r.value < |es| && es[r.value].userId == s.userId.value
    ensures r.None? <==> !HasTruthyUserId(s) || forall e | e in es :: e.userId != s.userId.value
  {
    if HasTruthyUserId(s) then EmployeeOfUser(es, s.userId.value) else None
  }
}
