/** What a handler hands back to the web layer: the page it renders or
    redirects to and the message it flashes or passes to the template.
    Rendering, `flash` and `url_for` themselves are not modelled. */
module Http {
  import opened Wrappers

  datatype Page =
    | LoginPage
    | EmployeeAttendancePage
    | HrDashboardPage
    | AdminDashboardPage
    | HrEmployeesPage
    | AddEmployeePage
    | EditEmployeePage
    | LeaveRequestPage
    | HrLeaveRequestsPage
    | EmployeeProfilePage
    | ProfileEditPage
    | AdminViewHrPage
    | AdminViewEmployeesPage
    | AddHrPage

  datatype Reply =
    | Show(page: Page, note: Option<string>)       // template rendered, with an optional message
    | Redirect(target: Page, note: Option<string>) // redirect, with an optional flashed message
    | NotFound                                     // `abort(404)` / `get_or_404`
    | ServerError                                  // an unhandled exception (HTTP 500)

  const InvalidCredentialsMsg := "Invalid username or password."
  const UnknownRoleMsg := "Unknown user role."
  const AccessDeniedMsg := "Access denied. Admin privileges required."
  const UsernameExistsMsg := "Username already exists."
  const UniqueIdExistsMsg := "Unique ID number already exists."
  const EmployeeAddedMsg := "Employee added successfully!"
  const EmployeeUpdatedMsg := "Employee details updated successfully!"
  const EmployeeDeletedMsg := "Employee and all related records deleted successfully!"
  /** The prefix of the flashed error; the exception text after it is not modelled. */
  const DeleteErrorMsg := "Error deleting employee: "
  const LeaveSubmittedMsg := "Leave request submitted successfully!"
  const LeaveAcceptedMsg := "Leave request accepted."
  const LeaveRejectedMsg := "Leave request rejected."
  const CredentialsRequiredMsg := "Username and password are required."
  const PasswordMismatchMsg := "Passwords do not match."
  const HrAddedMsg := "HR user added successfully!"
  const HrDeletedMsg := "HR user deleted successfully."
  const HrNotFoundMsg := "HR user not found."
  const ProfileUpdatedMsg := "Profile updated successfully!"
}
