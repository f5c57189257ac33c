/** The login API route: checks that an employee ID and a password were
    sent and answers with the auth service's verdict. */
module LoginRoute {
  import opened Common
  import opened Db
  import opened Base64
  import opened AuthService

  /** The fields of a POST body. */
  datatype LoginForm = LoginForm(employeeId: Option<string>, password: Option<string>)

  /** The body of a successful login. */
  datatype LoggedIn = LoggedIn(user: AuthUser, message: string)

  const CredentialsRequired: string := "Employee ID and password are required"
  const LoginFailed: string := "Authentication failed"
  const InternalError: string := "Internal server error"
  const LoginOk: string := "Login successful"

  /** POST. An unreadable body is a 500; a missing or empty employee ID or
      password a 400; a refused login a 401 with the service's message;
      a successful one returns the account as the service reports it. A
      200 is only ever given for an active account whose stored password
      encodes the one sent. */
  function Login(users: seq<User>, employees: seq<EmployeeRow>, managers: seq<ManagerRow>, body: Body<LoginForm>)
    : (r: Response<LoggedIn>)
    ensures body.Malformed? ==> r == Failure(500, InternalError)
    ensures body.Parsed? && !(Present(body.fields.employeeId) && Present(body.fields.password)) ==>
      r == Failure(400, CredentialsRequired)
    ensures body.Parsed? && Present(body.fields.employeeId) && Present(body.fields.password) ==>
      match AuthenticateUser(users, employees, managers, body.fields.employeeId.value, body.fields.password.value)
      case Authenticated(u) => r == Success(LoggedIn(u, LoginOk))
      case Denied(error) => r == Failure(401, OrElse(Some(error), LoginFailed))
    ensures r.Success? ==>
      && body.Parsed?
      && FindEmployee(employees, body.fields.employeeId.value).Some?
      && var e := employees[FindEmployee(employees, body.fields.employeeId.value).value];
         && HashPassword(body.fields.password.value) == Some(e.password)
         && FindUser(users, e.userId).Some? && FindUser(users, e.userId).value.isActive
         && r.payload.user.employeeId == body.fields.employeeId.value
  {
    match body
    case Malformed(_) => Failure(500, InternalError)
    case Parsed(f) =>
      if !Present(f.employeeId) || !Present(f.password) then Failure(400, CredentialsRequired)
      else match AuthenticateUser(users, employees, managers, f.employeeId.value, f.password.value)
        case Authenticated(u) => Success(LoggedIn(u, LoginOk))
        case Denied(error) => Failure(401, OrElse(Some(error), LoginFailed))
  }

  /** A wrong (non-empty, Latin-1) password for an existing account is
      answered 401 with the same message as an unknown employee ID. */
  lemma WrongPasswordIs401(users: seq<User>, employees: seq<EmployeeRow>, managers: seq<ManagerRow>,
                           employeeId: string, password: string, actual: string)
    requires employeeId != "" && password != ""
    requires FindEmployee(employees, employeeId).Some?
    requires IsLatin1(actual) && HashPassword(actual) == Some(employees[FindEmployee(employees, employeeId).value].password)
    requires IsLatin1(password) && password != actual
    ensures Login(users, employees, managers, Parsed(LoginForm(Some(employeeId), Some(password))))
            == Failure(401, InvalidCredentials)
  {
    WrongPasswordRejected(users, employees, managers, employeeId, password, actual);
  }

  /** The right password for an active account is answered 200 with that
      account, whatever the other rows. */
  lemma RightPasswordLogsIn(users: seq<User>, employees: seq<EmployeeRow>, managers: seq<ManagerRow>,
                            employeeId: string, password: string)
    requires employeeId != "" && password != ""
    requires FindEmployee(employees, employeeId).Some?
    requires HashPassword(password) == Some(employees[FindEmployee(employees, employeeId).value].password)
    requires FindUser(users, employees[FindEmployee(employees, employeeId).value].userId).Some?
    requires FindUser(users, employees[FindEmployee(employees, employeeId).value].userId).value.isActive
    ensures var r := Login(users, employees, managers, Parsed(LoginForm(Some(employeeId), Some(password))));
      && r.Success?
      && r.payload.user.employeeId == employeeId
      && r.payload.message == LoginOk
  {
  }
}
