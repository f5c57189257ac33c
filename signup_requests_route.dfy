/** The signup-requests API route: POST files an application to join the
    staff, refused when the email is already used by an application or by
    a user; GET lists the applications, newest first. */
module SignupRequestsRoute {
  import opened Common
  import opened Db
  import opened Sorting
  import opened AuthService

  /** The fields of a POST body. */
  datatype SignupForm = SignupForm(
    name: Option<string>,
    email: Option<string>,
    phone: Option<string>,
    experience: Option<string>,
    preferredDepartment: Option<string>,
    message: Option<string>)

  /** The body of a successful POST. */
  datatype Submitted = Submitted(requestId: nat, timestamp: int, message: string)

  /** The body of a GET. */
  datatype Listing = Listing(signupRequests: seq<SignupRequest>, count: nat)

  const MissingSignupFields: string := "Missing required fields: name, email, phone, and experience are required"
  const ApplicationExists: string := "An application with this email already exists"
  const UserExists: string := "A user with this email already exists in our system"
  const SubmitFailed: string := "Failed to submit signup request"
  const SubmittedText: string := "Signup request submitted successfully"

  predicate FormComplete(f: SignupForm) {
    Present(f.name) && Present(f.email) && Present(f.phone) && Present(f.experience)
  }

  /** An application with this email exists (`findUnique` on the email
      column). */
  function HasRequest(requests: seq<SignupRequest>, email: string): (r: bool)
    ensures r <==> exists q :: q in requests && q.email == email
  {
    if requests == [] then false
    else requests[0].email == email || HasRequest(requests[1..], email)
  }

  /** `x || null` on an optional text field. */
  function Truthy(s: Option<string>): (r: Option<string>)
    ensures Present(s) ==> r == s
    ensures !Present(s) ==> r.None?
  {
    if Present(s) then s else None
  }

  /** The row filed for a complete form: the given fields, the optional
      ones only when truthy, status PENDING and submitted at `now`. */
  function NewRequest(id: nat, f: SignupForm, now: int): (r: SignupRequest)
    requires FormComplete(f)
    ensures r.id == id && r.status == Pending && r.submittedAt == now
    ensures r.name == f.name.value && r.email == f.email.value
    ensures r.phone == f.phone.value && r.experience == f.experience.value
    ensures r.preferredDepartment == Truthy(f.preferredDepartment) && r.message == Truthy(f.message)
  {
    SignupRequest(id, f.name.value, f.email.value, f.phone.value, f.experience.value,
                  Truthy(f.preferredDepartment), Truthy(f.message), Pending, now)
  }

  /** The POST guard chain over a parsed form: a missing field is a 400, an
      email already used by an application and then one already used by a
      user are 409s; otherwise the row to file, keyed `nextId`. */
  function SignupOutcome(requests: seq<SignupRequest>, users: seq<User>, nextId: nat, f: SignupForm, now: int)
    : (r: Response<SignupRequest>)
    ensures !FormComplete(f) ==> r == Failure(400, MissingSignupFields)
    ensures FormComplete(f) && HasRequest(requests, f.email.value) ==> r == Failure(409, ApplicationExists)
    ensures FormComplete(f) && !HasRequest(requests, f.email.value) && HasEmail(users, f.email.value) ==>
      r == Failure(409, UserExists)
    ensures r.Success? <==>
      FormComplete(f) && !HasRequest(requests, f.email.value) && !HasEmail(users, f.email.value)
    ensures r.Success? ==> r.payload == NewRequest(nextId, f, now)
  {
    if !FormComplete(f) then Failure(400, MissingSignupFields)
    else if HasRequest(requests, f.email.value) then Failure(409, ApplicationExists)
    else if HasEmail(users, f.email.value) then Failure(409, UserExists)
    else Success(NewRequest(nextId, f, now))
  }

  /** Filing an application under a fresh key and an email no application
      uses keeps the tables consistent. */
  lemma FiledConsistent(users: seq<User>, employees: seq<EmployeeRow>, managers: seq<ManagerRow>,
                        log: seq<TimeEntry>, requests: seq<SignupRequest>, nextId: nat, q: SignupRequest)
    requires Consistent(users, employees, managers, log, requests, nextId)
    requires q.id == nextId && !HasRequest(requests, q.email)
    ensures Consistent(users, employees, managers, log, requests + [q], nextId + 1)
  {
    var added := requests + [q];
    forall i, j | 0 <= i < j < |added|
      ensures added[i].email != added[j].email
    {
      if j == |requests| {
        assert added[i] in requests;
      }
    }
  }

  /** POST. An unreadable body is a 500; otherwise `SignupOutcome`
      decides, and a filed application is reported by its key and time.
      Only a 200 changes the tables, and then by exactly the new row. */
  method PostSignupRequest(db: Database, body: Body<SignupForm>, now: int) returns (r: Response<Submitted>)
    requires db.Valid()
    modifies db
    ensures db.Valid()
    ensures body.Malformed? ==> r == Failure(500, SubmitFailed)
    ensures body.Parsed? ==>
      match SignupOutcome(old(db.signupRequests), old(db.users), old(db.nextId), body.fields, now)
      case Failure(status, error) => r == Failure(status, error)
      case Success(q) => r == Success(Submitted(q.id, q.submittedAt, SubmittedText))
    ensures r.Failure? ==> unchanged(db)
    ensures r.Success? ==>
      && body.Parsed? && FormComplete(body.fields)
      && db.signupRequests == old(db.signupRequests) + [NewRequest(old(db.nextId), body.fields, now)]
      && db.nextId == old(db.nextId) + 1
      && db.users == old(db.users) && db.employees == old(db.employees) && db.managers == old(db.managers)
      && db.timeEntries == old(db.timeEntries) && db.facilitySettings == old(db.facilitySettings)
  {
    if body.Malformed? {
      return Failure(500, SubmitFailed);
    }
    var outcome := SignupOutcome(db.signupRequests, db.users, db.nextId, body.fields, now);
    match outcome
    case Failure(status, error) =>
      r := Failure(status, error);
    case Success(q) =>
      FiledConsistent(db.users, db.employees, db.managers, db.timeEntries, db.signupRequests, db.nextId, q);
      db.signupRequests, db.nextId := db.signupRequests + [q], db.nextId + 1;
      r := Success(Submitted(q.id, q.submittedAt, SubmittedText));
  }

  /** Once an application is filed, another with the same email, whatever
      its other fields and time, is refused 409 as a duplicate
      application. */
  lemma SecondApplicationRefused(requests: seq<SignupRequest>, users: seq<User>, nextId: nat,
                                 f: SignupForm, g: SignupForm, now: int, later: int)
    requires SignupOutcome(requests, users, nextId, f, now).Success?
    requires FormComplete(g) && g.email == f.email
    ensures SignupOutcome(requests + [NewRequest(nextId, f, now)], users, nextId + 1, g, later)
            == Failure(409, ApplicationExists)
  {
    assert NewRequest(nextId, f, now) in requests + [NewRequest(nextId, f, now)];
  }

  /** The newest-first sort key. */
  function LatestFirst(q: SignupRequest): real {
    -(q.submittedAt as real)
  }

  /** GET: every application, newest first, with their number. */
  function GetSignupRequests(requests: seq<SignupRequest>): (r: Listing)
    ensures multiset(r.signupRequests) == multiset(requests)
    ensures SortedBy(r.signupRequests, LatestFirst)
    ensures r.count == |requests|
  {
    var sorted := SortBy(requests, LatestFirst);
    Listing(sorted, |sorted|)
  }
}
