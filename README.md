# Lief care-facility staffing: a verified model of its core

Lief is a web application for a care facility. Care workers clock in and out
of their shifts. Managers keep the staff list, look at attendance dashboards
and analytics, set the facility's location and perimeter radius, and review
applications from people who want to join the staff. This project models the
part of it that decides things, in Dafny:

- **Clock-status state machine** (`TimeEntryService`, module `Db`). It records
  CLOCK_IN, CLOCK_OUT, BREAK_START and BREAK_END events. It keeps each
  employee's `isClockedIn`, `lastClockIn` and `lastClockOut`, and refuses a
  CLOCK_OUT when the employee is not clocked in.
  - The tables live in one `Database` object. Its invariant `Valid` says four
    things:
    - unique columns are unique;
    - every key is below a counter that hands out fresh keys;
    - every employee has a user row;
    - every stored clock flag agrees with the time-entry log.
  - Every state-changing operation keeps that invariant.
- **Hours pairing** (`Attendance`). A CLOCK_IN is paired with the next
  CLOCK_OUT. The same walk serves the employee statistics and the manager
  dashboard's hours column.
- **Dashboard metrics** (`StaffDashboard`): per-day buckets, per-staff hours,
  and the summary table.
- **Analytics** (`Analytics`): type counts, the department histogram and the
  recent-activity list.
- **Password encoding and authentication** (`Base64`, `AuthService`).
  - A password is stored as the base64 encoding (section 4 of RFC 4648) of the
    password followed by `"salt"`. `Base64` models `btoa` and the forgiving
    `atob` decoder of the WHATWG HTML standard.
  - `AuthService` covers logging in, creating accounts, deleting and changing
    passwords.
- **API routes**: facility settings, time entries, employees, signup requests
  and login. Each is an ordered chain of checks, ending in an HTTP status and
  a message. Also modelled: the facility-manager panel's save and cancel, and
  the staff list's plain-text password display.

Conventions:

- Timestamps are integer milliseconds. Hours and coordinates are `real`.
- Strings are sequences of Unicode scalar values (`char`).
- JavaScript truthiness of an optional text field is `Common.Present`: missing,
  `null` and `""` are falsy.
- A request body is a `Body`: the parsed fields, or the parse error's message.
- A route's answer is a `Response`: the success payload, or a status and an
  error text.
- The clock (`new Date()`) is a parameter. Recording a clock event reads it
  twice, so there are two: `now`, stamped on the new entry, and `updatedAt`,
  stored as the employee's last clock-in or clock-out. Nothing ties the two
  together. The calendar day used by the dashboard is a parameter `dayOf`.

## Model

| member | source | states |
|---|---|---|
| Base64.DecodeEncode | frontend/src/lib/auth-service.ts:38-51 | the decoder used by `atob` gives back every byte sequence the encoder used by `btoa` encodes |
| Base64.EncodeInjective | frontend/src/lib/auth-service.ts:38-40 | different byte sequences have different encodings |
| Base64.AtobBtoa | frontend/src/lib/auth-service.ts:38-51 | `atob(btoa(s)) == s` for every Latin-1 string |
| Base64.BtoaInjective | frontend/src/lib/auth-service.ts:38-40 | two Latin-1 strings have the same `btoa` encoding exactly when they are equal |
| AuthService.HashPassword | frontend/src/lib/auth-service.ts:38-40 | the stored form exists exactly when the password is Latin-1; otherwise `btoa` throws "Invalid character" |
| AuthService.HashDecodes | frontend/src/lib/auth-service.ts:38-45 | decoding a stored password gives the password followed by "salt" |
| AuthService.DecodePassword | frontend/src/lib/auth-service.ts:43-51 | text that is not base64 shows "Password unavailable"; decoded text without "salt" is shown whole; otherwise one "salt" is cut out |
| AuthService.FirstSaltIsAppended | frontend/src/lib/auth-service.ts:43-51 | when the password has no "salt" in it, the first "salt" of the salted text is the appended one |
| AuthService.DecodeHashRoundTrip | frontend/src/lib/auth-service.ts:43-51 | decoding the stored form gives back every Latin-1 password that does not contain "salt" |
| AuthService.DecodeRemovesPasswordsOwnSalt | frontend/src/lib/auth-service.ts:43-51 | a password that starts with "salt" is shown with that "salt" moved to its end, so "salty" is shown as "ysalt" (see Findings) |
| AuthService.DecodeRejectsNonBase64 | frontend/src/lib/auth-service.ts:43-51 | any stored value with a character that is neither base64, whitespace nor '=' is shown as "Password unavailable", wherever that character stands |
| AuthService.DecodeRejectsOddLength | frontend/src/lib/auth-service.ts:43-51 | a stored value of base64 characters whose length is one more than a multiple of 4 is shown as "Password unavailable" |
| AuthService.DecodePasswordSuffix | frontend/src/lib/auth-service.ts:43-51 | the corrected decoding removes a trailing "salt" when there is one, and otherwise shows the decoded text whole |
| AuthService.DecodeSuffixHashRoundTrip | frontend/src/lib/auth-service.ts:43-51 | the corrected decoding gives back every Latin-1 password |
| AuthService.VerifyPassword | frontend/src/lib/auth-service.ts:53-57 | defined exactly for Latin-1 passwords; a match means the password's stored form equals the stored value |
| AuthService.VerifyIffEqual | frontend/src/lib/auth-service.ts:53-57 | `verifyPassword(p, hashPassword(q))` holds exactly when `p == q` |
| AuthService.FacilityOf | frontend/src/lib/auth-service.ts:113 | a facility is reported exactly when the employee names a manager and a manager row with that key exists; it is that manager's facility |
| AuthService.AuthenticateUser | frontend/src/lib/auth-service.ts:59-123 | checks in order: unknown ID, then wrong password (same message), then the user row, then deactivation; success exactly when the employee exists, the password verifies and the user is active, and it returns that user's and employee's fields |
| AuthService.WrongPasswordRejected | frontend/src/lib/auth-service.ts:74-91 | any Latin-1 password other than the account's own gets "Invalid employee ID or password" |
| AuthService.UniqueMessages | frontend/src/lib/auth-service.ts:130-190 | the errors for a taken email and a taken employee ID both start with "Unique constraint" |
| AuthService.NewRows | frontend/src/lib/auth-service.ts:129-193 | the new rows: an active user with the role; an employee row with default department/position ("General"/"Employee", or "Management"/"Manager" for a manager), not clocked in, storing the encoded password; for a manager, a manager row with default facility "Main Facility" |
| AuthService.CreateUserOutcome | frontend/src/lib/auth-service.ts:125-200 | errors in order: unencodable password, invalid role, taken email, taken employee ID; success exactly when none applies, with the rows of `NewRows` under fresh keys |
| AuthService.CreatedConsistent | frontend/src/lib/auth-service.ts:129-193 | inserting the rows of a new account under fresh keys keeps the tables consistent |
| AuthService.InsertRows | frontend/src/lib/auth-service.ts:130-190 | the transaction appends the user, the employee and, for a manager, the manager row under the next keys, and keeps the tables consistent; nothing else changes |
| AuthService.CreateUser | frontend/src/lib/auth-service.ts:125-200 | a refused call changes nothing; an accepted one appends exactly the new rows, keeps the invariant, and the new account can log in with its password |
| AuthService.CreatedCanLogIn | frontend/src/lib/auth-service.ts:59-200 | an account inserted with a fresh employee ID and the encoding of a password authenticates with that password |
| AuthService.WithoutUser | frontend/src/lib/auth-service.ts:284-286 | removes exactly the rows of the given user key |
| AuthService.RemoveAt | frontend/src/lib/auth-service.ts:279-281 | removes exactly one row and keeps the others in order |
| AuthService.DeletedConsistent | frontend/src/lib/auth-service.ts:272-287 | removing an employee, its user and its time entries keeps the tables consistent |
| AuthService.RemoveRows | frontend/src/lib/auth-service.ts:272-287 | the transaction removes exactly the employee's time entries, its employee row and its user row, and keeps the tables consistent |
| AuthService.DeleteEmployee | frontend/src/lib/auth-service.ts:261-294 | an unknown ID is refused with "Employee not found" and nothing changes; otherwise exactly that employee's time entries, the employee and its user are removed, and the ID is no longer found |
| AuthService.DeletedIdGone | frontend/src/lib/auth-service.ts:261-294 | after removing an employee row its employee ID is no longer found |
| AuthService.UpdatePassword | frontend/src/lib/auth-service.ts:296-308 | an unencodable password or an unknown ID is refused and nothing changes; otherwise the call succeeds, and only that employee's stored password changes, to the encoding of the new one, which then verifies |
| AuthService.ChangedPasswordLogsIn | frontend/src/lib/auth-service.ts:59-123 | after a password change an active account logs in with the new password, and any other Latin-1 password is refused as invalid credentials |
| AuthService.PasswordChangeConsistent | frontend/src/lib/auth-service.ts:299-302 | changing a stored password keeps the tables consistent |
| TimeEntryService.TimeEntryOutcome | frontend/src/lib/time-entry-service.ts:21-75 | an unknown employee is refused with "Employee with ID … not found"; a CLOCK_OUT while not clocked in is refused; every other type, including a CLOCK_IN while clocked in, is accepted as an entry of that type for that employee |
| TimeEntryService.StoreEntry | frontend/src/lib/time-entry-service.ts:59-100 | the accepted entry is appended under the next key and only its employee's row changes, to the new clock status stamped with the second clock reading; every stored clock flag keeps agreeing with the log |
| TimeEntryService.CreateTimeEntry | frontend/src/lib/time-entry-service.ts:21-107 | a refused call changes nothing; an accepted one appends exactly its entry, stamped `now`, and updates only its employee's clock status, stamped `updatedAt`; the stored flags keep agreeing with the log |
| TimeEntryService.AcceptedEntryConsistent | frontend/src/lib/time-entry-service.ts:59-100 | appending an accepted entry and updating its employee keeps the tables consistent |
| TimeEntryService.FlagsFollowLog | frontend/src/lib/time-entry-service.ts:80-100 | CLOCK_IN sets the flag, CLOCK_OUT clears it, breaks leave it, so each flag still agrees with the log |
| TimeEntryService.Window | frontend/src/lib/time-entry-service.ts:117-129 | the entries in range, each as often as in the log and in log order (a subsequence); the range applies only when both ends are given and is inclusive |
| TimeEntryService.GetEmployeeTimeEntries | frontend/src/lib/time-entry-service.ts:109-148 | an unknown employee has no entries; otherwise a permutation of that employee's entries in range, newest first |
| TimeEntryService.GetAllTimeEntries | frontend/src/lib/time-entry-service.ts:204-232 | exactly the entries in range, newest first |
| TimeEntryService.StatsEntries | frontend/src/lib/time-entry-service.ts:152-164 | the employee's entries in range, oldest first |
| TimeEntryService.TallyEntries | frontend/src/lib/time-entry-service.ts:166-184 | the loop's final counters, total and pending clock-in are exactly the pairing `Pair` of the events it walked |
| TimeEntryService.GetEmployeeStats | frontend/src/lib/time-entry-service.ts:150-202 | the loop computes the pairing of the oldest-first entries; `clockOuts == totalDays <= clockIns`, clock-ins are all CLOCK_INs in range, hours are non-negative, and the average is 0 when no day was worked |
| TimeEntryService.SummaryOfTally | frontend/src/lib/time-entry-service.ts:185-191 | rounding and averaging keep the counts and non-negative hours |
| TimeEntryService.SummaryProperties | frontend/src/lib/time-entry-service.ts:150-191 | the statistics' invariants hold for every log |
| TimeEntryService.GetDepartmentStats | frontend/src/lib/time-entry-service.ts:260-297 | one row per employee of the department, as many rows as such employees and in table order, each that employee's counts |
| TimeEntryService.DepartmentMembers | frontend/src/lib/time-entry-service.ts:262-275 | the employees of the department, each as often as in the table and in table order |
| TimeEntryService.StatRows | frontend/src/lib/time-entry-service.ts:277-290 | one row per employee, in the same order |
| TimeEntryService.RowsCoverMembers | frontend/src/lib/time-entry-service.ts:262-290 | every row of the department report is of that department, and every employee of the department has its row |
| TimeEntryService.DepartmentAgreesWithStats | frontend/src/lib/time-entry-service.ts:277-279 | a department row counts the same clock-ins as the statistics, and at least their clock-outs |
| TimeEntryService.GetCurrentClockStatus | frontend/src/lib/time-entry-service.ts:299-315 | none exactly for an unknown key; otherwise that employee's flag and last times |
| TimeEntryService.ClockStatusMatchesLog | frontend/src/lib/time-entry-service.ts:299-315 | the reported flag is true exactly when the employee's last clock event is a CLOCK_IN |
| Attendance.EntriesOf | frontend/src/lib/time-entry-service.ts:122 | the entries whose employee is the given one, each as often as in the log and in log order (a subsequence) |
| Attendance.Pair | frontend/src/lib/time-entry-service.ts:172-183 | pairing counts every CLOCK_IN; `clockOuts == totalDays`, and days plus a pending clock-in never exceed clock-ins; a clock-in is pending exactly when the last clock event is a CLOCK_IN |
| Attendance.PairNonNegative | frontend/src/lib/time-entry-service.ts:161-183 | on time-ordered events the total hours are non-negative |
| Attendance.PendingIsLatestClockIn | frontend/src/lib/time-entry-service.ts:173-175 | the pending clock-in is the latest CLOCK_IN |
| Attendance.UnmatchedClockOutIgnored | frontend/src/lib/time-entry-service.ts:176-182 | a CLOCK_OUT with nothing pending changes nothing |
| Attendance.PositiveHours | frontend/src/components/StaffDashboard.tsx:178-192 | the dashboard's pairing adds only positive durations, is non-negative, and has the same pending clock-in as the service's |
| Attendance.PositiveHoursAgree | frontend/src/components/StaffDashboard.tsx:178-192 | on time-ordered events the dashboard's hours equal the service's |
| Attendance.ClockedInIsPending | frontend/src/lib/time-entry-service.ts:80-100 | the clock flag implied by the log is the pairing's pending clock-in |
| Attendance.CountKindPermutation | frontend/src/lib/time-entry-service.ts:161-175 | reordering entries does not change how many of each type there are |
| StaffDashboard.WeekEntries | frontend/src/components/StaffDashboard.tsx:103-105 | the entries with a timestamp no older than one week, each as often as given and in the given order |
| StaffDashboard.GroupByDay | frontend/src/components/StaffDashboard.tsx:110-133 | one bucket per day that has an entry, and only those; its counters are that day's CLOCK_INs and CLOCK_OUTs; breaks create a bucket and count nothing |
| StaffDashboard.AddToBucket | frontend/src/components/StaffDashboard.tsx:110-132 | one entry grouped: without a timestamp the buckets are unchanged; otherwise its day's bucket exists afterwards (added at the end if it was missing, with zero counters) and only the counter of its own type, if any, has grown by one |
| StaffDashboard.BucketStep | frontend/src/components/StaffDashboard.tsx:110-133 | grouping one more entry keeps the buckets one per day, covering exactly the days of the entries seen so far and counting each day's CLOCK_INs and CLOCK_OUTs among them |
| StaffDashboard.AverageIsZero | frontend/src/components/StaffDashboard.tsx:120-138 | the per-day hours are never added to, so the average hours per day is 0 |
| StaffDashboard.TodayClockInsCount | frontend/src/components/StaffDashboard.tsx:141-142 | today's clock-ins are today's CLOCK_IN count, 0 without a bucket |
| StaffDashboard.NetChangeCounts | frontend/src/components/StaffDashboard.tsx:556 | a day's net change is its clock-ins minus its clock-outs |
| StaffDashboard.StaffEntries | frontend/src/components/StaffDashboard.tsx:166-168 | a staff member's entries, those with their ID or their user name, each as often as given and in the given order |
| StaffDashboard.SumPositivePairs | frontend/src/components/StaffDashboard.tsx:170-189 | the loop's total is exactly the positive-pairing hours `PositiveHours` of the events it walked |
| StaffDashboard.StaffTotalHours | frontend/src/components/StaffDashboard.tsx:147-198 | a staff object without an ID gives a placeholder with 0 hours, not clocked in; otherwise the rounded positive-pairing hours of their sorted entries, never negative |
| StaffDashboard.CalculateMetrics | frontend/src/components/StaffDashboard.tsx:95-206 | buckets as in `GroupByDay` over the week's entries, average 0, today's clock-ins, and one hours row per staff member in order |
| StaffDashboard.ShownRows | frontend/src/components/StaffDashboard.tsx:481 | the rows with a truthy id and name, each as often as given and in the given order |
| StaffDashboard.SummaryTable | frontend/src/components/StaffDashboard.tsx:480-482 | the shown rows, and only those, in order of total hours, most first |
| Analytics.TypeCountsConserved | frontend/src/app/api/analytics/route.ts:47-51 | clock-ins, clock-outs and breaks add up to the number of entries |
| Analytics.BreaksAreBothBreakTypes | frontend/src/app/api/analytics/route.ts:49-51 | breaks count BREAK_START and BREAK_END |
| Analytics.ActiveMatchesLog | frontend/src/app/api/analytics/route.ts:54 | active staff are those whose last clock event is a CLOCK_IN |
| Analytics.NoneInDepartment | frontend/src/app/api/analytics/route.ts:60-65 | a department with no employee counts 0 |
| Analytics.AddToHistogram | frontend/src/app/api/analytics/route.ts:60-65 | counting one more employee keeps the keys distinct and adds one to the right key |
| Analytics.CountKey | frontend/src/app/api/analytics/route.ts:61-63 | the key gets a row with count 0 when it has none, then its count goes up by one: the histogram `Counted` |
| Analytics.DepartmentBreakdown | frontend/src/app/api/analytics/route.ts:60-70 | one row per distinct department key ("Unassigned" for an empty department), each with its number of employees; the counts add up to the staff total |
| Analytics.RecentActivity | frontend/src/app/api/analytics/route.ts:73-80 | the first `min(10, n)` entries in order; the label is "Clocked In" exactly for CLOCK_IN and "Clocked Out" for every other type; the staff name is the entry's user's name, or "Unknown" when it is missing or empty |
| Analytics.Get | frontend/src/app/api/analytics/route.ts:16-101 | an employee ID wins over a department; the overall branch's counts are conserved, `onBreak` is 0, `offDuty = totalStaff - activeStaff`, with the histogram and recent activity as above |
| StaffList.PasswordMap | frontend/src/components/StaffList.tsx:22-28 | the table knows exactly the two sample stored values, each mapped to a non-empty password |
| StaffList.GetPlainTextPassword | frontend/src/components/StaffList.tsx:13-39 | a truthy original password wins; then a mapped stored value; then "[Hashed Password]" for a stored value longer than 20 characters; otherwise "N/A" |
| StaffList.EmployeeEntryIsHash | frontend/src/components/StaffList.tsx:22-28 | "ZW1wbG95ZWUxMjNzYWx0" is the stored form of "employee123" |
| StaffList.ManagerEntryIsHash | frontend/src/components/StaffList.tsx:22-28 | "bWFuYWdlcjEyM3NhbHQ=" is the stored form of "manager123" |
| StaffList.MapAgreesWithHash | frontend/src/components/StaffList.tsx:22-30 | every key of the table is the stored form of the password it maps to |
| StaffList.ShowsSamplePassword | frontend/src/components/StaffList.tsx:13-39 | the list shows a sample account's real password from its stored form |
| FacilitySettingsRoute.ValidateUpdate | frontend/src/app/api/facility-settings/route.ts:58-84 | checks in order: number types, latitude in [-90, 90], longitude in [-180, 180], radius > 0; the first failure's message; passes exactly when all hold |
| FacilitySettingsRoute.GetFacilitySettings | frontend/src/app/api/facility-settings/route.ts:4-48 | 404 exactly when there is no settings row; otherwise the first row, with its manager's user name when the row has a manager with a user and that name is not empty, and "Unknown" otherwise |
| FacilitySettingsRoute.Updated | frontend/src/app/api/facility-settings/route.ts:97-105 | the new coordinates and radius; the name changes only when a truthy one is given |
| FacilitySettingsRoute.PutFacilitySettings | frontend/src/app/api/facility-settings/route.ts:50-127 | 500 for an unreadable body, 400 with the first failing check, 404 without a row, and 200 for a valid body when a row exists; nothing changes unless 200; a 200 updates only the first row and a following GET reports it |
| FacilityManagerPanel.ClientCheck | frontend/src/components/FacilityManager.tsx:65-75 | radius first, then latitude, then longitude; passes exactly when all are in range |
| FacilityManagerPanel.SaveRequest | frontend/src/components/FacilityManager.tsx:78-88 | sends the coordinates and the radius converted from kilometres to metres (`* 1000`), with no name |
| FacilityManagerPanel.ClientAgreesWithRoute | frontend/src/components/FacilityManager.tsx:65-88 | a save the panel lets through passes the route's checks, and one it stops would fail them, with the same message when the radius is positive |
| FacilityManagerPanel.FacilityManager.HandleSave | frontend/src/components/FacilityManager.tsx:59-116 | failing values are not sent and show the check's message; a refused save shows the route's error or "Failed to save to database"; only an accepted save writes the backup and leaves editing |
| FacilityManagerPanel.FacilityManager.HandleCancel | frontend/src/components/FacilityManager.tsx:118-141 | the backup, when present, replaces the edited values; editing ends and the message is cleared |
| TimeEntriesRoute.CheckTimeEntryRequest | frontend/src/app/api/time-entries/route.ts:12-31 | both fields must be truthy, then the type must be one of the four names; the result is the type it names |
| TimeEntriesRoute.WireNamesAccepted | frontend/src/app/api/time-entries/route.ts:23-31 | each of the four type names passes and is read back as that type |
| TimeEntriesRoute.PostTimeEntry | frontend/src/app/api/time-entries/route.ts:4-66 | 400 for a failed check without calling the service; a service refusal is a 500 with its message; a 200 returns the recorded entry; only a 200 changes the tables |
| TimeEntriesRoute.GetTimeEntries | frontend/src/app/api/time-entries/route.ts:79-91 | with a truthy employee ID, a permutation of that employee's entries in range (none for an unknown ID); otherwise a permutation of all entries in range; newest first |
| TimeEntriesRoute.PostedEntryListed | frontend/src/app/api/time-entries/route.ts:41-91 | a recorded entry in range is listed by the employee's GET |
| EmployeesRoute.CheckEmployeeRequest | frontend/src/app/api/employees/route.ts:34-53 | the five required fields must be truthy, then the role must be EMPLOYEE or MANAGER |
| EmployeesRoute.ErrorResponse | frontend/src/app/api/employees/route.ts:85-105 | 409 "Employee ID already exists" exactly when the error mentions "Unique constraint"; otherwise 500 "Failed to create employee" |
| EmployeesRoute.CreatedReply | frontend/src/app/api/employees/route.ts:71-81 | the message is "Manager created successfully" exactly when a manager row was created |
| EmployeesRoute.PostEmployee | frontend/src/app/api/employees/route.ts:26-107 | 400 for a failed check; otherwise the service's outcome, with its errors mapped by `ErrorResponse`; nothing changes unless 200, and after a 200 the new account can log in |
| EmployeesRoute.ServiceErrorAnswers | frontend/src/app/api/employees/route.ts:88-105 | a taken email and a taken employee ID both get 409; an unencodable password gets 500 |
| EmployeesRoute.TakenEmailIsConflict | frontend/src/app/api/employees/route.ts:67-97 | registering a used email is answered 409 "Employee ID already exists" |
| SignupRequestsRoute.HasRequest | frontend/src/app/api/signup-requests/route.ts:21-23 | an application with that email exists |
| SignupRequestsRoute.NewRequest | frontend/src/app/api/signup-requests/route.ts:51-62 | the filed row: the given fields, falsy optional fields stored as null, status PENDING, submitted now |
| SignupRequestsRoute.SignupOutcome | frontend/src/app/api/signup-requests/route.ts:10-62 | 400 for a missing field, then 409 for an email among applications, then 409 for an email among users; otherwise the new row |
| SignupRequestsRoute.FiledConsistent | frontend/src/app/api/signup-requests/route.ts:51-62 | filing an application with a new email keeps the tables consistent |
| SignupRequestsRoute.PostSignupRequest | frontend/src/app/api/signup-requests/route.ts:4-85 | 500 for an unreadable body; otherwise `SignupOutcome`; only a 200 changes the tables, adding exactly one application |
| SignupRequestsRoute.SecondApplicationRefused | frontend/src/app/api/signup-requests/route.ts:21-33 | once an application is filed, another with the same email is refused 409 |
| SignupRequestsRoute.GetSignupRequests | frontend/src/app/api/signup-requests/route.ts:87-100 | every application, newest first, with their number |
| LoginRoute.Login | frontend/src/app/api/auth/login/route.ts:4-66 | 500 for an unreadable body, 400 without both fields, 401 with the service's message, otherwise 200 with the service's user unchanged; a 200 only for an active account whose stored password encodes the one sent |
| LoginRoute.WrongPasswordIs401 | frontend/src/app/api/auth/login/route.ts:23-34 | a wrong password for an existing account gets 401 "Invalid employee ID or password" |
| LoginRoute.RightPasswordLogsIn | frontend/src/app/api/auth/login/route.ts:23-54 | the right password for an active account is answered 200 with that account and "Login successful" |

## Left out

- Database failures: the source answers them with 500, or returns empty results or zeroed statistics. Lost connections, timeouts and other database faults are not modelled. The errors that are modelled are these: a request body that does not parse; the unique-constraint errors on the email and employee-ID columns (`AuthService.EmailTaken`, `AuthService.EmployeeIdTaken`); the missing row of an update (`AuthService.RecordNotFound`); `btoa`'s "Invalid character"; and the services' own thrown errors ("Employee not found", "Employee with ID … not found", "Cannot clock out - employee is not currently clocked in").
- Error texts of the database client: `AuthService.EmailTaken`, `AuthService.EmployeeIdTaken` and `AuthService.RecordNotFound` are stand-ins for the client's messages. The real messages add an invocation preamble and name the constraint differently on MongoDB. The model keeps only what the routes inspect: the unique-constraint messages contain "Unique constraint".
- Atomicity: `$transaction` blocks are single updates. Concurrency is not modelled.
- Referential actions: deleting an employee leaves any manager row of its user in place.
- Date parsing: the `startDate`, `endDate` and `hireDate` query and body values are taken as already-parsed millisecond times. An unparsable date (an invalid `Date`, whose comparisons are all false) is not modelled.
- Locale formatting: `toDateString` and `toLocaleTimeString` are not modelled. The dashboard's calendar day is the parameter `dayOf`, and analytics reports the raw timestamp as `time`.
- `getAllEmployees`, `getUserById` and the employees GET route: read-only listings. Their only logic is `decodePassword`, which is modelled.
- The time-entry service's `getAllEmployees`: also a read-only listing.
- The 500 answer of the signup route drops the `details` field.
- JSON values of the wrong type: a field that is not a string, such as a numeric `employeeId`, counts as missing.
- Rounding: `Math.round(x * 100) / 100` is `Common.Round2`. It rounds halves upward, as JavaScript does, on exact reals. Binary floating point is not modelled.
- FacilityManagerPanel.FacilityManager: loading settings from the server and from local storage on mount is not modelled. Neither is the timer that clears the message, nor the `onSettingsChanged` callback.
- Haversine distance and the geofence check: floating-point trigonometry.
- Charts, rendering, React hooks, `fetch` and geolocation: user-interface plumbing.
- Analytics.DepartmentBreakdown: the counting object is modelled as a plain map. In the source it is an object literal, and a department named after an `Object.prototype` member differs. "__proto__" is dropped, so the counts no longer add up to the staff total. "constructor", "toString", "valueOf" and the like start from the inherited function and count to NaN (the next such employee restarts the count at 1). The listing order of `Object.entries`, which puts integer-like keys such as "2" first in ascending order, is not modelled either: the model lists keys in order of first appearance.
- Analytics.CountKey: one counting step on a plain map. The source's `!acc[dept]` test on an object literal finds an inherited `Object.prototype` member for keys such as "constructor", and assigning "__proto__" does not create a key. Those cases are not modelled (see `Analytics.DepartmentBreakdown`).
- Analytics.Get: its overall branch's department histogram is `DepartmentBreakdown`'s, so the same keys and the same order are not modelled there.
- String lengths and lone surrogates: a JavaScript string is a sequence of UTF-16 code units, while a model string is a sequence of Unicode scalar values. A character outside the Basic Multilingual Plane has length 2 in the source and 1 in the model, and a lone surrogate, which a JavaScript string can hold, has no model string at all. `btoa` rejects both either way.
- StaffList.GetPlainTextPassword: its "more than 20 characters" test counts Unicode scalar values, where `member.password.length` counts UTF-16 code units. A stored value with characters outside the Basic Multilingual Plane can be longer than 20 in the source and not in the model.
- Sorting.SortBy: the database's `orderBy: { timestamp }` promises no order among entries with equal timestamps, and the model fixes one, the stable order of the table. `TimeEntryService.GetEmployeeStats`, `TimeEntryService.StatsEntries` and the newest-first listings therefore state the result for that order only. A CLOCK_IN and a CLOCK_OUT with the same timestamp pair differently under the other order. The dashboard's own sort is JavaScript's, which is stable, so it is not affected.
- TimeEntryService.DepartmentStatOf: an employee without a user row gets the name `None`. In the source, `employee.user.name` then throws, and the whole report becomes `[]`. This cannot happen in a database satisfying `Db.Valid`, where every employee has its user, but `GetDepartmentStats` takes plain tables.
- StaffList.PasswordMap: a stored value equal to a JavaScript object-prototype key (such as "constructor") is not modelled. The source's plain-object lookup would find an inherited member there.
- AuthService.DecodePassword: when the decoded text contains "salt", its contract gives only the result's length. The exact result for the stored form of a password without "salt" is given by `AuthService.DecodeHashRoundTrip`, and the case of a password with "salt" by `AuthService.DecodeRemovesPasswordsOwnSalt`.

## Findings

| source | as written | input that shows it | evidently intended | confidence | as-written member | corrected member |
|---|---|---|---|---|---|---|
| frontend/src/lib/auth-service.ts:43-51 | `decodePassword` removes the first "salt" in the decoded text, although its comment says the "salt" suffix is removed | the password "salty" is stored as the encoding of "saltysalt" and is shown as "ysalt" (any password starting with "salt" is affected) | remove the trailing "salt" that `hashPassword` appended, giving back "salty" | not executed | AuthService.DecodeRemovesPasswordsOwnSalt | AuthService.DecodeSuffixHashRoundTrip |
