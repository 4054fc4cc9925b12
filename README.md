# Part-time job marketplace: the matcher, the request workflow and its tables

This Dafny project models the core of a two-sided part-time job marketplace.

**Calendar matcher (front end).**
- A job seeker enters weekly availability rows: a weekday, a start time, an end time and an optional category.
- The page compares every row with every job of the job list. For each pair it computes an overlap percentage and a fit score.
- Jobs with at least 10 % overlap are shown.
- The shown boxes of one weekday are clustered greedily into groups of strictly overlapping boxes.

**Back end.** Modelled as the request handlers over a `Database` class holding the users, job-seeker and employer profiles, jobs and requests:
- registration and login;
- job creation and the public job list;
- the job request workflow: a seeker asks, the owning employer approves or rejects, and both sides list requests newest first;
- the job seeker's profile read and update.

**Header.** Which role's navigation the page header shows, and the check that drops an expired token.

Modules:
- `Wrappers` (`wrappers.dfy`): `Option`.
- `JsText` (`jstext.dfy`): the parts of the JavaScript runtime the matcher relies on when it reads clock texts:
  - `split(':')`;
  - `Number` of a digit string;
  - `parseFloat`.
- `Calendar` (`calendar.dfy`):
  - the arithmetic;
  - the matching loop of `handleSubmit`, as a method proved against a function;
  - the add/remove row buttons.
- `Grouping` (`grouping.dfy`): `groupOverlappingEvents`, as a method proved against a function, with the partition proof.
- `Store` (`store.dfy`):
  - the tables as a class with their invariants;
  - the ORM lookups (`findUnique`/`findFirst`);
  - the newest-first ordering.
- `Requests`, `Auth`, `Jobs`, `Profile` (`requests.dfy`, `auth.dfy`, `jobs.dfy`, `profile.dfy`): one method per handler, returning the HTTP status.
  - Each changes the tables only as its `ensures` say.
  - Each keeps `Database.Valid()`.
- `Header` (`header.dfy`): the path-to-role selection, and the token-expiry effect as a method of a small state class.

Throughout, the following are parameters:
- the clock (`nowMillis`, `now`);
- the token decoder;
- the date parser of `new Date(text)`;
- the job list of the calendar page.

## Model

| member | source | states |
|---|---|---|
| `Calendar.DayIndex` | apps/front-end/src/app/calendar/page.tsx:97-105 | a weekday name gets its column 0-6 in Monday-first order; any other text gets none |
| `Calendar.Round` | apps/front-end/src/app/calendar/page.tsx:73 | `Math.round` gives the nearest integer, with halves rounded up: x - 0.5 < r <= x + 0.5 |
| `Calendar.HhmmToFloat` | apps/front-end/src/app/calendar/page.tsx:49-52 | the value is the minutes since midnight divided by 60; with minutes below 60 it lies between the hour and the next |
| `Calendar.HhmmToFloatOfParts` | apps/front-end/src/app/calendar/page.tsx:49-52 | "HH:MM" reads as HH + MM/60 |
| `Calendar.ParseFloatIsWholeHour` | apps/front-end/src/app/calendar/page.tsx:165-166 | `parseFloat` of a clock text is the floor of its `hhmmToFloat` value; the two agree only when the minutes are zero |
| `Calendar.CalculateOverlap` | apps/front-end/src/app/calendar/page.tsx:54-61 | the overlap is in [0, 100], and it is 0 exactly when max(starts) >= min(ends) |
| `Calendar.OverlapSymmetric` | apps/front-end/src/app/calendar/page.tsx:54-61 | swapping the job window and the availability window gives the same overlap |
| `Calendar.OverlapOfDisjoint` | apps/front-end/src/app/calendar/page.tsx:54-57 | windows that touch or are apart overlap 0 |
| `Calendar.OverlapFullIffIdentical` | apps/front-end/src/app/calendar/page.tsx:54-61 | for a job window of positive length, the overlap is 100 exactly when the two windows are identical |
| `Calendar.CalculateFitScore` | apps/front-end/src/app/calendar/page.tsx:63-74 | the rounded weighted score is always within [0, 100] |
| `Calendar.FitScoreOfIdentical` | apps/front-end/src/app/calendar/page.tsx:63-74 | identical windows score exactly 40+20+10+10+20 = 100 |
| `Calendar.HandleSubmit` | apps/front-end/src/app/calendar/page.tsx:157-191 | the nested loop emits exactly `Matches(rows, jobs, LeadingHour)`. That is, row by row: rows that are filled in and whose `parseFloat` start is before their end; within a row, in job order, each job of the same weekday and category with overlap >= 10 |
| `Calendar.Matches` | apps/front-end/src/app/calendar/page.tsx:162-188 | the reference result of `handleSubmit`: a row shows a job at most once, so there are at most rows × jobs boxes |
| `Calendar.ConcatMapAtMost` | apps/front-end/src/app/calendar/page.tsx:162-188 | when each row pushes at most n boxes, the outer `forEach` pushes at most n per row |
| `Calendar.CollectRow` | apps/front-end/src/app/calendar/page.tsx:169-187 | the inner loop over the jobs emits exactly the row's accepted jobs as boxes, in list order |
| `Calendar.FilterMapMembership` | apps/front-end/src/app/calendar/page.tsx:169-187 | a value is pushed by the inner `forEach` exactly when some job yields it |
| `Calendar.ConcatMapMembership` | apps/front-end/src/app/calendar/page.tsx:162-188 | a value is in the outer `forEach`'s result exactly when some row's part holds it |
| `Calendar.ConcatMapConcat` | apps/front-end/src/app/calendar/page.tsx:162-188 | the outer `forEach` over two lists of rows gives the first list's result followed by the second's |
| `Calendar.MatchesMembership` | apps/front-end/src/app/calendar/page.tsx:162-188 | a box is emitted exactly when some row shows some job as that box: nothing is emitted that fails a check, and nothing that passes them all is lost |
| `Calendar.MatchesConcat` | apps/front-end/src/app/calendar/page.tsx:162-188 | the output is row-major, so a job matching several rows appears once per row |
| `Calendar.MatchesShown` | apps/front-end/src/app/calendar/page.tsx:177-186 | every emitted box has 10 <= overlap <= 100 and a fit score in [0, 100]; it belongs to a listed job, sits in that job's weekday column and spans the job's window |
| `Calendar.MinutesReadingOverlaps` | apps/front-end/src/app/calendar/page.tsx:165-177 | read with hours and minutes, every emitted job strictly intersects the window of some row of its weekday |
| `Calendar.TwoDigitClockText` | apps/front-end/src/app/calendar/page.tsx:49-52 | "ab:cd" reads as ab + cd/60, and `parseFloat` of it keeps ab |
| `Calendar.LeadingHourShowsDisjointJob` | apps/front-end/src/app/calendar/page.tsx:165-177 | as written, a 09:00-09:30 job is shown for availability 09:30-12:00, and it is not shown when the minutes are read |
| `Calendar.WithoutIndex` | apps/front-end/src/app/calendar/page.tsx:154 | `filter((_, i) => i !== index)` drops exactly the row at `index`, and drops nothing for an index out of range |
| `Calendar.RemoveInputRow` | apps/front-end/src/app/calendar/page.tsx:152-155 | it is a no-op at one row or fewer; otherwise it drops the indexed row; at least one row always remains |
| `Calendar.AddInputRow` | apps/front-end/src/app/calendar/page.tsx:341-349 | it appends one empty row below seven rows; at seven (the button is disabled) nothing changes |
| `Calendar.RowCountStaysInRange` | apps/front-end/src/app/calendar/page.tsx:130-131 | starting from the one empty row, the form always has between 1 and 7 rows |
| `Grouping.TouchingDoesNotOverlap` | apps/front-end/src/app/calendar/page.tsx:83 | a box that only touches every box of a group does not join it |
| `Grouping.InsertByTop` | apps/front-end/src/app/calendar/page.tsx:77 | one insertion step keeps the sequence sorted by `top` and adds exactly the inserted box |
| `Grouping.SortByTop` | apps/front-end/src/app/calendar/page.tsx:77 | the sort by `top` is sorted and a permutation of its input |
| `Grouping.InsertByTopStable` | apps/front-end/src/app/calendar/page.tsx:77 | an inserted box goes after every box of the same start, and the boxes that start together keep their order |
| `Grouping.SortByTopStable` | apps/front-end/src/app/calendar/page.tsx:77 | the sort is stable: the boxes of any one start come out in input order |
| `Grouping.FirstOverlapping` | apps/front-end/src/app/calendar/page.tsx:82-87 | it gives the least index of a group holding a box the event strictly overlaps, and none exactly when no group does |
| `Grouping.Place` | apps/front-end/src/app/calendar/page.tsx:80-90 | one step: the box is appended to a group it strictly overlaps, every other group is unchanged, and it opens a new last group exactly when no group overlaps it |
| `Grouping.PlaceAt` | apps/front-end/src/app/calendar/page.tsx:82-87 | the box is pushed onto the first overlapping group, and the scan breaks there |
| `Grouping.PlaceNew` | apps/front-end/src/app/calendar/page.tsx:89 | a box that overlaps no group opens a new group at the end |
| `Grouping.GroupOverlappingEvents` | apps/front-end/src/app/calendar/page.tsx:76-93 | the loops with `placed` and `break` compute `GroupEvents`: sort, then place each box in turn |
| `Grouping.GroupEvents` | apps/front-end/src/app/calendar/page.tsx:76-93 | the reference result of `groupOverlappingEvents`: its groups hold exactly the input boxes, as a multiset; no group is empty, and each box after a group's first strictly overlaps an earlier box of that group |
| `Grouping.FlattenAtLeastGroups` | apps/front-end/src/app/calendar/page.tsx:76-93 | non-empty groups hold at least as many boxes as there are groups |
| `Grouping.PlaceKeepsPartition` | apps/front-end/src/app/calendar/page.tsx:80-90 | placing one box adds exactly that box and keeps every group non-empty and chained by strict overlap |
| `Grouping.GroupFromKeepsPartition` | apps/front-end/src/app/calendar/page.tsx:80-90 | placing boxes in turn adds exactly those boxes and keeps the groups well formed |
| `Grouping.GroupsPartitionEvents` | apps/front-end/src/app/calendar/page.tsx:76-93 | the groups hold as many boxes as the input; since no group is empty there are no more groups than boxes, and there is a group exactly when there is a box |
| `Grouping.TwoBoxes` | apps/front-end/src/app/calendar/page.tsx:76-93 | two boxes given latest-start first share a group (earlier start first) exactly when they strictly overlap; a box starting where the other ends opens its own group |
| `JsText.Split` | apps/front-end/src/app/calendar/page.tsx:50 | the `split(':')` pieces are at least one, and none contains the separator |
| `JsText.JoinSplit` | apps/front-end/src/app/calendar/page.tsx:50 | joining the pieces with ':' gives back the text |
| `JsText.ParseFloat` | apps/front-end/src/app/calendar/page.tsx:165-166 | `parseFloat` of a clock text is its hours numeral alone |
| `JsText.ClockTextParts` | apps/front-end/src/app/calendar/page.tsx:49-52 | "h:m" splits into the two numerals, and `parseFloat` of it is h |
| `Store.OrNull` | apps/back-end/src/auth/auth.controller.ts:38-39 | `x ?? null` keeps a given value and stores null for an absent or null one |
| `Store.IndexWhere` | apps/back-end/src/requests/requests.controller.ts:159-166 | the first row satisfying the condition, or none exactly when no row does |
| `Store.UserWithEmail` | apps/back-end/src/auth/auth.controller.ts:15-17 | `findUnique({ email })` finds a user with that email, or none exactly when no user has it |
| `Store.JobWithId` | apps/back-end/src/requests/requests.controller.ts:43-48 | the job with that id, or none exactly when no job has it |
| `Store.RequestWithKey` | apps/back-end/src/requests/requests.controller.ts:27-34 | `findUnique` on the compound key (jobSeekerId, jobId) finds a request with both, or none exactly when there is none |
| `Store.RequestWithId` | apps/back-end/src/requests/requests.controller.ts:173-176 | the request with that id, or none exactly when there is none |
| `Store.NewestFirst` | apps/back-end/src/requests/requests.controller.ts:92-94 | the filtered listing is no longer than the table |
| `Store.NewestFirstMembership` | apps/back-end/src/requests/requests.controller.ts:71-95 | a listing filtered by a `where` holds exactly the rows that satisfy it |
| `Store.NewestFirstDescending` | apps/back-end/src/requests/requests.controller.ts:92-94 | rows inserted with increasing `createdAt` are listed by `createdAt` descending |
| `Store.JobLookup` | apps/back-end/src/requests/requests.controller.ts:43-48 | with autoincrement ids, the job with id n is row n-1, and ids outside 1..count find nothing |
| `Store.RequestLookup` | apps/back-end/src/requests/requests.controller.ts:173-176 | with autoincrement ids, the request with id n is row n-1, and ids outside 1..count find nothing |
| `Store.JobsInvTick` | apps/back-end/src/jobs/jobs.controller.ts:29-40 | a later creation stamp keeps the job table's invariant |
| `Store.RequestKeyLookup` | apps/back-end/src/requests/requests.controller.ts:27-34 | under the unique (jobSeekerId, jobId) key, looking a request up by its key finds exactly that request |
| `Requests.CreateRequest` | apps/back-end/src/requests/requests.controller.ts:5-55 | it answers 401 with no caller, 403 for another role, 500 for a job id that is not an integer, 400 when a request with the caller's key exists (whatever its status), 500 when the job or profile is missing, and otherwise 200. Only on 200 is exactly one Pending request appended, with the next id, the caller and the job; otherwise nothing changes. The key stays unique |
| `Requests.CreateRequestStatus` | apps/back-end/src/requests/requests.controller.ts:13-54 | the handler's order of checks. 401 exactly with no caller. 403 exactly for another role. 400 exactly when the job seeker already has a request for that job. 200 exactly when the id is an integer, no such request exists, the job exists and the caller has a profile. Nothing else than these and 500 |
| `Requests.InsertRequest` | apps/back-end/src/requests/requests.controller.ts:43-48 | the insert appends one row with the next id, the current stamp and status Pending, and keeps every invariant |
| `Requests.InsertKeepsRequestsInv` | apps/back-end/src/requests/requests.controller.ts:36-48 | appending a request whose key is new keeps the request table's invariant, including key uniqueness |
| `Requests.RepeatRequestRefused` | apps/back-end/src/requests/requests.controller.ts:27-41 | asking again for a job already asked for is refused with 400, whatever the earlier request's status |
| `Requests.StatusNamed` | apps/back-end/src/requests/requests.controller.ts:154-157 | only "APPROVED" and "REJECTED" are accepted, and Pending is never a target |
| `Requests.OwnedRequest` | apps/back-end/src/requests/requests.controller.ts:159-166 | `findFirst` finds the request with that id only when its job is the employer's |
| `Requests.OwnedRequestMissing` | apps/back-end/src/requests/requests.controller.ts:159-171 | the lookup fails exactly when no request with that id is on one of the employer's jobs |
| `Requests.UpdateRequestStatus` | apps/back-end/src/requests/requests.controller.ts:140-183 | it answers 403 for a missing caller or another role, then 400 for any other status (before the lookup), 500 for a non-integer id, 404 when not found or not owned, and otherwise 200. On 200 only that request's status changes, with no check of its current status; on every other code nothing changes |
| `Requests.UpdateStatusOutcome` | apps/back-end/src/requests/requests.controller.ts:149-182 | the handler's order of checks. 403 exactly for a missing caller or another role. 400 exactly for an employer with a status other than APPROVED or REJECTED, before any lookup. 500 exactly for a valid status with a non-integer id. 200 only when a request with that id is on the caller's job. 404 when none is |
| `Requests.SetRequestStatus` | apps/back-end/src/requests/requests.controller.ts:173-176 | the update replaces one row's status, leaves every other row and field alone, and keeps every invariant |
| `Requests.SetStatusKeepsRequestsInv` | apps/back-end/src/requests/requests.controller.ts:173-176 | changing a status keeps the request table's invariant |
| `Requests.GetMyRequests` | apps/back-end/src/requests/requests.controller.ts:104-138 | it answers 403 for a missing caller or another role; otherwise 200 with one view per request of the caller, newest first, each with its job's listed fields |
| `Requests.GetEmployerRequests` | apps/back-end/src/requests/requests.controller.ts:57-102 | it answers 403 for a missing caller or another role; otherwise 200 with one view per request on the caller's jobs, newest first, each with its job and the seeker's name and phone |
| `Requests.SeekerRequestsExactly` | apps/back-end/src/requests/requests.controller.ts:115-135 | the seeker's list holds exactly the seeker's requests, by `createdAt` descending |
| `Requests.EmployerRequestsExactly` | apps/back-end/src/requests/requests.controller.ts:71-95 | the employer's list holds exactly the requests on the employer's jobs, by `createdAt` descending; each carries its job and its seeker's contact |
| `Auth.RegisterStatus` | apps/back-end/src/auth/auth.controller.ts:11-23 | it is 201 exactly when email, password and role are truthy and no user has the email; otherwise 400 |
| `Auth.SeekerProfile` | apps/back-end/src/auth/auth.controller.ts:34-42 | a new job-seeker row takes the given name and phone, and null for an absent one |
| `Auth.EmployerProfile` | apps/back-end/src/auth/auth.controller.ts:44-52 | a new employer row takes the given name and phone, and null for an absent one |
| `Auth.Register` | apps/back-end/src/auth/auth.controller.ts:7-66 | it answers 400 (nothing created) for a missing field or a taken email. Otherwise it answers 201 with the new id and role, after appending exactly one user. A job-seeker profile is added under that id only for JOB_SEEKER, and an employer profile only for EMPLOYER; any other role gets neither. Email uniqueness is kept |
| `Auth.InsertUser` | apps/back-end/src/auth/auth.controller.ts:25-55 | the transaction appends the user and at most one profile under its id, and keeps every invariant |
| `Auth.AddUserKeepsUsersInv` | apps/back-end/src/auth/auth.controller.ts:25-55 | a new user with a new email and the next id keeps ids dense and emails distinct |
| `Auth.MoreEmployersKeepJobsInv` | apps/back-end/src/auth/auth.controller.ts:44-52 | adding an employer profile keeps the job table's invariant |
| `Auth.MoreSeekersKeepRequestsInv` | apps/back-end/src/auth/auth.controller.ts:34-42 | adding a job-seeker profile keeps the request table's invariant |
| `Auth.RegisterTwiceRefused` | apps/back-end/src/auth/auth.controller.ts:15-23 | registering an email already present is refused with 400 |
| `Auth.DisplayName` | apps/back-end/src/auth/auth.controller.ts:93-96 | the token name is the seeker's name, else the employer's name, else the email. Only a null name falls through; an empty one is kept |
| `Auth.Login` | apps/back-end/src/auth/auth.controller.ts:69-112 | every failure is 400. Success needs a truthy email and password, and a user with both. The token carries that user's id and role, the name `DisplayName` gives for that user, iat = now and exp = now + 7200 |
| `Auth.LoginSucceedsIff` | apps/back-end/src/auth/auth.controller.ts:73-91 | with emails distinct, login succeeds exactly when some user has both the email and the password |
| `Auth.LoginAfterRegister` | apps/back-end/src/auth/auth.controller.ts:77-102 | right after registering, logging in with the same email and password yields that user's id, role and name |
| `Jobs.NewJob` | apps/back-end/src/jobs/jobs.controller.ts:29-40 | the created row carries the body's texts, the salary as given, the parsed times and the caller as employer |
| `Jobs.CreateJob` | apps/back-end/src/jobs/jobs.controller.ts:9-50 | it answers 403 for a missing caller or another role, 400 if any of the seven fields is falsy, 500 for an invalid date or a caller without an employer profile, and otherwise 201. Only on 201 is exactly one job appended, owned by the caller; otherwise nothing changes |
| `Jobs.CreateJobStatus` | apps/back-end/src/jobs/jobs.controller.ts:11-49 | the handler's order of checks. 403 exactly for a missing caller or another role. 400 exactly for an employer with a falsy field. 201 exactly when, in addition, both dates are valid and the caller has an employer profile. Every other case is 500 |
| `Jobs.InsertJob` | apps/back-end/src/jobs/jobs.controller.ts:29-40 | the insert appends one row with the next id and the current stamp, and keeps every invariant |
| `Jobs.AppendKeepsJobsInv` | apps/back-end/src/jobs/jobs.controller.ts:29-40 | a job with the next id, the current stamp and an existing employer keeps the job table's invariant |
| `Jobs.MoreJobsKeepRequestsInv` | apps/back-end/src/jobs/jobs.controller.ts:29-40 | a new job and a later stamp keep the request table's invariant |
| `Jobs.ZeroSalaryRefused` | apps/back-end/src/jobs/jobs.controller.ts:25-27 | a salary of 0 is refused with 400 |
| `Jobs.NoTimeOrderCheck` | apps/back-end/src/jobs/jobs.controller.ts:25-40 | with every field truthy and both dates valid, the job is created whatever the order of the times or the salary's sign |
| `Jobs.JobListing` | apps/back-end/src/jobs/jobs.controller.ts:56-74 | the listing has one entry per job, latest inserted first, each with its employer's name |
| `Jobs.JobListingNewestFirst` | apps/back-end/src/jobs/jobs.controller.ts:58-67 | every job is listed with its employer's name, by `createdAt` descending |
| `Jobs.CreatedJobListedFirst` | apps/back-end/src/jobs/jobs.controller.ts:29-67 | a job just created heads the listing |
| `Profile.MyProfile` | apps/back-end/src/profile/profile.controller.ts:5-35 | it answers 403 exactly for a missing caller or another role, and 404 exactly when the seeker has no profile; otherwise the account's email with the profile's name and phone |
| `Profile.Patched` | apps/back-end/src/profile/profile.controller.ts:49-55 | an absent body value keeps the column, null clears it, and a value overwrites it |
| `Profile.UpdateMyProfile` | apps/back-end/src/profile/profile.controller.ts:37-66 | it answers 403 (nothing changes) for a missing caller or another role. Without a profile it throws and nothing changes. Otherwise the name and phone are written first. Then a truthy email is written to the caller's user row; if another user holds that email, the write throws after the profile update. On success it answers 200, and no other row changes |
| `Profile.UpdateSeeker` | apps/back-end/src/profile/profile.controller.ts:49-55 | replacing the caller's profile row keeps every invariant |
| `Profile.ReplaceSeekerKeepsInvs` | apps/back-end/src/profile/profile.controller.ts:49-55 | replacing a profile row keeps the user and request table invariants |
| `Profile.UpdateEmail` | apps/back-end/src/profile/profile.controller.ts:57-62 | the caller's email changes, and no other row changes |
| `Profile.ChangeEmailKeepsUsersInv` | apps/back-end/src/profile/profile.controller.ts:57-62 | an email no other user holds keeps emails distinct |
| `Profile.ProfileAfterUpdate` | apps/back-end/src/profile/profile.controller.ts:30-62 | after an update, reading the profile shows the new email, name and phone; a field the body left out reads as before |
| `Header.CurrentPath` | apps/front-end/src/components/Header.tsx:32 | a null or empty path reads as "/" |
| `Header.OverrideRole` | apps/front-end/src/components/Header.tsx:35-39 | "/createJob" paths give EMPLOYER, and this check wins; otherwise "/calendar" or "/jobs" paths give JOB_SEEKER; any other path gives no override |
| `Header.ActiveRole` | apps/front-end/src/components/Header.tsx:64 | the override when there is one, else the token's role, else none |
| `Header.NavLinks` | apps/front-end/src/components/Header.tsx:74-84 | JOB_SEEKER shows only /calendar, EMPLOYER shows only /createJob, and any other role shows neither |
| `Header.CreateJobPathShowsEmployerLink` | apps/front-end/src/components/Header.tsx:35-84 | on a /createJob page only the employer's link shows, whoever is signed in |
| `Header.Seconds` | apps/front-end/src/components/Header.tsx:48 | `Math.floor(Date.now() / 1000)` is the whole second containing the instant |
| `Header.HeaderState.constructor` | apps/front-end/src/components/Header.tsx:31 | the header starts with no user shown |
| `Header.HeaderState.Refresh` | apps/front-end/src/components/Header.tsx:41-56 | a missing, empty or undecodable token changes nothing. A token with exp < now is removed and the user cleared. Otherwise, including exp == now, its claims are shown |
| `Header.HeaderState.Logout` | apps/front-end/src/components/Header.tsx:58-62 | logout removes the token and clears the user |
| `Header.LoginTokenLifetime` | apps/back-end/src/auth/jwt.ts:4-8 | a login token issued at second iat is shown until the end of second iat + 7200, and removed from then on |

## Left out

- HTTP plumbing is not modelled: Express, the routers, `main.ts` and the response bodies' messages.
  - Handlers are methods that return the status code and the values the response carries.
  - Of the routes, `main.ts` mounts only auth, jobs and requests. The requests router wires only `createRequest` and `getEmployerRequests`. The profile router is never mounted.
  - The model covers every handler as written, whether or not it is reachable.
- `getJobById`, `getMyJobs`, `removeTemplate` and `getNearbyJobs` are imported by the jobs router but do not exist in the controller. So there are no template flags, no single-job read and no geographic query.
- Token signing and verification (JSON Web Token, RFC 7519), the authentication middleware and the header's `decodeToken` are not modelled.
  - The caller is an `Option<Caller>`.
  - Login returns the payload record the server signs.
  - The header takes the decoder as a parameter.
- `Date.now()`, `new Date(text)` and the job list imported by the calendar page are parameters.
- Passwords are stored and compared in plaintext, as written. Only equality is modelled.
- The ORM and the database schema are not part of this model. The schema behaviour the handlers rely on is modelled as assumptions:
  - ids are autoincrement, and rows are never deleted;
  - a failed insert does not consume an id in the model, so ids are dense (row i has id i + 1);
  - emails are unique;
  - (jobSeekerId, jobId) is a unique key of requests;
  - foreign keys go from jobs to employers, and from requests to jobs and job seekers;
  - a new request's status defaults to Pending;
  - the role column is a plain string;
  - `createdAt` comes from a clock that ticks per insert, so newest first is reverse insertion order.
- Some insert failures are modelled only as their effect, a 500 from the handler's `catch`: a foreign-key violation, or an id that is not an integer (`Number(jobId)` or `Number(requestId)` giving NaN or a fraction).
- The race between `register`'s email check and its insert is not modelled: the model is one request at a time.
- `updateMyProfile` has no `catch`: its rejections (no profile row, an email another user holds) are the `Unhandled` reply. What Express then does with the request is not modelled.
- `getMyProfile` and `getMyRequests` have no `catch` either, but in the model they cannot reject: the caller's id is always an integer and their reads never fail. A database that fails a read is not modelled.
- The database starts empty (`Store.Database` constructor). Seeding and migrations are not modelled, and no source line creates the tables.
- `Requests.UpdateRequestStatus` does not cancel other requests for overlapping jobs, and does not require the request to be Pending: the handler writes the one row and nothing else.
- `Calendar.CalculateFitScore`: the score is proved to be at most 100, because every term is capped and the terms sum to at most 100. No case of a higher score exists.
- Numbers are exact reals and unbounded integers, so IEEE-754 rounding, NaN and Infinity are not modelled.
  - The matcher's clock texts are restricted to "digits:digits" (what the time inputs and the job list hold); a NaN from any other text is not modelled.
  - The salary is a JSON number; text salaries and `Number` of them are not modelled.
- The calendar page's rendering is not modelled: the per-weekday filter before grouping, the hour-row clipping and the pixel layout of boxes, and every other page and component.
- `Jobs.JobListing`: the listing orders by insertion, which equals `createdAt` descending under the table invariant (`Jobs.JobListingNewestFirst`). Equal stamps cannot occur in the model.

## Findings

| source | as written | input that shows it | evidently intended | confidence | as-written member | corrected member |
|---|---|---|---|---|---|---|
| apps/front-end/src/app/calendar/page.tsx:165-166 | the availability bounds are read with `parseFloat`, which stops at ':', so "09:30" counts as 9 while job bounds count minutes via `hhmmToFloat` | availability 09:30-12:00 on Monday, job 09:00-09:30 on Monday: the job is shown with 58 % overlap although it ends when the availability begins | read availability bounds with `hhmmToFloat`, so every shown job really intersects an availability window | not executed | `Calendar.LeadingHourShowsDisjointJob` | `Calendar.MinutesReadingOverlaps` |
