/** The job-request workflow of the back-end: a job seeker asks for a job, the
    employer who owns the job approves or rejects the request, and each side lists
    its requests, newest first. */
module Requests {
  import opened Wrappers
  import opened Store

  // ---------------------------------------------------------------- createRequest

  /** The outcome `createRequest` answers with, in the order of the handler's checks:
      no caller 401, another role 403, a job id that is not an integer number (the
      query is rejected) 500, an existing request with the same (job seeker, job) key
      400, a job or job-seeker profile the new row would not refer to (the insert is
      rejected) 500, and otherwise 200. */
  function CreateRequestStatus(requests: seq<Request>, jobs: seq<Job>, jobSeekers: map<int, JobSeeker>,
                               caller: Option<Caller>, jobId: Option<int>): (status: int)
    ensures status in {Unauthorized, Forbidden, ServerError, BadRequest, Ok}
    ensures status == Unauthorized <==> caller.None?
    ensures status == Forbidden <==> caller.Some? && caller.value.role != JobSeekerRole
    ensures status == BadRequest <==>
              && caller.Some? && caller.value.role == JobSeekerRole && jobId.Some?
              && exists i :: 0 <= i < |requests| && requests[i].jobSeekerId == caller.value.userId
                                                 && requests[i].jobId == jobId.value
    ensures status == Ok <==>
              && caller.Some? && caller.value.role == JobSeekerRole && jobId.Some?
              && (forall i :: 0 <= i < |requests| ==>
                    !(requests[i].jobSeekerId == caller.value.userId && requests[i].jobId == jobId.value))
              && (exists k :: 0 <= k < |jobs| && jobs[k].jobId == jobId.value)
              && caller.value.userId in jobSeekers
  {
    if caller.None? then Unauthorized
    else if caller.value.role != JobSeekerRole then Forbidden
    else if jobId.None? then ServerError
    else if RequestWithKey(requests, caller.value.userId, jobId.value).Some? then BadRequest
    else if JobWithId(jobs, jobId.value).None? || caller.value.userId !in jobSeekers then ServerError
    else Ok
  }

  /** Appending a request whose key is new and whose job and job seeker exist, with the
      next id and the current stamp, keeps the request table's invariant. */
  lemma InsertKeepsRequestsInv(requests: seq<Request>, clock: int, jobs: seq<Job>,
                               jobSeekers: map<int, JobSeeker>, r: Request)
    requires RequestsInv(requests, clock, jobs, jobSeekers)
    requires r.requestId == |requests| + 1 && r.createdAt == clock
    requires RequestWithKey(requests, r.jobSeekerId, r.jobId).None?
    requires 1 <= r.jobId <= |jobs| && r.jobSeekerId in jobSeekers
    ensures RequestsInv(requests + [r], clock + 1, jobs, jobSeekers)
  {
    var s := requests + [r];
    forall i, j | 0 <= i < j < |s|
      ensures !(s[i].jobSeekerId == s[j].jobSeekerId && s[i].jobId == s[j].jobId)
    {
      if j == |requests| {
        assert s[i] == requests[i];
      }
    }
  }

  /** `createRequest`: on success exactly one pending request is appended for the
      caller and the job; on every other outcome nothing changes. */
  method CreateRequest(db: Database, caller: Option<Caller>, jobId: Option<int>)
      returns (status: int, created: Option<Request>)
    requires db.Valid()
    modifies db`requests, db`clock
    ensures db.Valid()
    ensures status == CreateRequestStatus(old(db.requests), db.jobs, db.jobSeekers, caller, jobId)
    ensures created.Some? <==> status == Ok
    ensures status != Ok ==> unchanged(db)
    ensures status == Ok ==>
              && created.value == Request(|old(db.requests)| + 1, caller.value.userId, jobId.value,
                                          Pending, old(db.clock))
              && db.requests == old(db.requests) + [created.value]
              && db.clock == old(db.clock) + 1
  {
    if caller.None? {
      return Unauthorized, None;
    }
    if caller.value.role != JobSeekerRole {
      return Forbidden, None;
    }
    var jobSeekerId := caller.value.userId;
    if jobId.None? {
      return ServerError, None;
    }
    var existing := RequestWithKey(db.requests, jobSeekerId, jobId.value);
    if existing.Some? {
      return BadRequest, None;
    }
    if JobWithId(db.jobs, jobId.value).None? || jobSeekerId !in db.jobSeekers {
      return ServerError, None;
    }
    JobLookup(db.jobs, db.clock, db.employers, jobId.value);
    var request := InsertRequest(db, jobSeekerId, jobId.value);
    return Ok, Some(request);
  }

  /** `prisma.request.create`: the row takes the next id, the current stamp and the
      initial status. */
  method InsertRequest(db: Database, jobSeekerId: int, jobId: int) returns (request: Request)
    requires db.Valid()
    requires RequestWithKey(db.requests, jobSeekerId, jobId).None?
    requires 1 <= jobId <= |db.jobs| && jobSeekerId in db.jobSeekers
    modifies db`requests, db`clock
    ensures db.Valid()
    ensures request == Request(|old(db.requests)| + 1, jobSeekerId, jobId, Pending, old(db.clock))
    ensures db.requests == old(db.requests) + [request]
    ensures db.clock == old(db.clock) + 1
  {
    request := Request(|db.requests| + 1, jobSeekerId, jobId, Pending, db.clock);
    InsertKeepsRequestsInv(db.requests, db.clock, db.jobs, db.jobSeekers, request);
    JobsInvTick(db.jobs, db.clock, db.employers);
    db.requests := db.requests + [request];
    db.clock := db.clock + 1;
    Assemble(db);
  }

  /** Once the caller has a request for the job, asking again is refused with 400,
      whatever the request's status. */
  lemma RepeatRequestRefused(requests: seq<Request>, clock: int, jobs: seq<Job>,
                             jobSeekers: map<int, JobSeeker>, i: nat, caller: Caller)
    requires RequestsInv(requests, clock, jobs, jobSeekers) && i < |requests|
    requires caller == Caller(requests[i].jobSeekerId, JobSeekerRole)
    ensures CreateRequestStatus(requests, jobs, jobSeekers, Some(caller), Some(requests[i].jobId)) == BadRequest
  {
    RequestKeyLookup(requests, clock, jobs, jobSeekers, i);
  }

  // ---------------------------------------------------------------- updateRequestStatus

  /** The statuses an employer may set, by their names in the request body. */
  function StatusNamed(name: Field<string>): (r: Option<Status>)
    ensures r == Some(Approved) <==> name == Given("APPROVED")
    ensures r == Some(Rejected) <==> name == Given("REJECTED")
    ensures r != Some(Pending)
  {
    if name == Given("APPROVED") then Some(Approved)
    else if name == Given("REJECTED") then Some(Rejected)
    else None
  }

  /** The request's job belongs to the employer. */
  predicate OnJobOf(jobs: seq<Job>, q: Request, employerId: int) {
    match JobWithId(jobs, q.jobId)
    case Some(k) => jobs[k].employerId == employerId
    case None => false
  }

  /** `findFirst({ requestId, job: { employerId } })`: the position of the request with
      that id, provided it is on one of the employer's jobs. */
  function OwnedRequest(requests: seq<Request>, jobs: seq<Job>, requestId: int, employerId: int): (r: Option<nat>)
    ensures r.Some? ==> r.value < |requests| && requests[r.value].requestId == requestId
                        && OnJobOf(jobs, requests[r.value], employerId)
  {
    match RequestWithId(requests, requestId)
    case Some(k) => if OnJobOf(jobs, requests[k], employerId) then Some(k) else None
    case None => None
  }

  /** With request ids unique, the lookup fails exactly when no request with that id
      is on one of the employer's jobs. */
  lemma OwnedRequestMissing(requests: seq<Request>, clock: int, jobs: seq<Job>,
                            jobSeekers: map<int, JobSeeker>, requestId: int, employerId: int)
    requires RequestsInv(requests, clock, jobs, jobSeekers)
    ensures OwnedRequest(requests, jobs, requestId, employerId).None? <==>
              forall i :: 0 <= i < |requests| && requests[i].requestId == requestId ==> !OnJobOf(jobs, requests[i], employerId)
  {
    match RequestWithId(requests, requestId)
    case None =>
    case Some(k) =>
      assert forall i :: 0 <= i < |requests| && requests[i].requestId == requestId ==> i == k;
  }

  /** The outcome `updateRequestStatus` answers with: a missing caller or another role
      403, a status other than APPROVED or REJECTED 400 (before any lookup), a request
      id that is not an integer number 500, no such request on the caller's jobs 404,
      and otherwise 200. Whatever the request's current status is does not matter. */
  function UpdateStatusOutcome(requests: seq<Request>, jobs: seq<Job>, caller: Option<Caller>,
                               requestId: Option<int>, status: Field<string>): (code: int)
    ensures code in {Forbidden, BadRequest, ServerError, NotFound, Ok}
    ensures code == Forbidden <==> caller.None? || caller.value.role != EmployerRole
    ensures code == BadRequest <==>
              && caller.Some? && caller.value.role == EmployerRole
              && status != Given("APPROVED") && status != Given("REJECTED")
    ensures code == ServerError <==>
              && caller.Some? && caller.value.role == EmployerRole
              && (status == Given("APPROVED") || status == Given("REJECTED")) && requestId.None?
    ensures code == Ok ==>
              exists i :: && 0 <= i < |requests| && requests[i].requestId == requestId.value
                          && OnJobOf(jobs, requests[i], caller.value.userId)
    ensures (&& caller.Some? && caller.value.role == EmployerRole
             && (status == Given("APPROVED") || status == Given("REJECTED")) && requestId.Some?
             && forall i :: 0 <= i < |requests| && requests[i].requestId == requestId.value ==>
                  !OnJobOf(jobs, requests[i], caller.value.userId))
            ==> code == NotFound
  {
    if caller.None? || caller.value.role != EmployerRole then Forbidden
    else if StatusNamed(status).None? then BadRequest
    else if requestId.None? then ServerError
    else if OwnedRequest(requests, jobs, requestId.value, caller.value.userId).None? then NotFound
    else Ok
  }

  /** Changing one request's status keeps the request table's invariant. */
  lemma SetStatusKeepsRequestsInv(requests: seq<Request>, clock: int, jobs: seq<Job>,
                                  jobSeekers: map<int, JobSeeker>, k: nat, status: Status)
    requires RequestsInv(requests, clock, jobs, jobSeekers) && k < |requests|
    ensures RequestsInv(requests[k := requests[k].(status := status)], clock, jobs, jobSeekers)
  {
    var s := requests[k := requests[k].(status := status)];
    assert forall i :: 0 <= i < |s| ==> s[i].requestId == requests[i].requestId && s[i].createdAt == requests[i].createdAt
                                        && s[i].jobSeekerId == requests[i].jobSeekerId && s[i].jobId == requests[i].jobId;
  }

  /** `updateRequestStatus`: on success the one request takes the new status and every
      other request, and every other field of it, stays as it was. */
  method UpdateRequestStatus(db: Database, caller: Option<Caller>, requestId: Option<int>,
                             status: Field<string>)
      returns (code: int, updated: Option<Request>)
    requires db.Valid()
    modifies db`requests
    ensures db.Valid()
    ensures code == UpdateStatusOutcome(old(db.requests), db.jobs, caller, requestId, status)
    ensures updated.Some? <==> code == Ok
    ensures code != Ok ==> unchanged(db)
    ensures code == Ok ==>
              var k := OwnedRequest(old(db.requests), db.jobs, requestId.value, caller.value.userId).value;
              && updated.value == old(db.requests)[k].(status := StatusNamed(status).value)
              && db.requests == old(db.requests)[k := updated.value]
  {
    if caller.None? || caller.value.role != EmployerRole {
      return Forbidden, None;
    }
    var newStatus := StatusNamed(status);
    if newStatus.None? {
      return BadRequest, None;
    }
    if requestId.None? {
      return ServerError, None;
    }
    var found := OwnedRequest(db.requests, db.jobs, requestId.value, caller.value.userId);
    if found.None? {
      return NotFound, None;
    }
    var row := SetRequestStatus(db, found.value, newStatus.value);
    return Ok, Some(row);
  }

  /** `prisma.request.update`: the one row takes the new status. */
  method SetRequestStatus(db: Database, k: nat, status: Status) returns (row: Request)
    requires db.Valid() && k < |db.requests|
    modifies db`requests
    ensures db.Valid()
    ensures row == old(db.requests)[k].(status := status)
    ensures db.requests == old(db.requests)[k := row]
  {
    row := db.requests[k].(status := status);
    SetStatusKeepsRequestsInv(db.requests, db.clock, db.jobs, db.jobSeekers, k, status);
    db.requests := db.requests[k := row];
    Assemble(db);
  }

  // ---------------------------------------------------------------- the two listings

  /** A request with the job fields the job seeker's list shows. */
  datatype JobSummary = JobSummary(jobId: int, title: string, description: string, location: string,
                                   category: string, startTime: int, endTime: int)
  datatype MyRequestView = MyRequestView(request: Request, job: Option<JobSummary>)

  /** A request with the job and job-seeker fields the employer's list shows. */
  datatype JobBrief = JobBrief(jobId: int, title: string, description: string)
  datatype ContactView = ContactView(userName: Option<string>, phoneNumber: Option<string>)
  datatype EmployerRequestView = EmployerRequestView(request: Request, job: Option<JobBrief>,
                                                     jobSeeker: Option<ContactView>)

  /** The caller's requests, newest first. */
  function SeekerRequests(requests: seq<Request>, jobSeekerId: int): seq<Request> {
    NewestFirst(requests, (q: Request) => q.jobSeekerId == jobSeekerId)
  }

  /** The requests on the employer's jobs, newest first. */
  function EmployerRequests(jobs: seq<Job>, requests: seq<Request>, employerId: int): seq<Request> {
    NewestFirst(requests, (q: Request) => OnJobOf(jobs, q, employerId))
  }

  function MyView(jobs: seq<Job>, q: Request): MyRequestView {
    match JobWithId(jobs, q.jobId)
    case Some(k) =>
      var j := jobs[k];
      MyRequestView(q, Some(JobSummary(j.jobId, j.title, j.description, j.location, j.category,
                                       j.startTime, j.endTime)))
    case None => MyRequestView(q, None)
  }

  function EmployerView(jobs: seq<Job>, jobSeekers: map<int, JobSeeker>, q: Request): EmployerRequestView {
    var job := match JobWithId(jobs, q.jobId)
               case Some(k) => Some(JobBrief(jobs[k].jobId, jobs[k].title, jobs[k].description))
               case None => None;
    var seeker := if q.jobSeekerId in jobSeekers
                  then Some(ContactView(jobSeekers[q.jobSeekerId].userName, jobSeekers[q.jobSeekerId].phoneNumber))
                  else None;
    EmployerRequestView(q, job, seeker)
  }

  /** `getMyRequests`: only job seekers may list, and they see their own requests. */
  method GetMyRequests(db: Database, caller: Option<Caller>) returns (status: int, rows: seq<MyRequestView>)
    ensures caller.None? || caller.value.role != JobSeekerRole ==> status == Forbidden && rows == []
    ensures caller.Some? && caller.value.role == JobSeekerRole ==>
              var mine := SeekerRequests(db.requests, caller.value.userId);
              status == Ok && |rows| == |mine|
              && forall i :: 0 <= i < |rows| ==> rows[i] == MyView(db.jobs, mine[i])
  {
    if caller.None? || caller.value.role != JobSeekerRole {
      return Forbidden, [];
    }
    var mine := SeekerRequests(db.requests, caller.value.userId);
    rows := [];
    var i := 0;
    while i < |mine|
      invariant 0 <= i <= |mine| && |rows| == i
      invariant forall k :: 0 <= k < i ==> rows[k] == MyView(db.jobs, mine[k])
    {
      rows := rows + [MyView(db.jobs, mine[i])];
      i := i + 1;
    }
    return Ok, rows;
  }

  /** `getEmployerRequests`: only employers may list, and they see the requests on
      their jobs with the asking job seeker's contact. */
  method GetEmployerRequests(db: Database, caller: Option<Caller>)
      returns (status: int, rows: seq<EmployerRequestView>)
    ensures caller.None? || caller.value.role != EmployerRole ==> status == Forbidden && rows == []
    ensures caller.Some? && caller.value.role == EmployerRole ==>
              var theirs := EmployerRequests(db.jobs, db.requests, caller.value.userId);
              status == Ok && |rows| == |theirs|
              && forall i :: 0 <= i < |rows| ==> rows[i] == EmployerView(db.jobs, db.jobSeekers, theirs[i])
  {
    if caller.None? || caller.value.role != EmployerRole {
      return Forbidden, [];
    }
    var theirs := EmployerRequests(db.jobs, db.requests, caller.value.userId);
    rows := [];
    var i := 0;
    while i < |theirs|
      invariant 0 <= i <= |theirs| && |rows| == i
      invariant forall k :: 0 <= k < i ==> rows[k] == EmployerView(db.jobs, db.jobSeekers, theirs[k])
    {
      rows := rows + [EmployerView(db.jobs, db.jobSeekers, theirs[i])];
      i := i + 1;
    }
    return Ok, rows;
  }

  /** The job seeker's list holds exactly their requests, newest first. */
  lemma SeekerRequestsExactly(db: Database, jobSeekerId: int)
    requires RequestsInv(db.requests, db.clock, db.jobs, db.jobSeekers)
    ensures forall q :: q in SeekerRequests(db.requests, jobSeekerId) <==> q in db.requests && q.jobSeekerId == jobSeekerId
    ensures Decreasing(SeekerRequests(db.requests, jobSeekerId), (q: Request) => q.createdAt)
  {
    var keep := (q: Request) => q.jobSeekerId == jobSeekerId;
    forall q
      ensures q in SeekerRequests(db.requests, jobSeekerId) <==> q in db.requests && q.jobSeekerId == jobSeekerId
    {
      NewestFirstMembership(db.requests, keep, q);
    }
    NewestFirstDescending(db.requests, keep, (q: Request) => q.createdAt);
  }

  /** The employer's list holds exactly the requests on the employer's jobs, newest
      first, and each shows its job. */
  lemma EmployerRequestsExactly(db: Database, employerId: int)
    requires RequestsInv(db.requests, db.clock, db.jobs, db.jobSeekers)
    ensures forall q :: q in EmployerRequests(db.jobs, db.requests, employerId) <==>
                          q in db.requests && OnJobOf(db.jobs, q, employerId)
    ensures Decreasing(EmployerRequests(db.jobs, db.requests, employerId), (q: Request) => q.createdAt)
    ensures forall q :: q in EmployerRequests(db.jobs, db.requests, employerId) ==>
                          EmployerView(db.jobs, db.jobSeekers, q).job.Some?
                          && EmployerView(db.jobs, db.jobSeekers, q).jobSeeker.Some?
  {
    var jobs := db.jobs;
    var keep := (q: Request) => OnJobOf(jobs, q, employerId);
    forall q
      ensures q in EmployerRequests(db.jobs, db.requests, employerId) <==> q in db.requests && OnJobOf(db.jobs, q, employerId)
    {
      NewestFirstMembership(db.requests, keep, q);
    }
    NewestFirstDescending(db.requests, keep, (q: Request) => q.createdAt);
  }
}
