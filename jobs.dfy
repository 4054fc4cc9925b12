/** Job postings: an employer creates a job from a form whose every field must be
    filled in, and anyone lists all jobs, newest first, with the employer's name. */
module Jobs {
  import opened Wrappers
  import opened Store

  // ---------------------------------------------------------------- createJob

  /** The body of `createJob`. The salary arrives as a JSON number; the two times
      are date texts. */
  datatype JobInput = JobInput(title: Field<string>, description: Field<string>, location: Field<string>,
                               category: Field<string>, salary: Field<real>, startTime: Field<string>,
                               endTime: Field<string>)

  /** JavaScript truthiness of a number: present, not null, not zero. */
  predicate TruthyNumber(f: Field<real>) {
    f.Given? && f.value != 0.0
  }

  /** Every field of the form is truthy. */
  predicate Filled(input: JobInput) {
    && TruthyText(input.title) && TruthyText(input.description) && TruthyText(input.location)
    && TruthyText(input.category) && TruthyNumber(input.salary) && TruthyText(input.startTime)
    && TruthyText(input.endTime)
  }

  /** The job `createJob` would insert, with its id and stamp; `parseDate` is
      `new Date(text)`, giving an instant or nothing for an invalid date. */
  function NewJob(input: JobInput, employerId: int, parseDate: string -> Option<int>, id: int, stamp: int): (job: Job)
    requires Filled(input)
    requires parseDate(input.startTime.value).Some? && parseDate(input.endTime.value).Some?
    ensures job.jobId == id && job.createdAt == stamp && job.employerId == employerId
    ensures job.title == input.title.value && job.description == input.description.value
    ensures job.location == input.location.value && job.category == input.category.value
    ensures job.salary == input.salary.value
    ensures job.startTime == parseDate(input.startTime.value).value
    ensures job.endTime == parseDate(input.endTime.value).value
  {
    Job(id, input.title.value, input.description.value, input.location.value, input.category.value,
        input.salary.value, parseDate(input.startTime.value).value, parseDate(input.endTime.value).value,
        employerId, stamp)
  }

  /** The outcome `createJob` answers with: a missing caller or another role 403, an
      unfilled field 400, a date the insert rejects or a caller without an employer
      profile (the new row would not refer to one) 500, and otherwise 201. */
  function CreateJobStatus(employers: map<int, Employer>, caller: Option<Caller>, input: JobInput,
                           parseDate: string -> Option<int>): (status: int)
    ensures status in {Forbidden, BadRequest, ServerError, Created}
    ensures status == Forbidden <==> caller.None? || caller.value.role != EmployerRole
    ensures status == BadRequest <==> caller.Some? && caller.value.role == EmployerRole && !Filled(input)
    ensures status == Created <==>
              && caller.Some? && caller.value.role == EmployerRole && Filled(input)
              && parseDate(input.startTime.value).Some? && parseDate(input.endTime.value).Some?
              && caller.value.userId in employers
  {
    if caller.None? || caller.value.role != EmployerRole then Forbidden
    else if !Filled(input) then BadRequest
    else if parseDate(input.startTime.value).None? || parseDate(input.endTime.value).None? then ServerError
    else if caller.value.userId !in employers then ServerError
    else Created
  }

  /** `createJob`: on success exactly one job is appended, owned by the caller, with
      the next id and the current stamp; on every other outcome nothing changes. */
  method CreateJob(db: Database, caller: Option<Caller>, input: JobInput, parseDate: string -> Option<int>)
      returns (status: int, created: Option<Job>)
    requires db.Valid()
    modifies db`jobs, db`clock
    ensures db.Valid()
    ensures status == CreateJobStatus(db.employers, caller, input, parseDate)
    ensures created.Some? <==> status == Created
    ensures status != Created ==> unchanged(db)
    ensures status == Created ==>
              && created.value == NewJob(input, caller.value.userId, parseDate, |old(db.jobs)| + 1, old(db.clock))
              && db.jobs == old(db.jobs) + [created.value]
              && db.clock == old(db.clock) + 1
  {
    if caller.None? || caller.value.role != EmployerRole {
      return Forbidden, None;
    }
    if !Filled(input) {
      return BadRequest, None;
    }
    var start := parseDate(input.startTime.value);
    var end := parseDate(input.endTime.value);
    if start.None? || end.None? || caller.value.userId !in db.employers {
      return ServerError, None;
    }
    var job := InsertJob(db, NewJob(input, caller.value.userId, parseDate, |db.jobs| + 1, db.clock));
    return Created, Some(job);
  }

  /** `prisma.job.create`: the row is appended and the stamp moves on. */
  method InsertJob(db: Database, job: Job) returns (row: Job)
    requires db.Valid()
    requires job.jobId == |db.jobs| + 1 && job.createdAt == db.clock && job.employerId in db.employers
    modifies db`jobs, db`clock
    ensures db.Valid()
    ensures row == job
    ensures db.jobs == old(db.jobs) + [job] && db.clock == old(db.clock) + 1
  {
    row := job;
    AppendKeepsJobsInv(db.jobs, db.clock, db.employers, job);
    MoreJobsKeepRequestsInv(db.requests, db.clock, db.jobs, db.jobSeekers, job);
    db.jobs := db.jobs + [job];
    db.clock := db.clock + 1;
    Assemble(db);
  }

  /** Appending a job with the next id, the current stamp and an existing employer
      keeps the job table's invariant. */
  lemma AppendKeepsJobsInv(jobs: seq<Job>, clock: int, employers: map<int, Employer>, job: Job)
    requires JobsInv(jobs, clock, employers)
    requires job.jobId == |jobs| + 1 && job.createdAt == clock && job.employerId in employers
    ensures JobsInv(jobs + [job], clock + 1, employers)
  {
    var s := jobs + [job];
    forall i | 0 <= i < |s|
      ensures s[i].jobId == i + 1 && s[i].createdAt < clock + 1 && s[i].employerId in employers
    {
      if i < |jobs| {
        assert s[i] == jobs[i];
      }
    }
  }

  /** A new job and a later stamp keep the request table's invariant. */
  lemma MoreJobsKeepRequestsInv(requests: seq<Request>, clock: int, jobs: seq<Job>,
                                jobSeekers: map<int, JobSeeker>, job: Job)
    requires RequestsInv(requests, clock, jobs, jobSeekers)
    ensures RequestsInv(requests, clock + 1, jobs + [job], jobSeekers)
  {
  }

  /** A salary of 0 is refused as missing, even from an employer. */
  lemma ZeroSalaryRefused(employers: map<int, Employer>, caller: Caller, input: JobInput,
                          parseDate: string -> Option<int>)
    requires caller.role == EmployerRole && input.salary == Given(0.0)
    ensures CreateJobStatus(employers, Some(caller), input, parseDate) == BadRequest
  {
  }

  /** Nothing compares the two times or the salary's sign: a job that ends before it
      starts, at a negative salary, is created all the same. */
  lemma NoTimeOrderCheck(employers: map<int, Employer>, caller: Caller, input: JobInput,
                         parseDate: string -> Option<int>)
    requires caller.role == EmployerRole && caller.userId in employers && Filled(input)
    requires parseDate(input.startTime.value).Some? && parseDate(input.endTime.value).Some?
    ensures CreateJobStatus(employers, Some(caller), input, parseDate) == Created
  {
  }

  // ---------------------------------------------------------------- getJobs

  /** The employer fields a listed job carries. */
  datatype EmployerBrief = EmployerBrief(employerName: Option<string>)
  datatype JobView = JobView(job: Job, employer: Option<EmployerBrief>)

  function ViewOf(employers: map<int, Employer>, job: Job): JobView {
    JobView(job, if job.employerId in employers then Some(EmployerBrief(employers[job.employerId].employerName))
                 else None)
  }

  /** `getJobs`: every job with its employer's name, the latest inserted first. */
  function JobListing(jobs: seq<Job>, employers: map<int, Employer>): (r: seq<JobView>)
    ensures |r| == |jobs|
    ensures forall i :: 0 <= i < |r| ==> r[i] == ViewOf(employers, jobs[|jobs| - 1 - i])
  {
    if jobs == [] then []
    else [ViewOf(employers, jobs[|jobs| - 1])] + JobListing(jobs[..|jobs| - 1], employers)
  }

  /** Every job is listed once, with its employer's name, in decreasing order of
      creation. */
  lemma JobListingNewestFirst(jobs: seq<Job>, clock: int, employers: map<int, Employer>)
    requires JobsInv(jobs, clock, employers)
    ensures var r := JobListing(jobs, employers);
            && (forall i, j :: 0 <= i < j < |r| ==> r[i].job.createdAt > r[j].job.createdAt)
            && (forall i :: 0 <= i < |r| ==> r[i].employer == Some(EmployerBrief(employers[r[i].job.employerId].employerName)))
            && (forall job :: job in jobs <==> exists i :: 0 <= i < |r| && r[i].job == job)
  {
    var r := JobListing(jobs, employers);
    forall job | job in jobs
      ensures exists i :: 0 <= i < |r| && r[i].job == job
    {
      var k :| 0 <= k < |jobs| && jobs[k] == job;
      assert r[|jobs| - 1 - k].job == job;
    }
  }

  /** A job just created heads the listing. */
  lemma CreatedJobListedFirst(jobs: seq<Job>, employers: map<int, Employer>, job: Job)
    ensures JobListing(jobs + [job], employers)[0] == ViewOf(employers, job)
  {
    assert (jobs + [job])[|jobs|] == job;
  }
}
