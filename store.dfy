/** The back-end's tables as the request handlers see them through the ORM: users,
    the job-seeker and employer profiles keyed by their user's id, jobs and job
    requests, with the database's id sequences and a creation clock. */
module Store {
  import opened Wrappers

  const JobSeekerRole := "JOB_SEEKER"
  const EmployerRole := "EMPLOYER"

  /** HTTP status codes the handlers answer with. */
  const Ok := 200
  const Created := 201
  const BadRequest := 400
  const Unauthorized := 401
  const Forbidden := 403
  const NotFound := 404
  const ServerError := 500

  /** The authenticated caller (`req.user`), as the token middleware attaches it. */
  datatype Caller = Caller(userId: int, role: string)

  /** A property of a JSON request body: absent, `null`, or a value. */
  datatype Field<T> = Undefined | Null | Given(value: T)

  /** JavaScript truthiness of a text field: present, not null, not empty. */
  predicate TruthyText(f: Field<string>) {
    f.Given? && f.value != ""
  }

  /** `f ?? null` as stored in a nullable column. */
  function OrNull<T>(f: Field<T>): (r: Option<T>)
    ensures r.Some? <==> f.Given?
    ensures f.Given? ==> r.value == f.value
  {
    if f.Given? then Some(f.value) else None
  }

  datatype User = User(userId: int, email: string, password: string, role: string)
  datatype JobSeeker = JobSeeker(userName: Option<string>, phoneNumber: Option<string>)
  datatype Employer = Employer(employerName: Option<string>, phoneNumber: Option<string>)

  /** A job row; times are instants (milliseconds since the epoch). */
  datatype Job = Job(jobId: int, title: string, description: string, location: string,
                     category: string, salary: real, startTime: int, endTime: int,
                     employerId: int, createdAt: int)

  /** Request statuses; a new request starts out `Pending`. */
  datatype Status = Pending | Approved | Rejected

  datatype Request = Request(requestId: int, jobSeekerId: int, jobId: int, status: Status,
                             createdAt: int)

  // ---------------------------------------------------------------- lookups

  /** Position of the first row satisfying `p`. */
  function IndexWhere<T>(rows: seq<T>, p: T -> bool): (r: Option<nat>)
    ensures r.Some? ==> r.value < |rows| && p(rows[r.value])
                        && forall i :: 0 <= i < r.value ==> !p(rows[i])
    ensures r.None? <==> forall i :: 0 <= i < |rows| ==> !p(rows[i])
  {
    if rows == [] then None
    else if p(rows[0]) then Some(0)
    else match IndexWhere(rows[1..], p)
      case None => None
      case Some(k) =>
        assert forall i :: 1 <= i <= k ==> rows[i] == rows[1..][i - 1];
        Some(k + 1)
  }

  function UserWithEmail(users: seq<User>, email: string): (r: Option<nat>)
    ensures r.Some? ==> r.value < |users| && users[r.value].email == email
    ensures r.None? <==> forall i :: 0 <= i < |users| ==> users[i].email != email
  {
    IndexWhere(users, (u: User) => u.email == email)
  }

  function JobWithId(jobs: seq<Job>, id: int): (r: Option<nat>)
    ensures r.Some? ==> r.value < |jobs| && jobs[r.value].jobId == id
    ensures r.None? <==> forall i :: 0 <= i < |jobs| ==> jobs[i].jobId != id
  {
    IndexWhere(jobs, (j: Job) => j.jobId == id)
  }

  /** The request with the compound key (jobSeekerId, jobId). */
  function RequestWithKey(requests: seq<Request>, jobSeekerId: int, jobId: int): (r: Option<nat>)
    ensures r.Some? ==> r.value < |requests| && requests[r.value].jobSeekerId == jobSeekerId
                        && requests[r.value].jobId == jobId
    ensures r.None? <==> forall i :: 0 <= i < |requests| ==>
                           !(requests[i].jobSeekerId == jobSeekerId && requests[i].jobId == jobId)
  {
    IndexWhere(requests, (q: Request) => q.jobSeekerId == jobSeekerId && q.jobId == jobId)
  }

  function RequestWithId(requests: seq<Request>, id: int): (r: Option<nat>)
    ensures r.Some? ==> r.value < |requests| && requests[r.value].requestId == id
    ensures r.None? <==> forall i :: 0 <= i < |requests| ==> requests[i].requestId != id
  {
    IndexWhere(requests, (q: Request) => q.requestId == id)
  }

  // ---------------------------------------------------------------- newest first

  /** The rows satisfying `keep`, latest inserted first. Rows are inserted in order of
      creation, so this is `orderBy: { createdAt: 'desc' }` over the kept rows. */
  function NewestFirst<T>(rows: seq<T>, keep: T -> bool): (r: seq<T>)
    ensures |r| <= |rows|
  {
    if rows == [] then []
    else
      var last := rows[|rows| - 1];
      (if keep(last) then [last] else []) + NewestFirst(rows[..|rows| - 1], keep)
  }

  /** Exactly the kept rows are listed. */
  lemma {:induction false} NewestFirstMembership<T>(rows: seq<T>, keep: T -> bool, x: T)
    ensures x in NewestFirst(rows, keep) <==> x in rows && keep(x)
    decreases |rows|
  {
    if rows != [] {
      var n := |rows| - 1;
      NewestFirstMembership(rows[..n], keep, x);
      assert rows == rows[..n] + [rows[n]];
    }
  }

  predicate Increasing<T>(rows: seq<T>, stamp: T -> int) {
    forall i, j :: 0 <= i < j < |rows| ==> stamp(rows[i]) < stamp(rows[j])
  }

  predicate Decreasing<T>(rows: seq<T>, stamp: T -> int) {
    forall i, j :: 0 <= i < j < |rows| ==> stamp(rows[i]) > stamp(rows[j])
  }

  /** Rows stamped in increasing order are listed in decreasing order of their stamps. */
  lemma {:induction false} NewestFirstDescending<T>(rows: seq<T>, keep: T -> bool, stamp: T -> int)
    requires Increasing(rows, stamp)
    ensures Decreasing(NewestFirst(rows, keep), stamp)
    decreases |rows|
  {
    if rows != [] {
      var n := |rows| - 1;
      var rest := NewestFirst(rows[..n], keep);
      NewestFirstDescending(rows[..n], keep, stamp);
      forall x | x in rest
        ensures stamp(x) < stamp(rows[n])
      {
        NewestFirstMembership(rows[..n], keep, x);
        var k :| 0 <= k < n && rows[..n][k] == x;
        assert rows[k] == x;
      }
      var r := NewestFirst(rows, keep);
      if keep(rows[n]) {
        assert r == [rows[n]] + rest;
        forall i, j | 0 <= i < j < |r|
          ensures stamp(r[i]) > stamp(r[j])
        {
          assert r[j] == rest[j - 1] && rest[j - 1] in rest;
          if i > 0 {
            assert r[i] == rest[i - 1];
          }
        }
      } else {
        assert r == rest;
      }
    }
  }

  // ---------------------------------------------------------------- the database

  /** User ids are issued 1, 2, 3, ... in order of registration, emails are distinct,
      and every profile belongs to a user. */
  ghost predicate UsersInv(users: seq<User>, jobSeekers: map<int, JobSeeker>, employers: map<int, Employer>) {
    && (forall i :: 0 <= i < |users| ==> users[i].userId == i + 1)
    && (forall i, j :: 0 <= i < j < |users| ==> users[i].email != users[j].email)
    && (forall id :: id in jobSeekers ==> 1 <= id <= |users|)
    && (forall id :: id in employers ==> 1 <= id <= |users|)
  }

  /** Job ids are issued 1, 2, 3, ... in order of creation, creation stamps increase,
      and every job belongs to an employer. */
  ghost predicate JobsInv(jobs: seq<Job>, clock: int, employers: map<int, Employer>) {
    && (forall i :: 0 <= i < |jobs| ==>
          jobs[i].jobId == i + 1 && jobs[i].createdAt < clock && jobs[i].employerId in employers)
    && (forall i, j :: 0 <= i < j < |jobs| ==> jobs[i].createdAt < jobs[j].createdAt)
  }

  /** Request ids are issued 1, 2, 3, ... in order of creation, creation stamps
      increase, every request refers to an existing job and job seeker, and no two
      share the compound key (jobSeekerId, jobId). */
  ghost predicate RequestsInv(requests: seq<Request>, clock: int, jobs: seq<Job>,
                              jobSeekers: map<int, JobSeeker>)
  {
    && (forall i :: 0 <= i < |requests| ==>
          && requests[i].requestId == i + 1 && requests[i].createdAt < clock
          && requests[i].jobSeekerId in jobSeekers && 1 <= requests[i].jobId <= |jobs|)
    && (forall i, j :: 0 <= i < j < |requests| ==>
          && requests[i].createdAt < requests[j].createdAt
          && !(requests[i].jobSeekerId == requests[j].jobSeekerId && requests[i].jobId == requests[j].jobId))
  }

  /** With ids issued in order, the job with id `id` is row `id - 1`. */
  lemma JobLookup(jobs: seq<Job>, clock: int, employers: map<int, Employer>, id: int)
    requires JobsInv(jobs, clock, employers)
    ensures JobWithId(jobs, id) == if 1 <= id <= |jobs| then Some(id - 1) else None
  {
    if 1 <= id <= |jobs| {
      assert jobs[id - 1].jobId == id;
    }
  }

  /** With ids issued in order, the request with id `id` is row `id - 1`. */
  lemma RequestLookup(requests: seq<Request>, clock: int, jobs: seq<Job>, jobSeekers: map<int, JobSeeker>,
                      id: int)
    requires RequestsInv(requests, clock, jobs, jobSeekers)
    ensures RequestWithId(requests, id) == if 1 <= id <= |requests| then Some(id - 1) else None
  {
    if 1 <= id <= |requests| {
      assert requests[id - 1].requestId == id;
    }
  }

  /** Later stamps keep the job table's invariant. */
  lemma JobsInvTick(jobs: seq<Job>, clock: int, employers: map<int, Employer>)
    requires JobsInv(jobs, clock, employers)
    ensures JobsInv(jobs, clock + 1, employers)
  {
  }

  /** The tables. Each id sequence is the table's length plus one, since rows are
      never deleted and an insert that fails is rejected before it takes an id. */
  class Database {
    var users: seq<User>
    var jobSeekers: map<int, JobSeeker>
    var employers: map<int, Employer>
    var jobs: seq<Job>
    var requests: seq<Request>
    /** The time stamp the next inserted job or request gets. */
    var clock: int

    ghost predicate Valid()
      reads this
    {
      && UsersInv(users, jobSeekers, employers)
      && JobsInv(jobs, clock, employers)
      && RequestsInv(requests, clock, jobs, jobSeekers)
    }

    /** An empty database. */
    constructor ()
      ensures Valid()
      ensures users == [] && jobs == [] && requests == []
      ensures jobSeekers == map[] && employers == map[]
    {
      users, jobSeekers, employers := [], map[], map[];
      jobs, requests := [], [];
      clock := 0;
    }
  }

  /** The three table invariants make the database valid. */
  lemma Assemble(db: Database)
    requires UsersInv(db.users, db.jobSeekers, db.employers)
    requires JobsInv(db.jobs, db.clock, db.employers)
    requires RequestsInv(db.requests, db.clock, db.jobs, db.jobSeekers)
    ensures db.Valid()
  {
  }

  /** Under the schema's uniqueness, looking a request up by its compound key finds
      exactly that request. */
  lemma RequestKeyLookup(requests: seq<Request>, clock: int, jobs: seq<Job>,
                          jobSeekers: map<int, JobSeeker>, i: nat)
    requires RequestsInv(requests, clock, jobs, jobSeekers) && i < |requests|
    ensures RequestWithKey(requests, requests[i].jobSeekerId, requests[i].jobId) == Some(i)
  {
    var q := requests[i];
    var k := RequestWithKey(requests, q.jobSeekerId, q.jobId);
    assert k.Some?;
    if k.value < i {
      assert false;
    }
  }
}
