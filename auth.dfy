/** Registration and login: a new user, with the profile their role calls for,
    is created in one transaction, and a login with a matching email and password
    yields a signed token valid for two hours. */
module Auth {
  import opened Wrappers
  import opened Store

  // ---------------------------------------------------------------- register

  /** The `user`, `jobSeeker` and `employer` parts of the registration body. */
  datatype UserInput = UserInput(email: Field<string>, password: Field<string>, role: Field<string>)
  datatype SeekerInput = SeekerInput(userName: Field<string>, phoneNumber: Field<string>)
  datatype EmployerInput = EmployerInput(employerName: Field<string>, phoneNumber: Field<string>)
  datatype RegisterBody = RegisterBody(user: Option<UserInput>, jobSeeker: Option<SeekerInput>,
                                       employer: Option<EmployerInput>)

  /** What a successful registration answers with. */
  datatype Registered = Registered(userId: int, role: string)

  /** `user.email`, `user.password` and `user.role` are all truthy. */
  predicate Complete(user: Option<UserInput>) {
    user.Some? && TruthyText(user.value.email) && TruthyText(user.value.password)
    && TruthyText(user.value.role)
  }

  /** The outcome `register` answers with: a missing user field 400, an email already
      registered 400, and otherwise 201. */
  function RegisterStatus(users: seq<User>, body: RegisterBody): (status: int)
    ensures status == Created <==>
              Complete(body.user) && forall i :: 0 <= i < |users| ==> users[i].email != body.user.value.email.value
    ensures status != Created ==> status == BadRequest
  {
    if !Complete(body.user) then BadRequest
    else if UserWithEmail(users, body.user.value.email.value).Some? then BadRequest
    else Created
  }

  /** The job-seeker row a registration creates: absent names and phones are null. */
  function SeekerProfile(input: Option<SeekerInput>): (p: JobSeeker)
    ensures input.None? ==> p == JobSeeker(None, None)
    ensures input.Some? ==> p.userName == OrNull(input.value.userName)
                            && p.phoneNumber == OrNull(input.value.phoneNumber)
  {
    match input
    case None => JobSeeker(None, None)
    case Some(s) => JobSeeker(OrNull(s.userName), OrNull(s.phoneNumber))
  }

  /** The employer row a registration creates: absent names and phones are null. */
  function EmployerProfile(input: Option<EmployerInput>): (p: Employer)
    ensures input.None? ==> p == Employer(None, None)
    ensures input.Some? ==> p.employerName == OrNull(input.value.employerName)
                            && p.phoneNumber == OrNull(input.value.phoneNumber)
  {
    match input
    case None => Employer(None, None)
    case Some(e) => Employer(OrNull(e.employerName), OrNull(e.phoneNumber))
  }

  /** `register`: on success one user is appended with the next id and, for the two
      known roles, the matching profile is created under the same id; a role other
      than those two gets no profile. On every other outcome nothing changes. */
  method Register(db: Database, body: RegisterBody) returns (status: int, registered: Option<Registered>)
    requires db.Valid()
    modifies db`users, db`jobSeekers, db`employers
    ensures db.Valid()
    ensures status == RegisterStatus(old(db.users), body)
    ensures registered.Some? <==> status == Created
    ensures status != Created ==> unchanged(db)
    ensures status == Created ==>
              var u := body.user.value;
              var id := |old(db.users)| + 1;
              && registered.value == Registered(id, u.role.value)
              && db.users == old(db.users) + [User(id, u.email.value, u.password.value, u.role.value)]
              && db.jobSeekers == (if u.role.value == JobSeekerRole
                                   then old(db.jobSeekers)[id := SeekerProfile(body.jobSeeker)]
                                   else old(db.jobSeekers))
              && db.employers == (if u.role.value == EmployerRole
                                  then old(db.employers)[id := EmployerProfile(body.employer)]
                                  else old(db.employers))
  {
    if !Complete(body.user) {
      return BadRequest, None;
    }
    var u := body.user.value;
    var existingUser := UserWithEmail(db.users, u.email.value);
    if existingUser.Some? {
      return BadRequest, None;
    }
    var seeker := if u.role.value == JobSeekerRole then Some(SeekerProfile(body.jobSeeker)) else None;
    var employer := if u.role.value == EmployerRole then Some(EmployerProfile(body.employer)) else None;
    var id := InsertUser(db, User(|db.users| + 1, u.email.value, u.password.value, u.role.value),
                         seeker, employer);
    return Created, Some(Registered(id, u.role.value));
  }

  /** The transaction of `register`: the user row and at most one profile row under
      the user's id. */
  method InsertUser(db: Database, user: User, seeker: Option<JobSeeker>, employer: Option<Employer>)
      returns (id: int)
    requires db.Valid()
    requires user.userId == |db.users| + 1
    requires UserWithEmail(db.users, user.email).None?
    modifies db`users, db`jobSeekers, db`employers
    ensures db.Valid()
    ensures id == user.userId
    ensures db.users == old(db.users) + [user]
    ensures db.jobSeekers == if seeker.Some? then old(db.jobSeekers)[id := seeker.value] else old(db.jobSeekers)
    ensures db.employers == if employer.Some? then old(db.employers)[id := employer.value] else old(db.employers)
  {
    id := user.userId;
    var seekers := if seeker.Some? then db.jobSeekers[id := seeker.value] else db.jobSeekers;
    var employers := if employer.Some? then db.employers[id := employer.value] else db.employers;
    AddUserKeepsUsersInv(db.users, db.jobSeekers, db.employers, user, seekers, employers);
    MoreEmployersKeepJobsInv(db.jobs, db.clock, db.employers, employers);
    MoreSeekersKeepRequestsInv(db.requests, db.clock, db.jobs, db.jobSeekers, seekers);
    db.users := db.users + [user];
    db.jobSeekers := seekers;
    db.employers := employers;
    Assemble(db);
  }

  /** Appending a user with the next id and a new email, and profiles under ids up to
      it, keeps the user table's invariant. */
  lemma AddUserKeepsUsersInv(users: seq<User>, jobSeekers: map<int, JobSeeker>, employers: map<int, Employer>,
                             user: User, jobSeekers': map<int, JobSeeker>, employers': map<int, Employer>)
    requires UsersInv(users, jobSeekers, employers)
    requires user.userId == |users| + 1 && UserWithEmail(users, user.email).None?
    requires forall id :: id in jobSeekers' ==> id in jobSeekers || id == user.userId
    requires forall id :: id in employers' ==> id in employers || id == user.userId
    ensures UsersInv(users + [user], jobSeekers', employers')
  {
    var s := users + [user];
    forall i, j | 0 <= i < j < |s|
      ensures s[i].email != s[j].email
    {
      assert s[i] == users[i];
      if j < |users| {
        assert s[j] == users[j];
      }
    }
  }

  /** Adding employer profiles keeps the job table's invariant. */
  lemma MoreEmployersKeepJobsInv(jobs: seq<Job>, clock: int, employers: map<int, Employer>,
                                 employers': map<int, Employer>)
    requires JobsInv(jobs, clock, employers) && employers.Keys <= employers'.Keys
    ensures JobsInv(jobs, clock, employers')
  {
  }

  /** Adding job-seeker profiles keeps the request table's invariant. */
  lemma MoreSeekersKeepRequestsInv(requests: seq<Request>, clock: int, jobs: seq<Job>,
                                   jobSeekers: map<int, JobSeeker>, jobSeekers': map<int, JobSeeker>)
    requires RequestsInv(requests, clock, jobs, jobSeekers) && jobSeekers.Keys <= jobSeekers'.Keys
    ensures RequestsInv(requests, clock, jobs, jobSeekers')
  {
  }

  /** An email can be registered once: registering it again is refused with 400. */
  lemma RegisterTwiceRefused(users: seq<User>, body: RegisterBody, i: nat)
    requires Complete(body.user) && i < |users| && users[i].email == body.user.value.email.value
    ensures RegisterStatus(users, body) == BadRequest
  {
  }

  // ---------------------------------------------------------------- login

  /** `expiresIn: '2h'`, in seconds. */
  const TokenLifetime := 7200

  /** The claims of the signed token: the user's id, role and display name, the
      issue time and the expiry, both in seconds since the epoch. */
  datatype TokenPayload = TokenPayload(userId: int, role: string, userName: string, iat: int, exp: int)

  datatype LoginReply = LoginFailed(status: int) | LoggedIn(token: TokenPayload)

  /** The name the token carries: the job seeker's name, else the employer's name,
      else the email. Only a null name falls through; an empty one is kept. */
  function DisplayName(userId: int, email: string, jobSeekers: map<int, JobSeeker>,
                       employers: map<int, Employer>): (name: string)
    ensures userId in jobSeekers && jobSeekers[userId].userName.Some? ==> name == jobSeekers[userId].userName.value
    ensures (&& (userId !in jobSeekers || jobSeekers[userId].userName.None?)
             && userId in employers && employers[userId].employerName.Some?)
            ==> name == employers[userId].employerName.value
    ensures (&& (userId !in jobSeekers || jobSeekers[userId].userName.None?)
             && (userId !in employers || employers[userId].employerName.None?))
            ==> name == email
  {
    if userId in jobSeekers && jobSeekers[userId].userName.Some? then jobSeekers[userId].userName.value
    else if userId in employers && employers[userId].employerName.Some? then employers[userId].employerName.value
    else email
  }

  /** `login` at time `now` (seconds): a missing email or password 400, an unknown
      email 400, a wrong password 400, and otherwise a token issued now that expires
      two hours later. */
  function Login(users: seq<User>, jobSeekers: map<int, JobSeeker>, employers: map<int, Employer>,
                 email: Field<string>, password: Field<string>, now: int): (r: LoginReply)
    ensures r.LoginFailed? ==> r.status == BadRequest
    ensures r.LoggedIn? ==>
              && TruthyText(email) && TruthyText(password)
              && (exists k :: && 0 <= k < |users| && users[k].email == email.value
                              && users[k].password == password.value
                              && r.token.userId == users[k].userId && r.token.role == users[k].role
                              && r.token.userName == DisplayName(users[k].userId, users[k].email, jobSeekers, employers))
              && r.token.iat == now && r.token.exp == now + TokenLifetime
  {
    if !TruthyText(email) || !TruthyText(password) then LoginFailed(BadRequest)
    else match UserWithEmail(users, email.value)
      case None => LoginFailed(BadRequest)
      case Some(k) =>
        var u := users[k];
        if u.password != password.value then LoginFailed(BadRequest)
        else LoggedIn(TokenPayload(u.userId, u.role, DisplayName(u.userId, u.email, jobSeekers, employers),
                                   now, now + TokenLifetime))
  }

  /** With emails distinct, login succeeds exactly when some user has both the email
      and the password given. */
  lemma LoginSucceedsIff(users: seq<User>, jobSeekers: map<int, JobSeeker>, employers: map<int, Employer>,
                         email: Field<string>, password: Field<string>, now: int)
    requires UsersInv(users, jobSeekers, employers)
    ensures Login(users, jobSeekers, employers, email, password, now).LoggedIn? <==>
              TruthyText(email) && TruthyText(password)
              && exists k :: 0 <= k < |users| && users[k].email == email.value && users[k].password == password.value
  {
    if TruthyText(email) && TruthyText(password) {
      var found := UserWithEmail(users, email.value);
      if found.Some? {
        forall k | 0 <= k < |users| && users[k].email == email.value
          ensures k == found.value
        {
        }
      }
    }
  }

  /** Right after a user registers, logging in with the same email and password
      yields a token for that user with their role. */
  lemma LoginAfterRegister(users: seq<User>, jobSeekers: map<int, JobSeeker>, employers: map<int, Employer>,
                           user: User, now: int)
    requires UsersInv(users + [user], jobSeekers, employers)
    requires user.email != "" && user.password != ""
    ensures var r := Login(users + [user], jobSeekers, employers, Given(user.email), Given(user.password), now);
            && r.LoggedIn?
            && r.token == TokenPayload(user.userId, user.role,
                                       DisplayName(user.userId, user.email, jobSeekers, employers),
                                       now, now + TokenLifetime)
  {
    var s := users + [user];
    var found := UserWithEmail(s, user.email);
    assert s[|users|] == user;
    assert found.Some?;
    if found.value < |users| {
      assert false;
    }
  }
}
