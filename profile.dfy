/** The job seeker's own profile: reading it, and updating its name and phone and
    the account's email. */
module Profile {
  import opened Wrappers
  import opened Store

  // ---------------------------------------------------------------- getMyProfile

  datatype ProfileView = ProfileView(email: string, userName: Option<string>, phoneNumber: Option<string>)
  datatype ProfileReply = ProfileFailed(status: int) | ProfileFound(view: ProfileView)

  /** `getMyProfile`: a missing caller or another role 403, no job-seeker row 404,
      and otherwise the account's email with the profile's name and phone. */
  function MyProfile(users: seq<User>, jobSeekers: map<int, JobSeeker>, employers: map<int, Employer>,
                     caller: Option<Caller>): (r: ProfileReply)
    requires UsersInv(users, jobSeekers, employers)
    ensures r == ProfileFailed(Forbidden) <==> caller.None? || caller.value.role != JobSeekerRole
    ensures r == ProfileFailed(NotFound) <==>
              caller.Some? && caller.value.role == JobSeekerRole && caller.value.userId !in jobSeekers
    ensures r.ProfileFound? ==>
              var id := caller.value.userId;
              && id in jobSeekers
              && (exists k :: 0 <= k < |users| && users[k].userId == id && users[k].email == r.view.email)
              && r.view.userName == jobSeekers[id].userName
              && r.view.phoneNumber == jobSeekers[id].phoneNumber
  {
    if caller.None? || caller.value.role != JobSeekerRole then ProfileFailed(Forbidden)
    else if caller.value.userId !in jobSeekers then ProfileFailed(NotFound)
    else
      var id := caller.value.userId;
      var seeker := jobSeekers[id];
      assert users[id - 1].userId == id;
      ProfileFound(ProfileView(users[id - 1].email, seeker.userName, seeker.phoneNumber))
  }

  // ---------------------------------------------------------------- updateMyProfile

  /** A handler's end: a response with a status code, or a rejected promise that
      nothing catches (no response is sent). */
  datatype Reply = Sent(status: int) | Unhandled

  /** The body of `updateMyProfile`. */
  datatype ProfileInput = ProfileInput(email: Field<string>, userName: Field<string>, phoneNumber: Field<string>)

  /** A column as an update leaves it: an absent value keeps it, `null` clears it. */
  function Patched(column: Option<string>, value: Field<string>): (r: Option<string>)
    ensures value.Undefined? ==> r == column
    ensures value.Null? ==> r == None
    ensures value.Given? ==> r == Some(value.value)
  {
    match value
    case Undefined => column
    case Null => None
    case Given(s) => Some(s)
  }

  /** The job-seeker row after `jobSeeker.update` with the body's name and phone. */
  function PatchedSeeker(seeker: JobSeeker, input: ProfileInput): JobSeeker {
    JobSeeker(Patched(seeker.userName, input.userName), Patched(seeker.phoneNumber, input.phoneNumber))
  }

  /** Another user already has the email, so the unique email column refuses it. */
  predicate EmailTaken(users: seq<User>, userId: int, email: string) {
    exists k :: 0 <= k < |users| && users[k].email == email && users[k].userId != userId
  }

  /** `updateMyProfile`. A missing caller or another role gets 403 and nothing
      changes. Otherwise the job-seeker row is updated first; with no such row the
      update throws and nothing changes. Then a truthy email is written to the
      caller's user row; an email another user holds makes that write throw after
      the profile was already updated. Neither exception is caught. */
  method UpdateMyProfile(db: Database, caller: Option<Caller>, input: ProfileInput) returns (reply: Reply)
    requires db.Valid()
    modifies db`jobSeekers, db`users
    ensures db.Valid()
    ensures caller.None? || caller.value.role != JobSeekerRole ==> reply == Sent(Forbidden) && unchanged(db)
    ensures caller.Some? && caller.value.role == JobSeekerRole ==>
              var id := caller.value.userId;
              if id !in old(db.jobSeekers) then reply == Unhandled && unchanged(db)
              else
                && db.jobSeekers == old(db.jobSeekers)[id := PatchedSeeker(old(db.jobSeekers)[id], input)]
                && if TruthyText(input.email) && EmailTaken(old(db.users), id, input.email.value)
                   then reply == Unhandled && db.users == old(db.users)
                   else
                     && reply == Sent(Ok)
                     && db.users == (if TruthyText(input.email)
                                     then old(db.users)[id - 1 := old(db.users)[id - 1].(email := input.email.value)]
                                     else old(db.users))
  {
    if caller.None? || caller.value.role != JobSeekerRole {
      return Sent(Forbidden);
    }
    var id := caller.value.userId;
    if id !in db.jobSeekers {
      return Unhandled;
    }
    UpdateSeeker(db, id, PatchedSeeker(db.jobSeekers[id], input));
    if TruthyText(input.email) {
      if EmailTaken(db.users, id, input.email.value) {
        return Unhandled;
      }
      UpdateEmail(db, id, input.email.value);
    }
    return Sent(Ok);
  }

  /** `prisma.jobSeeker.update` on an existing row. */
  method UpdateSeeker(db: Database, id: int, seeker: JobSeeker)
    requires db.Valid() && id in db.jobSeekers
    modifies db`jobSeekers
    ensures db.Valid()
    ensures db.jobSeekers == old(db.jobSeekers)[id := seeker]
  {
    ReplaceSeekerKeepsInvs(db.users, db.jobSeekers, db.employers, db.requests, db.clock, db.jobs, id, seeker);
    db.jobSeekers := db.jobSeekers[id := seeker];
    Assemble(db);
  }

  /** Replacing an existing job-seeker row keeps the tables' invariants. */
  lemma ReplaceSeekerKeepsInvs(users: seq<User>, jobSeekers: map<int, JobSeeker>, employers: map<int, Employer>,
                               requests: seq<Request>, clock: int, jobs: seq<Job>, id: int, seeker: JobSeeker)
    requires UsersInv(users, jobSeekers, employers) && RequestsInv(requests, clock, jobs, jobSeekers)
    requires id in jobSeekers
    ensures UsersInv(users, jobSeekers[id := seeker], employers)
    ensures RequestsInv(requests, clock, jobs, jobSeekers[id := seeker])
  {
  }

  /** `prisma.user.update` of the caller's email, which no other user holds. */
  method UpdateEmail(db: Database, id: int, email: string)
    requires db.Valid() && id in db.jobSeekers && !EmailTaken(db.users, id, email)
    modifies db`users
    ensures db.Valid()
    ensures 1 <= id <= |db.users|
    ensures db.users == old(db.users)[id - 1 := old(db.users)[id - 1].(email := email)]
  {
    ChangeEmailKeepsUsersInv(db.users, db.jobSeekers, db.employers, id, email);
    db.users := db.users[id - 1 := db.users[id - 1].(email := email)];
    Assemble(db);
  }

  /** Giving a user an email no other user holds keeps the user table's invariant. */
  lemma ChangeEmailKeepsUsersInv(users: seq<User>, jobSeekers: map<int, JobSeeker>, employers: map<int, Employer>,
                                 id: int, email: string)
    requires UsersInv(users, jobSeekers, employers) && id in jobSeekers && !EmailTaken(users, id, email)
    ensures 1 <= id <= |users|
    ensures UsersInv(users[id - 1 := users[id - 1].(email := email)], jobSeekers, employers)
  {
    var s := users[id - 1 := users[id - 1].(email := email)];
    forall i, j | 0 <= i < j < |s|
      ensures s[i].email != s[j].email
    {
      if i == id - 1 {
        assert users[j].userId != id;
      } else if j == id - 1 {
        assert users[i].userId != id;
      }
    }
  }

  /** After a successful update, reading the profile shows the new name, phone and
      email; a field the body left out reads as before. */
  lemma ProfileAfterUpdate(users: seq<User>, jobSeekers: map<int, JobSeeker>, employers: map<int, Employer>,
                           id: int, input: ProfileInput)
    requires UsersInv(users, jobSeekers, employers) && id in jobSeekers
    requires TruthyText(input.email) && !EmailTaken(users, id, input.email.value)
    ensures 1 <= id <= |users|
    ensures var users' := users[id - 1 := users[id - 1].(email := input.email.value)];
            var jobSeekers' := jobSeekers[id := PatchedSeeker(jobSeekers[id], input)];
            UsersInv(users', jobSeekers', employers)
            && MyProfile(users', jobSeekers', employers, Some(Caller(id, JobSeekerRole)))
               == ProfileFound(ProfileView(input.email.value,
                                           Patched(jobSeekers[id].userName, input.userName),
                                           Patched(jobSeekers[id].phoneNumber, input.phoneNumber)))
  {
    ChangeEmailKeepsUsersInv(users, jobSeekers, employers, id, input.email.value);
    var users' := users[id - 1 := users[id - 1].(email := input.email.value)];
    ReplaceSeekerKeepsInvs(users', jobSeekers, employers, [], 0, [], id, PatchedSeeker(jobSeekers[id], input));
  }
}
