/** The page header: which role's navigation it shows, chosen from the page's path
    or else from the signed-in user's token, and the check that drops an expired
    token from the browser's storage. */
module Header {
  import opened Wrappers
  import Auth
  import opened Store

  /** The claims the header reads from a token. */
  datatype JwtPayload = JwtPayload(userId: int, role: string, userName: string, exp: int)

  predicate StartsWith(s: string, prefix: string) {
    prefix <= s
  }

  /** `usePathname() || '/'`: a missing or empty path reads as the root. */
  function CurrentPath(pathname: Option<string>): (p: string)
    ensures pathname.Some? && pathname.value != "" ==> p == pathname.value
    ensures pathname.None? || pathname.value == "" ==> p == "/"
  {
    if pathname.Some? && pathname.value != "" then pathname.value else "/"
  }

  /** The role a page imposes: the employer's pages under /createJob, the job seeker's
      under /calendar and /jobs, and none elsewhere. */
  function OverrideRole(pathname: Option<string>): (r: Option<string>)
    ensures var p := CurrentPath(pathname);
            && (r == Some(EmployerRole) <==> StartsWith(p, "/createJob"))
            && (r == Some(JobSeekerRole) <==>
                  !StartsWith(p, "/createJob") && (StartsWith(p, "/calendar") || StartsWith(p, "/jobs")))
            && (r.None? <==>
                  !StartsWith(p, "/createJob") && !StartsWith(p, "/calendar") && !StartsWith(p, "/jobs"))
  {
    var p := CurrentPath(pathname);
    if StartsWith(p, "/createJob") then Some(EmployerRole)
    else if StartsWith(p, "/calendar") || StartsWith(p, "/jobs") then Some(JobSeekerRole)
    else None
  }

  /** `overrideRole ?? user?.role`. */
  function ActiveRole(pathname: Option<string>, user: Option<JwtPayload>): (r: Option<string>)
    ensures OverrideRole(pathname).Some? ==> r == OverrideRole(pathname)
    ensures OverrideRole(pathname).None? && user.Some? ==> r == Some(user.value.role)
    ensures OverrideRole(pathname).None? && user.None? ==> r.None?
  {
    match OverrideRole(pathname)
    case Some(role) => Some(role)
    case None => if user.Some? then Some(user.value.role) else None
  }

  /** The navigation links: the job search for a job seeker, the job form for an
      employer, neither for anyone else. */
  function NavLinks(activeRole: Option<string>): (links: seq<string>)
    ensures "/calendar" in links <==> activeRole == Some(JobSeekerRole)
    ensures "/createJob" in links <==> activeRole == Some(EmployerRole)
    ensures |links| <= 1
  {
    if activeRole == Some(JobSeekerRole) then ["/calendar"]
    else if activeRole == Some(EmployerRole) then ["/createJob"]
    else []
  }

  /** On the employer's form the employer's link shows whoever is signed in. */
  lemma CreateJobPathShowsEmployerLink(rest: string, user: Option<JwtPayload>)
    ensures NavLinks(ActiveRole(Some("/createJob" + rest), user)) == ["/createJob"]
  {
    assert StartsWith("/createJob" + rest, "/createJob");
  }

  /** `Math.floor(Date.now() / 1000)`: the current time in whole seconds. */
  function Seconds(nowMillis: int): (s: int)
    ensures s * 1000 <= nowMillis < s * 1000 + 1000
  {
    nowMillis / 1000
  }

  /** A token stays accepted through the second its expiry names. */
  predicate Unexpired(exp: int, nowMillis: int) {
    !(exp < Seconds(nowMillis))
  }

  /** The header's state: the token in the browser's storage and the user shown. */
  class HeaderState {
    var token: Option<string>
    var user: Option<JwtPayload>

    constructor (stored: Option<string>)
      ensures token == stored && user.None?
    {
      token := stored;
      user := None;
    }

    /** The effect that runs on each path change, given the token decoder and the
        clock. No token, an empty one or one that does not decode changes nothing;
        an expired one is removed and the user cleared; otherwise its claims are
        shown. */
    method Refresh(decode: string -> Option<JwtPayload>, nowMillis: int)
      modifies this
      ensures old(token).None? || old(token).value == "" || decode(old(token).value).None? ==>
                token == old(token) && user == old(user)
      ensures old(token).Some? && old(token).value != "" && decode(old(token).value).Some? ==>
                var claims := decode(old(token).value).value;
                if Unexpired(claims.exp, nowMillis) then token == old(token) && user == Some(claims)
                else token.None? && user.None?
    {
      if token.None? || token.value == "" {
        return;
      }
      var decoded := decode(token.value);
      if decoded.None? {
        return;
      }
      var now := Seconds(nowMillis);
      if decoded.value.exp < now {
        token := None;
        user := None;
        return;
      }
      user := decoded;
    }

    /** `logout`: the token is removed and no user is shown. */
    method Logout()
      modifies this
      ensures token.None? && user.None?
    {
      token := None;
      user := None;
    }
  }

  /** A token from `login` issued at second `iat` is shown until the clock reaches
      the end of second `iat + 7200`, and removed from then on. */
  lemma LoginTokenLifetime(t: Auth.TokenPayload, nowMillis: int)
    requires t.exp == t.iat + Auth.TokenLifetime
    ensures Unexpired(t.exp, nowMillis) <==> nowMillis < (t.iat + Auth.TokenLifetime + 1) * 1000
  {
    var s := Seconds(nowMillis);
    if nowMillis < (t.iat + Auth.TokenLifetime + 1) * 1000 {
      assert s * 1000 < (t.exp + 1) * 1000;
    }
  }
}
