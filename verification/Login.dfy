/** The login handler: one attempt reserved with the limiter of the client address, one with
    the limiter of the user name, then the password check, the session and the release of both
    attempts.  The password check and the normalisation of names are parameters. */
module Login {
  import opened Basics
  import opened Limiter
  import LimiterRuns
  import Sessions

  const MAX_CREDENTIAL := 256

  datatype Response =
    | BadRequest
    | Lockout(seconds: int)
    | Unauthorized
    | ServerError
    | LoggedIn(username: string, session: Sessions.Session)

  function UserKey(normalise: string -> string, username: string): string {
    "user:" + normalise(username)
  }

  /** Two names share the attempts of one user exactly when they are normalised to the same name. */
  lemma NamesShareKeys(normalise: string -> string, a: string, b: string)
    ensures UserKey(normalise, a) == UserKey(normalise, b) <==> normalise(a) == normalise(b)
    ensures UserKey(normalise, a) == ['u', 's', 'e', 'r', ':'] + normalise(a) != ""
  {
    assert UserKey(normalise, a)[5..] == normalise(a) && UserKey(normalise, b)[5..] == normalise(b);
  }

  /** A reservation that was refused, and what the refusal announces. */
  ghost predicate Refused(c: Config, before: Attempts, key: string, now: int, after: Attempts, seconds: int) {
    exists retryAfter :: && ReserveStep(c, before, key, now, after, false, retryAfter)
                         && retryAfter >= 0
                         && seconds == LimiterRuns.RetryAfterSeconds(retryAfter)
  }

  ghost predicate Admitted(c: Config, before: Attempts, key: string, now: int, after: Attempts) {
    ReserveStep(c, before, key, now, after, true, 0)
  }

  /** What the two reservations did: both admitted, or refused by one of them.  A refusal by the
      first leaves the second alone; a refusal by the second keeps the first attempt counted. */
  datatype Gate = Open | ClosedByIp(seconds: int) | ClosedByUser(seconds: int)

  ghost predicate Passed(g: Gate, ip: Config, ip0: Attempts, clientKey: string, ipNow: int, ip1: Attempts,
                         user: Config, user0: Attempts, userKey: string, userNow: int, user1: Attempts)
  {
    match g
    case Open => Admitted(ip, ip0, clientKey, ipNow, ip1) && Admitted(user, user0, userKey, userNow, user1)
    case ClosedByIp(seconds) => Refused(ip, ip0, clientKey, ipNow, ip1, seconds) && user1 == user0
    case ClosedByUser(seconds) =>
      Admitted(ip, ip0, clientKey, ipNow, ip1) && Refused(user, user0, userKey, userNow, user1, seconds)
  }

  class Handler {
    const ipLimiter: LoginLimiter
    const userLimiter: LoginLimiter
    const sessions: Sessions.SessionStore

    constructor (ipLimiter: LoginLimiter, userLimiter: LoginLimiter, sessions: Sessions.SessionStore)
      ensures this.ipLimiter == ipLimiter && this.userLimiter == userLimiter && this.sessions == sessions
    {
      this.ipLimiter, this.userLimiter, this.sessions := ipLimiter, userLimiter, sessions;
    }

    /** One reservation, and the seconds a refusal announces. */
    method ReserveOne(limiter: LoginLimiter, key: string, now: int) returns (allowed: bool, seconds: int)
      requires limiter.config.Valid()
      modifies limiter
      ensures if allowed then Admitted(limiter.config, old(limiter.attempts), key, now, limiter.attempts)
              else Refused(limiter.config, old(limiter.attempts), key, now, limiter.attempts, seconds)
    {
      var retryAfter;
      allowed, retryAfter := limiter.Reserve(key, now);
      seconds := if allowed then 0 else retryAfter / 1_000_000_000 + 1;
    }

    method ReserveBoth(clientKey: string, userKey: string, ipNow: int, userNow: int) returns (g: Gate)
      requires ipLimiter != userLimiter && ipLimiter.config.Valid() && userLimiter.config.Valid()
      modifies ipLimiter, userLimiter
      ensures Passed(g, ipLimiter.config, old(ipLimiter.attempts), clientKey, ipNow, ipLimiter.attempts,
                     userLimiter.config, old(userLimiter.attempts), userKey, userNow, userLimiter.attempts)
    {
      var allowed, seconds := ReserveOne(ipLimiter, clientKey, ipNow);
      if !allowed {
        return ClosedByIp(seconds);
      }
      allowed, seconds := ReserveOne(userLimiter, userKey, userNow);
      if !allowed {
        return ClosedByUser(seconds);
      }
      return Open;
    }

    /** A malformed request touches nothing.  A refusal by either limiter runs no password check
        and creates no session.  A failed check, or a session that could not be created, leaves
        both attempts counted.  Only a complete login releases them, and it releases both. */
    method Login(clientKey: string, username: string, password: string,
                 normalise: string -> string, verify: (string, string) -> Option<string>,
                 drawn: bool, token: string, ipNow: int, userNow: int, sessionNow: int)
      returns (r: Response, ghost gate: Gate, ghost ip: Attempts, ghost user: Attempts)
      requires ipLimiter != userLimiter && ipLimiter.config.Valid() && userLimiter.config.Valid()
      modifies ipLimiter, userLimiter, sessions
      ensures r.BadRequest? <==> username == "" || password == "" || |username| > 256 || |password| > 256
      ensures r.BadRequest? ==> ip == old(ipLimiter.attempts) && user == old(userLimiter.attempts)
      ensures !r.BadRequest? ==>
                Passed(gate, ipLimiter.config, old(ipLimiter.attempts), clientKey, ipNow, ip,
                       userLimiter.config, old(userLimiter.attempts), UserKey(normalise, username), userNow, user)
      ensures r.Lockout? <==> !r.BadRequest? && !gate.Open?
      ensures r.Lockout? ==> r.seconds == gate.seconds
      ensures r.Unauthorized? <==> !r.BadRequest? && gate.Open? && verify(username, password).None?
      ensures r.LoggedIn? <==> && !r.BadRequest? && gate.Open? && verify(username, password).Some?
                               && drawn
                               && |Sessions.Unexpired(old(sessions.sessions), sessionNow)| < Sessions.MAX_SESSIONS
      ensures ipLimiter.attempts == if r.LoggedIn? then ip - {clientKey} else ip
      ensures userLimiter.attempts == if r.LoggedIn? then user - {UserKey(normalise, username)} else user
      ensures r.BadRequest? || r.Lockout? || r.Unauthorized? ==> sessions.sessions == old(sessions.sessions)
      ensures r.LoggedIn? ==>
                && verify(username, password) == Some(r.username)
                && r.session == Sessions.Session(r.username, sessionNow, sessionNow + sessions.ttl)
                && Get(sessions.sessions, token) == Some(r.session)
    {
      ip, user, gate := ipLimiter.attempts, userLimiter.attempts, Open;
      if username == "" || password == "" || |username| > MAX_CREDENTIAL || |password| > MAX_CREDENTIAL {
        return BadRequest, gate, ip, user;
      }
      var userKey := UserKey(normalise, username);
      var g := ReserveBoth(clientKey, userKey, ipNow, userNow);
      ip, user, gate := ipLimiter.attempts, userLimiter.attempts, g;
      if g != Open {
        r := Lockout(g.seconds);
      } else {
        r := Authenticate(clientKey, userKey, verify(username, password), drawn, token, sessionNow);
      }
    }

    /** What follows an open gate: `who` is the outcome of the password check. */
    method Authenticate(clientKey: string, userKey: string, who: Option<string>,
                        drawn: bool, token: string, sessionNow: int)
      returns (r: Response)
      requires ipLimiter != userLimiter
      modifies ipLimiter, userLimiter, sessions
      ensures r.Unauthorized? || r.ServerError? || r.LoggedIn?
      ensures r.Unauthorized? <==> who.None?
      ensures r.LoggedIn? <==> who.Some? && drawn
                               && |Sessions.Unexpired(old(sessions.sessions), sessionNow)| < Sessions.MAX_SESSIONS
      ensures ipLimiter.attempts
              == if r.LoggedIn? then old(ipLimiter.attempts) - {clientKey} else old(ipLimiter.attempts)
      ensures userLimiter.attempts
              == if r.LoggedIn? then old(userLimiter.attempts) - {userKey} else old(userLimiter.attempts)
      ensures r.Unauthorized? ==> sessions.sessions == old(sessions.sessions)
      ensures r.LoggedIn? ==>
                && who == Some(r.username)
                && r.session == Sessions.Session(r.username, sessionNow, sessionNow + sessions.ttl)
                && Get(sessions.sessions, token) == Some(r.session)
    {
      if who.None? {
        return Unauthorized;
      }
      var sess := sessions.Create(who.value, drawn, token, sessionNow);
      if sess.None? {
        return ServerError;
      }
      ipLimiter.Succeed(clientKey);
      userLimiter.Succeed(userKey);
      return LoggedIn(who.value, sess.value);
    }
  }
}
