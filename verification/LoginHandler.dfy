/** The login endpoint: every credential lookup sits behind one acquisition from the limiter. */
module LoginHandler {
  import opened MachineInts
  import opened GrantLog
  import opened SlidingWindow
  import opened LimiterReports
  import opened SlidingWindowLimiter

  datatype User = User(id: int, login: string, passwordHash: string)

  /** What the request body parses to; a field of the wrong type is an exception like text that is not JSON. */
  datatype Body =
    | Malformed
    | MissingField
    | Credentials(login: string, password: string)

  datatype Response =
    | TooManyRequests(limit: int, remaining: int, reset: int, retryAfter: int)
    | Threw
    | BadRequest
    | Unauthorized
    | Token(userId: int, limit: int, remaining: int)

  const LOGIN_LIMIT: int32 := 5
  const LOGIN_WINDOW: int32 := 60

  datatype Lookup = Lookup(ip: string, stamp: int)

  /** The grant stamps under which credentials were looked up for one address. */
  function StampsOf(lookups: seq<Lookup>, ip: string): seq<int> {
    if lookups == [] then []
    else
      var n := |lookups| - 1;
      if lookups[n].ip == ip then StampsOf(lookups[..n], ip) + [lookups[n].stamp] else StampsOf(lookups[..n], ip)
  }

  lemma StampsOfSnoc(lookups: seq<Lookup>, lookup: Lookup, ip: string)
    ensures StampsOf(lookups + [lookup], ip) ==
            if lookup.ip == ip then StampsOf(lookups, ip) + [lookup.stamp] else StampsOf(lookups, ip)
  {
    assert (lookups + [lookup])[..|lookups|] == lookups;
  }

  lemma CountInSnoc(log: seq<int>, stamp: int, lo: int, hi: int)
    ensures CountIn(log + [stamp], lo, hi) == CountIn(log, lo, hi) + (if lo <= stamp <= hi then 1 else 0)
  {
    assert (log + [stamp])[..|log|] == log;
  }

  ghost predicate Covered(lookups: seq<Lookup>, cfg: Config, history: seq<Call>) {
    forall ip, lo, hi ::
      CountIn(StampsOf(lookups, ip), lo, hi) <= CountIn(Log(cfg, history, ip), lo, hi)
  }

  /** What an acquisition does to the logs, as `TryAcquire` promises it. */
  ghost predicate Acquired(cfg: Config, before: seq<Call>, after: seq<Call>, ip: string, stamp: int, granted: bool) {
    && Log(cfg, after, ip) == (if granted then Log(cfg, before, ip) + [stamp] else Log(cfg, before, ip))
    && forall other :: other != ip ==> Log(cfg, after, other) == Log(cfg, before, other)
  }

  /** Lookups stay covered by the logs: a grant to `ip` makes room for one lookup more. */
  lemma CoveredAfter(lookups: seq<Lookup>, cfg: Config, before: seq<Call>, after: seq<Call>, ip: string, stamp: int,
                     granted: bool)
    requires Covered(lookups, cfg, before) && Acquired(cfg, before, after, ip, stamp, granted)
    ensures Covered(lookups, cfg, after)
    ensures granted ==> Covered(lookups + [Lookup(ip, stamp)], cfg, after)
  {
    forall key, lo, hi
      ensures CountIn(StampsOf(lookups, key), lo, hi) <= CountIn(Log(cfg, after, key), lo, hi)
      ensures granted ==>
                CountIn(StampsOf(lookups + [Lookup(ip, stamp)], key), lo, hi) <= CountIn(Log(cfg, after, key), lo, hi)
    {
      StampsOfSnoc(lookups, Lookup(ip, stamp), key);
      CountInSnoc(StampsOf(lookups, key), stamp, lo, hi);
      CountInSnoc(Log(cfg, before, key), stamp, lo, hi);
    }
  }

  lemma CoveredByEqualLogs(lookups: seq<Lookup>, cfg: Config, before: seq<Call>, after: seq<Call>)
    requires Covered(lookups, cfg, before)
    requires forall ip :: Log(cfg, after, ip) == Log(cfg, before, ip)
    ensures Covered(lookups, cfg, after)
  {
  }

  /** The part of a login before the report is asked for. */
  datatype Outcome = RateLimited | Done(response: Response) | LoggedIn(userId: int)

  class LoginHandler {
    const limiter: SlidingWindowLimiter
    ghost var lookups: seq<Lookup>

    /** No interval sees more credential lookups for an address than grants. */
    ghost predicate Valid()
      reads this, limiter
    {
      && limiter.Valid()
      && limiter.cfg == Config(LOGIN_LIMIT, LOGIN_WINDOW)
      && Covered(lookups, limiter.cfg, limiter.history)
    }

    constructor ()
      ensures Valid() && fresh(limiter) && lookups == []
    {
      limiter := new SlidingWindowLimiter(LOGIN_LIMIT, LOGIN_WINDOW);
      lookups := [];
    }

    /** The limiter step: the address is recorded and admitted or refused. */
    method Acquire(ip: string, cutoffRead: int, stampRead: int) returns (granted: bool)
      requires Valid() && EndedBy(limiter.history, cutoffRead) && cutoffRead <= stampRead
      modifies limiter
      ensures limiter.Valid() && Covered(lookups, limiter.cfg, limiter.history)
      ensures granted ==> Covered(lookups + [Lookup(ip, stampRead)], limiter.cfg, limiter.history)
      ensures limiter.history == old(limiter.history) + [SlidingWindow.Acquire(ip, cutoffRead, stampRead)]
      ensures granted <==> CountSince(Log(limiter.cfg, old(limiter.history), ip),
                                      cutoffRead - LOGIN_WINDOW * SECOND) < LOGIN_LIMIT
    {
      ghost var before := limiter.history;
      granted := limiter.TryAcquire(ip, cutoffRead, stampRead);
      CoveredAfter(lookups, limiter.cfg, before, limiter.history, ip, stampRead, granted);
    }

    /** A login up to the point where it reports the limits. Other requests may be served between this and `Finish`:
        both are steps of the same object, in any order with the steps of others. `users` is the user table as the
        lookup sees it, unless it cannot be reached. */
    method Begin(ip: string, body: Body, reachable: bool, users: map<string, User>, hash: string -> string,
                 cutoffRead: int, stampRead: int)
      returns (outcome: Outcome)
      requires Valid() && EndedBy(limiter.history, cutoffRead) && cutoffRead <= stampRead
      modifies this, limiter
      ensures Valid()
      ensures limiter.history == old(limiter.history) + [SlidingWindow.Acquire(ip, cutoffRead, stampRead)]
      ensures var admitted := CountSince(Log(limiter.cfg, old(limiter.history), ip), cutoffRead - 60 * SECOND) < 5;
              && (outcome == RateLimited <==> !admitted)
              && (outcome == Done(Threw) <==>
                    admitted && (body.Malformed? || (body.Credentials? && !reachable)))
              && (outcome == Done(BadRequest) <==> admitted && body.MissingField?)
              && (outcome == Done(Unauthorized) <==>
                    && admitted && body.Credentials? && reachable
                    && (body.login !in users || users[body.login].passwordHash != hash(body.password)))
              && (outcome.LoggedIn? <==>
                    && admitted && body.Credentials? && reachable
                    && body.login in users && users[body.login].passwordHash == hash(body.password))
              && (outcome.LoggedIn? ==> outcome.userId == users[body.login].id)
      ensures lookups == if !outcome.RateLimited? && body.Credentials? then old(lookups) + [Lookup(ip, stampRead)]
                         else old(lookups)
    {
      var granted := this.Acquire(ip, cutoffRead, stampRead);
      if !granted {
        return RateLimited;
      }
      if body.Malformed? {
        return Done(Threw);
      }
      if body.MissingField? {
        return Done(BadRequest);
      }
      lookups := lookups + [Lookup(ip, stampRead)];
      if !reachable {
        return Done(Threw);
      }
      if body.login !in users {
        return Done(Unauthorized);
      }
      var user := users[body.login];
      if user.passwordHash != hash(body.password) {
        return Done(Unauthorized);
      }
      return LoggedIn(user.id);
    }

    /** The report headers of a refusal and of a success: the limit, the free places at this moment, and, on a refusal,
        the whole window as the reset and retry times. */
    method Finish(ip: string, outcome: Outcome, infoRead: int) returns (response: Response)
      requires Valid() && EndedBy(limiter.history, infoRead)
      modifies limiter
      ensures Valid()
      ensures var free := 5 - CountSince(Log(limiter.cfg, old(limiter.history), ip), infoRead - 60 * SECOND);
              response == match outcome
                          case RateLimited => TooManyRequests(5, free, 60, 60)
                          case Done(early) => early
                          case LoggedIn(userId) => Token(userId, 5, free)
      ensures limiter.history == old(limiter.history) + (if outcome.Done? then [] else [Info(ip, infoRead)])
    {
      if outcome.Done? {
        return outcome.response;
      }
      ghost var before := limiter.history;
      ReportCounts(limiter.cfg, before, ip, infoRead);
      var info := limiter.GetInfo(ip, infoRead);
      CoveredByEqualLogs(lookups, limiter.cfg, before, limiter.history);
      if outcome.RateLimited? {
        return TooManyRequests(info.limit, info.remaining, info.resetSeconds, info.resetSeconds);
      }
      return Token(outcome.userId, info.limit, info.remaining);
    }

    /** A login served without anything in between: 429 exactly when five grants lie in the last minute, a token exactly
        for credentials that match a row of the table, and the other answers exactly when neither. */
    method HandleRequest(ip: string, body: Body, reachable: bool, users: map<string, User>, hash: string -> string,
                         cutoffRead: int, stampRead: int, infoRead: int)
      returns (response: Response)
      requires Valid() && EndedBy(limiter.history, cutoffRead) && cutoffRead <= stampRead <= infoRead
      modifies this, limiter
      ensures Valid()
      ensures var admitted := CountSince(Log(limiter.cfg, old(limiter.history), ip), cutoffRead - 60 * SECOND) < 5;
              && (response.TooManyRequests? <==> !admitted)
              && (response.Threw? <==> admitted && (body.Malformed? || (body.Credentials? && !reachable)))
              && (response.BadRequest? <==> admitted && body.MissingField?)
              && (response.Unauthorized? <==>
                    && admitted && body.Credentials? && reachable
                    && (body.login !in users || users[body.login].passwordHash != hash(body.password)))
              && (response.Token? <==>
                    && admitted && body.Credentials? && reachable
                    && body.login in users && users[body.login].passwordHash == hash(body.password))
              && (response.Token? ==> response.userId == users[body.login].id && response.limit == 5)
              && (response.TooManyRequests? ==>
                    response.limit == 5 && response.reset == 60 && response.retryAfter == 60)
      ensures lookups == if !response.TooManyRequests? && body.Credentials? then old(lookups) + [Lookup(ip, stampRead)]
                         else old(lookups)
    {
      var outcome := Begin(ip, body, reachable, users, hash, cutoffRead, stampRead);
      response := Finish(ip, outcome, infoRead);
    }

    /** The brute-force bound: any n minutes hold at most 5 * n credential lookups for one address. */
    lemma LookupsBounded(ip: string, lo: int, n: nat)
      requires Valid() && n >= 1
      ensures CountIn(StampsOf(lookups, ip), lo, lo + n * 60 * SECOND) <= 5 * n
    {
      RateBound(limiter.cfg, limiter.history, ip, n, lo);
      assert n * limiter.cfg.Window() == n * 60 * SECOND;
    }
  }
}
