/**
  Whole histories of the rate limiter: requests by any clients, evictions and cleanups in any
  order. The limiter that never forgets is the same limiter with neither.
 */
module RateLimiterTraces {
  import opened Wrappers
  import opened RateLimiter
  import opened Modular
  import opened Finite

  datatype Event =
    | Request(ip: string, at: int, victim: Option<string>)
    | Sweep(at: int)

  datatype Trace = Start | Then(init: Trace, last: Event)

  function Step(p: Params, m: Clients, e: Event): Clients {
    match e
    case Request(ip, at, victim) => AfterAllow(p, m, ip, at, victim)
    case Sweep(at) => AfterCleanup(m, at)
  }

  function After(p: Params, t: Trace): Clients {
    match t
    case Start => map[]
    case Then(i, e) => Step(p, After(p, i), e)
  }

  /** The answers given to the requests of the trace, in order. */
  function Answers(p: Params, t: Trace): seq<bool> {
    match t
    case Start => []
    case Then(i, e) =>
      if e.Request? then Answers(p, i) + [Allowed(p, After(p, i), e.ip, e.at)] else Answers(p, i)
  }

  /** How many requests of `ip` were admitted. */
  function Admitted(p: Params, t: Trace, ip: string): nat {
    match t
    case Start => 0
    case Then(i, e) => Admitted(p, i, ip) + (if AdmitsNow(p, After(p, i), e, ip) then 1 else 0)
  }

  predicate AdmitsNow(p: Params, m: Clients, e: Event, ip: string) {
    e.Request? && e.ip == ip && Allowed(p, m, ip, e.at)
  }

  /** An entry idle for longer than ten minutes has refilled completely. */
  predicate RefillsWhileIdle(p: Params) {
    (IDLE + 1) * Rate(p) >= Cap(p)
  }

  /**
    How often dropping `ip` may have given it tokens it had not waited for: by an eviction, or by a
    cleanup unless idle entries have refilled.
   */
  function Windfalls(p: Params, t: Trace, ip: string): nat {
    match t
    case Start => 0
    case Then(i, e) =>
      Windfalls(p, i, ip) + (if IsWindfall(p, After(p, i), e, ip) then 1 else 0)
  }

  predicate IsWindfall(p: Params, m: Clients, e: Event, ip: string) {
    Drops(m, e, ip) && (e.Request? || !RefillsWhileIdle(p))
  }

  /** The event drops `ip`, by eviction or by cleanup. */
  predicate Drops(m: Clients, e: Event, ip: string) {
    ip in m &&
    match e
    case Request(_, _, victim) => victim == Some(ip)
    case Sweep(at) => IsIdle(m[ip], at)
  }

  /** No event of the trace is later than `now`. */
  predicate Until(t: Trace, now: int) {
    t.Then? ==> t.last.at <= now
  }

  /** A history that can happen: evictions as the code chooses them, a clock that never goes back. */
  predicate Possible(p: Params, t: Trace) {
    t.Then? ==>
      && Possible(p, t.init)
      && Until(t.init, t.last.at)
      && (t.last.Request? ==> VictimOk(p, After(p, t.init), t.last.ip, t.last.at, t.last.victim))
  }

  /** The same requests as a limiter without capacity bound or cleanup sees them. */
  function Strip(t: Trace): Trace {
    match t
    case Start => Start
    case Then(i, e) => if e.Request? then Then(Strip(i), Request(e.ip, e.at, None)) else Strip(i)
  }

  function Unbounded(p: Params): Params {
    p.(maxClients := 0)
  }

  /** The tokens available to `ip` at `now`; an untracked client would start with a full bucket. */
  function LevelOf(p: Params, m: Clients, ip: string, now: int): int {
    if ip in m then Level(p, m[ip].limit, now) else Cap(p)
  }

  // ----- Facts about buckets -----

  function Refill(p: Params, d: nat): (r: nat)
  {
    MulNonNegative(d, Rate(p));
    d * Rate(p)
  }

  lemma MulNonNegative(a: int, b: int)
    requires a >= 0 && b >= 0
    ensures a * b >= 0
  {}

  lemma RefillAdds(p: Params, d: nat, e: nat)
    ensures Refill(p, d + e) == Refill(p, d) + Refill(p, e)
    ensures Refill(p, 0) == 0
  {
    MulAdd(d, e, Rate(p));
  }

  lemma LevelLater(p: Params, b: Bucket, t: int, u: int)
    requires b.last <= t <= u
    ensures Level(p, b, u) == Min(Cap(p), Level(p, b, t) + Refill(p, u - t))
    ensures Level(p, b, t) == Min(Cap(p), b.tokens + Refill(p, t - b.last))
  {
    RefillAdds(p, t - b.last, u - t);
  }

  ghost predicate SaneClient(p: Params, c: Client, now: int) {
    && c.limit.last <= c.lastUpdated <= now
    && (c.limit.tokens >= 0 || c.limit.tokens == Cap(p))
    && c.limit.tokens <= Cap(p)
  }

  /** What every bucket of a reachable state satisfies at any time from the last event on. */
  ghost predicate Sane(p: Params, m: Clients, now: int) {
    forall ip :: ip in m ==> SaneClient(p, m[ip], now)
  }

  lemma SaneRequest(p: Params, m: Clients, ip: string, now: int, victim: Option<string>)
    requires Sane(p, m, now)
    ensures Sane(p, AfterAllow(p, m, ip, now, victim), now)
  {
    var b := BucketOf(p, m, ip, now);
    if ip in m {
      assert SaneClient(p, m[ip], now);
    }
    LevelLater(p, b, now, now);
  }

  lemma {:induction false} AllSane(p: Params, t: Trace, now: int)
    requires Possible(p, t) && Until(t, now)
    ensures Sane(p, After(p, t), now)
  {
    match t
    case Start =>
    case Then(i, e) =>
      AllSane(p, i, e.at);
      if e.Request? {
        SaneRequest(p, After(p, i), e.ip, e.at, e.victim);
      }
      forall ip | ip in After(p, t) ensures SaneClient(p, After(p, t)[ip], now) {
        assert SaneClient(p, After(p, t)[ip], e.at);
      }
  }

  /** A client's own request is decided by its level alone and costs one token when admitted. */
  lemma OwnStep(p: Params, m: Clients, e: Event)
    requires Sane(p, m, e.at) && e.Request?
    ensures Allowed(p, m, e.ip, e.at) <==> LevelOf(p, m, e.ip, e.at) >= UNIT
    ensures LevelOf(p, Step(p, m, e), e.ip, e.at)
         == LevelOf(p, m, e.ip, e.at) - (if Allowed(p, m, e.ip, e.at) then UNIT else 0)
  {
    var b := BucketOf(p, m, e.ip, e.at);
    assert e.ip in m ==> SaneClient(p, m[e.ip], e.at);
    LevelLater(p, b, e.at, e.at);
    RefillAdds(p, 0, 0);
  }

  /** Any other event leaves the level alone, or fills it up by forgetting the client. */
  lemma OtherStep(p: Params, m: Clients, e: Event, ip: string)
    requires !(e.Request? && e.ip == ip)
    ensures LevelOf(p, Step(p, m, e), ip, e.at) == if Drops(m, e, ip) then Cap(p) else LevelOf(p, m, ip, e.at)
  {}

  lemma LevelOfLater(p: Params, m: Clients, ip: string, t: int, u: int)
    requires Sane(p, m, t) && t <= u
    ensures LevelOf(p, m, ip, u) == Min(Cap(p), LevelOf(p, m, ip, t) + Refill(p, u - t))
    ensures LevelOf(p, m, ip, t) <= Cap(p)
    ensures LevelOf(p, m, ip, t) >= 0 || p.burst < 0
  {
    if ip in m {
      assert SaneClient(p, m[ip], t);
      LevelLater(p, m[ip].limit, t, u);
    }
  }

  // ----- Never stricter than the limiter that forgets nothing -----

  lemma {:induction false} StripPossible(p: Params, t: Trace, now: int)
    requires Possible(p, t) && Until(t, now)
    ensures Possible(Unbounded(p), Strip(t)) && Until(Strip(t), now)
  {
    if t.Start? {
    } else {
      StripPossible(p, t.init, t.last.at);
    }
  }

  /** The potential argument: admissions so far plus tokens left, in parts of a token. */
  ghost predicate Ahead(a: int, level: int, b: int, level': int) {
    a >= b && a * UNIT + level >= b * UNIT + level'
  }

  ghost predicate AheadAt(p: Params, t: Trace, ip: string, now: int) {
    Ahead(
      Admitted(p, t, ip), LevelOf(p, After(p, t), ip, now),
      Admitted(Unbounded(p), Strip(t), ip), LevelOf(Unbounded(p), After(Unbounded(p), Strip(t)), ip, now))
  }

  lemma AheadLater(p: Params, t: Trace, ip: string, t0: int, now: int)
    requires Possible(p, t) && Until(t, t0) && t0 <= now && AheadAt(p, t, ip, t0)
    ensures AheadAt(p, t, ip, now)
  {
    AllSane(p, t, t0);
    StripPossible(p, t, t0);
    AllSane(Unbounded(p), Strip(t), t0);
    LevelOfLater(p, After(p, t), ip, t0, now);
    LevelOfLater(Unbounded(p), After(Unbounded(p), Strip(t)), ip, t0, now);
  }

  lemma AheadStep(p: Params, t: Trace, ip: string)
    requires t.Then? && Possible(p, t) && AheadAt(p, t.init, ip, t.last.at)
    ensures AheadAt(p, t, ip, t.last.at)
  {
    var q, e := Unbounded(p), t.last;
    var m, w := After(p, t.init), After(q, Strip(t.init));
    AllSane(p, t.init, e.at);
    StripPossible(p, t.init, e.at);
    AllSane(q, Strip(t.init), e.at);
    if e.Request? && e.ip == ip {
      OwnStep(p, m, e);
      OwnStep(q, w, Request(ip, e.at, None));
    } else {
      OtherStep(p, m, e, ip);
      if e.Request? {
        OtherStep(q, w, Request(e.ip, e.at, None), ip);
      }
      LevelOfLater(q, w, ip, e.at, e.at);
    }
  }

  lemma {:induction false} Potential(p: Params, t: Trace, ip: string, now: int)
    requires Possible(p, t) && Until(t, now)
    ensures AheadAt(p, t, ip, now)
  {
    if t.Start? {
    } else {
      Potential(p, t.init, ip, t.last.at);
      AheadStep(p, t, ip);
      AheadLater(p, t, ip, t.last.at, now);
    }
  }

  /**
    On every history (so at every prefix of one) and for every client, the limiter with eviction
    and cleanup has admitted at least as many requests as the limiter that never forgets.
   */
  lemma NeverStricter(p: Params, t: Trace, ip: string)
    requires Possible(p, t)
    ensures Admitted(p, t, ip) >= Admitted(Unbounded(p), Strip(t), ip)
  {
    Potential(p, t, ip, if t.Then? then t.last.at else 0);
  }

  /** Client "a" is evicted by "b", returns at half a token's time, and again at one token's time. */
  function Spent(): Trace {
    Then(Then(Then(Start, Request("a", 0, None)), Request("b", 1, Some("a"))), Request("a", UNIT / 2, Some("b")))
  }

  lemma SpentBounded()
    ensures var p := Params(1, 1, 1);
            && Possible(p, Spent()) && Answers(p, Spent()) == [true, true, true]
            && After(p, Spent()) == map["a" := Client(Bucket(0, UNIT / 2), UNIT / 2)]
  {
    var p := Params(1, 1, 1);
    var t1 := Then(Start, Request("a", 0, None));
    var t2 := Then(t1, Request("b", 1, Some("a")));
    assert After(p, t1) == map["a" := Client(Bucket(0, 0), 0)];
    assert After(p, t2) == map["b" := Client(Bucket(0, 1), 1)];
    assert After(p, Spent()) == map["a" := Client(Bucket(0, UNIT / 2), UNIT / 2)];
    assert |After(p, Start)| == 0 && |After(p, t1)| == 1 && |After(p, t2)| == 1;
    assert Possible(p, t1) && Possible(p, t2);
    assert Answers(p, t1) == [true] && Answers(p, t2) == [true, true];
  }

  lemma SpentUnbounded()
    ensures var q := Unbounded(Params(1, 1, 1));
            && Answers(q, Strip(Spent())) == [true, true, false]
            && "a" in After(q, Strip(Spent())) && After(q, Strip(Spent()))["a"] == Client(Bucket(0, 0), UNIT / 2)
  {
    var q := Unbounded(Params(1, 1, 1));
    var u1 := Then(Start, Request("a", 0, None));
    var u2 := Then(u1, Request("b", 1, None));
    assert After(q, u1) == map["a" := Client(Bucket(0, 0), 0)];
    assert After(q, u2) == map["a" := Client(Bucket(0, 0), 0), "b" := Client(Bucket(0, 1), 1)];
    assert Answers(q, u1) == [true] && Answers(q, u2) == [true, true];
    assert Strip(Spent()) == Then(u2, Request("a", UNIT / 2, None));
  }

  /**
    Single decisions may go either way: having spent an undeserved token after an eviction, the
    bounded limiter refuses a request that the other admits.
   */
  lemma SingleDecisionsDiffer()
    ensures var p, t := Params(1, 1, 1), Then(Spent(), Request("a", UNIT, None));
            && Possible(p, t)
            && Answers(p, t) == [true, true, true, false]
            && Answers(Unbounded(p), Strip(t)) == [true, true, false, true]
  {
    SpentBounded();
    SpentUnbounded();
  }

  // ----- Never more than the burst and the rate allow -----

  /** `t` extends `pre` by events no earlier than `start`, which is no earlier than `pre`. */
  predicate Window(pre: Trace, t: Trace, start: int) {
    if t == pre then Until(pre, start)
    else t.Then? && start <= t.last.at && Window(pre, t.init, start)
  }

  /** Admissions and windfalls in the window. */
  function AdmittedIn(p: Params, pre: Trace, t: Trace, ip: string): int {
    Admitted(p, t, ip) - Admitted(p, pre, ip)
  }

  function WindfallsIn(p: Params, pre: Trace, t: Trace, ip: string): int {
    Windfalls(p, t, ip) - Windfalls(p, pre, ip)
  }

  lemma IdleIsFull(p: Params, c: Client, now: int)
    requires SaneClient(p, c, now) && IsIdle(c, now) && RefillsWhileIdle(p)
    ensures Level(p, c.limit, now) == Cap(p)
  {
    LevelLater(p, c.limit, now, now);
    RefillAdds(p, IDLE + 1, now - c.limit.last - (IDLE + 1));
  }

  lemma NextCap(f: int, c: int)
    ensures (1 + (f + 1)) * c == (1 + f) * c + c
  {
    MulAdd(1 + f, 1, c);
  }

  /** An event costs what it admits, and adds a burst only as a windfall. */
  lemma WindowStep(p: Params, m: Clients, e: Event, ip: string)
    requires p.burst >= 0 && Sane(p, m, e.at)
    ensures (if AdmitsNow(p, m, e, ip) then UNIT else 0) + LevelOf(p, Step(p, m, e), ip, e.at)
         <= LevelOf(p, m, ip, e.at) + if IsWindfall(p, m, e, ip) then Cap(p) else 0
  {
    LevelOfLater(p, m, ip, e.at, e.at);
    if e.Request? && e.ip == ip {
      OwnStep(p, m, e);
    } else {
      OtherStep(p, m, e, ip);
      if Drops(m, e, ip) && !IsWindfall(p, m, e, ip) {
        assert SaneClient(p, m[ip], e.at);
        IdleIsFull(p, m[ip], e.at);
      }
    }
  }

  lemma {:induction false} WindowPotential(p: Params, pre: Trace, t: Trace, ip: string, start: int, now: int)
    requires p.burst >= 0 && Possible(p, t) && Window(pre, t, start) && Until(t, now) && start <= now
    ensures AdmittedIn(p, pre, t, ip) * UNIT + LevelOf(p, After(p, t), ip, now)
         <= (1 + WindfallsIn(p, pre, t, ip)) * Cap(p) + Refill(p, now - start)
  {
    if t == pre {
      AllSane(p, t, now);
      LevelOfLater(p, After(p, t), ip, now, now);
    } else {
      var e, m := t.last, After(p, t.init);
      assert start <= e.at;
      WindowPotential(p, pre, t.init, ip, start, e.at);
      AllSane(p, t.init, e.at);
      AllSane(p, t, e.at);
      WindowStep(p, m, e, ip);
      LevelOfLater(p, After(p, t), ip, e.at, now);
      RefillAdds(p, e.at - start, now - e.at);
      NextCap(WindfallsIn(p, pre, t.init, ip), Cap(p));
    }
  }

  /**
    In any window the admissions of a client cost at most one burst, one more burst for every
    windfall in the window, and the refill of the window.
   */
  lemma WindowBound(p: Params, pre: Trace, t: Trace, ip: string, start: int, now: int)
    requires p.burst >= 0 && Possible(p, t) && Window(pre, t, start) && Until(t, now) && start <= now
    ensures AdmittedIn(p, pre, t, ip) * UNIT
         <= (1 + WindfallsIn(p, pre, t, ip)) * p.burst * UNIT + (now - start) * Rate(p)
  {
    WindowPotential(p, pre, t, ip, start, now);
    AllSane(p, t, now);
    LevelOfLater(p, After(p, t), ip, now, now);
    MulAssoc(1 + WindfallsIn(p, pre, t, ip), p.burst, UNIT);
  }

  /**
    For a client never evicted, nor dropped by a cleanup that comes too early: in a window of length
    T at most burst + rpm * T / 60 s requests.
   */
  lemma TrackedWindow(p: Params, pre: Trace, t: Trace, ip: string, start: int, now: int)
    requires p.burst >= 0 && Possible(p, t) && Window(pre, t, start) && Until(t, now) && start <= now
    requires WindfallsIn(p, pre, t, ip) == 0
    ensures AdmittedIn(p, pre, t, ip) * UNIT <= p.burst * UNIT + (now - start) * Rate(p)
  {
    WindowBound(p, pre, t, ip, start, now);
  }

  // ----- The decision, in terms of admissions -----

  /** `n` requests in a window of `d` nanoseconds are within the burst and the requests per minute. */
  predicate Conforms(p: Params, n: int, d: int) {
    n * 60_000_000_000 <= p.burst * 60_000_000_000 + d * (if p.rpm >= 0 then p.rpm else 0)
  }

  /** The bucket is as empty as some window says. */
  lemma {:induction false} TightWindow(p: Params, t: Trace, ip: string, now: int) returns (pre: Trace, start: int)
    requires p.burst >= 0 && Possible(p, t) && Until(t, now) && Windfalls(p, t, ip) == 0
    ensures Window(pre, t, start) && start <= now
    ensures AdmittedIn(p, pre, t, ip) * UNIT + LevelOf(p, After(p, t), ip, now) == Cap(p) + Refill(p, now - start)
  {
    pre, start := t, now;
    RefillAdds(p, 0, 0);
    if t == Start {
    } else {
      AllSane(p, t, t.last.at);
      LevelOfLater(p, After(p, t), ip, t.last.at, now);
      if LevelOf(p, After(p, t), ip, now) != Cap(p) {
        var e := t.last;
        pre, start := TightWindow(p, t.init, ip, e.at);
        AllSane(p, t.init, e.at);
        TightStep(p, After(p, t.init), e, ip);
        RefillAdds(p, e.at - start, now - e.at);
        assert Window(pre, t, start) by { LongerWindow(pre, t, start); }
      }
    }
  }

  lemma LongerWindow(pre: Trace, t: Trace, start: int)
    requires t.Then? && Window(pre, t.init, start) && start <= t.last.at
    ensures pre != t ==> Window(pre, t, start)
    ensures pre != t
  {
    Shorter(pre, t.init, start);
  }

  lemma {:induction false} Shorter(pre: Trace, t: Trace, start: int)
    requires Window(pre, t, start)
    ensures Length(pre) <= Length(t)
  {
    if t == pre {
    } else {
      Shorter(pre, t.init, start);
    }
  }

  function Length(t: Trace): nat {
    match t
    case Start => 0
    case Then(i, _) => Length(i) + 1
  }

  /** Without a windfall an event costs exactly what it admits. */
  lemma TightStep(p: Params, m: Clients, e: Event, ip: string)
    requires p.burst >= 0 && Sane(p, m, e.at) && !IsWindfall(p, m, e, ip)
    ensures (if AdmitsNow(p, m, e, ip) then UNIT else 0) + LevelOf(p, Step(p, m, e), ip, e.at) == LevelOf(p, m, ip, e.at)
  {
    LevelOfLater(p, m, ip, e.at, e.at);
    if e.Request? && e.ip == ip {
      OwnStep(p, m, e);
    } else {
      OtherStep(p, m, e, ip);
      if Drops(m, e, ip) {
        assert SaneClient(p, m[ip], e.at);
        IdleIsFull(p, m[ip], e.at);
      }
    }
  }

  /** One more admission keeps every window, however far back it begins, within burst and rate. */
  ghost predicate StillConforms(p: Params, t: Trace, ip: string, now: int) {
    forall pre, start :: Window(pre, t, start) && start <= now ==> Conforms(p, AdmittedIn(p, pre, t, ip) + 1, now - start)
  }

  lemma ConformsIs(p: Params, n: int, d: nat)
    ensures Conforms(p, n, d) <==> n * UNIT <= Cap(p) + Refill(p, d)
  {}

  /** The bound in numbers: one token is a minute's worth of nanoseconds. */
  lemma TrackedConforms(p: Params, pre: Trace, t: Trace, ip: string, start: int, now: int)
    requires p.burst >= 0 && Possible(p, t) && Window(pre, t, start) && Until(t, now) && start <= now
    requires WindfallsIn(p, pre, t, ip) == 0
    ensures Conforms(p, AdmittedIn(p, pre, t, ip), now - start)
  {
    TrackedWindow(p, pre, t, ip, start, now);
    ConformsIs(p, AdmittedIn(p, pre, t, ip), now - start);
  }

  lemma AdmittedConforms(p: Params, pre: Trace, t: Trace, ip: string, start: int, now: int)
    requires p.burst >= 0 && Possible(p, t) && Until(t, now) && Windfalls(p, t, ip) == 0
    requires Window(pre, t, start) && start <= now && LevelOf(p, After(p, t), ip, now) >= UNIT
    ensures Conforms(p, AdmittedIn(p, pre, t, ip) + 1, now - start)
  {
    NoWindfallsIn(p, pre, t, ip, start);
    WindowPotential(p, pre, t, ip, start, now);
    ConformsIs(p, AdmittedIn(p, pre, t, ip) + 1, now - start);
  }

  /**
    The limiter's decision without its buckets: on every history, a client that has had no windfall
    is admitted if and only if admitting it keeps every window within burst and rate.
   */
  lemma AdmissionExact(p: Params, t: Trace, ip: string, now: int)
    requires p.burst >= 0 && Possible(p, t) && Until(t, now) && Windfalls(p, t, ip) == 0
    ensures Allowed(p, After(p, t), ip, now) <==> StillConforms(p, t, ip, now)
  {
    AllSane(p, t, now);
    OwnStep(p, After(p, t), Request(ip, now, None));
    var pre, start := TightWindow(p, t, ip, now);
    ConformsIs(p, AdmittedIn(p, pre, t, ip) + 1, now - start);
    if Allowed(p, After(p, t), ip, now) {
      forall pre, start | Window(pre, t, start) && start <= now
        ensures Conforms(p, AdmittedIn(p, pre, t, ip) + 1, now - start)
      {
        AdmittedConforms(p, pre, t, ip, start, now);
      }
    }
  }

  /** Without a burst nobody is ever admitted, and a clock that went backwards refills nothing. */
  lemma NothingForNothing(p: Params, m: Clients, ip: string, b: Bucket, now: int)
    ensures p.burst <= 0 ==> !Allowed(p, m, ip, now)
    ensures now <= b.last ==> Level(p, b, now) == if b.tokens <= p.burst * UNIT then b.tokens else p.burst * UNIT
  {}

  lemma {:induction false} NoWindfallsIn(p: Params, pre: Trace, t: Trace, ip: string, start: int)
    requires Window(pre, t, start) && Windfalls(p, t, ip) == 0
    ensures Windfalls(p, pre, ip) == 0
  {
    if t == pre {
    } else {
      NoWindfallsIn(p, pre, t.init, ip, start);
    }
  }

  // ----- Who is tracked -----

  /** No client is in the map that has made no request; the entry says when the latest one was. */
  lemma {:induction false} TrackedWasSeen(p: Params, t: Trace, ip: string)
    requires ip in After(p, t)
    ensures LastSeen(t, ip) == Some(After(p, t)[ip].lastUpdated)
  {
    if t.last.Request? && t.last.ip == ip {
    } else {
      TrackedWasSeen(p, t.init, ip);
    }
  }

  /**
    Exactly who is tracked after an event. A request adds its client and, only if that is a newcomer
    at a full map, takes away at most one other; a cleanup takes away those not seen for more than
    ten minutes.
   */
  lemma TrackedExact(p: Params, t: Trace, ip: string)
    requires t.Then? && Possible(p, t)
    ensures var m := After(p, t.init);
            match t.last
            case Request(j, _, victim) =>
              && (ip in After(p, t) <==> ip == j || (ip in m && victim != Some(ip)))
              && (j in m ==> After(p, t).Keys == m.Keys)
              && (victim.Some? ==> victim.value in m && j !in m && |m| >= p.maxClients > 0)
            case Sweep(at) =>
              ip in After(p, t) <==> ip in m && LastSeen(t.init, ip).Some? && at - LastSeen(t.init, ip).value <= 600_000_000_000
  {
    var m := After(p, t.init);
    if ip in m {
      TrackedWasSeen(p, t.init, ip);
    }
    if t.last.Request? && t.last.ip in m {
      assert After(p, t).Keys == m.Keys;
    }
  }

  // ----- Cleanup -----

  /** No request of the trace evicted anybody. */
  predicate NoEviction(t: Trace) {
    t.Then? ==> (t.last.Request? ==> t.last.victim == None) && NoEviction(t.init)
  }

  lemma {:induction false} SameLevels(p: Params, t: Trace, ip: string, now: int)
    requires RefillsWhileIdle(p) && Possible(p, t) && Until(t, now) && NoEviction(t)
    ensures LevelOf(p, After(p, t), ip, now) == LevelOf(Unbounded(p), After(Unbounded(p), Strip(t)), ip, now)
  {
    if t.Start? {
    } else {
      SameLevels(p, t.init, ip, t.last.at);
      SameLevelStep(p, t, ip);
      AllSane(p, t, t.last.at);
      StripPossible(p, t, t.last.at);
      AllSane(Unbounded(p), Strip(t), t.last.at);
      LevelOfLater(p, After(p, t), ip, t.last.at, now);
      LevelOfLater(Unbounded(p), After(Unbounded(p), Strip(t)), ip, t.last.at, now);
    }
  }

  lemma SameLevelStep(p: Params, t: Trace, ip: string)
    requires RefillsWhileIdle(p) && t.Then? && Possible(p, t) && NoEviction(t)
    requires LevelOf(p, After(p, t.init), ip, t.last.at)
          == LevelOf(Unbounded(p), After(Unbounded(p), Strip(t.init)), ip, t.last.at)
    ensures LevelOf(p, After(p, t), ip, t.last.at)
         == LevelOf(Unbounded(p), After(Unbounded(p), Strip(t)), ip, t.last.at)
  {
    var q, e := Unbounded(p), t.last;
    var m, w := After(p, t.init), After(q, Strip(t.init));
    AllSane(p, t.init, e.at);
    StripPossible(p, t.init, e.at);
    AllSane(q, Strip(t.init), e.at);
    if e.Request? && e.ip == ip {
      OwnStep(p, m, e);
      OwnStep(q, w, Request(ip, e.at, None));
    } else {
      OtherStep(p, m, e, ip);
      if e.Request? {
        OtherStep(q, w, Request(e.ip, e.at, None), ip);
      } else if Drops(m, e, ip) {
        assert SaneClient(p, m[ip], e.at);
        IdleIsFull(p, m[ip], e.at);
      }
    }
  }

  lemma {:induction false} SameAnswers(p: Params, t: Trace)
    requires RefillsWhileIdle(p) && Possible(p, t) && NoEviction(t)
    ensures Answers(p, t) == Answers(Unbounded(p), Strip(t))
  {
    if t.Start? {
    } else {
      var q, e := Unbounded(p), t.last;
      SameAnswers(p, t.init);
      if e.Request? {
        SameLevels(p, t.init, e.ip, e.at);
        AllSane(p, t.init, e.at);
        StripPossible(p, t.init, e.at);
        AllSane(q, Strip(t.init), e.at);
        OwnStep(p, After(p, t.init), e);
        OwnStep(q, After(q, Strip(t.init)), Request(e.ip, e.at, None));
      }
    }
  }

  // ----- Cleanup: the condition is exact -----

  /** `n` requests of one client at one instant. */
  function Repeat(t: Trace, ip: string, at: int, n: nat): Trace {
    if n == 0 then t else Then(Repeat(t, ip, at, n - 1), Request(ip, at, None))
  }

  /** As many requests at one instant as there are tokens are all admitted. */
  lemma {:induction false} Drain(p: Params, t: Trace, ip: string, at: int, n: nat)
    requires Possible(p, t) && Until(t, at) && After(p, t).Keys <= {ip}
    requires LevelOf(p, After(p, t), ip, at) >= n * UNIT
    ensures var u := Repeat(t, ip, at, n);
            && Possible(p, u) && Until(u, at) && After(p, u).Keys <= {ip}
            && Admitted(p, u, ip) == Admitted(p, t, ip) + n
            && LevelOf(p, After(p, u), ip, at) == LevelOf(p, After(p, t), ip, at) - n * UNIT
            && (n > 0 ==> ip in After(p, u) && After(p, u)[ip].lastUpdated == at)
  {
    if n == 0 {
    } else {
      Drain(p, t, ip, at, n - 1);
      var u := Repeat(t, ip, at, n - 1);
      AllSane(p, u, at);
      if ip !in After(p, u) {
        assert After(p, u) == map[];
      }
      OwnStep(p, After(p, u), Request(ip, at, None));
    }
  }

  lemma {:induction false} StripRepeat(t: Trace, ip: string, at: int, n: nat)
    ensures Strip(Repeat(t, ip, at, n)) == Repeat(Strip(t), ip, at, n)
    ensures NoEviction(t) ==> NoEviction(Repeat(t, ip, at, n))
    ensures OnlyBy(t, ip) ==> OnlyBy(Repeat(t, ip, at, n), ip)
    ensures Window(Start, t, 0) && at >= 0 ==> Window(Start, Repeat(t, ip, at, n), 0)
  {
    if n == 0 {
    } else {
      StripRepeat(t, ip, at, n - 1);
    }
  }

  /** All requests are by `ip`. */
  predicate OnlyBy(t: Trace, ip: string) {
    t.Then? ==> (t.last.Request? ==> t.last.ip == ip) && OnlyBy(t.init, ip)
  }

  /** A burst at time 0, a cleanup as soon as the entry is idle, a second burst. */
  function TwoBursts(burst: nat): Trace {
    Repeat(Then(Repeat(Start, "a", 0, burst), Sweep(IDLE + 1)), "a", IDLE + 1, burst)
  }

  lemma TwoBurstsForgetful(p: Params)
    requires p.burst >= 1
    ensures Possible(p, TwoBursts(p.burst)) && Until(TwoBursts(p.burst), IDLE + 1)
    ensures Admitted(p, TwoBursts(p.burst), "a") == 2 * p.burst
  {
    Drain(p, Start, "a", 0, p.burst);
    var t := Then(Repeat(Start, "a", 0, p.burst), Sweep(IDLE + 1));
    Drain(p, t, "a", IDLE + 1, p.burst);
  }

  lemma TwoBurstsRemembered(p: Params)
    requires p.burst >= 1 && !RefillsWhileIdle(p)
    ensures Admitted(Unbounded(p), Strip(TwoBursts(p.burst)), "a") < 2 * p.burst
  {
    var q, t := Unbounded(p), TwoBursts(p.burst);
    TwoBurstsForgetful(p);
    StripPossible(p, t, IDLE + 1);
    NoWindfalls(q, t, "a");
    var u := Then(Repeat(Start, "a", 0, p.burst), Sweep(IDLE + 1));
    StripRepeat(Start, "a", 0, p.burst);
    StripRepeat(u, "a", IDLE + 1, p.burst);
    StripRepeat(Strip(u), "a", IDLE + 1, p.burst);
    TrackedWindow(q, Start, Strip(t), "a", 0, IDLE + 1);
  }

  lemma {:induction false} NoWindfalls(q: Params, t: Trace, ip: string)
    ensures Windfalls(q, Strip(t), ip) == 0
  {
    if t.Start? {
    } else {
      NoWindfalls(q, t.init, ip);
    }
  }

  function Yes(a: seq<bool>): nat {
    if a == [] then 0 else Yes(a[..|a| - 1]) + (if a[|a| - 1] then 1 else 0)
  }

  lemma {:induction false} AnswersCount(p: Params, t: Trace, ip: string)
    requires OnlyBy(t, ip)
    ensures Admitted(p, t, ip) == Yes(Answers(p, t))
  {
    if t.Start? {
    } else {
      AnswersCount(p, t.init, ip);
      assert t.last.Request? ==> Answers(p, t)[..|Answers(p, t)| - 1] == Answers(p, t.init);
    }
  }

  lemma {:induction false} StripOnlyBy(t: Trace, ip: string)
    requires OnlyBy(t, ip)
    ensures OnlyBy(Strip(t), ip)
  {
    if t.Start? {
    } else {
      StripOnlyBy(t.init, ip);
    }
  }

  /** Without the condition, cleanup changes an answer. */
  lemma CleanupVisible(p: Params)
    requires !RefillsWhileIdle(p)
    ensures p.burst >= 1 && Possible(p, TwoBursts(p.burst)) && NoEviction(TwoBursts(p.burst))
    ensures Answers(p, TwoBursts(p.burst)) != Answers(Unbounded(p), Strip(TwoBursts(p.burst)))
  {
    assert p.burst >= 1 by { MulNonNegative(IDLE + 1, Rate(p)); }
    var t := TwoBursts(p.burst);
    TwoBurstsForgetful(p);
    TwoBurstsRemembered(p);
    StripRepeat(Start, "a", 0, p.burst);
    StripRepeat(Then(Repeat(Start, "a", 0, p.burst), Sweep(IDLE + 1)), "a", IDLE + 1, p.burst);
    StripOnlyBy(t, "a");
    AnswersCount(p, t, "a");
    AnswersCount(Unbounded(p), Strip(t), "a");
  }

  ghost predicate CleanupInvisible(p: Params) {
    forall t :: Possible(p, t) && NoEviction(t) ==> Answers(p, t) == Answers(Unbounded(p), Strip(t))
  }

  /**
    As long as nobody is evicted, cleanup is invisible, whenever and however often it runs,
    exactly when an idle entry has refilled; `TenMinutes` reads the condition as burst <= 10 * rpm.
   */
  lemma CleanupInvisibleExact(p: Params)
    ensures RefillsWhileIdle(p) <==> CleanupInvisible(p)
  {
    if RefillsWhileIdle(p) {
      forall t | Possible(p, t) && NoEviction(t)
        ensures Answers(p, t) == Answers(Unbounded(p), Strip(t))
      {
        SameAnswers(p, t);
      }
    } else {
      CleanupVisible(p);
    }
  }

  lemma TenMinutes(p: Params)
    requires 0 <= p.rpm < UNIT
    ensures RefillsWhileIdle(p) <==> p.burst <= 10 * p.rpm
  {}

  // ----- Capacity -----

  /** After the trace and after each of its prefixes there are no more clients than configured. */
  predicate WithinCapacity(p: Params, t: Trace) {
    |After(p, t)| <= p.maxClients && (t.Then? ==> WithinCapacity(p, t.init))
  }

  /**
    A newcomer to whom a full map makes no room: nobody was seen before `at`, or the stalest entry
    the scan settled on is the one under the empty key, which is not deleted.
   */
  predicate Overflows(p: Params, m: Clients, e: Event) {
    && e.Request? && e.ip !in m && Full(p, m)
    && ((forall j :: j in m ==> e.at <= m[j].lastUpdated) || (LeastRecent(m, "", e.at) && e.victim == None))
  }

  predicate NoOverflow(p: Params, t: Trace) {
    t.Then? ==> NoOverflow(p, t.init) && !Overflows(p, After(p, t.init), t.last)
  }

  lemma AddOne(m: Clients, victim: Option<string>, ip: string, c: Client)
    requires ip !in m && (victim.Some? ==> victim.value in m)
    ensures |Evict(m, victim)[ip := c]| == |m| + (if victim.Some? then 0 else 1)
  {
    var w := Evict(m, victim);
    assert w.Keys == if victim.Some? then m.Keys - {victim.value} else m.Keys;
    assert w[ip := c].Keys == w.Keys + {ip};
    assert |w[ip := c]| == |w[ip := c].Keys| && |m| == |m.Keys|;
  }

  /** One step from within the capacity leads beyond it exactly when it overflows. */
  lemma StepWithin(p: Params, t: Trace)
    requires p.maxClients >= 1 && Possible(p, t) && t.Then? && |After(p, t.init)| <= p.maxClients
    ensures |After(p, t)| <= p.maxClients <==> !Overflows(p, After(p, t.init), t.last)
  {
    var m, n := After(p, t.init), After(p, t);
    match t.last
    case Sweep(at) =>
      SubsetSize(n.Keys, m.Keys);
      assert |n| == |n.Keys| && |m| == |m.Keys|;
    case Request(ip, at, victim) =>
      if ip in m {
        assert n.Keys == m.Keys;
        assert |n| == |n.Keys| && |m| == |m.Keys|;
      } else {
        AddOne(m, victim, ip, n[ip]);
      }
  }

  /** On every history the number of tracked clients stays within the capacity exactly as long as no newcomer overflows it. */
  lemma {:induction false} CapacityExact(p: Params, t: Trace)
    requires p.maxClients >= 1 && Possible(p, t)
    ensures WithinCapacity(p, t) <==> NoOverflow(p, t)
  {
    if t.Start? {
    } else {
      CapacityExact(p, t.init);
      if WithinCapacity(p, t.init) {
        StepWithin(p, t);
      }
    }
  }

  /** Every clock reading is later than the one before, and no request has an empty key. */
  predicate StrictAndNamed(t: Trace) {
    t.Then? ==>
      && StrictAndNamed(t.init)
      && (t.init.Then? ==> t.init.last.at < t.last.at)
      && (t.last.Request? ==> t.last.ip != "")
  }

  /** Then nothing overflows, so there are never more tracked clients than configured. */
  lemma {:induction false} Bounded(p: Params, t: Trace)
    requires p.maxClients >= 1 && Possible(p, t) && StrictAndNamed(t)
    ensures NoOverflow(p, t) && WithinCapacity(p, t)
    ensures "" !in After(p, t)
  {
    CapacityExact(p, t);
    if t.Start? {
    } else {
      Bounded(p, t.init);
      if Full(p, After(p, t.init)) {
        SomebodyIsStale(p, t);
      }
    }
  }

  lemma SomebodyIsStale(p: Params, t: Trace)
    requires p.maxClients >= 1 && Possible(p, t) && StrictAndNamed(t) && t.Then? && Full(p, After(p, t.init))
    ensures exists k :: k in After(p, t.init) && After(p, t.init)[k].lastUpdated < t.last.at
  {
    var m := After(p, t.init);
    assert m != map[];
    var k :| k in m;
    AllSane(p, t.init, t.init.last.at);
    assert SaneClient(p, m[k], t.init.last.at);
  }

  /** The strict clock is needed: two newcomers at one instant both stay. */
  lemma SameInstantExceeds(p: Params)
    requires p.maxClients == 1
    ensures var t := Then(Then(Start, Request("a", 0, None)), Request("b", 0, None));
            Possible(p, t) && |After(p, t)| == 2
  {
    TwoStay(p, "a", "b", 0);
  }

  /** The named keys are needed: an entry under the empty key is the stalest and stays. */
  lemma EmptyKeyExceeds(p: Params, at: int)
    requires p.maxClients == 1 && at > 0
    ensures var t := Then(Then(Start, Request("", 0, None)), Request("b", at, None));
            Possible(p, t) && |After(p, t)| == 2
  {
    TwoStay(p, "", "b", at);
  }

  lemma TwoStay(p: Params, a: string, b: string, at: int)
    requires p.maxClients == 1 && a != b && (at == 0 || (a == "" && at > 0))
    ensures var t := Then(Then(Start, Request(a, 0, None)), Request(b, at, None));
            Possible(p, t) && |After(p, t)| == 2
  {
    var u := Then(Start, Request(a, 0, None));
    var t := Then(u, Request(b, at, None));
    assert After(p, Start) == map[] && |After(p, Start)| == 0;
    assert After(p, u).Keys == {a};
    assert After(p, t).Keys == {a, b};
    assert |After(p, t)| == |After(p, t).Keys| && |After(p, u)| == |After(p, u).Keys|;
  }

  /** The time of the latest request of `ip`, if there was one. */
  function LastSeen(t: Trace, ip: string): Option<int> {
    match t
    case Start => None
    case Then(i, e) => if e.Request? && e.ip == ip then Some(e.at) else LastSeen(i, ip)
  }

  /** An eviction takes a client whose latest request is no later than any other tracked client's. */
  lemma EvictsLeastRecentlyUsed(p: Params, t: Trace, ip: string)
    requires t.Then? && Possible(p, t) && t.last.Request? && t.last.victim.Some?
    requires ip in After(p, t.init)
    ensures var k := t.last.victim.value;
            && k in After(p, t.init) && k !in After(p, t)
            && LastSeen(t.init, k).Some? && LastSeen(t.init, ip).Some?
            && LastSeen(t.init, k).value <= LastSeen(t.init, ip).value
  {
    TrackedWasSeen(p, t.init, ip);
    TrackedWasSeen(p, t.init, t.last.victim.value);
  }
}
