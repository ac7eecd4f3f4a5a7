/**
  Runs in which a redemption is answered otherwise than one would expect, for any deployment with
  Redis and any valid credential.
 */
module Races {
  import opened Wrappers
  import opened Names
  import opened Revocation
  import opened Nullifiers
  import opened Redemption
  import opened RedemptionRuns
  import opened RevocationOrder
  import opened SoloRuns

  function Ban(req: Request, scope: string, until: Option<int>): Step {
    Decide(Revoke(Entry(req.class_, scope, "reason", 0, until, "admin"), 0))
  }

  /** Steps of calls leave clock and revocations alone. */
  lemma {:induction false} Unmoved<P, N>(env: Env<P, N>, run: seq<Step>, i: nat, j: nat)
    requires i <= j <= |run| && forall k :: i <= k < j ==> run[k].Advance? || run[k].Invoke?
    ensures At(env, run, j).rev == At(env, run, i).rev && At(env, run, j).now == At(env, run, i).now
    decreases j
  {
    if i == j {
    } else {
      Unmoved(env, run, i, j - 1);
      AtStep(env, run, j - 1);
      StillThere(env, At(env, run, j - 1), run[j - 1]);
    }
  }

  lemma StillThere<P, N>(env: Env<P, N>, s: State<P, N>, step: Step)
    requires step.Advance? || step.Invoke?
    ensures Apply(env, s, step).rev == s.rev && Apply(env, s, step).now == s.now
  {
    if step.Advance? && step.tid in s.calls && s.calls[step.tid].pc.Storing? {
      var won := StoreAttempts(env, s, step.tid, step.choice);
    }
  }

  /** A valid call that the check has let past is accepted, if its nullifier is absent and nobody interferes. */
  lemma RunsThrough<P, N>(env: Env<P, N>, s: State<P, N>, run: seq<Step>, tid: nat, req: Request) returns (run': seq<Step>)
    requires SoloAt(env, s, run, tid, Call(req, NotRevoked, None)) && Valid(env, req) && s.table == map[]
    ensures OwnSteps(run, run', tid)
    ensures tid in After(env, run').calls && After(env, run').calls[tid].req == req
    ensures After(env, run').calls[tid].pc == Answered(Accepted)
  {
    run' := SoloVerification(env, s, run, tid, req);
    run' := SoloStore(env, s, run', tid, req, Credential(env, req).value, Retries(env));
  }

  /** The key of a class and scope, as Redis answers a read of it. */
  function Reads<P, N>(s: State<P, N>, class_: string, scope: string): Option<Entry>
    requires s.rev.RedisRev?
  {
    Get(s.rev.red, RedisKey(class_, scope), s.now)
  }

  /** The key holds an entry valid until `until` and expires with it. */
  predicate KeySet<P, N>(s: State<P, N>, class_: string, scope: string, until: Option<int>) {
    && s.rev.RedisRev? && RedisKey(class_, scope) in s.rev.red
    && s.rev.red[RedisKey(class_, scope)].entry.until == until && s.rev.red[RedisKey(class_, scope)].deadline == until
  }

  /** A revocation sets its own key and leaves the other one of the class alone. */
  lemma BanStep<P, N>(env: Env<P, N>, s: State<P, N>, req: Request, scope: string, other: string, until: Option<int>)
    requires s.rev.RedisRev? && ValidClass(req.class_) && ValidScope(scope) && ValidScope(other) && scope != other
    requires until.Some? ==> s.now < until.value
    ensures var s' := Apply(env, s, Ban(req, scope, until));
            && s' == s.(rev := s'.rev) && s'.rev.RedisRev? && Reads(s', req.class_, other) == Reads(s, req.class_, other)
            && KeySet(s', req.class_, scope, until) && (KeySet(s, req.class_, other, None) ==> KeySet(s', req.class_, other, None))
  {
    ValidKeys(req.class_, scope, req.class_, other);
  }

  lemma LiftStep<P, N>(env: Env<P, N>, s: State<P, N>, req: Request, scope: string, other: string)
    requires s.rev.RedisRev? && ValidClass(req.class_) && ValidScope(scope) && ValidScope(other) && scope != other
    ensures var s' := Apply(env, s, Decide(Unrevoke(req.class_, scope)));
            && s' == s.(rev := s'.rev) && s'.rev.RedisRev? && Reads(s', req.class_, other) == Reads(s, req.class_, other)
            && Reads(s', req.class_, scope) == None
  {
    ValidKeys(req.class_, scope, req.class_, other);
  }

  ghost predicate RevokedIn<P, N>(s: State<P, N>, req: Request) {
    RevokedNow(s.rev, req.class_, req.epoch, s.now)
  }

  /** Steps of calls leave class and epoch as revoked as they were. */
  lemma StaysRevoked<P, N>(env: Env<P, N>, run: seq<Step>, pre: seq<Step>, mid: seq<Step>, req: Request)
    requires pre <= mid <= run && RevokedIn(After(env, pre), req)
    requires forall k :: |pre| <= k < |mid| ==> mid[k].Advance? || mid[k].Invoke?
    ensures forall j :: |pre| <= j <= |mid| ==> RevokedAfter(env, run, j, req)
  {
    assert run[..|pre|] == pre;
    forall j | |pre| <= j <= |mid| ensures RevokedAfter(env, run, j, req) {
      Unmoved(env, run, |pre|, j);
    }
  }

  /** Call 0 was invoked after the first step, at which its class was revoked, and is accepted. */
  ghost predicate AcceptedAfterBan<P, N>(env: Env<P, N>, run: seq<Step>, req: Request) {
    && run != [] && run[0] == Ban(req, "", None) && 0 !in At(env, run, 1).calls && 0 in After(env, run).calls
    && After(env, run).calls[0].req == req && After(env, run).calls[0].pc == Answered(Accepted)
  }

  lemma Opening<P, N>(env: Env<P, N>, req: Request) returns (pre: seq<Step>, s: State<P, N>)
    requires env.backend.Redis? && Valid(env, req)
    ensures pre == [Ban(req, "", None)] && s == After(env, pre)
    ensures s.rev.RedisRev? && s.table == map[] && s.calls == map[] && s.now == 0
    ensures KeySet(s, req.class_, "", None)
    ensures Reads(s, req.class_, req.epoch) == None
  {
    pre := [Ban(req, "", None)];
    AfterAppend(env, [], pre[0]);
    assert [] + pre == pre;
    s := After(env, pre);
    BanStep(env, Init(env), req, "", req.epoch, None);
  }

  /** The call arrives and makes its first read. */
  lemma FirstReads<P, N>(env: Env<P, N>, pre: seq<Step>, s: State<P, N>, req: Request) returns (mid: seq<Step>)
    requires s == After(env, pre) && s.rev.RedisRev? && 0 !in s.calls && Valid(env, req)
    ensures OwnSteps(pre + [Invoke(0, req)], mid, 0)
    ensures SoloAt(env, s, mid, 0, Call(req,
              if Reads(s, req.class_, req.epoch).Some? then EpochKeyFound(Reads(s, req.class_, req.epoch).value)
              else EpochKeyMissed, None))
  {
    mid := SoloArrival(env, pre, 0, req);
    mid := SoloMove(env, s, mid, 0, Call(req, EpochOk, None),
      if Reads(s, req.class_, req.epoch).Some? then EpochKeyFound(Reads(s, req.class_, req.epoch).value) else EpochKeyMissed);
  }

  /** The second read or the look at the clock lets it past. */
  lemma GetsThrough<P, N>(env: Env<P, N>, s: State<P, N>, run: seq<Step>, req: Request, pc: Pc<P, N>) returns (run': seq<Step>)
    requires SoloAt(env, s, run, 0, Call(req, pc, None)) && s.rev.RedisRev? && s.table == map[] && Valid(env, req)
    requires (pc.EpochKeyMissed? && Reads(s, req.class_, "") == None) || (pc.EpochKeyFound? && !Live(pc.entry.until, s.now))
    ensures OwnSteps(run, run', 0) && 0 in After(env, run').calls
    ensures After(env, run').calls[0].req == req && After(env, run').calls[0].pc == Answered(Accepted)
  {
    run' := SoloMove(env, s, run, 0, Call(req, pc, None), NotRevoked);
    run' := RunsThrough(env, s, run', 0, req);
  }

  /** From the class-wide key to the epoch's, in two steps with a class and epoch revoked after each. */
  lemma Moves<P, N>(env: Env<P, N>, s: State<P, N>, run: seq<Step>, req: Request, c: Call<P, N>) returns (s': State<P, N>, run': seq<Step>)
    requires SoloAt(env, s, run, 0, c) && s.rev.RedisRev? && Valid(env, req) && s.now == 0
    requires KeySet(s, req.class_, "", None)
    ensures run' == run + [Ban(req, req.epoch, None), Decide(Unrevoke(req.class_, ""))]
    ensures s' == s.(rev := s'.rev) && SoloAt(env, s', run', 0, c) && s'.rev.RedisRev? && Reads(s', req.class_, "") == None
    ensures RevokedIn(After(env, run + [Ban(req, req.epoch, None)]), req) && RevokedIn(After(env, run'), req)
  {
    var ban, lift := Ban(req, req.epoch, None), Decide(Unrevoke(req.class_, ""));
    BanStep(env, After(env, run), req, req.epoch, "", None);
    AfterAppend(env, run, ban);
    LiftStep(env, After(env, run + [ban]), req, "", req.epoch);
    AfterAppend(env, run + [ban], lift);
    run' := run + [ban] + [lift];
    assert run' == run + [ban, lift];
    s' := s.(rev := After(env, run').rev);
  }

  /**
    The class is revoked before the call, and between its two reads the revocation is moved to the
    epoch: class and epoch are revoked at every instant of the call, and it is accepted.
   */
  lemma NoSingleInstantInRedis<P, N>(env: Env<P, N>, req: Request) returns (run: seq<Step>)
    requires env.backend.Redis? && Valid(env, req)
    ensures AcceptedAfterBan(env, run, req)
    ensures forall j :: 1 <= j <= |run| ==> RevokedAfter(env, run, j, req)
  {
    var pre, s := Opening(env, req);
    var mid := FirstReads(env, pre, s, req);
    var s', moved := Moves(env, s, mid, req, Call(req, EpochKeyMissed, None));
    run := GetsThrough(env, s', moved, req, EpochKeyMissed);
    StaysRevoked(env, run, pre, mid, req);
    var ban := mid + [Ban(req, req.epoch, None)];
    assert ban <= moved <= run;
    StaysRevoked(env, run, ban, ban, req);
    StaysRevoked(env, run, moved, run, req);
    assert run[..1] == pre;
  }

  /**
    The class is revoked for good and the epoch until 10. The call reads the epoch's entry at 0 and
    compares it at 11, when it has expired: again revoked at every instant, and accepted.
   */
  lemma ExpiredBetween<P, N>(env: Env<P, N>, req: Request) returns (run: seq<Step>)
    requires env.backend.Redis? && Valid(env, req)
    ensures AcceptedAfterBan(env, run, req)
    ensures forall j :: 1 <= j <= |run| ==> RevokedAfter(env, run, j, req)
    ensures forall k :: 2 <= k < |run| ==> !run[k].Decide?
  {
    var pre, s0 := Opening(env, req);
    var banned, s := OneEpochToo(env, pre, s0, req);
    var mid := FirstReads(env, banned, s, req);
    AfterAppend(env, mid, Tick(11));
    var late, s1 := mid + [Tick(11)], s.(now := 11);
    run := GetsThrough(env, s1, late, req, EpochKeyFound(Reads(s, req.class_, req.epoch).value));
    assert pre <= banned <= mid <= late <= run;
    StaysRevoked(env, run, pre, pre, req);
    StaysRevoked(env, run, banned, mid, req);
    StaysRevoked(env, run, late, run, req);
    assert run[..1] == pre;
  }

  lemma OneEpochToo<P, N>(env: Env<P, N>, pre: seq<Step>, s0: State<P, N>, req: Request) returns (run: seq<Step>, s: State<P, N>)
    requires s0 == After(env, pre) && s0.rev.RedisRev? && s0.now == 0 && Valid(env, req)
    requires KeySet(s0, req.class_, "", None)
    ensures run == pre + [Ban(req, req.epoch, Some(10))] && s == After(env, run)
    ensures s == s0.(rev := s.rev) && s.rev.RedisRev? && RevokedIn(s, req)
    ensures KeySet(s, req.class_, req.epoch, Some(10))
    ensures RevokedIn(s.(now := 11), req)
  {
    run := pre + [Ban(req, req.epoch, Some(10))];
    AfterAppend(env, pre, Ban(req, req.epoch, Some(10)));
    BanStep(env, s0, req, req.epoch, "", Some(10));
    s := After(env, run);
  }

  /** A retry can lose an acceptance: the only call is told "duplicate" of its own insertion. */
  lemma LostAcceptance<P, N>(env: Env<P, N>, req: Request) returns (run: seq<Step>)
    requires env.backend.Redis? && env.backend.retries > 0 && Valid(env, req)
    ensures var s := After(env, run); s.calls.Keys == {0} && s.calls[0].req == req && s.calls[0].pc == Answered(Duplicate)
  {
    var s, n, left := After<P, N>(env, []), Credential(env, req).value, Retries(env);
    run := SoloHead(env, [], 0, req);
    var lost := Advance(0, LoseReply(true));
    AfterAppend(env, run, lost);
    run := run + [lost];
    var s1 := After(env, run);
    assert Present(s1.table, n, s1.now);
    run := SoloStore(env, s1, run, 0, req, n, left - 1);
  }
}
