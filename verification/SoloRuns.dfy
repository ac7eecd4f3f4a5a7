/**
  One call at a time: what a redemption does when nothing interleaves with it, for every request,
  and the sequential code that does it on the in-memory stores.
 */
module SoloRuns {
  import opened Wrappers
  import opened Names
  import opened Revocation
  import opened Nullifiers
  import opened Redemption
  import opened RedemptionRuns
  import Config

  // ----- The sequential reading of handler and Consume -----

  datatype Verdict<N> = Stop(answer: Answer) | Proceed(n: N)

  /** What follows the revocation check, up to the nullifier store. */
  function Verification<P, N>(env: Env<P, N>, req: Request): Verdict<N> {
    match (env.decode(req.sigHex), env.decode(req.witnessHex))
    case (Some(sig), Some(point)) =>
      (match env.key(req.epoch, req.class_)
       case None => Stop(Internal)
       case Some(k) =>
         if !env.verify(sig, point, k) then Stop(BadRequest)
         else Proceed(env.nullifier(req.epoch, req.class_, sig)))
    case _ => Stop(BadRequest)
  }

  /** Everything before the nullifier store, in the order of the code. */
  function Check<P, N>(env: Env<P, N>, rev: RevStore, now: nat, req: Request): Verdict<N> {
    if !Validated(env, req) then Stop(BadRequest)
    else if req.epoch !in env.supported then Stop(BadRequest)
    else if RevokedNow(rev, req.class_, req.epoch, now) then Stop(Answer.Revoked)
    else Verification(env, req)
  }

  /** The answer and the table afterwards. */
  function Consumed<P, N>(env: Env<P, N>, rev: RevStore, table: Table<N>, now: nat, req: Request): (Answer, Table<N>) {
    match Check(env, rev, now, req)
    case Stop(a) => (a, table)
    case Proceed(n) =>
      (if Present(table, n, now) then Duplicate else Accepted, SetIfAbsent(table, n, now, ExpiryAt(env, now)))
  }

  /**
    Which answer a request gets, read off its parts: the causes of each answer exclude each other,
    and only an acceptance changes the table, by the nullifier and its expiry.
   */
  lemma AnswerExact<P, N>(env: Env<P, N>, rev: RevStore, table: Table<N>, now: nat, req: Request)
    ensures var (answer, table') := Consumed(env, rev, table, now, req);
            var named := env.wellFormed(req.sigHex) && env.wellFormed(req.witnessHex) && ValidClass(req.class_) && ValidEpoch(req.epoch)
                         && exists i :: 0 <= i < |env.supported| && env.supported[i] == req.epoch;
            var revoked := RevokedNow(rev, req.class_, req.epoch, now);
            var points := env.decode(req.sigHex).Some? && env.decode(req.witnessHex).Some?;
            var k := env.key(req.epoch, req.class_);
            var verified := points && k.Some? && env.verify(env.decode(req.sigHex).value, env.decode(req.witnessHex).value, k.value);
            && (answer == Answer.Revoked <==> named && revoked)
            && (answer == BadRequest <==> !named || (!revoked && (!points || (k.Some? && !verified))))
            && (answer == Internal <==> named && !revoked && points && k.None?)
            && (answer == Accepted || answer == Duplicate <==> named && !revoked && verified)
            && (named && !revoked && verified ==>
                 var n := env.nullifier(req.epoch, req.class_, env.decode(req.sigHex).value);
                 var absent := n !in table || (table[n].Some? && table[n].value < now);
                 && (answer == Accepted <==> absent)
                 && table' == if absent then table[n := ExpiryAt(env, now)] else table)
            && (answer != Accepted ==> table' == table)
  {}

  /**
    Where interruptions come in: the seed after the points are decoded, one look at the request's
    context before verification and one in the store.
   */
  function Interrupted<P, N>(env: Env<P, N>, rev: RevStore, now: nat, req: Request,
      seedOk: bool, cancelledBeforeVerify: bool, cancelledAtStore: bool): Option<Answer> {
    var reaches := !RevokedNow(rev, req.class_, req.epoch, now) && req.epoch in env.supported
                   && env.decode(req.sigHex).Some? && env.decode(req.witnessHex).Some?;
    if !reaches then None
    else if !seedOk then Some(Internal)
    else if env.key(req.epoch, req.class_).None? then None
    else if cancelledBeforeVerify then Some(Unavailable)
    else if Check(env, rev, now, req).Proceed? && cancelledAtStore then Some(Unavailable)
    else None
  }

  /** The server with its in-memory stores. */
  class MemoryService<P(!new), N(!new, ==)> {
    const env: Env<P, N>
    const config: Config.Config
    const nullifiers: InMemoryNullifierStore<N>
    const revocations: InMemoryRevocationStore
    var success: nat

    constructor (env: Env<P, N>, config: Config.Config, nullifiers: InMemoryNullifierStore<N>, revocations: InMemoryRevocationStore)
      ensures this.env == env && this.config == config && this.nullifiers == nullifiers && this.revocations == revocations
      ensures success == 0
    {
      this.env := env;
      this.config := config;
      this.nullifiers := nullifiers;
      this.revocations := revocations;
      success := 0;
    }

    /**
      Consume, with the request cancelled at neither, either or both of the two places where it
      looks.
     */
    method Consume(req: Request, seedOk: bool, cancelledBeforeVerify: bool, cancelledAtStore: bool, now: nat)
      returns (answer: Answer)
      requires Validated(env, req) && env.backend.Memory? && config.supportedEpochs == env.supported
      modifies nullifiers
      ensures match Interrupted(env, MemRev(revocations.store), now, req, seedOk, cancelledBeforeVerify, cancelledAtStore)
              case Some(a) => answer == a && nullifiers.Contents() == old(nullifiers.Contents())
              case None =>
                (answer, nullifiers.Contents()) == Consumed(env, MemRev(revocations.store), old(nullifiers.Contents()), now, req)
    {
      if req.class_ == "" {
        return BadRequest;
      }
      if req.epoch == "" {
        return BadRequest;
      }
      var supported := config.IsEpochSupported(req.epoch);
      if !supported {
        return BadRequest;
      }
      var revoked, entry := revocations.IsRevoked(req.class_, req.epoch, now);
      if revoked {
        return Answer.Revoked;
      }
      var sig := env.decode(req.sigHex);
      if sig.None? {
        return BadRequest;
      }
      var point := env.decode(req.witnessHex);
      if point.None? {
        return BadRequest;
      }
      if !seedOk {
        return Internal;
      }
      var k := env.key(req.epoch, req.class_);
      if k.None? {
        return Internal;
      }
      if cancelledBeforeVerify {
        return Unavailable;
      }
      if !env.verify(sig.value, point.value, k.value) {
        return BadRequest;
      }
      var isNew := nullifiers.CheckAndStore(cancelledAtStore, env.nullifier(req.epoch, req.class_, sig.value), now);
      if isNew.Err? {
        return Unavailable;
      }
      return if isNew.value then Accepted else Duplicate;
    }

    /** The handler: validation, then Consume, then the outcome counter. */
    method HandleConsume(req: Request, seedOk: bool, cancelledBeforeVerify: bool, cancelledAtStore: bool, now: nat)
      returns (answer: Answer)
      requires env.backend.Memory? && config.supportedEpochs == env.supported
      modifies this`success, nullifiers
      ensures var interrupted := Interrupted(env, MemRev(revocations.store), now, req, seedOk, cancelledBeforeVerify, cancelledAtStore);
              if Validated(env, req) && interrupted.Some? then
                answer == interrupted.value && nullifiers.Contents() == old(nullifiers.Contents())
              else
                (answer, nullifiers.Contents()) == Consumed(env, MemRev(revocations.store), old(nullifiers.Contents()), now, req)
      ensures success == old(success) + if answer.Accepted? then 1 else 0
      ensures !answer.Accepted? ==> nullifiers.Contents() == old(nullifiers.Contents())
    {
      if !(env.wellFormed(req.sigHex) && env.wellFormed(req.witnessHex) && ValidClass(req.class_) && ValidEpoch(req.epoch)) {
        return BadRequest;
      }
      answer := Consume(req, seedOk, cancelledBeforeVerify, cancelledAtStore, now);
      if answer.Accepted? {
        success := success + 1;
      }
    }
  }

  // ----- The concurrent system does the same when left alone -----

  /** Only call `tid` has moved since `s`, and the stores are as they were. */
  ghost predicate SoloAt<P, N>(env: Env<P, N>, s: State<P, N>, run: seq<Step>, tid: nat, c: Call<P, N>) {
    After(env, run) == s.(calls := s.calls[tid := c])
  }

  /** `run'` continues `run` by steps of call `tid` only. */
  predicate OwnSteps(run: seq<Step>, run': seq<Step>, tid: nat) {
    run <= run' && forall k :: |run| <= k < |run'| ==> run'[k] == Advance(tid, Go)
  }

  lemma SoloMove<P, N>(env: Env<P, N>, s: State<P, N>, run: seq<Step>, tid: nat, c: Call<P, N>, pc: Pc<P, N>) returns (run': seq<Step>)
    requires SoloAt(env, s, run, tid, c) && !c.pc.Storing? && !c.pc.Answered?
    requires Local(env, s.rev, s.now, c, Go) == pc
    ensures OwnSteps(run, run', tid) && run' == run + [Advance(tid, Go)]
    ensures SoloAt(env, s, run', tid, c.(pc := pc))
  {
    run' := run + [Advance(tid, Go)];
    AfterAppend(env, run, Advance(tid, Go));
    assert s.calls[tid := c][tid := c.(pc := pc)] == s.calls[tid := c.(pc := pc)];
  }

  function Destination<P, N>(env: Env<P, N>, v: Verdict<N>): Pc<P, N> {
    match v
    case Stop(a) => Answered(a)
    case Proceed(n) => Storing(n, Retries(env))
  }

  /** The three local steps after the revocation check, each against the sequential one. */
  lemma SoloVerification<P, N>(env: Env<P, N>, s: State<P, N>, run: seq<Step>, tid: nat, req: Request) returns (run': seq<Step>)
    requires SoloAt(env, s, run, tid, Call(req, NotRevoked, None))
    ensures OwnSteps(run, run', tid)
    ensures SoloAt(env, s, run', tid, Call(req, Destination(env, Verification(env, req)), None))
  {
    var goal := Destination(env, Verification(env, req));
    match (env.decode(req.sigHex), env.decode(req.witnessHex))
    case (Some(sig), Some(point)) =>
      run' := SoloMove(env, s, run, tid, Call(req, NotRevoked, None), Decoded(sig, point));
      if env.key(req.epoch, req.class_).None? {
        run' := SoloMove(env, s, run', tid, Call(req, Decoded(sig, point), None), goal);
      } else {
        var k := env.key(req.epoch, req.class_).value;
        run' := SoloMove(env, s, run', tid, Call(req, Decoded(sig, point), None), Keyed(sig, point, k));
        run' := SoloMove(env, s, run', tid, Call(req, Keyed(sig, point, k), None), goal);
      }
    case _ => run' := SoloMove(env, s, run, tid, Call(req, NotRevoked, None), goal);
  }

  /** The revocation check. */
  lemma SoloRead<P, N>(env: Env<P, N>, s: State<P, N>, run: seq<Step>, tid: nat, req: Request) returns (run': seq<Step>)
    requires RevOk(env, s.rev) && SoloAt(env, s, run, tid, Call(req, EpochOk, None))
    ensures OwnSteps(run, run', tid)
    ensures SoloAt(env, s, run', tid, Call(req,
              if RevokedNow(s.rev, req.class_, req.epoch, s.now) then Answered(Answer.Revoked) else NotRevoked, None))
  {
    var goal := if RevokedNow(s.rev, req.class_, req.epoch, s.now) then Answered(Answer.Revoked) else NotRevoked;
    var first := Local(env, s.rev, s.now, Call(req, EpochOk, None), Go);
    run' := SoloMove(env, s, run, tid, Call(req, EpochOk, None), first);
    if first != goal {
      run' := SoloMove(env, s, run', tid, Call(req, first, None), goal);
    }
  }

  /** From the arrival of a validated call to its revocation check. */
  lemma SoloArrival<P, N>(env: Env<P, N>, run: seq<Step>, tid: nat, req: Request) returns (run': seq<Step>)
    requires tid !in After(env, run).calls && Validated(env, req)
    ensures OwnSteps(run + [Invoke(tid, req)], run', tid)
    ensures SoloAt(env, After(env, run), run', tid,
              Call(req, if req.epoch in env.supported then EpochOk else Answered(BadRequest), None))
  {
    var s := After(env, run);
    ValidIsClean(req.class_);
    ValidIsClean(req.epoch);
    AfterAppend(env, run, Invoke(tid, req));
    run' := SoloMove(env, s, run + [Invoke(tid, req)], tid, Call(req, Received, None), Begun);
    run' := SoloMove(env, s, run', tid, Call(req, Begun, None),
      if req.epoch in env.supported then EpochOk else Answered(BadRequest));
  }

  lemma SoloHead<P, N>(env: Env<P, N>, run: seq<Step>, tid: nat, req: Request) returns (run': seq<Step>)
    requires tid !in After(env, run).calls
    ensures OwnSteps(run + [Invoke(tid, req)], run', tid)
    ensures var s := After(env, run);
            SoloAt(env, s, run', tid, Call(req, Destination(env, Check(env, s.rev, s.now, req)), None))
  {
    var s := After(env, run);
    if !Validated(env, req) {
      AfterAppend(env, run, Invoke(tid, req));
      run' := SoloMove(env, s, run + [Invoke(tid, req)], tid, Call(req, Received, None), Answered(BadRequest));
    } else {
      run' := SoloArrival(env, run, tid, req);
      if req.epoch in env.supported {
        Reachable(env, run);
        run' := SoloRead(env, s, run', tid, req);
        if !RevokedNow(s.rev, req.class_, req.epoch, s.now) {
          run' := SoloVerification(env, s, run', tid, req);
        }
      }
    }
  }

  /** The attempt at the store and its answer. */
  lemma SoloStore<P, N>(env: Env<P, N>, s: State<P, N>, run: seq<Step>, tid: nat, req: Request, n: N, left: nat) returns (run': seq<Step>)
    requires SoloAt(env, s, run, tid, Call(req, Storing(n, left), None))
    ensures OwnSteps(run, run', tid)
    ensures var s' := After(env, run');
            && s'.calls.Keys == s.calls.Keys + {tid} && s'.calls[tid].req == req
            && s'.calls[tid].pc == Answered(if Present(s.table, n, s.now) then Duplicate else Accepted)
            && s'.table == SetIfAbsent(s.table, n, s.now, ExpiryAt(env, s.now)) && s'.rev == s.rev && s'.now == s.now
            && forall t :: t in s.calls && t != tid ==> s'.calls[t] == s.calls[t]
  {
    AfterAppend(env, run, Advance(tid, Go));
    run' := run + [Advance(tid, Go)];
    AfterAppend(env, run', Advance(tid, Go));
    run' := run' + [Advance(tid, Go)];
  }

  /** `run'` continues `run` by call `tid` and its steps only, up to its answer. */
  ghost predicate SoloOutcome<P, N>(env: Env<P, N>, run: seq<Step>, tid: nat, req: Request, run': seq<Step>) {
    var s, s' := After(env, run), After(env, run');
    var result := Consumed(env, s.rev, s.table, s.now, req);
    && run <= run' && s'.calls.Keys == s.calls.Keys + {tid} && s'.calls[tid].req == req
    && s'.calls[tid].pc == Answered(result.0) && s'.table == result.1
    && s'.rev == s.rev && s'.now == s.now
    && forall t :: t in s.calls && t != tid ==> s'.calls[t] == s.calls[t]
  }

  /** Whatever the request, an undisturbed call of the concurrent system answers and stores what the sequential code does. */
  lemma SoloAgrees<P, N>(env: Env<P, N>, run: seq<Step>, tid: nat, req: Request) returns (run': seq<Step>)
    requires tid !in After(env, run).calls
    ensures SoloOutcome(env, run, tid, req, run')
  {
    var s := After(env, run);
    run' := SoloHead(env, run, tid, req);
    var v := Check(env, s.rev, s.now, req);
    if v.Proceed? {
      run' := SoloStore(env, s, run', tid, req, v.n, Retries(env));
    }
  }

  /** A credential passes the sequential check exactly when it is validated, supported, unrevoked and valid. */
  lemma CheckExact<P, N>(env: Env<P, N>, rev: RevStore, now: nat, req: Request, n: N)
    ensures Check(env, rev, now, req) == Proceed(n) <==>
      (&& Validated(env, req) && Admissible(env, req) && Credential(env, req) == Some(n)
       && !RevokedNow(rev, req.class_, req.epoch, now))
  {}
}
