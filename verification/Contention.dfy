/**
  What becomes of a valid call in every interleaving, whoever contends with it for its nullifier,
  when nothing goes wrong around its own actions.
 */
module Contention {
  import opened Wrappers
  import opened Names
  import opened Redemption
  import opened RedemptionRuns
  import opened Replay
  import opened RevocationOrder

  /** All the call's own actions go well. */
  predicate AllGo(run: seq<Step>, tid: nat) {
    forall j :: 0 <= j < |run| ==> run[j].Advance? && run[j].tid == tid ==> run[j].choice.Go?
  }

  /** Nothing fails around the call's own actions, and it presents a valid credential. */
  ghost predicate Smooth<P, N>(env: Env<P, N>, run: seq<Step>, tid: nat) {
    && tid in After(env, run).calls
    && Valid(env, After(env, run).calls[tid].req)
    && AllGo(run, tid)
  }

  /** On its way to one of the three answers, without a retry. */
  predicate OnTrack<P(==), N(==)>(env: Env<P, N>, pc: Pc<P, N>) {
    || pc.Received? || pc.Begun? || pc.EpochOk? || pc.EpochKeyFound? || pc.EpochKeyMissed?
    || pc.NotRevoked? || pc.Decoded? || pc.Keyed?
    || FirstAttempt(env, pc) || Won(pc) || ToldDuplicate(pc) || IsAnswer(pc, Answer.Revoked)
  }

  lemma LocalOnTrack<P, N>(env: Env<P, N>, s: State<P, N>, c: Call<P, N>)
    requires RevOk(env, s.rev) && Progress(env, c) && !c.pc.Storing? && OnTrack(env, c.pc) && Valid(env, c.req)
    ensures OnTrack(env, Local(env, s.rev, s.now, c, Go))
  {
    ValidIsClean(c.req.class_);
    ValidIsClean(c.req.epoch);
  }

  lemma OwnStepOnTrack<P, N>(env: Env<P, N>, s: State<P, N>, tid: nat)
    requires Inv(env, s) && tid in s.calls && OnTrack(env, s.calls[tid].pc) && Valid(env, s.calls[tid].req)
    ensures OnTrack(env, Apply(env, s, Advance(tid, Go)).calls[tid].pc)
  {
    assert Progress(env, s.calls[tid]);
    if s.calls[tid].pc.Storing? {
      var won := StoreAttempts(env, s, tid, Go);
    } else {
      LocalOnTrack(env, s, s.calls[tid]);
    }
  }

  lemma SmoothBefore<P, N>(env: Env<P, N>, run: seq<Step>, n: nat, tid: nat)
    requires n <= |run| && Smooth(env, run, tid) && tid in At(env, run, n).calls
    ensures Smooth(env, run[..n], tid) && At(env, run, n).calls[tid].req == After(env, run).calls[tid].req
  {
    RunExtends(env, run, n, |run|);
    assert run[..|run|] == run;
    assert forall j :: 0 <= j < n ==> run[..n][j] == run[j];
  }

  lemma {:induction false} StaysOnTrack<P, N>(env: Env<P, N>, run: seq<Step>, tid: nat)
    requires Smooth(env, run, tid)
    ensures OnTrack(env, After(env, run).calls[tid].pc)
  {
    if run == [] {
    } else {
      var n := |run| - 1;
      AtStep(env, run, n);
      var s, step := At(env, run, n), run[n];
      OwnMove(env, s, step, tid);
      if tid in s.calls {
        SmoothBefore(env, run, n, tid);
        StaysOnTrack(env, run[..n], tid);
        if step.Advance? && step.tid == tid {
          Reachable(env, run[..n]);
          OwnStepOnTrack(env, s, tid);
        }
      }
    }
  }

  /**
    In every interleaving, with either store and whoever contends, a valid call around which nothing
    fails is accepted, told "duplicate" or told "revoked": no other answer is possible.
   */
  lemma ThreeAnswers<P, N>(env: Env<P, N>, run: seq<Step>, tid: nat, a: Answer)
    requires Smooth(env, run, tid) && IsAnswer(After(env, run).calls[tid].pc, a)
    ensures a == Accepted || a == Duplicate || a == Answer.Revoked
  {
    StaysOnTrack(env, run, tid);
  }

  /** Told "duplicate", it lost to another call: an insertion by that one stood when it was refused. */
  lemma LostToAnother<P, N>(env: Env<P, N>, run: seq<Step>, tid: nat) returns (k: nat, i: nat, n: N)
    requires Smooth(env, run, tid) && ToldDuplicate(After(env, run).calls[tid].pc)
    ensures Refused(env, run, tid, k, n) && Stands(At(env, run, k), i, n)
    ensures var s, w := After(env, run), At(env, run, k).wins[i];
            && w.tid != tid && w.tid in s.calls && i < |s.wins| && s.wins[i] == w
            && Credential(env, s.calls[tid].req) == Some(n) && Credential(env, s.calls[w.tid].req) == Some(n)
  {
    k, i, n := DuplicateExact(env, run, tid);
    SmoothBefore(env, run, k, tid);
    StaysOnTrack(env, run[..k], tid);
    Reachable(env, run[..k]);
    var s := At(env, run, k);
    assert Logged(env, s.wins, tid, s.calls[tid]);
  }

  /** Such a call leaves no command on its way. */
  lemma {:induction false} NothingDelayed<P, N>(env: Env<P, N>, run: seq<Step>, tid: nat)
    requires AllGo(run, tid)
    ensures forall i :: 0 <= i < |After(env, run).delayed| ==> After(env, run).delayed[i].tid != tid
  {
    if run == [] {
    } else {
      var n := |run| - 1;
      AtStep(env, run, n);
      assert AllGo(run[..n], tid);
      NothingDelayed(env, run[..n], tid);
      StepDelays(env, At(env, run, n), run[n]);
    }
  }

  /** Only a command that is given up is delayed. */
  lemma StepDelays<P, N>(env: Env<P, N>, s: State<P, N>, step: Step)
    ensures forall d :: d in Apply(env, s, step).delayed ==>
              d in s.delayed || (step.Advance? && d.tid == step.tid && step.choice.Delay?)
  {}

  /** Whatever inserted on behalf of such a call told it so. */
  lemma InserterWon<P, N>(env: Env<P, N>, run: seq<Step>, k: nat, i: nat)
    requires k <= |run| && i < |At(env, run, k).wins| && AllGo(run, At(env, run, k).wins[i].tid)
    requires At(env, run, k).wins[i].tid in After(env, run).calls
    ensures Won(After(env, run).calls[At(env, run, k).wins[i].tid].pc)
  {
    var u := At(env, run, k).wins[i].tid;
    var j := WrittenAt(env, run, k, i);
    assert run[..|run|] == run && AllGo(run[..j], u);
    NothingDelayed(env, run[..j], u);
    if !Won(After(env, run).calls[u].pc) {
      HeardIsWon(env, run, u, j, |run|);
    }
  }

  /** Every call that presents the credential of `tid` is valid and meets no failure. */
  ghost predicate AllSmooth<P, N>(env: Env<P, N>, run: seq<Step>, tid: nat)
    requires tid in After(env, run).calls
  {
    forall t :: t in After(env, run).calls && Credential(env, After(env, run).calls[t].req) == Credential(env, After(env, run).calls[tid].req)
      ==> Smooth(env, run, t)
  }

  /**
    Among the calls contending for one nullifier somebody wins: as soon as one of them is answered,
    unless "revoked", one has been accepted or is about to be. With Redis all of them must meet no
    failure; in memory this one.
   */
  lemma SomebodyWins<P, N>(env: Env<P, N>, run: seq<Step>, tid: nat) returns (winner: nat)
    requires Smooth(env, run, tid) && (env.backend.Redis? ==> AllSmooth(env, run, tid))
    requires Finished(After(env, run).calls[tid].pc) && !IsAnswer(After(env, run).calls[tid].pc, Answer.Revoked)
    ensures var s := After(env, run);
            && winner in s.calls && Won(s.calls[winner].pc)
            && Credential(env, s.calls[winner].req) == Credential(env, s.calls[tid].req)
  {
    StaysOnTrack(env, run, tid);
    winner := tid;
    if ToldDuplicate(After(env, run).calls[tid].pc) {
      var k, i, n := LostToAnother(env, run, tid);
      winner := After(env, run).wins[i].tid;
      if env.backend.Memory? {
        Reachable(env, run);
        assert Logged(env, After(env, run).wins, winner, After(env, run).calls[winner]);
      } else {
        assert Smooth(env, run, winner);
        InserterWon(env, run, k, i);
      }
    }
  }

  // ----- One possible answer -----

  /** Nobody else presents this credential. */
  ghost predicate Undisputed<P, N>(env: Env<P, N>, s: State<P, N>, tid: nat) {
    tid in s.calls &&
    forall t :: t in s.calls && t != tid ==> Credential(env, s.calls[t].req) != Credential(env, s.calls[tid].req)
  }

  /** A call that nobody disputes is accepted unless it reads a revocation. */
  lemma UndisputedIsAccepted<P, N>(env: Env<P, N>, run: seq<Step>, tid: nat, a: Answer)
    requires Smooth(env, run, tid) && Undisputed(env, After(env, run), tid)
    requires IsAnswer(After(env, run).calls[tid].pc, a)
    ensures a == Accepted || a == Answer.Revoked
  {
    ThreeAnswers(env, run, tid, a);
    if a == Duplicate {
      var k, i, n := LostToAnother(env, run, tid);
    }
  }

  /**
    The call was invoked after step `m`, when neither its epoch nor its class was revoked, and
    neither is revoked until the end of its check.
   */
  ghost predicate Unrevoked<P, N>(env: Env<P, N>, run: seq<Step>, m: nat, tid: nat) {
    && m <= |run| && tid !in At(env, run, m).calls && tid in After(env, run).calls
    && var req := After(env, run).calls[tid].req;
       && AbsentAt(env, run, m, req.class_, req.epoch) && AbsentAt(env, run, m, req.class_, "")
       && forall k :: m <= k < |run| && UpToCheck(At(env, run, k), tid) ==>
            !Revokes(run[k], req.class_, req.epoch) && !Revokes(run[k], req.class_, "")
  }

  lemma UnrevokedAnswer<P, N>(env: Env<P, N>, run: seq<Step>, m: nat, tid: nat)
    requires Unrevoked(env, run, m, tid)
    ensures !IsAnswer(After(env, run).calls[tid].pc, Answer.Revoked)
  {
    if IsAnswer(After(env, run).calls[tid].pc, Answer.Revoked) {
      var k := RevokedSince(env, run, m, tid);
    }
  }

  /** A valid call that nobody disputes or revokes and around which nothing fails can only be accepted. */
  lemma OnlyAccepted<P, N>(env: Env<P, N>, run: seq<Step>, m: nat, tid: nat, a: Answer)
    requires Smooth(env, run, tid) && Undisputed(env, After(env, run), tid) && Unrevoked(env, run, m, tid)
    requires IsAnswer(After(env, run).calls[tid].pc, a)
    ensures a == Accepted
  {
    UndisputedIsAccepted(env, run, tid, a);
    UnrevokedAnswer(env, run, m, tid);
  }

  /**
    And one that begins after an insertion of its nullifier, by whomever and whether or not anybody
    was told, can only be a duplicate within one expiration.
   */
  lemma OnlyDuplicate<P, N>(env: Env<P, N>, run: seq<Step>, later: seq<Step>, i: nat, m: nat, tid: nat, a: Answer)
    requires run <= later && i < |After(env, run).wins|
    requires Within(env, After(env, run).wins[i].time, After(env, later).now)
    requires tid !in After(env, run).calls && Smooth(env, later, tid) && Unrevoked(env, later, m, tid)
    requires Credential(env, After(env, later).calls[tid].req) == Some(After(env, run).wins[i].n)
    requires IsAnswer(After(env, later).calls[tid].pc, a)
    ensures a == Duplicate
  {
    ThreeAnswers(env, later, tid, a);
    UnrevokedAnswer(env, later, m, tid);
    if a == Accepted {
      LaterWin(env, run, later, i, tid);
    }
  }
}
