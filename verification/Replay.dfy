/**
  What a second presentation of a credential meets: whose insertion a "duplicate" is told of, and
  how long an insertion bars the nullifier.
 */
module Replay {
  import opened Wrappers
  import opened Revocation
  import opened Nullifiers
  import opened Redemption
  import opened RedemptionRuns

  // ----- Calls that know they won -----

  lemma StepStaysWon<P, N>(env: Env<P, N>, s: State<P, N>, step: Step, tid: nat)
    requires tid in s.calls && Won(s.calls[tid].pc)
    ensures var s' := Apply(env, s, step);
            tid in s'.calls && Won(s'.calls[tid].pc) && s'.calls[tid].win == s.calls[tid].win && s'.calls[tid].req == s.calls[tid].req
  {
    StepExtends(env, s, step);
    OwnMove(env, s, step, tid);
  }

  lemma {:induction false} StaysWon<P, N>(env: Env<P, N>, run: seq<Step>, i: nat, j: nat, tid: nat)
    requires i <= j <= |run| && tid in At(env, run, i).calls && Won(At(env, run, i).calls[tid].pc)
    ensures var c, s := At(env, run, i).calls[tid], At(env, run, j);
            tid in s.calls && Won(s.calls[tid].pc) && s.calls[tid].win == c.win && s.calls[tid].req == c.req
    decreases j
  {
    if i == j {
    } else {
      StaysWon(env, run, i, j - 1, tid);
      AtStep(env, run, j - 1);
      StepStaysWon(env, At(env, run, j - 1), run[j - 1], tid);
    }
  }

  // ----- Whose insertion a refused call is told of -----

  predicate ToldDuplicate<P(==), N(==)>(pc: Pc<P, N>) {
    pc == Replied(false) || IsAnswer(pc, Duplicate)
  }

  /** At step `k` call `tid` asks the store for `n` and is told that it is there. */
  ghost predicate Refused<P, N>(env: Env<P, N>, run: seq<Step>, tid: nat, k: nat, n: N) {
    && k < |run| && run[k] == Advance(tid, Go) && tid in At(env, run, k).calls
    && At(env, run, k).calls[tid].pc.Storing? && At(env, run, k).calls[tid].pc.n == n
    && Present(At(env, run, k).table, n, At(env, run, k).now)
  }

  lemma LocalToldDuplicate<P, N>(env: Env<P, N>, rev: RevStore, now: nat, c: Call<P, N>, choice: Choice)
    requires !c.pc.Storing?
    ensures ToldDuplicate(Local(env, rev, now, c, choice)) ==> ToldDuplicate(c.pc)
  {}

  lemma FirstToldDuplicate<P, N>(env: Env<P, N>, s: State<P, N>, step: Step, tid: nat)
    requires CallsOk(env, s) && tid in s.calls && !ToldDuplicate(s.calls[tid].pc)
    requires ToldDuplicate(Apply(env, s, step).calls[tid].pc)
    ensures step == Advance(tid, Go) && s.calls[tid].pc.Storing?
    ensures Credential(env, s.calls[tid].req) == Some(s.calls[tid].pc.n)
    ensures Present(s.table, s.calls[tid].pc.n, s.now)
  {
    OwnMove(env, s, step, tid);
    assert Progress(env, s.calls[tid]);
    if s.calls[tid].pc.Storing? {
      var won := StoreAttempts(env, s, tid, step.choice);
    } else {
      LocalToldDuplicate(env, s.rev, s.now, s.calls[tid], step.choice);
    }
  }

  lemma {:induction false} RefusedAt<P, N>(env: Env<P, N>, run: seq<Step>, tid: nat) returns (k: nat, n: N)
    requires var s := After(env, run); tid in s.calls && ToldDuplicate(s.calls[tid].pc)
    ensures Refused(env, run, tid, k, n) && Credential(env, After(env, run).calls[tid].req) == Some(n)
  {
    k := |run| - 1;
    AtStep(env, run, k);
    var s := At(env, run, k);
    Reachable(env, run[..k]);
    OwnMove(env, s, run[k], tid);
    if ToldDuplicate(s.calls[tid].pc) {
      var before := k;
      k, n := RefusedAt(env, run[..before], tid);
      PrefixAt(env, run, before, k);
    } else {
      FirstToldDuplicate(env, s, run[k], tid);
      n := s.calls[tid].pc.n;
    }
  }

  /** Entry `i` of the log is an insertion of `n` that has not expired. */
  ghost predicate Stands<P, N>(s: State<P, N>, i: nat, n: N) {
    i < |s.wins| && s.wins[i].n == n && Live(s.wins[i].expiry, s.now)
  }

  lemma OneStands<P, N>(env: Env<P, N>, s: State<P, N>, i: nat, j: nat, n: N)
    requires LogOk(env, s) && Stands(s, i, n) && Stands(s, j, n)
    ensures i == j
  {
    assert Genuine(env, s, s.wins[i]) && Genuine(env, s, s.wins[j]);
    assert i < j ==> Spaced(s.wins[i], s.wins[j]);
    assert j < i ==> Spaced(s.wins[j], s.wins[i]);
  }

  lemma PresentStands<P, N>(env: Env<P, N>, s: State<P, N>, n: N) returns (i: nat)
    requires LogOk(env, s) && Present(s.table, n, s.now)
    ensures Stands(s, i, n)
  {
    forall j | 0 <= j < |s.wins| ensures s.wins[j].time <= s.now {
      assert Genuine(env, s, s.wins[j]);
    }
    PresentInLog(s.wins, n, s.now);
    i :| 0 <= i < |s.wins| && s.wins[i].n == n && Live(s.wins[i].expiry, s.now);
  }

  /** Step `j` wrote entry `i` of the log. */
  ghost predicate Writes<P, N>(env: Env<P, N>, run: seq<Step>, j: nat, i: nat, w: Win<N>) {
    && j < |run| && OnBehalf(At(env, run, j), run[j], w.tid)
    && |At(env, run, j).wins| == i < |At(env, run, j + 1).wins| && At(env, run, j + 1).wins[i] == w
    && !Present(At(env, run, j).table, w.n, At(env, run, j).now) && w.time == At(env, run, j).now
  }

  lemma StepWrites<P, N>(env: Env<P, N>, run: seq<Step>, j: nat, i: nat)
    requires j < |run| && i < |At(env, run, j + 1).wins|
    ensures if i < |At(env, run, j).wins| then At(env, run, j + 1).wins[i] == At(env, run, j).wins[i]
            else Writes(env, run, j, i, At(env, run, j + 1).wins[i])
  {
    AtStep(env, run, j);
    var won := StepInserts(env, At(env, run, j), run[j]);
  }

  lemma {:induction false} WrittenAt<P, N>(env: Env<P, N>, run: seq<Step>, k: nat, i: nat) returns (j: nat)
    requires k <= |run| && i < |At(env, run, k).wins|
    ensures j < k && Writes(env, run, j, i, At(env, run, k).wins[i])
    decreases k
  {
    assert run[..0] == [];
    StepWrites(env, run, k - 1, i);
    if |At(env, run, k - 1).wins| <= i {
      j := k - 1;
    } else {
      j := WrittenAt(env, run, k - 1, i);
    }
  }

  /**
    At step `j` a command of call `tid` inserts `n` and the call never hears of it: the reply is
    lost, or the call had given the command up. At step `k` that insertion has not expired.
   */
  ghost predicate Unheard<P, N>(env: Env<P, N>, run: seq<Step>, tid: nat, j: nat, k: nat, n: N)
    requires k <= |run|
  {
    && j < k && OnBehalf(At(env, run, j), run[j], tid)
    && (run[j].Arrive? || run[j].choice.LoseReply?)
    && |At(env, run, j).wins| < |At(env, run, j + 1).wins| && At(env, run, j + 1).wins[|At(env, run, j).wins|].n == n
    && Live(ExpiryAt(env, At(env, run, j).now), At(env, run, k).now)
  }

  /** An insertion made while the call was being told so leaves it at "won". */
  lemma HeardIsWon<P, N>(env: Env<P, N>, run: seq<Step>, tid: nat, j: nat, k: nat)
    requires j < k <= |run| && tid in At(env, run, k).calls && !Won(At(env, run, k).calls[tid].pc)
    requires run[j].Advance? && run[j].tid == tid && |At(env, run, j).wins| < |At(env, run, j + 1).wins|
    ensures run[j].choice.LoseReply?
  {
    AtStep(env, run, j);
    var s := At(env, run, j);
    var won := StoreAttempts(env, s, tid, run[j].choice);
    if run[j].choice.Go? {
      StaysWon(env, run, j + 1, k, tid);
    }
  }

  /**
    A call told "duplicate", with either store: at the attempt that was answered exactly one
    insertion of its nullifier stood. It was made by a call presenting the same credential, and
    that is the call itself if and only if one of its own commands had inserted unheard.
   */
  lemma DuplicateExact<P, N>(env: Env<P, N>, run: seq<Step>, tid: nat) returns (k: nat, i: nat, n: N)
    requires var s := After(env, run); tid in s.calls && ToldDuplicate(s.calls[tid].pc)
    ensures Refused(env, run, tid, k, n) && Stands(At(env, run, k), i, n)
    ensures forall j :: Stands(At(env, run, k), j, n) ==> j == i
    ensures var s, w := After(env, run), At(env, run, k).wins[i];
            && Credential(env, s.calls[tid].req) == Some(n) && n in s.table
            && w.tid in s.calls && Credential(env, s.calls[w.tid].req) == Some(n) && i < |s.wins| && s.wins[i] == w
            && (w.tid == tid <==> exists j :: Unheard(env, run, tid, j, k, n))
  {
    k, n := RefusedAt(env, run, tid);
    var s := At(env, run, k);
    Reachable(env, run[..k]);
    i := PresentStands(env, s, n);
    forall j | Stands(s, j, n) ensures j == i {
      OneStands(env, s, i, j, n);
    }
    assert Genuine(env, s, s.wins[i]);
    RunExtends(env, run, k, |run|);
    assert run[..|run|] == run;
    if s.wins[i].tid == tid {
      var j := OwnIsUnheard(env, run, tid, k, i, n);
    }
    if j :| Unheard(env, run, tid, j, k, n) {
      UnheardIsOwn(env, run, tid, j, k, i, n);
    }
  }

  lemma OwnIsUnheard<P, N>(env: Env<P, N>, run: seq<Step>, tid: nat, k: nat, i: nat, n: N) returns (j: nat)
    requires Refused(env, run, tid, k, n) && Stands(At(env, run, k), i, n) && At(env, run, k).wins[i].tid == tid
    ensures Unheard(env, run, tid, j, k, n)
  {
    var s := At(env, run, k);
    j := WrittenAt(env, run, k, i);
    Reachable(env, run[..k]);
    assert Genuine(env, s, s.wins[i]);
    if run[j].Advance? {
      HeardIsWon(env, run, tid, j, k);
    }
  }

  lemma UnheardIsOwn<P, N>(env: Env<P, N>, run: seq<Step>, tid: nat, j: nat, k: nat, i: nat, n: N)
    requires k <= |run| && Unheard(env, run, tid, j, k, n) && Stands(At(env, run, k), i, n)
    ensures At(env, run, k).wins[i].tid == tid
  {
    AtStep(env, run, j);
    var won := StepInserts(env, At(env, run, j), run[j]);
    RunExtends(env, run, j + 1, k);
    Reachable(env, run[..k]);
    var e := |At(env, run, j).wins|;
    assert At(env, run, k).wins[e] == At(env, run, j + 1).wins[e];
    OneStands(env, At(env, run, k), e, i, n);
  }

  /** If nobody else presents its credential, a call told "duplicate" was refused over its own unheard insertion. */
  lemma NobodyElse<P, N>(env: Env<P, N>, run: seq<Step>, tid: nat) returns (j: nat, k: nat, n: N)
    requires var s := After(env, run);
             && tid in s.calls && ToldDuplicate(s.calls[tid].pc)
             && forall t :: t in s.calls && t != tid ==> Credential(env, s.calls[t].req) != Credential(env, s.calls[tid].req)
    ensures env.backend.Redis? && Refused(env, run, tid, k, n) && Unheard(env, run, tid, j, k, n)
  {
    var i;
    k, i, n := DuplicateExact(env, run, tid);
    j :| Unheard(env, run, tid, j, k, n);
    UnheardNeedsRedis(env, run, tid, j, k, n);
  }

  lemma UnheardNeedsRedis<P, N>(env: Env<P, N>, run: seq<Step>, tid: nat, j: nat, k: nat, n: N)
    requires k <= |run| && Unheard(env, run, tid, j, k, n)
    ensures env.backend.Redis?
  {
    AtStep(env, run, j);
    Reachable(env, run[..j]);
    var s := At(env, run, j);
    match run[j]
    case Advance(t, choice) =>
      if s.calls[t].pc.Storing? {
        var won := StoreAttempts(env, s, t, choice);
      }
    case Arrive(i) => assert Sent(env, s, s.delayed[i]);
  }

  // ----- How many commands a call sends -----

  /** The step sends a set-if-absent command of call `tid`. */
  predicate Sends<P, N>(env: Env<P, N>, s: State<P, N>, step: Step, tid: nat) {
    && step.Advance? && step.tid == tid && tid in s.calls && s.calls[tid].pc.Storing?
    && (step.choice.Go? || (env.backend.Redis? && !step.choice.Fail?))
  }

  ghost function Commands<P, N>(env: Env<P, N>, run: seq<Step>, tid: nat): nat {
    if run == [] then 0
    else
      var init := run[..|run| - 1];
      Commands(env, init, tid) + if Sends(env, After(env, init), run[|run| - 1], tid) then 1 else 0
  }

  /** `n` commands of the call have been sent; what remains is in its program counter. */
  ghost predicate Budget<P, N>(env: Env<P, N>, s: State<P, N>, tid: nat, n: nat) {
    var retries := if env.backend.Redis? then env.backend.retries else 0;
    && n <= 1 + retries
    && (tid in s.calls && s.calls[tid].pc.Storing? ==> n + s.calls[tid].pc.left == retries)
    && (tid !in s.calls || Untried(env, s.calls[tid].pc) ==> n == 0)
  }

  lemma StepBudget<P, N>(env: Env<P, N>, s: State<P, N>, step: Step, tid: nat, n: nat)
    requires Budget(env, s, tid, n)
    ensures Budget(env, Apply(env, s, step), tid, n + if Sends(env, s, step, tid) then 1 else 0)
  {
    if tid in Apply(env, s, step).calls {
      OwnMove(env, s, step, tid);
    }
    if step.Advance? && step.tid == tid && tid in s.calls {
      if s.calls[tid].pc.Storing? {
        var won := StoreAttempts(env, s, tid, step.choice);
      } else {
        LocalTried(env, s.rev, s.now, s.calls[tid], step.choice);
      }
    }
  }

  /** A call sends at most one command and its retries; none before its check is over. */
  lemma {:induction false} CommandsBounded<P, N>(env: Env<P, N>, run: seq<Step>, tid: nat)
    ensures Budget(env, After(env, run), tid, Commands(env, run, tid))
  {
    if run == [] {
    } else {
      var init := run[..|run| - 1];
      CommandsBounded(env, init, tid);
      StepBudget(env, After(env, init), run[|run| - 1], tid, Commands(env, init, tid));
    }
  }

  // ----- Redeemed by somebody else -----

  /** The two requests present the same signature for the same class and epoch. */
  predicate SameCredential<P(==), N>(env: Env<P, N>, r: Request, r': Request) {
    r.epoch == r'.epoch && r.class_ == r'.class_ && env.decode(r.sigHex) == env.decode(r'.sigHex)
  }

  /** They do not, and yet have one nullifier. */
  predicate Collide<P(==), N(==)>(env: Env<P, N>, r: Request, r': Request) {
    && !SameCredential(env, r, r') && env.decode(r.sigHex).Some? && env.decode(r'.sigHex).Some?
    && env.nullifier(r.epoch, r.class_, env.decode(r.sigHex).value)
       == env.nullifier(r'.epoch, r'.class_, env.decode(r'.sigHex).value)
  }

  /**
    In memory a call is told "duplicate" only because another call won its nullifier: with the very
    same signature for the same class and epoch, unless these two requests are a collision.
   */
  lemma DuplicateMeansRedeemed<P, N>(env: Env<P, N>, run: seq<Step>, tid: nat) returns (other: nat)
    requires env.backend.Memory?
    requires var s := After(env, run); tid in s.calls && ToldDuplicate(s.calls[tid].pc)
    ensures var s := After(env, run);
            && other != tid && other in s.calls && Won(s.calls[other].pc)
            && Admissible(env, s.calls[other].req) && Admissible(env, s.calls[tid].req)
            && (SameCredential(env, s.calls[other].req, s.calls[tid].req) || Collide(env, s.calls[other].req, s.calls[tid].req))
  {
    var s := After(env, run);
    var k, i, n := DuplicateExact(env, run, tid);
    other := s.wins[i].tid;
    if other == tid {
      var j :| Unheard(env, run, tid, j, k, n);
      UnheardNeedsRedis(env, run, tid, j, k, n);
    }
    Reachable(env, run);
    assert Logged(env, s.wins, other, s.calls[other]);
    assert Progress(env, s.calls[tid]) && Progress(env, s.calls[other]);
  }

  // ----- How long an insertion bars its nullifier -----

  /** An insertion at time `at` has not expired by `now`. */
  predicate Within<P, N>(env: Env<P, N>, at: nat, now: nat) {
    env.backend.Memory? || env.backend.expiration == 0 || now <= at + env.backend.expiration
  }

  /** An insertion keeps its nullifier in the store, on every continuation within one expiration. */
  lemma InsertionStays<P, N>(env: Env<P, N>, run: seq<Step>, later: seq<Step>, i: nat)
    requires run <= later && i < |After(env, run).wins|
    requires Within(env, After(env, run).wins[i].time, After(env, later).now)
    ensures Present(After(env, later).table, After(env, run).wins[i].n, After(env, later).now)
  {
    assert later[..|run|] == run && later[..|later|] == later;
    RunExtends(env, later, |run|, |later|);
    assert After(env, later).wins[i] == After(env, run).wins[i];
    ReplayWindow(env, later, After(env, run).wins[i].n);
  }

  /** A call that begins after an insertion can win the same nullifier only with an expiring store, and later than one expiration. */
  lemma LaterWin<P, N>(env: Env<P, N>, run: seq<Step>, later: seq<Step>, i: nat, other: nat)
    requires run <= later && i < |After(env, run).wins|
    requires other !in After(env, run).calls && other in After(env, later).calls && Won(After(env, later).calls[other].pc)
    requires Credential(env, After(env, later).calls[other].req) == Some(After(env, run).wins[i].n)
    ensures env.backend.Redis? && env.backend.expiration > 0
    ensures After(env, run).wins[i].time + env.backend.expiration < AcceptedAt(After(env, later), other) <= After(env, later).now
  {
    var s, s' := After(env, run), After(env, later);
    assert later[..|run|] == run && later[..|later|] == later;
    RunExtends(env, later, |run|, |later|);
    Reachable(env, run);
    Reachable(env, later);
    WonEntry(env, s', other);
    var j := s'.calls[other].win.value;
    if j < |s.wins| {
      OldEntry(env, s, s', j);
    }
    EntriesSpaced(env, s', i, j);
  }

  lemma OldEntry<P, N>(env: Env<P, N>, s: State<P, N>, s': State<P, N>, j: nat)
    requires LogOk(env, s) && s.wins <= s'.wins && j < |s.wins|
    ensures s'.wins[j] == s.wins[j] && s'.wins[j].tid in s.calls
  {
    assert Genuine(env, s, s.wins[j]);
  }

  lemma {:induction false} TableEntry<N>(wins: seq<Win<N>>, n: N) returns (i: nat)
    requires n in TableOf(wins)
    ensures i < |wins| && wins[i].n == n && wins[i].expiry == TableOf(wins)[n]
  {
    i := |wins| - 1;
    if wins[i].n == n {
    } else {
      i := TableEntry(wins[..i], n);
    }
  }
}
