/**
  What holds over whole runs of the redemption system: at most one acceptance, what a stored
  nullifier implies, and the order of acceptances and revocations in time.
 */
module RedemptionRuns {
  import opened Wrappers
  import opened Names
  import opened Revocation
  import opened Nullifiers
  import opened Redemption
  import opened Finite

  /** The state after the first `j` steps. */
  function At<P, N>(env: Env<P, N>, run: seq<Step>, j: nat): State<P, N>
    requires j <= |run|
  {
    After(env, run[..j])
  }

  lemma AtStep<P, N>(env: Env<P, N>, run: seq<Step>, j: nat)
    requires j < |run|
    ensures At(env, run, j + 1) == Apply(env, At(env, run, j), run[j])
    ensures At(env, run, |run|) == After(env, run)
  {
    assert run[..j + 1][..j] == run[..j];
    assert run[..|run|] == run;
  }

  lemma AfterAppend<P, N>(env: Env<P, N>, run: seq<Step>, step: Step)
    ensures After(env, run + [step]) == Apply(env, After(env, run), step)
  {
    assert (run + [step])[..|run|] == run;
  }

  // ----- What never changes along a run -----

  /** Calls keep their requests, the log and the clock only grow, stored nullifiers stay on record. */
  ghost predicate Extends<P, N>(s: State<P, N>, s': State<P, N>) {
    && s.now <= s'.now && s.wins <= s'.wins && s.table.Keys <= s'.table.Keys
    && (forall t :: t in s.calls ==> t in s'.calls && s'.calls[t].req == s.calls[t].req)
  }

  lemma StepExtends<P, N>(env: Env<P, N>, s: State<P, N>, step: Step)
    ensures Extends(s, Apply(env, s, step))
  {
    if step.Advance? && step.tid in s.calls && s.calls[step.tid].pc.Storing? {
      var won := StoreAttempts(env, s, step.tid, step.choice);
    }
  }

  /** One step into a later phase is that call's own step. */
  lemma OwnMove<P, N>(env: Env<P, N>, s: State<P, N>, step: Step, tid: nat)
    requires tid in Apply(env, s, step).calls
    ensures tid !in s.calls ==> Apply(env, s, step).calls[tid].pc == Received
    ensures tid in s.calls && Apply(env, s, step).calls[tid] != s.calls[tid] ==> step.Advance? && step.tid == tid
    ensures tid in s.calls ==> Apply(env, s, step).calls[tid].req == s.calls[tid].req
  {
    StepExtends(env, s, step);
  }

  lemma {:induction false} RunExtends<P, N>(env: Env<P, N>, run: seq<Step>, i: nat, j: nat)
    requires i <= j <= |run|
    ensures Extends(At(env, run, i), At(env, run, j))
    decreases j
  {
    if i == j {
    } else {
      RunExtends(env, run, i, j - 1);
      AtStep(env, run, j - 1);
      StepExtends(env, At(env, run, j - 1), run[j - 1]);
    }
  }

  // ----- At most one acceptance -----

  lemma WonEntry<P, N>(env: Env<P, N>, s: State<P, N>, t: nat)
    requires CallsOk(env, s) && LogOk(env, s) && t in s.calls && Won(s.calls[t].pc)
    ensures s.calls[t].win.Some? && s.calls[t].win.value < |s.wins|
    ensures s.wins[s.calls[t].win.value].tid == t && Genuine(env, s, s.wins[s.calls[t].win.value])
  {
    assert Logged(env, s.wins, t, s.calls[t]);
  }

  lemma EntriesSpaced<P, N>(env: Env<P, N>, s: State<P, N>, i: nat, j: nat)
    requires LogOk(env, s) && i < j < |s.wins| && s.wins[i].n == s.wins[j].n
    ensures env.backend.Redis? && env.backend.expiration > 0
    ensures s.wins[i].time + env.backend.expiration < s.wins[j].time
  {
    assert Spaced(s.wins[i], s.wins[j]) && Genuine(env, s, s.wins[i]);
  }

  /** The instant of the insertion that a call was told of; a call that has won has been told of one. */
  function AcceptedAt<P, N>(s: State<P, N>, t: nat): nat
    requires t in s.calls
  {
    if s.calls[t].win.Some? && s.calls[t].win.value < |s.wins| then s.wins[s.calls[t].win.value].time else s.now
  }

  lemma WinsApart<P, N>(env: Env<P, N>, s: State<P, N>, t: nat, u: nat)
    requires CallsOk(env, s) && LogOk(env, s) && t in s.calls && u in s.calls && t != u
    requires Won(s.calls[t].pc) && Won(s.calls[u].pc)
    requires Credential(env, s.calls[t].req) == Credential(env, s.calls[u].req)
    ensures s.calls[t].win.Some? && s.calls[t].win.value < |s.wins|
    ensures s.calls[u].win.Some? && s.calls[u].win.value < |s.wins|
    ensures env.backend.Redis? && env.backend.expiration > 0
    ensures AcceptedAt(s, t) + env.backend.expiration < AcceptedAt(s, u)
         || AcceptedAt(s, u) + env.backend.expiration < AcceptedAt(s, t)
  {
    WonEntry(env, s, t);
    WonEntry(env, s, u);
    var i, j := s.calls[t].win.value, s.calls[u].win.value;
    if i < j {
      EntriesSpaced(env, s, i, j);
    } else {
      EntriesSpaced(env, s, j, i);
    }
  }

  /**
    Two acceptances of one nullifier are insertions more than a full expiration apart. A lost
    reply can cost a call its acceptance; no retry ever creates a second one.
   */
  lemma AcceptancesSpaced<P, N>(env: Env<P, N>, run: seq<Step>, t: nat, u: nat)
    requires var s := After(env, run);
             && t in s.calls && u in s.calls && t != u
             && Won(s.calls[t].pc) && Won(s.calls[u].pc)
             && Credential(env, s.calls[t].req) == Credential(env, s.calls[u].req)
    ensures var s := After(env, run);
            && s.calls[t].win.Some? && s.calls[t].win.value < |s.wins|
            && s.calls[u].win.Some? && s.calls[u].win.value < |s.wins|
            && env.backend.Redis? && env.backend.expiration > 0
            && (AcceptedAt(s, t) + env.backend.expiration < AcceptedAt(s, u)
                || AcceptedAt(s, u) + env.backend.expiration < AcceptedAt(s, t))
  {
    Reachable(env, run);
    WinsApart(env, After(env, run), t, u);
  }

  lemma {:induction false} PresentInLog<N>(wins: seq<Win<N>>, n: N, now: int)
    requires forall i, j :: 0 <= i < j < |wins| ==> Spaced(wins[i], wins[j])
    requires forall i :: 0 <= i < |wins| ==> wins[i].time <= now
    ensures Present(TableOf(wins), n, now) <==> exists i :: 0 <= i < |wins| && wins[i].n == n && Live(wins[i].expiry, now)
  {
    if !Present(TableOf(wins), n, now) {
      AbsentMeansExpired(wins, n, now);
    } else {
      var last := |wins| - 1;
      if wins[last].n != n {
        var init := wins[..last];
        PresentInLog(init, n, now);
        assert forall i :: 0 <= i < last ==> init[i] == wins[i];
      }
    }
  }

  /** The replay window is exact: a nullifier is refused just while some insertion of it has not expired. */
  lemma ReplayWindow<P, N>(env: Env<P, N>, run: seq<Step>, n: N)
    ensures var s := After(env, run);
            Present(s.table, n, s.now) <==>
              exists i :: 0 <= i < |s.wins| && s.wins[i].n == n
                && (env.backend.Memory? || env.backend.expiration == 0 || s.now <= s.wins[i].time + env.backend.expiration)
  {
    var s := After(env, run);
    Reachable(env, run);
    forall i | 0 <= i < |s.wins|
      ensures s.wins[i].time <= s.now && s.wins[i].expiry == ExpiryAt(env, s.wins[i].time)
    {
      assert Genuine(env, s, s.wins[i]);
    }
    PresentInLog(s.wins, n, s.now);
  }

  /** With the in-memory store, in every interleaving, a nullifier is accepted at most once. */
  lemma AtMostOnce<P, N>(env: Env<P, N>, run: seq<Step>, t: nat, u: nat)
    requires env.backend.Memory? || env.backend.expiration == 0
    requires var s := After(env, run);
             t in s.calls && u in s.calls && IsAnswer(s.calls[t].pc, Accepted) && IsAnswer(s.calls[u].pc, Accepted)
    ensures var s := After(env, run);
            Credential(env, s.calls[t].req) == Credential(env, s.calls[u].req) ==> t == u
  {
    var s := After(env, run);
    if Credential(env, s.calls[t].req) == Credential(env, s.calls[u].req) && t != u {
      AcceptancesSpaced(env, run, t, u);
      assert false;
    }
  }

  // ----- What is stored -----

  lemma {:induction false} TableFromLog<N>(wins: seq<Win<N>>, n: N)
    ensures n in TableOf(wins) <==> exists i :: 0 <= i < |wins| && wins[i].n == n
  {
    if wins == [] {
    } else {
      var init := wins[..|wins| - 1];
      TableFromLog(init, n);
      assert forall i :: 0 <= i < |init| ==> init[i] == wins[i];
    }
  }

  /** Every stored nullifier comes from a valid credential presented for a supported epoch. */
  lemma StoredIsGenuine<P, N>(env: Env<P, N>, run: seq<Step>, n: N) returns (tid: nat)
    requires n in After(env, run).table
    ensures var s := After(env, run);
            && tid in s.calls && Admissible(env, s.calls[tid].req)
            && Credential(env, s.calls[tid].req) == Some(n)
            && !NeverStored(s.calls[tid].pc)
            && (env.backend.Memory? ==> Won(s.calls[tid].pc))
  {
    var s := After(env, run);
    Reachable(env, run);
    TableFromLog(s.wins, n);
    var i :| 0 <= i < |s.wins| && s.wins[i].n == n;
    tid := s.wins[i].tid;
    assert Genuine(env, s, s.wins[i]);
    assert Logged(env, s.wins, tid, s.calls[tid]);
  }

  /** The step is an action of call `tid`, or a late one of its commands. */
  ghost predicate OnBehalf<P, N>(s: State<P, N>, step: Step, tid: nat) {
    || (step.Advance? && step.tid == tid)
    || (step.Arrive? && step.i < |s.delayed| && s.delayed[step.i].tid == tid)
  }

  /** Every step but an insertion leaves table and log as they are; an insertion is on behalf of the call it is logged for. */
  lemma StepInserts<P, N>(env: Env<P, N>, s: State<P, N>, step: Step) returns (won: bool)
    ensures var s' := Apply(env, s, step);
            if won then
              && |s'.wins| == |s.wins| + 1 && s.wins <= s'.wins && OnBehalf(s, step, s'.wins[|s.wins|].tid)
              && s'.wins[|s.wins|].time == s.now && !Present(s.table, s'.wins[|s.wins|].n, s.now)
              && s'.wins[|s.wins|].expiry == ExpiryAt(env, s.now)
            else s'.wins == s.wins && s'.table == s.table
  {
    won := false;
    match step
    case Advance(tid, choice) =>
      if tid in s.calls && s.calls[tid].pc.Storing? {
        won := StoreAttempts(env, s, tid, choice);
      }
    case Arrive(i) =>
      if i < |s.delayed| {
        won := LandExecutes(env, s, i);
      }
    case _ =>
  }

  /** A call that ends revoked, rejected or failed before the store has changed nothing in it, at any step on its behalf. */
  lemma RejectedStoresNothing<P, N>(env: Env<P, N>, run: seq<Step>, tid: nat, j: nat)
    requires var s := After(env, run); tid in s.calls && NeverStored(s.calls[tid].pc)
    requires j < |run| && OnBehalf(At(env, run, j), run[j], tid)
    ensures At(env, run, j + 1).table == At(env, run, j).table
  {
    var s, s' := At(env, run, j), At(env, run, j + 1);
    Reachable(env, run);
    AtStep(env, run, j);
    RunExtends(env, run, j + 1, |run|);
    var f := After(env, run);
    assert Logged(env, f.wins, tid, f.calls[tid]);
    var won := StepInserts(env, s, run[j]);
  }

  ghost predicate AcceptedFor<P, N>(env: Env<P, N>, s: State<P, N>, tid: nat, n: N) {
    tid in s.calls && IsAnswer(s.calls[tid].pc, Accepted) && Credential(env, s.calls[tid].req) == Some(n)
  }

  ghost predicate Quiescent<P, N>(s: State<P, N>) {
    forall t :: t in s.calls ==> Finished(s.calls[t].pc)
  }

  /** In memory, once no call is in flight, the stored nullifiers are exactly the accepted ones. */
  lemma QuiescentStore<P, N>(env: Env<P, N>, run: seq<Step>, n: N)
    requires env.backend.Memory? && Quiescent(After(env, run))
    ensures n in After(env, run).table <==> exists tid :: AcceptedFor(env, After(env, run), tid, n)
  {
    var s := After(env, run);
    if n in s.table {
      var tid := StoredIsGenuine(env, run, n);
      assert AcceptedFor(env, s, tid, n);
    }
    if tid :| AcceptedFor(env, s, tid, n) {
      AcceptedIsStored(env, run, tid);
    }
  }

  lemma AcceptedIsStored<P, N>(env: Env<P, N>, run: seq<Step>, tid: nat)
    requires var s := After(env, run); tid in s.calls && Won(s.calls[tid].pc)
    ensures var s := After(env, run);
            Credential(env, s.calls[tid].req).Some? && Credential(env, s.calls[tid].req).value in s.table
  {
    var s := After(env, run);
    Reachable(env, run);
    assert Logged(env, s.wins, tid, s.calls[tid]);
    var i := s.calls[tid].win.value;
    assert Genuine(env, s, s.wins[i]);
    TableFromLog(s.wins, s.wins[i].n);
  }

  // ----- The success counter -----

  /** The accepted and counted calls with their nullifiers. */
  ghost function AcceptedMap<P, N>(env: Env<P, N>, s: State<P, N>): map<nat, N>
    requires forall t :: t in CountedSet(s) ==> Credential(env, s.calls[t].req).Some?
  {
    map t | t in CountedSet(s) :: Credential(env, s.calls[t].req).value
  }

  lemma AcceptedMapFits<P, N>(env: Env<P, N>, run: seq<Step>)
    requires env.backend.Memory?
    ensures forall t :: t in CountedSet(After(env, run)) ==> Credential(env, After(env, run).calls[t].req).Some?
    ensures var m := AcceptedMap(env, After(env, run));
            |m.Values| == |CountedSet(After(env, run))| && m.Values <= After(env, run).table.Keys
  {
    var s := After(env, run);
    forall t | t in CountedSet(s)
      ensures Credential(env, s.calls[t].req).Some? && Credential(env, s.calls[t].req).value in s.table
    {
      AcceptedIsStored(env, run, t);
    }
    var m := AcceptedMap(env, s);
    forall t, u | t in m && u in m && m[t] == m[u] ensures t == u {
      AtMostOnce(env, run, t, u);
    }
    InjectiveSize(m);
    assert m.Keys == CountedSet(s) && |m| == |m.Keys|;
  }

  lemma AllAccepted<P, N>(env: Env<P, N>, run: seq<Step>, n: N)
    requires env.backend.Memory? && n in After(env, run).table
    requires forall t :: t in After(env, run).calls ==> After(env, run).calls[t].pc.Counted?
    requires forall t :: t in CountedSet(After(env, run)) ==> Credential(env, After(env, run).calls[t].req).Some?
    ensures n in AcceptedMap(env, After(env, run)).Values
  {
    var t := StoredIsGenuine(env, run, n);
    var m := AcceptedMap(env, After(env, run));
    assert t in m && m[t] == n;
  }

  /** In memory, "success" is never counted more often than nullifiers are stored, and as often once all is done. */
  lemma SuccessCounter<P, N>(env: Env<P, N>, run: seq<Step>)
    requires env.backend.Memory?
    ensures After(env, run).success <= |After(env, run).table|
    ensures (forall t :: t in After(env, run).calls ==> After(env, run).calls[t].pc.Counted?) ==>
              After(env, run).success == |After(env, run).table|
  {
    Reachable(env, run);
    AcceptedMapFits(env, run);
    var values, stored := AcceptedMap(env, After(env, run)).Values, After(env, run).table.Keys;
    assert |After(env, run).table| == |stored|;
    SubsetSize(values, stored);
    if forall t :: t in After(env, run).calls ==> After(env, run).calls[t].pc.Counted? {
      forall n | n in stored ensures n in values {
        AllAccepted(env, run, n);
      }
      assert values == stored;
    }
  }

  // ----- Revocation -----

  predicate RevokedNow(rev: RevStore, class_: string, epoch: string, now: int) {
    match rev
    case MemRev(m) => MemoryIsRevoked(m, class_, epoch, now).Some?
    case RedisRev(m) => RedisIsRevoked(m, class_, epoch, now).Some?
  }

  /** The call has got past the revocation check. */
  predicate PastCheck<P(==), N(==)>(pc: Pc<P, N>) {
    || pc.NotRevoked? || pc.Decoded? || pc.Keyed? || pc.Storing? || pc.Replied?
    || IsAnswer(pc, Accepted) || IsAnswer(pc, Duplicate)
  }

  ghost predicate WaitsAt<P, N>(env: Env<P, N>, run: seq<Step>, tid: nat, j: nat, pc: Pc<P, N>, req: Request) {
    && j < |run| && tid in At(env, run, j).calls
    && At(env, run, j).calls[tid].pc == pc && At(env, run, j).calls[tid].req == req
  }

  /** In memory: at step `j` this very call is about to read revocation, and class and epoch read as not revoked. */
  ghost predicate ReadsClear<P, N>(env: Env<P, N>, run: seq<Step>, tid: nat, j: nat, req: Request) {
    && WaitsAt(env, run, tid, j, EpochOk, req)
    && At(env, run, j).rev.MemRev?
    && MemoryIsRevoked(At(env, run, j).rev.mem, req.class_, req.epoch, At(env, run, j).now) == None
  }

  /** In Redis: at step `i` the epoch's key reads as absent, at step `j` the class-wide key does. */
  ghost predicate MissesEpochKey<P, N>(env: Env<P, N>, run: seq<Step>, tid: nat, i: nat, req: Request) {
    && WaitsAt(env, run, tid, i, EpochOk, req)
    && At(env, run, i).rev.RedisRev?
    && Get(At(env, run, i).rev.red, RedisKey(req.class_, req.epoch), At(env, run, i).now) == None
  }

  ghost predicate MissesClassKey<P, N>(env: Env<P, N>, run: seq<Step>, tid: nat, j: nat, req: Request) {
    && WaitsAt(env, run, tid, j, EpochKeyMissed, req)
    && At(env, run, j).rev.RedisRev?
    && Get(At(env, run, j).rev.red, RedisKey(req.class_, ""), At(env, run, j).now) == None
  }

  /**
    At step `i` the epoch's key is there with entry `e`; at step `j` the server compares the entry with its clock and
    finds that it has expired, which ends the check.
   */
  ghost predicate FindsExpired<P, N>(env: Env<P, N>, run: seq<Step>, tid: nat, i: nat, j: nat, e: Entry, req: Request) {
    && FindsEpochKey(env, run, tid, i, e, req)
    && i < j && WaitsAt(env, run, tid, j, EpochKeyFound(e), req) && !Live(e.until, At(env, run, j).now)
  }

  ghost predicate FindsEpochKey<P, N>(env: Env<P, N>, run: seq<Step>, tid: nat, i: nat, e: Entry, req: Request) {
    && WaitsAt(env, run, tid, i, EpochOk, req)
    && At(env, run, i).rev.RedisRev?
    && Get(At(env, run, i).rev.red, RedisKey(req.class_, req.epoch), At(env, run, i).now) == Some(e)
  }

  lemma PrefixAt<P, N>(env: Env<P, N>, run: seq<Step>, n: nat, j: nat)
    requires j <= n <= |run|
    ensures At(env, run[..n], j) == At(env, run, j)
  {
    assert run[..n][..j] == run[..j];
  }

  lemma PassesFrom<P, N>(env: Env<P, N>, s: State<P, N>, step: Step, tid: nat)
    requires RevOk(env, s.rev) && tid in s.calls && !PastCheck(s.calls[tid].pc)
    requires PastCheck(Apply(env, s, step).calls[tid].pc)
    ensures var c := s.calls[tid];
            || (c.pc == EpochOk && s.rev.MemRev? && MemoryIsRevoked(s.rev.mem, c.req.class_, c.req.epoch, s.now) == None)
            || (c.pc == EpochKeyMissed && s.rev.RedisRev? && ReadClassKey(s.rev.red, c.req.class_, s.now) == None)
            || (c.pc.EpochKeyFound? && !Live(c.pc.entry.until, s.now))
  {
    OwnMove(env, s, step, tid);
  }

  /** Every call past the check, so every accepted one, has an instant of its own at which it read "not revoked". */
  lemma {:induction false} ReadInstant<P, N>(env: Env<P, N>, run: seq<Step>, tid: nat) returns (j: nat)
    requires env.backend.Memory?
    requires var s := After(env, run); tid in s.calls && PastCheck(s.calls[tid].pc)
    ensures ReadsClear(env, run, tid, j, After(env, run).calls[tid].req)
  {
    var n := |run| - 1;
    AtStep(env, run, n);
    var s := At(env, run, n);
    Reachable(env, run[..n]);
    OwnMove(env, s, run[n], tid);
    if PastCheck(s.calls[tid].pc) {
      j := ReadInstant(env, run[..n], tid);
      PrefixAt(env, run, n, j);
    } else {
      PassesFrom(env, s, run[n], tid);
      j := n;
    }
  }

  lemma ReadFrom<P, N>(env: Env<P, N>, s: State<P, N>, step: Step, tid: nat)
    requires RevOk(env, s.rev) && env.backend.Redis? && tid in s.calls
    requires var pc := Apply(env, s, step).calls[tid].pc;
             pc != s.calls[tid].pc && (pc.EpochKeyMissed? || pc.EpochKeyFound?)
    ensures var pc, c := Apply(env, s, step).calls[tid].pc, s.calls[tid];
            && c.pc == EpochOk
            && Get(s.rev.red, RedisKey(c.req.class_, c.req.epoch), s.now) == if pc.EpochKeyFound? then Some(pc.entry) else None
  {
    OwnMove(env, s, step, tid);
  }

  /** What a call between its reads has read, and when. */
  lemma {:induction false} FirstRead<P, N>(env: Env<P, N>, run: seq<Step>, tid: nat) returns (i: nat)
    requires env.backend.Redis?
    requires var s := After(env, run); tid in s.calls && (s.calls[tid].pc.EpochKeyMissed? || s.calls[tid].pc.EpochKeyFound?)
    ensures i < |run|
    ensures var c := After(env, run).calls[tid];
            if c.pc.EpochKeyFound? then FindsEpochKey(env, run, tid, i, c.pc.entry, c.req)
            else MissesEpochKey(env, run, tid, i, c.req)
  {
    var n := |run| - 1;
    AtStep(env, run, n);
    var s := At(env, run, n);
    Reachable(env, run[..n]);
    OwnMove(env, s, run[n], tid);
    if s.calls[tid].pc == After(env, run).calls[tid].pc {
      i := FirstRead(env, run[..n], tid);
      PrefixAt(env, run, n, i);
    } else {
      ReadFrom(env, s, run[n], tid);
      i := n;
    }
  }

  /**
    With Redis every call past the check has read the epoch's key and then the class-wide one as
    absent, at two instants of its own; or has found at the first the epoch's key, and at the second
    that its entry had expired.
   */
  lemma {:induction false} ReadInstants<P, N>(env: Env<P, N>, run: seq<Step>, tid: nat) returns (i: nat, j: nat)
    requires env.backend.Redis?
    requires var s := After(env, run); tid in s.calls && PastCheck(s.calls[tid].pc)
    ensures var req := After(env, run).calls[tid].req;
            || (i < j && MissesEpochKey(env, run, tid, i, req) && MissesClassKey(env, run, tid, j, req))
            || exists e :: FindsExpired(env, run, tid, i, j, e, req)
  {
    var n := |run| - 1;
    AtStep(env, run, n);
    var s, req := At(env, run, n), After(env, run).calls[tid].req;
    Reachable(env, run[..n]);
    OwnMove(env, s, run[n], tid);
    if PastCheck(s.calls[tid].pc) {
      i, j := ReadInstants(env, run[..n], tid);
      PrefixAt(env, run, n, i);
      PrefixAt(env, run, n, j);
      if e :| FindsExpired(env, run[..n], tid, i, j, e, req) {
        assert FindsExpired(env, run, tid, i, j, e, req);
      }
    } else {
      PassesFrom(env, s, run[n], tid);
      assert RevOk(env, s.rev) && Progress(env, s.calls[tid]);
      i := FirstRead(env, run[..n], tid);
      j := n;
      PrefixAt(env, run, n, i);
      if s.calls[tid].pc.EpochKeyFound? {
        assert FindsExpired(env, run, tid, i, j, s.calls[tid].pc.entry, req);
      }
    }
  }

  /**
    At step `j` this very call is about to read revocation, and its class and epoch are revoked; or,
    at the second Redis read, the class-wide key is there.
   */
  ghost predicate ReadsRevoked<P, N>(env: Env<P, N>, run: seq<Step>, tid: nat, j: nat, req: Request) {
    || (WaitsAt(env, run, tid, j, EpochOk, req) && RevokedNow(At(env, run, j).rev, req.class_, req.epoch, At(env, run, j).now))
    || (WaitsAt(env, run, tid, j, EpochKeyMissed, req) && At(env, run, j).rev.RedisRev?
        && Get(At(env, run, j).rev.red, RedisKey(req.class_, ""), At(env, run, j).now).Some?)
  }

  lemma RevokedFrom<P, N>(env: Env<P, N>, s: State<P, N>, step: Step, tid: nat)
    requires RevOk(env, s.rev) && tid in s.calls && !IsAnswer(s.calls[tid].pc, Answer.Revoked)
    requires IsAnswer(Apply(env, s, step).calls[tid].pc, Answer.Revoked)
    ensures var c := s.calls[tid];
            || (c.pc.EpochOk? && RevokedNow(s.rev, c.req.class_, c.req.epoch, s.now))
            || (c.pc.EpochKeyFound? && Live(c.pc.entry.until, s.now))
            || (c.pc.EpochKeyMissed? && s.rev.RedisRev? && Get(s.rev.red, RedisKey(c.req.class_, ""), s.now).Some?)
  {
    OwnMove(env, s, step, tid);
  }

  /**
    The other answer, with either store: whoever is told "revoked" read a revocation at one instant
    of its own call.
   */
  lemma {:induction false} RevokedInstant<P, N>(env: Env<P, N>, run: seq<Step>, tid: nat) returns (j: nat)
    requires var s := After(env, run); tid in s.calls && IsAnswer(s.calls[tid].pc, Answer.Revoked)
    ensures ReadsRevoked(env, run, tid, j, After(env, run).calls[tid].req)
  {
    var n := |run| - 1;
    AtStep(env, run, n);
    var s := At(env, run, n);
    Reachable(env, run[..n]);
    OwnMove(env, s, run[n], tid);
    if IsAnswer(s.calls[tid].pc, Answer.Revoked) {
      j := RevokedInstant(env, run[..n], tid);
      PrefixAt(env, run, n, j);
    } else {
      RevokedFrom(env, s, run[n], tid);
      j := n;
      if s.calls[tid].pc.EpochKeyFound? {
        assert Progress(env, s.calls[tid]);
        j := FirstRead(env, run[..n], tid);
        PrefixAt(env, run, n, j);
        RunExtends(env, run, j, n);
      }
    }
  }
}
