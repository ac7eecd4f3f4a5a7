/**
  Acceptances against revocations in real time: what a revocation that has taken effect
  guarantees, what its absence does, and when the separate steps of a Redis check let a revoked
  call past.
 */
module RevocationOrder {
  import opened Wrappers
  import opened Names
  import opened Revocation
  import opened Redemption
  import opened RedemptionRuns

  /** The step decides about exactly this class and scope. */
  predicate Touches(step: Step, class_: string, scope: string) {
    step.Decide? && About(step.decision, class_, scope)
  }

  /** The store holds an entry for exactly this class and scope, valid until `until`. */
  predicate Holds(rev: RevStore, class_: string, scope: string, until: Option<int>) {
    match rev
    case MemRev(m) => MemoryKey(class_, scope) in m && m[MemoryKey(class_, scope)].until == until
    case RedisRev(m) => RedisKey(class_, scope) in m && m[RedisKey(class_, scope)].entry.until == until
  }

  /** An entry for exactly this class and scope is in force. */
  predicate Bites(rev: RevStore, class_: string, scope: string, now: int) {
    match rev
    case MemRev(m) => MemoryKey(class_, scope) in m && Live(m[MemoryKey(class_, scope)].until, now)
    case RedisRev(m) => Get(m, RedisKey(class_, scope), now).Some? && Live(Get(m, RedisKey(class_, scope), now).value.until, now)
  }

  lemma HeldBites<P, N>(env: Env<P, N>, rev: RevStore, class_: string, scope: string, until: Option<int>, now: int)
    requires RevOk(env, rev) && Holds(rev, class_, scope, until) && Live(until, now)
    ensures Bites(rev, class_, scope, now)
  {
    assert rev.RedisRev? ==> Outlives(rev.red[RedisKey(class_, scope)]);
  }

  /** The decision is carried out: Redis refuses a deadline that had passed when the server looked. */
  predicate TakesEffect<P, N>(env: Env<P, N>, d: Decision, now: int) {
    Permitted(d) && d.Revoke? && (env.backend.Redis? && d.entry.until.Some? ==> now - d.delay < d.entry.until.value)
  }

  lemma DecisionHolds<P, N>(env: Env<P, N>, s: State<P, N>, d: Decision)
    requires RevOk(env, s.rev) && TakesEffect(env, d, s.now)
    ensures Holds(Apply(env, s, Decide(d)).rev, d.entry.class_, d.entry.epoch, d.entry.until)
  {}

  /** And one that Redis refuses changes nothing. */
  lemma PastDeadlineIsRefused<P, N>(env: Env<P, N>, s: State<P, N>, e: Entry, delay: nat)
    requires RevOk(env, s.rev) && env.backend.Redis? && e.until.Some? && e.until.value <= s.now - delay
    ensures Apply(env, s, Decide(Revoke(e, delay))) == s
  {}

  /** After a step that does not lift it the revocation stands, or a newer one does. */
  lemma StepHolds<P, N>(env: Env<P, N>, s: State<P, N>, step: Step, class_: string, scope: string, until: Option<int>) returns (renewed: bool)
    requires ValidClass(class_) && ValidScope(scope) && Holds(s.rev, class_, scope, until)
    requires Touches(step, class_, scope) ==> step.decision.Revoke?
    ensures renewed ==> Touches(step, class_, scope)
    ensures Holds(Apply(env, s, step).rev, class_, scope, if renewed then step.decision.entry.until else until)
  {
    renewed := false;
    if step.Decide? && Permitted(step.decision) {
      match step.decision
      case Revoke(e, _) =>
        ValidKeys(class_, scope, e.class_, e.epoch);
        renewed := Touches(step, class_, scope) && !Holds(Apply(env, s, step).rev, class_, scope, until);
      case Unrevoke(c, z) => ValidKeys(class_, scope, c, z);
    }
  }

  /** As long as nobody lifts it: what is held is what some decision since has said. */
  lemma {:induction false} RunHolds<P, N>(env: Env<P, N>, run: seq<Step>, m: nat, k: nat, d: Decision) returns (l: nat)
    requires m < k <= |run| && run[m] == Decide(d) && TakesEffect(env, d, At(env, run, m).now)
    requires forall j :: m <= j < k && Touches(run[j], d.entry.class_, d.entry.epoch) ==> run[j].decision.Revoke?
    ensures m <= l < k && Touches(run[l], d.entry.class_, d.entry.epoch)
    ensures Holds(At(env, run, k).rev, d.entry.class_, d.entry.epoch, run[l].decision.entry.until)
    decreases k
  {
    AtStep(env, run, k - 1);
    if k == m + 1 {
      Reachable(env, run[..m]);
      DecisionHolds(env, At(env, run, m), d);
      l := m;
    } else {
      l := RunHolds(env, run, m, k - 1, d);
      var renewed := StepHolds(env, At(env, run, k - 1), run[k - 1], d.entry.class_, d.entry.epoch, run[l].decision.entry.until);
      l := if renewed then k - 1 else l;
    }
  }

  // ----- While a call is being checked -----

  /** The call has arrived and its revocation check is not over. */
  predicate Checking<P, N>(s: State<P, N>, tid: nat) {
    tid in s.calls &&
    var pc := s.calls[tid].pc;
    pc.Received? || pc.Begun? || pc.EpochOk? || pc.EpochKeyFound? || pc.EpochKeyMissed?
  }

  lemma StepKeepsChecked<P, N>(env: Env<P, N>, s: State<P, N>, step: Step, tid: nat)
    requires tid in s.calls && Checking(Apply(env, s, step), tid)
    ensures Checking(s, tid)
  {
    OwnMove(env, s, step, tid);
    if s.calls[tid].pc.Storing? && step.Advance? && step.tid == tid {
      var won := StoreAttempts(env, s, tid, step.choice);
    }
  }

  lemma CheckedStep<P, N>(env: Env<P, N>, run: seq<Step>, i: nat, tid: nat)
    requires i < |run| && tid in At(env, run, i).calls
    ensures tid in At(env, run, i + 1).calls
    ensures Checking(At(env, run, i + 1), tid) ==> Checking(At(env, run, i), tid)
  {
    AtStep(env, run, i);
    StepExtends(env, At(env, run, i), run[i]);
    if Checking(At(env, run, i + 1), tid) {
      StepKeepsChecked(env, At(env, run, i), run[i], tid);
    }
  }

  lemma {:induction false} CheckedBefore<P, N>(env: Env<P, N>, run: seq<Step>, i: nat, j: nat, tid: nat)
    requires i <= j <= |run| && tid in At(env, run, i).calls && Checking(At(env, run, j), tid)
    ensures Checking(At(env, run, i), tid)
    decreases j - i
  {
    if i == j {
    } else {
      CheckedStep(env, run, i, tid);
      CheckedBefore(env, run, i + 1, j, tid);
    }
  }

  lemma Begins<P, N>(env: Env<P, N>, run: seq<Step>, m: nat, j: nat, tid: nat)
    requires m <= |run| && j <= |run| && tid !in At(env, run, m).calls && tid in At(env, run, j).calls
    ensures m < j
  {
    if j <= m {
      RunExtends(env, run, j, m);
    }
  }

  // ----- What a revocation guarantees -----

  /** Every decision about this class and scope from step `m` on is a revocation still in force after `j` steps. */
  ghost predicate StandsAt<P, N>(env: Env<P, N>, run: seq<Step>, m: nat, j: nat, class_: string, scope: string)
    requires j <= |run|
  {
    forall k :: m <= k < j && Touches(run[k], class_, scope) ==>
      run[k].decision.Revoke? && Live(run[k].decision.entry.until, At(env, run, j).now)
  }

  /**
    No entry for this epoch read after `i` steps is found expired after `j`, so that the class-wide
    one is not read. In memory there is one instant for both.
   */
  ghost predicate NotHidden<P, N>(env: Env<P, N>, run: seq<Step>, i: nat, j: nat, class_: string, epoch: string)
    requires i <= |run| && j <= |run|
  {
    var s, now := At(env, run, i), At(env, run, j).now;
    match s.rev
    case MemRev(m) => i == j && MemoryKey(class_, epoch) in m ==> Live(m[MemoryKey(class_, epoch)].until, now)
    case RedisRev(m) => Get(m, RedisKey(class_, epoch), s.now).Some? ==> Live(Get(m, RedisKey(class_, epoch), s.now).value.until, now)
  }

  /** Decision `d` of step `m` revokes this class for this epoch or for all, and takes effect. */
  ghost predicate RevokesAt<P, N>(env: Env<P, N>, run: seq<Step>, m: nat, d: Decision, req: Request) {
    && m < |run| && run[m] == Decide(d) && TakesEffect(env, d, At(env, run, m).now)
    && d.entry.class_ == req.class_ && (d.entry.epoch == req.epoch || d.entry.epoch == "")
  }

  /** While call `tid` is being checked, no entry for its epoch hides a class-wide one. */
  ghost predicate NothingHidden<P, N>(env: Env<P, N>, run: seq<Step>, m: nat, tid: nat, req: Request) {
    forall i, j :: m < i <= j < |run| && Checking(At(env, run, i), tid) && Checking(At(env, run, j), tid) ==>
      NotHidden(env, run, i, j, req.class_, req.epoch)
  }

  /** At every instant at which call `tid` is being checked the revocation, or whatever has renewed it, stands and is not hidden. */
  ghost predicate KeepsOut<P, N>(env: Env<P, N>, run: seq<Step>, m: nat, d: Decision, tid: nat, req: Request) {
    && RevokesAt(env, run, m, d, req)
    && (forall j :: m < j < |run| && Checking(At(env, run, j), tid) ==> StandsAt(env, run, m, j, d.entry.class_, d.entry.epoch))
    && (d.entry.epoch == "" ==> NothingHidden(env, run, m, tid, req))
  }

  /** What the store holds when the call reads it at `i` is still in force when the call ends its check at `j`. */
  lemma StandsWhenRead<P, N>(env: Env<P, N>, run: seq<Step>, m: nat, i: nat, j: nat, tid: nat, d: Decision, req: Request) returns (until: Option<int>)
    requires KeepsOut(env, run, m, d, tid, req) && i <= j < |run| && tid !in At(env, run, m).calls
    requires Checking(At(env, run, i), tid) && Checking(At(env, run, j), tid)
    ensures m < i && Holds(At(env, run, i).rev, d.entry.class_, d.entry.epoch, until) && Live(until, At(env, run, j).now)
    ensures Bites(At(env, run, i).rev, d.entry.class_, d.entry.epoch, At(env, run, i).now)
    ensures d.entry.epoch == "" ==> NotHidden(env, run, i, j, req.class_, req.epoch)
  {
    Begins(env, run, m, i, tid);
    assert StandsAt(env, run, m, j, d.entry.class_, d.entry.epoch);
    var l := RunHolds(env, run, m, i, d);
    until := run[l].decision.entry.until;
    Reachable(env, run[..i]);
    RunExtends(env, run, i, j);
    HeldBites(env, At(env, run, i).rev, d.entry.class_, d.entry.epoch, until, At(env, run, i).now);
  }

  /**
    A call invoked after a revocation of its class took effect, for its epoch or for all epochs,
    never gets past the check as long as the revocation stands, renewed or not, while the call is
    being checked. A class-wide revocation needs that no entry for the epoch hides it, by having
    expired, or by expiring between its read and the look at the clock.
   */
  lemma RevokedStaysOut<P, N>(env: Env<P, N>, run: seq<Step>, m: nat, tid: nat, d: Decision)
    requires tid in After(env, run).calls && KeepsOut(env, run, m, d, tid, After(env, run).calls[tid].req)
    requires tid !in At(env, run, m).calls
    ensures !PastCheck(After(env, run).calls[tid].pc)
  {
    if PastCheck(After(env, run).calls[tid].pc) {
      var req := After(env, run).calls[tid].req;
      if env.backend.Memory? {
        var j := ReadInstant(env, run, tid);
        var until := StandsWhenRead(env, run, m, j, j, tid, d, req);
      } else {
        var i, j := ReadInstants(env, run, tid);
        var until := StandsWhenRead(env, run, m, i, j, tid, d, req);
        until := StandsWhenRead(env, run, m, j, j, tid, d, req);
      }
      assert false;
    }
  }

  lemma StandsEarlier<P, N>(env: Env<P, N>, run: seq<Step>, m: nat, j: nat, class_: string, scope: string)
    requires j <= |run| && StandsAt(env, run, m, |run|, class_, scope)
    ensures StandsAt(env, run, m, j, class_, scope)
  {
    RunExtends(env, run, j, |run|);
  }

  /** Every decision about it since is a revocation still in force at the end of the run, and nothing hides it. */
  ghost predicate StillRevoked<P, N>(env: Env<P, N>, run: seq<Step>, m: nat, d: Decision, tid: nat, req: Request) {
    && RevokesAt(env, run, m, d, req)
    && StandsAt(env, run, m, |run|, d.entry.class_, d.entry.epoch)
    && (d.entry.epoch == "" ==> NothingHidden(env, run, m, tid, req))
  }

  /** So no later call at all is let past while a class or epoch stays revoked. */
  lemma StillRevokedStaysOut<P, N>(env: Env<P, N>, run: seq<Step>, m: nat, tid: nat, d: Decision)
    requires tid in After(env, run).calls && StillRevoked(env, run, m, d, tid, After(env, run).calls[tid].req)
    requires tid !in At(env, run, m).calls
    ensures !PastCheck(After(env, run).calls[tid].pc)
  {
    forall j | m < j < |run| ensures StandsAt(env, run, m, j, d.entry.class_, d.entry.epoch) {
      StandsEarlier(env, run, m, j, d.entry.class_, d.entry.epoch);
    }
    RevokedStaysOut(env, run, m, tid, d);
  }

  // ----- What the absence of a revocation guarantees -----

  /** The step revokes exactly this class and scope. */
  predicate Revokes(step: Step, class_: string, scope: string) {
    Touches(step, class_, scope) && step.decision.Revoke?
  }

  /** No entry for exactly this class and scope is in force. */
  predicate Absent(rev: RevStore, class_: string, scope: string, now: int) {
    match rev
    case MemRev(m) => MemoryKey(class_, scope) in m ==> !Live(m[MemoryKey(class_, scope)].until, now)
    case RedisRev(m) => Get(m, RedisKey(class_, scope), now) == None
  }

  ghost predicate AbsentAt<P, N>(env: Env<P, N>, run: seq<Step>, j: nat, class_: string, scope: string)
    requires j <= |run|
  {
    Absent(At(env, run, j).rev, class_, scope, At(env, run, j).now)
  }

  lemma StepAbsent<P, N>(env: Env<P, N>, s: State<P, N>, step: Step, class_: string, scope: string)
    requires ValidClass(class_) && ValidScope(scope) && Absent(s.rev, class_, scope, s.now) && !Revokes(step, class_, scope)
    ensures Absent(Apply(env, s, step).rev, class_, scope, Apply(env, s, step).now)
  {
    if step.Decide? && Permitted(step.decision) {
      match step.decision
      case Revoke(e, _) => ValidKeys(class_, scope, e.class_, e.epoch);
      case Unrevoke(c, z) => ValidKeys(class_, scope, c, z);
    }
  }

  lemma StepTurnsUp<P, N>(env: Env<P, N>, run: seq<Step>, j: nat, class_: string, scope: string)
    requires j < |run| && ValidClass(class_) && ValidScope(scope)
    requires AbsentAt(env, run, j, class_, scope) && !AbsentAt(env, run, j + 1, class_, scope)
    ensures Revokes(run[j], class_, scope)
  {
    AtStep(env, run, j);
    if !Revokes(run[j], class_, scope) {
      StepAbsent(env, At(env, run, j), run[j], class_, scope);
    }
  }

  /** From absent to in force there is a revocation of exactly this class and scope in between. */
  lemma {:induction false} TurnsUp<P, N>(env: Env<P, N>, run: seq<Step>, i: nat, j: nat, class_: string, scope: string) returns (k: nat)
    requires i <= j <= |run| && ValidClass(class_) && ValidScope(scope)
    requires AbsentAt(env, run, i, class_, scope) && !AbsentAt(env, run, j, class_, scope)
    ensures i <= k < j && Revokes(run[k], class_, scope) && AbsentAt(env, run, k, class_, scope)
    decreases j - i
  {
    if AbsentAt(env, run, i + 1, class_, scope) {
      k := TurnsUp(env, run, i + 1, j, class_, scope);
    } else {
      StepTurnsUp(env, run, i, class_, scope);
      k := i;
    }
  }

  lemma AskedIsAdmissible<P, N>(env: Env<P, N>, run: seq<Step>, tid: nat, j: nat, pc: Pc<P, N>, req: Request)
    requires WaitsAt(env, run, tid, j, pc, req) && (pc.EpochOk? || pc.EpochKeyMissed?)
    ensures Admissible(env, req) && (env.backend.Redis? <==> At(env, run, j).rev.RedisRev?)
  {
    Reachable(env, run[..j]);
    assert Progress(env, At(env, run, j).calls[tid]);
  }

  /** The class and epoch are revoked after `j` steps. */
  ghost predicate RevokedAfter<P, N>(env: Env<P, N>, run: seq<Step>, j: nat, req: Request)
    requires j <= |run|
  {
    RevokedNow(At(env, run, j).rev, req.class_, req.epoch, At(env, run, j).now)
  }

  lemma RedisRevokedExact<P, N>(env: Env<P, N>, run: seq<Step>, j: nat, req: Request)
    requires j <= |run| && env.backend.Redis?
    ensures var s := At(env, run, j);
            RevokedAfter(env, run, j, req) <==>
              (Bites(s.rev, req.class_, req.epoch, s.now)
               || (AbsentAt(env, run, j, req.class_, req.epoch) && !AbsentAt(env, run, j, req.class_, "")))
  {
    Reachable(env, run[..j]);
  }

  /**
    When the two reads of a Redis check let a call past although it is revoked at both of them:
    exactly when the class-wide key is there at the first and an entry for the epoch is in force at
    the second, and then the epoch was revoked in between.
   */
  lemma BothReadsRevokedExact<P, N>(env: Env<P, N>, run: seq<Step>, tid: nat, i: nat, j: nat, req: Request)
    requires i < j && MissesEpochKey(env, run, tid, i, req) && MissesClassKey(env, run, tid, j, req)
    ensures RevokedAfter(env, run, i, req) && RevokedAfter(env, run, j, req) <==>
      !AbsentAt(env, run, i, req.class_, "") && Bites(At(env, run, j).rev, req.class_, req.epoch, At(env, run, j).now)
    ensures RevokedAfter(env, run, j, req) ==> exists k :: i <= k < j && Revokes(run[k], req.class_, req.epoch)
  {
    AskedIsAdmissible(env, run, tid, i, EpochOk, req);
    RedisRevokedExact(env, run, i, req);
    RedisRevokedExact(env, run, j, req);
    if RevokedAfter(env, run, j, req) {
      var k := TurnsUp(env, run, i, j, req.class_, req.epoch);
    }
  }

  /**
    If the call has no clear instant at all from its first read to its second, its epoch was
    revoked between them at a moment when the class-wide key was there.
   */
  lemma NoClearInstant<P, N>(env: Env<P, N>, run: seq<Step>, tid: nat, i: nat, j: nat, req: Request) returns (k: nat)
    requires i < j && MissesEpochKey(env, run, tid, i, req) && MissesClassKey(env, run, tid, j, req)
    requires forall l :: i <= l <= j ==> RevokedAfter(env, run, l, req)
    ensures i <= k < j && Revokes(run[k], req.class_, req.epoch) && !AbsentAt(env, run, k, req.class_, "")
  {
    AskedIsAdmissible(env, run, tid, i, EpochOk, req);
    RedisRevokedExact(env, run, j, req);
    k := TurnsUp(env, run, i, j, req.class_, req.epoch);
    RedisRevokedExact(env, run, k, req);
  }

  lemma StepNotRenewed<P, N>(env: Env<P, N>, s: State<P, N>, step: Step, class_: string, scope: string)
    requires s.rev.RedisRev? && ValidClass(class_) && ValidScope(scope) && !Revokes(step, class_, scope)
    ensures Apply(env, s, step).rev.RedisRev?
    ensures var key, s' := RedisKey(class_, scope), Apply(env, s, step);
            Get(s'.rev.red, key, s'.now).Some? ==> Get(s.rev.red, key, s.now) == Get(s'.rev.red, key, s'.now)
  {
    if step.Decide? && Permitted(step.decision) {
      match step.decision
      case Revoke(e, _) => ValidKeys(class_, scope, e.class_, e.epoch);
      case Unrevoke(c, z) => ValidKeys(class_, scope, c, z);
    }
  }

  /** What Redis answers after `j` steps to a read of the key. */
  ghost function ReadAt<P, N>(env: Env<P, N>, run: seq<Step>, j: nat, class_: string, scope: string): Option<Entry>
    requires j <= |run| && env.backend.Redis?
  {
    Reachable(env, run[..j]);
    Get(At(env, run, j).rev.red, RedisKey(class_, scope), At(env, run, j).now)
  }

  lemma StepReads<P, N>(env: Env<P, N>, run: seq<Step>, j: nat, class_: string, scope: string)
    requires env.backend.Redis? && j < |run| && ValidClass(class_) && ValidScope(scope) && !Revokes(run[j], class_, scope)
    ensures ReadAt(env, run, j + 1, class_, scope).Some? ==>
              ReadAt(env, run, j, class_, scope) == ReadAt(env, run, j + 1, class_, scope)
  {
    Reachable(env, run[..j]);
    AtStep(env, run, j);
    StepNotRenewed(env, At(env, run, j), run[j], class_, scope);
  }

  /** An entry in the store that nobody has written since was there before. */
  lemma {:induction false} NotRenewed<P, N>(env: Env<P, N>, run: seq<Step>, i: nat, j: nat, class_: string, scope: string)
    requires env.backend.Redis? && i <= j <= |run| && ValidClass(class_) && ValidScope(scope)
    requires forall k :: i <= k < j ==> !Revokes(run[k], class_, scope)
    ensures ReadAt(env, run, j, class_, scope).Some? ==>
              ReadAt(env, run, i, class_, scope) == ReadAt(env, run, j, class_, scope)
    decreases j
  {
    if i == j {
    } else {
      StepReads(env, run, j - 1, class_, scope);
      NotRenewed(env, run, i, j - 1, class_, scope);
    }
  }

  /**
    The other way past a Redis check, by an entry for the epoch that is found expired: the call is
    revoked at both its instants exactly when the entry was in force when it was read, and at the
    look at the clock either the epoch has been revoked anew or the class-wide key is there.
   */
  lemma ExpiredReadRevokedExact<P, N>(env: Env<P, N>, run: seq<Step>, tid: nat, i: nat, j: nat, e: Entry, req: Request)
    requires FindsExpired(env, run, tid, i, j, e, req)
    ensures var s, s' := At(env, run, i), At(env, run, j);
            RevokedAfter(env, run, i, req) && RevokedAfter(env, run, j, req) <==>
              && Live(e.until, s.now)
              && (Bites(s'.rev, req.class_, req.epoch, s'.now)
                  || (AbsentAt(env, run, j, req.class_, req.epoch) && !AbsentAt(env, run, j, req.class_, "")))
    ensures Bites(At(env, run, j).rev, req.class_, req.epoch, At(env, run, j).now) ==>
              exists k :: i <= k < j && Revokes(run[k], req.class_, req.epoch)
  {
    AskedIsAdmissible(env, run, tid, i, EpochOk, req);
    RedisRevokedExact(env, run, i, req);
    RedisRevokedExact(env, run, j, req);
    Reachable(env, run[..j]);
    var s' := At(env, run, j);
    assert ReadAt(env, run, i, req.class_, req.epoch) == Some(e);
    assert ReadAt(env, run, j, req.class_, req.epoch) == Get(s'.rev.red, RedisKey(req.class_, req.epoch), s'.now);
    if forall k :: i <= k < j ==> !Revokes(run[k], req.class_, req.epoch) {
      NotRenewed(env, run, i, j, req.class_, req.epoch);
    }
  }

  /** Nobody revokes the epoch while the call is being checked. */
  ghost predicate NotRevokedDuring<P, N>(env: Env<P, N>, run: seq<Step>, tid: nat, req: Request) {
    forall k :: 0 <= k < |run| && Checking(At(env, run, k), tid) ==> !Revokes(run[k], req.class_, req.epoch)
  }

  /** The call read an entry for its epoch in force at `i`; at `j` that has expired and gone, and the class-wide key is there. */
  ghost predicate ExpiresBetween<P, N>(env: Env<P, N>, run: seq<Step>, tid: nat, i: nat, j: nat, e: Entry, req: Request) {
    && FindsExpired(env, run, tid, i, j, e, req) && Live(e.until, At(env, run, i).now)
    && AbsentAt(env, run, j, req.class_, req.epoch) && !AbsentAt(env, run, j, req.class_, "")
  }

  /** After `j` steps the call is being checked and does not read as revoked. */
  ghost predicate ClearAt<P, N>(env: Env<P, N>, run: seq<Step>, tid: nat, j: nat, req: Request) {
    j < |run| && Checking(At(env, run, j), tid) && !RevokedAfter(env, run, j, req)
  }

  /**
    With Redis a call let past has an instant of its check at which class and epoch do not read as
    revoked, unless its epoch is revoked during the check, or an entry for its epoch runs out
    between its read and the look at the clock, in front of a class-wide revocation.
   */
  lemma ClearInstantInRedis<P, N>(env: Env<P, N>, run: seq<Step>, tid: nat) returns (i: nat, j: nat)
    requires env.backend.Redis?
    requires var s := After(env, run); tid in s.calls && PastCheck(s.calls[tid].pc)
    requires NotRevokedDuring(env, run, tid, After(env, run).calls[tid].req)
    ensures var req := After(env, run).calls[tid].req;
            ClearAt(env, run, tid, i, req) || ClearAt(env, run, tid, j, req)
            || exists e :: ExpiresBetween(env, run, tid, i, j, e, req)
  {
    i, j := ReadInstants(env, run, tid);
    var req := After(env, run).calls[tid].req;
    forall k | i <= k < j ensures !Revokes(run[k], req.class_, req.epoch) {
      RunExtends(env, run, i, k);
      CheckedBefore(env, run, k, j, tid);
    }
    if e :| FindsExpired(env, run, tid, i, j, e, req) {
      ExpiredReadRevokedExact(env, run, tid, i, j, e, req);
      assert RevokedAfter(env, run, i, req) && RevokedAfter(env, run, j, req) ==> ExpiresBetween(env, run, tid, i, j, e, req);
    } else {
      BothReadsRevokedExact(env, run, tid, i, j, req);
    }
  }

  lemma RevokedIsInForce<P, N>(env: Env<P, N>, run: seq<Step>, tid: nat, j: nat, pc: Pc<P, N>, req: Request)
    requires WaitsAt(env, run, tid, j, pc, req) && ReadsRevoked(env, run, tid, j, req)
    ensures !AbsentAt(env, run, j, req.class_, req.epoch) || !AbsentAt(env, run, j, req.class_, "")
  {}

  /** The call has not arrived or is still being checked. */
  predicate UpToCheck<P, N>(s: State<P, N>, tid: nat) {
    tid in s.calls ==> Checking(s, tid)
  }

  /**
    Only a revocation keeps a call out: one invoked when neither its epoch nor its whole class was
    revoked is answered "revoked" only if one of the two has been revoked since, before the end of
    its check.
   */
  lemma RevokedSince<P, N>(env: Env<P, N>, run: seq<Step>, m: nat, tid: nat) returns (k: nat)
    requires m <= |run| && tid !in At(env, run, m).calls && tid in After(env, run).calls
    requires var req := After(env, run).calls[tid].req;
             AbsentAt(env, run, m, req.class_, req.epoch) && AbsentAt(env, run, m, req.class_, "")
    requires IsAnswer(After(env, run).calls[tid].pc, Answer.Revoked)
    ensures var req := After(env, run).calls[tid].req;
            m <= k < |run| && UpToCheck(At(env, run, k), tid)
            && (Revokes(run[k], req.class_, req.epoch) || Revokes(run[k], req.class_, ""))
  {
    var req := After(env, run).calls[tid].req;
    var j := RevokedInstant(env, run, tid);
    var pc := At(env, run, j).calls[tid].pc;
    AskedIsAdmissible(env, run, tid, j, pc, req);
    RevokedIsInForce(env, run, tid, j, pc, req);
    Begins(env, run, m, j, tid);
    if !AbsentAt(env, run, j, req.class_, req.epoch) {
      k := TurnsUp(env, run, m, j, req.class_, req.epoch);
    } else {
      k := TurnsUp(env, run, m, j, req.class_, "");
    }
    if tid in At(env, run, k).calls {
      CheckedBefore(env, run, k, j, tid);
    }
  }

  /** Once a revocation is lifted, with nothing else in force, no later call is answered "revoked" until the next one. */
  lemma LiftedLetsIn<P, N>(env: Env<P, N>, run: seq<Step>, m: nat, tid: nat, scope: string)
    requires m < |run| && tid !in At(env, run, m).calls && tid in After(env, run).calls
    requires var req := After(env, run).calls[tid].req;
             && run[m] == Decide(Unrevoke(req.class_, scope)) && ValidClass(req.class_)
             && ((scope == "" && ValidEpoch(req.epoch) && AbsentAt(env, run, m, req.class_, req.epoch))
                 || (scope == req.epoch && ValidEpoch(scope) && AbsentAt(env, run, m, req.class_, "")))
             && forall k :: m < k < |run| && UpToCheck(At(env, run, k), tid) ==>
                  !Revokes(run[k], req.class_, req.epoch) && !Revokes(run[k], req.class_, "")
    ensures !IsAnswer(After(env, run).calls[tid].pc, Answer.Revoked)
  {
    var req := After(env, run).calls[tid].req;
    AtStep(env, run, m);
    UnrevokeRemoves(env, At(env, run, m), req.class_, scope);
    if scope == "" {
      StepAbsent(env, At(env, run, m), run[m], req.class_, req.epoch);
    } else {
      StepAbsent(env, At(env, run, m), run[m], req.class_, "");
    }
    if IsAnswer(After(env, run).calls[tid].pc, Answer.Revoked) {
      var k := RevokedSince(env, run, m + 1, tid);
    }
  }

  lemma UnrevokeRemoves<P, N>(env: Env<P, N>, s: State<P, N>, class_: string, scope: string)
    requires ValidClass(class_) && ValidScope(scope)
    ensures var s' := Apply(env, s, Decide(Unrevoke(class_, scope)));
            Absent(s'.rev, class_, scope, s'.now) && s'.calls == s.calls
  {}
}
