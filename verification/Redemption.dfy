/**
  Redemption as a concurrent system (internal/service/credentials.go, Consume, inside
  internal/api/handlers.go, handleConsume).

  Any number of calls are in flight. Each is a program counter with its local values; a step lets
  one call perform its next action on the shared stores, an administrator decide about a
  revocation, a new call arrive, or time pass. A run is a sequence of steps, in any order.
 */
module Redemption {
  import opened Wrappers
  import opened Names
  import opened Revocation
  import opened Nullifiers

  datatype Request = Request(sigHex: string, witnessHex: string, class_: string, epoch: string)

  /** Which stores the server was started with; a Redis command is retried up to `retries` times. */
  datatype Backend = Memory | Redis(expiration: nat, retries: nat)

  /** Configuration, decoding and cryptography, as deterministic functions of their arguments. */
  datatype Env<!P, !N> = Env(
    backend: Backend,
    supported: seq<string>,
    wellFormed: string -> bool,
    decode: string -> Option<P>,
    key: (string, string) -> Option<nat>,
    verify: (P, P, nat) -> bool,
    nullifier: (string, string, P) -> N)

  datatype Answer = Accepted | Duplicate | Revoked | BadRequest | Unavailable | Internal

  datatype Pc<P, N> =
    | Received                                 // the handler decoded the request
    | Begun                                    // request fields validated; Consume entered
    | EpochOk                                  // epoch supported; about to read revocation
    | EpochKeyFound(entry: Entry)              // Redis only: about to compare the entry read with the clock
    | EpochKeyMissed                           // Redis only: between the two reads
    | NotRevoked
    | Decoded(sig: P, point: P)
    | Keyed(sig: P, point: P, key: nat)
    | Storing(n: N, left: nat)                 // verified; `left` retries remain
    | Replied(isNew: bool)                     // the nullifier store has answered
    | Answered(answer: Answer)                 // Consume has returned
    | Counted(answer: Answer)                  // the handler has recorded the outcome

  /** `win` points into the log of successful insertions: the one whose reply this call received. */
  datatype Call<P, N> = Call(req: Request, pc: Pc<P, N>, win: Option<nat>)

  /** One execution of set-if-absent that found the nullifier absent. */
  datatype Win<N> = Win(tid: nat, n: N, time: nat, expiry: Option<int>)

  /** A command the client has given up waiting for and Redis has not executed yet. */
  datatype Command<N> = Command(tid: nat, n: N)

  datatype RevStore = MemRev(mem: MemoryState) | RedisRev(red: RedisState)

  datatype State<P, N> = State(
    now: nat,
    table: Table<N>,
    rev: RevStore,
    calls: map<nat, Call<P, N>>,
    wins: seq<Win<N>>,
    delayed: seq<Command<N>>,
    success: nat)

  /**
    What the surroundings make of an action: it works, fails cleanly, loses a message, or leaves a
    command on its way when the client stops waiting for it.
   */
  datatype Choice = Go | Fail | LoseReply(retry: bool) | LoseRequest(retry: bool) | Delay(retry: bool)

  datatype Step =
    | Tick(d: nat)
    | Decide(decision: Decision)
    | Invoke(tid: nat, req: Request)
    | Advance(tid: nat, choice: Choice)
    | Arrive(i: nat)

  // ----- The steps -----

  function Init<P, N>(env: Env<P, N>): State<P, N> {
    State(0, map[], if env.backend.Memory? then MemRev(map[]) else RedisRev(map[]), map[], [], [], 0)
  }

  predicate Validated<P, N>(env: Env<P, N>, req: Request) {
    && env.wellFormed(req.sigHex) && env.wellFormed(req.witnessHex)
    && ValidClass(req.class_) && ValidEpoch(req.epoch)
  }

  function Retries<P, N>(env: Env<P, N>): nat {
    if env.backend.Redis? then env.backend.retries else 0
  }

  /** The next program counter of a call that does not touch the nullifier store. */
  function Local<P, N>(env: Env<P, N>, rev: RevStore, now: nat, c: Call<P, N>, choice: Choice): Pc<P, N> {
    var req := c.req;
    match c.pc
    case Received => if Validated(env, req) then Begun else Answered(BadRequest)
    case Begun =>
      if req.class_ == "" || req.epoch == "" || req.epoch !in env.supported then Answered(BadRequest) else EpochOk
    case EpochOk =>
      (match rev
       case MemRev(mem) =>
         if MemoryIsRevoked(mem, req.class_, req.epoch, now).Some? then Answered(Revoked) else NotRevoked
       case RedisRev(red) =>
         if choice.Fail? then Answered(Unavailable)
         else match Get(red, RedisKey(req.class_, req.epoch), now)
           case Some(entry) => EpochKeyFound(entry)
           case None => EpochKeyMissed)
    case EpochKeyFound(entry) => if Live(entry.until, now) then Answered(Revoked) else NotRevoked
    case EpochKeyMissed =>
      if choice.Fail? || rev.MemRev? then Answered(Unavailable)
      else if ReadClassKey(rev.red, req.class_, now).Some? then Answered(Revoked)
      else NotRevoked
    case NotRevoked =>
      (match (env.decode(req.sigHex), env.decode(req.witnessHex))
       case (Some(sig), Some(point)) => Decoded(sig, point)
       case _ => Answered(BadRequest))
    case Decoded(sig, point) =>
      if choice.Fail? then Answered(Internal)
      else (match env.key(req.epoch, req.class_)
            case Some(k) => Keyed(sig, point, k)
            case None => Answered(Internal))
    case Keyed(sig, point, k) =>
      if choice.Fail? then Answered(Unavailable)
      else if !env.verify(sig, point, k) then Answered(BadRequest)
      else Storing(env.nullifier(req.epoch, req.class_, sig), Retries(env))
    case Replied(isNew) => Answered(if isNew then Accepted else Duplicate)
    case Answered(a) => Counted(a)
    case _ => c.pc
  }

  function ExpiryAt<P, N>(env: Env<P, N>, now: nat): Option<int> {
    match env.backend
    case Memory => None
    case Redis(expiration, _) => Expiry(expiration, now)
  }

  /** Set-if-absent on behalf of call `tid`, with an insertion noted in the log. */
  function Execute<P, N>(env: Env<P, N>, s: State<P, N>, tid: nat, n: N): State<P, N> {
    if Present(s.table, n, s.now) then s
    else s.(table := SetIfAbsent(s.table, n, s.now, ExpiryAt(env, s.now)),
            wins := s.wins + [Win(tid, n, s.now, ExpiryAt(env, s.now))])
  }

  /** One attempt at the nullifier store. The in-memory store loses and delays no messages. */
  function Store<P, N>(env: Env<P, N>, s: State<P, N>, tid: nat, choice: Choice): State<P, N>
    requires tid in s.calls && s.calls[tid].pc.Storing?
  {
    var c := s.calls[tid];
    var n, left := c.pc.n, c.pc.left;
    if choice.Fail? then s.(calls := s.calls[tid := c.(pc := Answered(Unavailable))])
    else if choice.Go? then
      var won := !Present(s.table, n, s.now);
      Execute(env, s, tid, n).(calls :=
        s.calls[tid := Call(c.req, Replied(won), if won then Some(|s.wins|) else c.win)])
    else if env.backend.Memory? then s
    else
      var pc := if choice.retry && left > 0 then Storing(n, left - 1) else Answered(Unavailable);
      (if choice.LoseReply? then Execute(env, s, tid, n)
       else if choice.Delay? then s.(delayed := s.delayed + [Command(tid, n)])
       else s).(calls := s.calls[tid := c.(pc := pc)])
  }

  /** A delayed command reaches Redis after all; its reply reaches nobody. */
  function Land<P, N>(env: Env<P, N>, s: State<P, N>, i: nat): State<P, N>
    requires i < |s.delayed|
  {
    Execute(env, s, s.delayed[i].tid, s.delayed[i].n).(delayed := s.delayed[..i] + s.delayed[i + 1..])
  }

  function DecideStep(rev: RevStore, d: Decision, now: nat): RevStore {
    match (rev, d)
    case (MemRev(m), Revoke(e, _)) => MemRev(MemoryRevoke(m, e.(revokedAt := now)))
    case (MemRev(m), Unrevoke(c, s)) => MemRev(MemoryUnrevoke(m, c, s))
    case (RedisRev(m), Revoke(e, delay)) =>
      (match RedisRevoke(m, e.(revokedAt := now - delay), delay)
       case Ok(m') => RedisRev(m')
       case Err(_) => rev)
    case (RedisRev(m), Unrevoke(c, s)) => RedisRev(RedisUnrevoke(m, c, s))
  }

  /** The administration handlers validate the names. */
  predicate Permitted(d: Decision) {
    match d
    case Revoke(e, _) => ValidClass(e.class_) && ValidScope(e.epoch)
    case Unrevoke(c, s) => ValidClass(c) && ValidScope(s)
  }

  function Apply<P, N>(env: Env<P, N>, s: State<P, N>, step: Step): State<P, N> {
    match step
    case Tick(d) => s.(now := s.now + d)
    case Decide(d) => if Permitted(d) then s.(rev := DecideStep(s.rev, d, s.now)) else s
    case Invoke(tid, req) =>
      if tid in s.calls then s else s.(calls := s.calls[tid := Call(req, Received, None)])
    case Advance(tid, choice) =>
      if tid !in s.calls then s
      else if s.calls[tid].pc.Storing? then Store(env, s, tid, choice)
      else
        var c := s.calls[tid];
        s.(calls := s.calls[tid := c.(pc := Local(env, s.rev, s.now, c, choice))],
           success := s.success + if c.pc == Answered(Accepted) then 1 else 0)
    case Arrive(i) => if i < |s.delayed| then Land(env, s, i) else s
  }

  /** The state a run leads to. */
  function After<P, N>(env: Env<P, N>, run: seq<Step>): State<P, N> {
    if run == [] then Init(env) else Apply(env, After(env, run[..|run| - 1]), run[|run| - 1])
  }

  // ----- What a request amounts to -----

  predicate Admissible<P, N>(env: Env<P, N>, req: Request) {
    ValidClass(req.class_) && ValidEpoch(req.epoch) && req.epoch in env.supported
  }

  /** The nullifier of a request that presents a valid credential. */
  function Credential<P, N>(env: Env<P, N>, req: Request): Option<N> {
    match (env.decode(req.sigHex), env.decode(req.witnessHex), env.key(req.epoch, req.class_))
    case (Some(sig), Some(point), Some(k)) =>
      if env.verify(sig, point, k) then Some(env.nullifier(req.epoch, req.class_, sig)) else None
    case _ => None
  }

  predicate Valid<P, N>(env: Env<P, N>, req: Request) {
    Validated(env, req) && Admissible(env, req) && Credential(env, req).Some?
  }

  predicate IsAnswer<P, N>(pc: Pc<P, N>, a: Answer) {
    pc == Answered(a) || pc == Counted(a)
  }

  predicate Finished<P, N>(pc: Pc<P, N>) {
    pc.Answered? || pc.Counted?
  }

  /** The call's latest attempt inserted its nullifier and the call knows. */
  predicate Won<P, N>(pc: Pc<P, N>) {
    pc == Replied(true) || IsAnswer(pc, Accepted)
  }

  /** The call never got as far as the nullifier store. */
  predicate NeverStored<P, N>(pc: Pc<P, N>) {
    || pc.Received? || pc.Begun? || pc.EpochOk? || pc.EpochKeyFound? || pc.EpochKeyMissed?
    || pc.NotRevoked? || pc.Decoded? || pc.Keyed?
    || IsAnswer(pc, Revoked) || IsAnswer(pc, BadRequest) || IsAnswer(pc, Internal)
  }

  /** The call is about to make its first attempt at the nullifier store. */
  predicate FirstAttempt<P, N>(env: Env<P, N>, pc: Pc<P, N>) {
    pc.Storing? && pc.left == Retries(env)
  }

  /** The call has sent no command to the nullifier store. */
  predicate Untried<P, N>(env: Env<P, N>, pc: Pc<P, N>) {
    NeverStored(pc) || FirstAttempt(env, pc)
  }

  // ----- The invariant -----

  /** What a call's program counter says about its request. */
  ghost predicate Progress<P, N>(env: Env<P, N>, c: Call<P, N>) {
    var req := c.req;
    match c.pc
    case Received => true
    case Begun => ValidClass(req.class_) && ValidEpoch(req.epoch)
    case EpochOk => Admissible(env, req)
    case EpochKeyFound(_) => Admissible(env, req) && env.backend.Redis?
    case EpochKeyMissed => Admissible(env, req) && env.backend.Redis?
    case NotRevoked => Admissible(env, req)
    case Decoded(sig, point) =>
      Admissible(env, req) && env.decode(req.sigHex) == Some(sig) && env.decode(req.witnessHex) == Some(point)
    case Keyed(sig, point, k) =>
      && Admissible(env, req) && env.decode(req.sigHex) == Some(sig) && env.decode(req.witnessHex) == Some(point)
      && env.key(req.epoch, req.class_) == Some(k)
    case Storing(n, left) => Admissible(env, req) && Credential(env, req) == Some(n) && left <= Retries(env)
    case Replied(_) => Admissible(env, req) && Credential(env, req).Some?
    case Answered(a) => a.Accepted? || a.Duplicate? ==> Admissible(env, req) && Credential(env, req).Some?
    case Counted(a) => a.Accepted? || a.Duplicate? ==> Admissible(env, req) && Credential(env, req).Some?
  }

  /** How a call relates to the log of insertions. */
  ghost predicate Logged<P, N>(env: Env<P, N>, wins: seq<Win<N>>, tid: nat, c: Call<P, N>) {
    && (Won(c.pc) ==> c.win.Some? && c.win.value < |wins| && wins[c.win.value].tid == tid)
    && (Untried(env, c.pc) || (env.backend.Memory? && !Won(c.pc)) ==> forall i :: 0 <= i < |wins| ==> wins[i].tid != tid)
  }

  /** Every logged insertion is of a valid credential in a supported epoch, by a call that presented it. */
  ghost predicate Genuine<P, N>(env: Env<P, N>, s: State<P, N>, w: Win<N>) {
    && w.tid in s.calls && w.time <= s.now && w.expiry == ExpiryAt(env, w.time)
    && Admissible(env, s.calls[w.tid].req) && Credential(env, s.calls[w.tid].req) == Some(w.n)
  }

  /** An insertion follows an earlier one of the same nullifier only after that has expired. */
  ghost predicate Spaced<N>(w: Win<N>, w': Win<N>) {
    w.n == w'.n ==> w.expiry.Some? && w.expiry.value < w'.time
  }

  /** The table the log leaves behind. */
  function TableOf<N>(wins: seq<Win<N>>): Table<N> {
    if wins == [] then map[] else TableOf(wins[..|wins| - 1])[wins[|wins| - 1].n := wins[|wins| - 1].expiry]
  }

  function CountedSet<P(==), N(==)>(s: State<P, N>): set<nat> {
    set tid | tid in s.calls && s.calls[tid].pc == Counted(Accepted)
  }

  /** A key is there at least as long as its entry is in force. */
  predicate Outlives(stored: Stored) {
    match stored.entry.until
    case None => stored.deadline == None
    case Some(u) => stored.deadline.Some? && u <= stored.deadline.value
  }

  ghost predicate RevOk<P, N>(env: Env<P, N>, rev: RevStore) {
    && (rev.MemRev? <==> env.backend.Memory?)
    && (rev.RedisRev? ==> forall k :: k in rev.red ==> Outlives(rev.red[k]))
  }

  ghost predicate CallsOk<P, N>(env: Env<P, N>, s: State<P, N>) {
    forall tid :: tid in s.calls ==> Progress(env, s.calls[tid]) && Logged(env, s.wins, tid, s.calls[tid])
  }

  ghost predicate LogOk<P, N>(env: Env<P, N>, s: State<P, N>) {
    && s.table == TableOf(s.wins)
    && (forall i :: 0 <= i < |s.wins| ==> Genuine(env, s, s.wins[i]))
    && (forall i, j :: 0 <= i < j < |s.wins| ==> Spaced(s.wins[i], s.wins[j]))
  }

  /** A delayed command carries the valid credential of a call that has sent it. */
  ghost predicate Sent<P, N>(env: Env<P, N>, s: State<P, N>, d: Command<N>) {
    && env.backend.Redis? && d.tid in s.calls && !Untried(env, s.calls[d.tid].pc)
    && Admissible(env, s.calls[d.tid].req) && Credential(env, s.calls[d.tid].req) == Some(d.n)
  }

  ghost predicate DelayedOk<P, N>(env: Env<P, N>, s: State<P, N>) {
    forall i :: 0 <= i < |s.delayed| ==> Sent(env, s, s.delayed[i])
  }

  ghost predicate Inv<P, N>(env: Env<P, N>, s: State<P, N>) {
    RevOk(env, s.rev) && CallsOk(env, s) && LogOk(env, s) && DelayedOk(env, s) && s.success == |CountedSet(s)|
  }

  // ----- Preservation -----

  lemma {:induction false} AbsentMeansExpired<N>(wins: seq<Win<N>>, n: N, now: int)
    requires forall i, j :: 0 <= i < j < |wins| ==> Spaced(wins[i], wins[j])
    requires forall i :: 0 <= i < |wins| ==> wins[i].time <= now
    requires !Present(TableOf(wins), n, now)
    ensures forall i :: 0 <= i < |wins| && wins[i].n == n ==> wins[i].expiry.Some? && wins[i].expiry.value < now
  {
    if wins == [] {
    } else {
      var last := |wins| - 1;
      if wins[last].n == n {
        assert !Live(wins[last].expiry, now);
        assert forall i :: 0 <= i < last ==> Spaced(wins[i], wins[last]);
      } else {
        var init := wins[..last];
        AbsentMeansExpired(init, n, now);
        assert forall i :: 0 <= i < last ==> init[i] == wins[i];
      }
    }
  }

  /** A log that only grew by insertions of other calls keeps what it said about this one. */
  lemma LoggedExtends<P, N>(env: Env<P, N>, wins: seq<Win<N>>, w: Win<N>, tid: nat, c: Call<P, N>)
    requires Logged(env, wins, tid, c) && w.tid != tid
    ensures Logged(env, wins + [w], tid, c)
  {}

  /** The log and table after a command for `n` of call `tid`, which inserted or found the nullifier. */
  ghost predicate Executed<P, N>(env: Env<P, N>, s: State<P, N>, tid: nat, n: N, s': State<P, N>, won: bool) {
    if won then
      && !Present(s.table, n, s.now)
      && s'.wins == s.wins + [Win(tid, n, s.now, ExpiryAt(env, s.now))]
      && s'.table == s.table[n := ExpiryAt(env, s.now)]
    else s'.wins == s.wins && s'.table == s.table
  }

  ghost predicate KeepsRequests<P, N>(s: State<P, N>, s': State<P, N>) {
    s.now <= s'.now && forall t :: t in s.calls ==> t in s'.calls && s'.calls[t].req == s.calls[t].req
  }

  /** Whenever a command is executed, be it retried or late: an insertion is valid, and all earlier ones have expired. */
  lemma ExecutedLog<P, N>(env: Env<P, N>, s: State<P, N>, tid: nat, n: N, s': State<P, N>, won: bool)
    requires LogOk(env, s) && tid in s.calls
    requires Admissible(env, s.calls[tid].req) && Credential(env, s.calls[tid].req) == Some(n)
    requires KeepsRequests(s, s') && Executed(env, s, tid, n, s', won)
    ensures LogOk(env, s')
  {
    forall i | 0 <= i < |s.wins| ensures Genuine(env, s', s.wins[i]) && s.wins[i].time <= s.now {
      assert Genuine(env, s, s.wins[i]);
    }
    if won {
      var w := Win(tid, n, s.now, ExpiryAt(env, s.now));
      AbsentMeansExpired(s.wins, n, s.now);
      assert s'.wins[..|s.wins|] == s.wins && s'.wins[|s.wins|] == w;
      assert Genuine(env, s', w);
      forall i, j | 0 <= i < j < |s'.wins| ensures Spaced(s'.wins[i], s'.wins[j]) {
        if j < |s.wins| {
          assert Spaced(s.wins[i], s.wins[j]);
        }
      }
    }
  }

  // Steps that leave the nullifier store alone.

  lemma LocalProgress<P, N>(env: Env<P, N>, rev: RevStore, now: nat, c: Call<P, N>, choice: Choice)
    requires RevOk(env, rev) && Progress(env, c) && !c.pc.Storing?
    ensures Progress(env, c.(pc := Local(env, rev, now, c, choice)))
  {}

  lemma LocalLogged<P, N>(env: Env<P, N>, rev: RevStore, now: nat, wins: seq<Win<N>>, tid: nat, c: Call<P, N>, choice: Choice)
    requires Logged(env, wins, tid, c) && !c.pc.Storing?
    ensures Logged(env, wins, tid, c.(pc := Local(env, rev, now, c, choice)))
  {}

  lemma LocalCounted<P, N>(env: Env<P, N>, rev: RevStore, now: nat, c: Call<P, N>, choice: Choice)
    requires !c.pc.Storing?
    ensures Local(env, rev, now, c, choice) == Counted(Accepted) <==> IsAnswer(c.pc, Accepted)
  {}

  lemma LocalTried<P, N>(env: Env<P, N>, rev: RevStore, now: nat, c: Call<P, N>, choice: Choice)
    requires !c.pc.Storing?
    ensures Untried(env, Local(env, rev, now, c, choice)) ==> Untried(env, c.pc)
  {}

  /**
    What a failure does at each position: the revocation store, the seed, and the two looks at the
    request's context. Nothing else of the call changes, and no failure lets it past.
   */
  lemma FailureExact<P, N>(env: Env<P, N>, s: State<P, N>, tid: nat)
    requires RevOk(env, s.rev) && tid in s.calls
    ensures var c, s' := s.calls[tid], Apply(env, s, Advance(tid, Fail));
            && s'.table == s.table && s'.wins == s.wins && s'.delayed == s.delayed && s'.calls[tid].req == c.req
            && ((c.pc.EpochOk? || c.pc.EpochKeyMissed?) && env.backend.Redis? ==> s'.calls[tid].pc == Answered(Unavailable))
            && (c.pc.Decoded? ==> s'.calls[tid].pc == Answered(Internal))
            && (c.pc.Keyed? || c.pc.Storing? ==> s'.calls[tid].pc == Answered(Unavailable))
            && (c.pc.Received? || c.pc.Begun? || c.pc.EpochKeyFound? || c.pc.NotRevoked? || c.pc.Replied? || c.pc.Answered? ==>
                 s' == Apply(env, s, Advance(tid, Go)))
  {}

  lemma ReplaceCall<P, N>(env: Env<P, N>, s: State<P, N>, tid: nat, c: Call<P, N>, success: nat)
    requires CallsOk(env, s) && LogOk(env, s) && tid in s.calls && c.req == s.calls[tid].req
    requires Progress(env, c) && Logged(env, s.wins, tid, c)
    requires DelayedOk(env, s) && (Untried(env, c.pc) ==> Untried(env, s.calls[tid].pc))
    ensures var s' := s.(calls := s.calls[tid := c], success := success); CallsOk(env, s') && LogOk(env, s') && DelayedOk(env, s')
  {
    var s' := s.(calls := s.calls[tid := c], success := success);
    forall i | 0 <= i < |s'.delayed| ensures Sent(env, s', s'.delayed[i]) {
      assert Sent(env, s, s.delayed[i]);
    }
    forall i | 0 <= i < |s'.wins| ensures Genuine(env, s', s'.wins[i]) {
      assert Genuine(env, s, s.wins[i]);
    }
  }

  lemma CountStep<P, N>(s: State<P, N>, tid: nat, c: Call<P, N>, success: nat)
    requires tid in s.calls && (s.calls[tid].pc == Counted(Accepted) ==> c.pc == Counted(Accepted))
    ensures var first := s.calls[tid].pc != Counted(Accepted) && c.pc == Counted(Accepted);
            |CountedSet(s.(calls := s.calls[tid := c], success := success))| == |CountedSet(s)| + if first then 1 else 0
  {
    var s' := s.(calls := s.calls[tid := c], success := success);
    if s.calls[tid].pc != Counted(Accepted) && c.pc == Counted(Accepted) {
      assert CountedSet(s') == CountedSet(s) + {tid};
    } else {
      assert CountedSet(s') == CountedSet(s);
    }
  }

  lemma ReplaceKeepsInv<P, N>(env: Env<P, N>, s: State<P, N>, tid: nat, c: Call<P, N>)
    requires Inv(env, s) && tid in s.calls && c.req == s.calls[tid].req
    requires Progress(env, c) && Logged(env, s.wins, tid, c) && (Untried(env, c.pc) ==> Untried(env, s.calls[tid].pc))
    requires c.pc == Counted(Accepted) <==> IsAnswer(s.calls[tid].pc, Accepted)
    ensures Inv(env, s.(calls := s.calls[tid := c],
                        success := s.success + if s.calls[tid].pc == Answered(Accepted) then 1 else 0))
  {
    var success := s.success + if s.calls[tid].pc == Answered(Accepted) then 1 else 0;
    ReplaceCall(env, s, tid, c, success);
    CountStep(s, tid, c, success);
  }

  /** A local step puts the call into a position that fits in. */
  lemma LocalFits<P, N>(env: Env<P, N>, s: State<P, N>, tid: nat, choice: Choice) returns (c': Call<P, N>)
    requires RevOk(env, s.rev) && CallsOk(env, s) && tid in s.calls && !s.calls[tid].pc.Storing?
    ensures var c := s.calls[tid];
            && c' == c.(pc := Local(env, s.rev, s.now, c, choice))
            && Progress(env, c') && Logged(env, s.wins, tid, c') && (Untried(env, c'.pc) ==> Untried(env, c.pc))
            && (c'.pc == Counted(Accepted) <==> IsAnswer(c.pc, Accepted))
  {
    var c := s.calls[tid];
    c' := c.(pc := Local(env, s.rev, s.now, c, choice));
    LocalProgress(env, s.rev, s.now, c, choice);
    LocalLogged(env, s.rev, s.now, s.wins, tid, c, choice);
    LocalCounted(env, s.rev, s.now, c, choice);
    LocalTried(env, s.rev, s.now, c, choice);
  }

  lemma LocalReplaces<P, N>(env: Env<P, N>, s: State<P, N>, tid: nat, choice: Choice, c': Call<P, N>)
    requires tid in s.calls && !s.calls[tid].pc.Storing?
    requires c' == s.calls[tid].(pc := Local(env, s.rev, s.now, s.calls[tid], choice))
    ensures Apply(env, s, Advance(tid, choice))
         == s.(calls := s.calls[tid := c'], success := s.success + if s.calls[tid].pc == Answered(Accepted) then 1 else 0)
  {}

  lemma LocalStep<P, N>(env: Env<P, N>, s: State<P, N>, tid: nat, choice: Choice)
    requires Inv(env, s) && tid in s.calls && !s.calls[tid].pc.Storing?
    ensures Inv(env, Apply(env, s, Advance(tid, choice)))
  {
    var c' := LocalFits(env, s, tid, choice);
    ReplaceKeepsInv(env, s, tid, c');
    LocalReplaces(env, s, tid, choice, c');
  }

  // Attempts at the nullifier store.

  /** What an attempt can do, whatever happens to its messages. */
  ghost predicate Attempt<P, N>(env: Env<P, N>, s: State<P, N>, tid: nat, s': State<P, N>, won: bool)
    requires tid in s.calls && s.calls[tid].pc.Storing?
  {
    var c := s.calls[tid];
    && tid in s'.calls
    && s' == s.(calls := s.calls[tid := s'.calls[tid]], table := s'.table, wins := s'.wins, delayed := s'.delayed)
    && s'.calls[tid].req == c.req
    && Onward(c.pc, s'.calls[tid].pc, s == s')
    && (s'.delayed == s.delayed || (env.backend.Redis? && s'.delayed == s.delayed + [Command(tid, c.pc.n)]))
    && (Won(s'.calls[tid].pc) ==> won && s'.calls[tid].win == Some(|s.wins|))
    && (won && env.backend.Memory? ==> Won(s'.calls[tid].pc))
    && (s'.calls[tid].pc == Replied(false) ==> Present(s.table, c.pc.n, s.now))
    && Executed(env, s, tid, c.pc.n, s', won)
  }

  /** The call is told, gives up, or tries again with one retry less. */
  ghost predicate Onward<P, N>(pc: Pc<P, N>, pc': Pc<P, N>, stuttered: bool)
    requires pc.Storing?
  {
    || pc'.Replied? || pc' == Answered(Unavailable)
    || (pc.left > 0 && pc' == Storing(pc.n, pc.left - 1))
    || (pc' == pc && stuttered)
  }

  lemma StoreAttempts<P, N>(env: Env<P, N>, s: State<P, N>, tid: nat, choice: Choice) returns (won: bool)
    requires tid in s.calls && s.calls[tid].pc.Storing?
    ensures Attempt(env, s, tid, Store(env, s, tid, choice), won)
    ensures won <==> (choice.Go? || (choice.LoseReply? && env.backend.Redis?)) && !Present(s.table, s.calls[tid].pc.n, s.now)
  {
    won := (choice.Go? || (choice.LoseReply? && env.backend.Redis?)) && !Present(s.table, s.calls[tid].pc.n, s.now);
    var s' := Store(env, s, tid, choice);
    assert s'.calls == s.calls[tid := s'.calls[tid]];
  }

  lemma AttemptCalls<P, N>(env: Env<P, N>, s: State<P, N>, tid: nat, s': State<P, N>, won: bool)
    requires CallsOk(env, s) && tid in s.calls && s.calls[tid].pc.Storing?
    requires Attempt(env, s, tid, s', won)
    ensures CallsOk(env, s')
  {
    forall t | t in s'.calls ensures Progress(env, s'.calls[t]) && Logged(env, s'.wins, t, s'.calls[t]) {
      assert Progress(env, s.calls[t]) && Logged(env, s.wins, t, s.calls[t]);
      if t != tid && won {
        LoggedExtends(env, s.wins, s'.wins[|s.wins|], t, s.calls[t]);
      }
    }
  }

  lemma AttemptDelayed<P, N>(env: Env<P, N>, s: State<P, N>, tid: nat, s': State<P, N>, won: bool)
    requires CallsOk(env, s) && DelayedOk(env, s) && tid in s.calls && s.calls[tid].pc.Storing?
    requires Attempt(env, s, tid, s', won)
    ensures DelayedOk(env, s')
  {
    assert Progress(env, s.calls[tid]);
    forall i | 0 <= i < |s'.delayed| ensures Sent(env, s', s'.delayed[i]) {
      assert i < |s.delayed| ==> Sent(env, s, s.delayed[i]);
    }
  }

  lemma AttemptCounted<P, N>(env: Env<P, N>, s: State<P, N>, tid: nat, s': State<P, N>, won: bool)
    requires tid in s.calls && s.calls[tid].pc.Storing? && Attempt(env, s, tid, s', won)
    ensures CountedSet(s') == CountedSet(s) && s'.success == s.success && s'.rev == s.rev && KeepsRequests(s, s')
    ensures Executed(env, s, tid, s.calls[tid].pc.n, s', won)
  {}

  lemma AttemptKeepsInv<P, N>(env: Env<P, N>, s: State<P, N>, tid: nat, s': State<P, N>, won: bool)
    requires Inv(env, s) && tid in s.calls && s.calls[tid].pc.Storing?
    requires Attempt(env, s, tid, s', won)
    ensures Inv(env, s')
  {
    assert Progress(env, s.calls[tid]);
    AttemptCounted(env, s, tid, s', won);
    ExecutedLog(env, s, tid, s.calls[tid].pc.n, s', won);
    AttemptCalls(env, s, tid, s', won);
    AttemptDelayed(env, s, tid, s', won);
  }

  lemma StoreStep<P, N>(env: Env<P, N>, s: State<P, N>, tid: nat, choice: Choice)
    requires Inv(env, s) && tid in s.calls && s.calls[tid].pc.Storing?
    ensures Inv(env, Store(env, s, tid, choice))
  {
    var won := StoreAttempts(env, s, tid, choice);
    AttemptKeepsInv(env, s, tid, Store(env, s, tid, choice), won);
  }

  // Commands that arrive late.

  lemma LandExecutes<P, N>(env: Env<P, N>, s: State<P, N>, i: nat) returns (won: bool)
    requires i < |s.delayed|
    ensures var s' := Land(env, s, i);
            && s' == s.(table := s'.table, wins := s'.wins, delayed := s'.delayed)
            && Executed(env, s, s.delayed[i].tid, s.delayed[i].n, s', won)
            && forall j :: 0 <= j < |s'.delayed| ==> s'.delayed[j] in s.delayed
    ensures won <==> !Present(s.table, s.delayed[i].n, s.now)
  {
    won := !Present(s.table, s.delayed[i].n, s.now);
  }

  lemma LandKeepsInv<P, N>(env: Env<P, N>, s: State<P, N>, i: nat)
    requires Inv(env, s) && i < |s.delayed|
    ensures Inv(env, Land(env, s, i))
  {
    var d, s' := s.delayed[i], Land(env, s, i);
    var won := LandExecutes(env, s, i);
    assert Sent(env, s, d);
    ExecutedLog(env, s, d.tid, d.n, s', won);
    forall t | t in s'.calls ensures Progress(env, s'.calls[t]) && Logged(env, s'.wins, t, s'.calls[t]) {
      assert Progress(env, s.calls[t]) && Logged(env, s.wins, t, s.calls[t]);
      if t != d.tid && won {
        LoggedExtends(env, s.wins, s'.wins[|s.wins|], t, s.calls[t]);
      }
    }
    forall j | 0 <= j < |s'.delayed| ensures Sent(env, s', s'.delayed[j]) {
      var k :| 0 <= k < |s.delayed| && s.delayed[k] == s'.delayed[j];
      assert Sent(env, s, s.delayed[k]);
    }
    assert CountedSet(s') == CountedSet(s);
  }

  // Steps that no call takes.

  /** Old calls, the store and what is on its way are as they were. */
  lemma LogUnmoved<P, N>(env: Env<P, N>, s: State<P, N>, s': State<P, N>)
    requires LogOk(env, s) && DelayedOk(env, s)
    requires s'.table == s.table && s'.wins == s.wins && s'.delayed == s.delayed && s.now <= s'.now
    requires forall t :: t in s.calls ==> t in s'.calls && s'.calls[t] == s.calls[t]
    ensures LogOk(env, s') && DelayedOk(env, s')
  {
    forall i | 0 <= i < |s'.wins| ensures Genuine(env, s', s'.wins[i]) {
      assert Genuine(env, s, s.wins[i]);
    }
    forall i | 0 <= i < |s'.delayed| ensures Sent(env, s', s'.delayed[i]) {
      assert Sent(env, s, s.delayed[i]);
    }
  }

  lemma TickStep<P, N>(env: Env<P, N>, s: State<P, N>, d: nat)
    requires Inv(env, s)
    ensures Inv(env, Apply(env, s, Tick(d)))
  {
    var s' := s.(now := s.now + d);
    LogUnmoved(env, s, s');
    assert CountedSet(s') == CountedSet(s);
  }

  lemma DecideKeepsRev<P, N>(env: Env<P, N>, rev: RevStore, d: Decision, now: nat)
    requires RevOk(env, rev)
    ensures RevOk(env, DecideStep(rev, d, now))
  {}

  lemma DecisionStep<P, N>(env: Env<P, N>, s: State<P, N>, d: Decision)
    requires Inv(env, s)
    ensures Inv(env, Apply(env, s, Decide(d)))
  {
    var s' := s.(rev := DecideStep(s.rev, d, s.now));
    DecideKeepsRev(env, s.rev, d, s.now);
    LogUnmoved(env, s, s');
    assert CountedSet(s') == CountedSet(s);
  }

  lemma InvokeStep<P, N>(env: Env<P, N>, s: State<P, N>, tid: nat, req: Request)
    requires Inv(env, s)
    ensures Inv(env, Apply(env, s, Invoke(tid, req)))
  {
    if tid !in s.calls {
      var s' := s.(calls := s.calls[tid := Call(req, Received, None)]);
      LogUnmoved(env, s, s');
      forall i | 0 <= i < |s.wins| ensures s.wins[i].tid != tid {
        assert Genuine(env, s, s.wins[i]);
      }
      assert CountedSet(s') == CountedSet(s);
    }
  }

  lemma StepKeepsInv<P, N>(env: Env<P, N>, s: State<P, N>, step: Step)
    requires Inv(env, s)
    ensures Inv(env, Apply(env, s, step))
  {
    match step
    case Advance(tid, choice) =>
      if tid in s.calls {
        if s.calls[tid].pc.Storing? {
          StoreStep(env, s, tid, choice);
        } else {
          LocalStep(env, s, tid, choice);
        }
      }
    case Arrive(i) =>
      if i < |s.delayed| {
        LandKeepsInv(env, s, i);
      }
    case Tick(d) => TickStep(env, s, d);
    case Decide(d) => DecisionStep(env, s, d);
    case Invoke(tid, req) => InvokeStep(env, s, tid, req);
  }

  /** Every state of every run satisfies the invariant. */
  lemma {:induction false} Reachable<P, N>(env: Env<P, N>, run: seq<Step>)
    ensures Inv(env, After(env, run))
  {
    if run == [] {
      assert CountedSet(Init(env)) == {};
    } else {
      Reachable(env, run[..|run| - 1]);
      StepKeepsInv(env, After(env, run[..|run| - 1]), run[|run| - 1]);
    }
  }
}
