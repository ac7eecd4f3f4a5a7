/**
  The two revocation stores (internal/storage/revocation_memory.go, revocation_redis.go) and the
  timed specification both are meant to implement: a class is revoked for an epoch at an instant
  if the latest decision about that epoch, or about all epochs, is a revocation still in force.
 */
module Revocation {
  import opened Wrappers
  import opened Names

  datatype Entry = Entry(class_: string, epoch: string, reason: string, revokedAt: int, until: Option<int>, revokedBy: string)

  /** In force up to and including the deadline; without a deadline, for ever. */
  predicate Live(until: Option<int>, now: int) {
    until.Some? ==> now <= until.value
  }

  // ----- In memory: the deadline is kept in the entry and compared on every read -----

  type MemoryState = map<string, Entry>

  function MemoryRevoke(m: MemoryState, e: Entry): MemoryState {
    m[MemoryKey(e.class_, e.epoch) := e]
  }

  function MemoryUnrevoke(m: MemoryState, class_: string, epoch: string): MemoryState {
    m - {MemoryKey(class_, epoch)}
  }

  /** The entry that makes the answer "revoked", if there is one. */
  function MemoryIsRevoked(m: MemoryState, class_: string, epoch: string, now: int): Option<Entry> {
    var key, all := MemoryKey(class_, epoch), MemoryKey(class_, "");
    if key in m then
      if Live(m[key].until, now) then Some(m[key]) else None
    else if all in m && Live(m[all].until, now) then Some(m[all])
    else None
  }

  class InMemoryRevocationStore {
    var store: MemoryState

    constructor ()
      ensures store == map[]
    {
      store := map[];
    }

    method RevokeClass(class_: string, epoch: string, reason: string, revokedBy: string, until: Option<int>, now: int)
      modifies this
      ensures store == MemoryRevoke(old(store), Entry(class_, epoch, reason, now, until, revokedBy))
    {
      var key := MemoryKey(class_, epoch);
      store := store[key := Entry(class_, epoch, reason, now, until, revokedBy)];
    }

    method IsRevoked(class_: string, epoch: string, now: int) returns (revoked: bool, entry: Option<Entry>)
      ensures entry == MemoryIsRevoked(store, class_, epoch, now) && revoked == entry.Some?
    {
      var key := MemoryKey(class_, epoch);
      if key in store {
        if store[key].until.Some? && now > store[key].until.value {
          return false, None;
        }
        return true, Some(store[key]);
      }
      key := MemoryKey(class_, "");
      if key in store {
        if store[key].until.Some? && now > store[key].until.value {
          return false, None;
        }
        return true, Some(store[key]);
      }
      return false, None;
    }

    method UnrevokeClass(class_: string, epoch: string)
      modifies this
      ensures store == MemoryUnrevoke(old(store), class_, epoch)
    {
      store := store - {MemoryKey(class_, epoch)};
    }

    method Close()
      modifies this
      ensures store == map[]
    {
      store := map[];
    }
  }

  // ----- In Redis: the deadline becomes the time to live of the key -----

  // The time to live is what is left until the deadline when the server computes it, and counts from
  // when Redis executes the command. A key whose command took `delay` outlives its deadline by that.

  datatype Stored = Stored(entry: Entry, deadline: Option<int>)
  type RedisState = map<string, Stored>

  function Get(m: RedisState, key: string, now: int): Option<Entry> {
    if key in m && Live(m[key].deadline, now) then Some(m[key].entry) else None
  }

  /** `e.revokedAt` is when the server computed the time to live; Redis executes `delay` later. */
  function RedisRevoke(m: RedisState, e: Entry, delay: nat): Result<RedisState, string> {
    if e.until.Some? && e.until.value - e.revokedAt <= 0 then Err("revoked_until must be in the future")
    else
      var executed := e.revokedAt + delay;
      var deadline := if e.until.Some? then Some(executed + (e.until.value - e.revokedAt)) else None;
      Ok(m[RedisKey(e.class_, e.epoch) := Stored(e, deadline)])
  }

  function RedisUnrevoke(m: RedisState, class_: string, epoch: string): RedisState {
    m - {RedisKey(class_, epoch)}
  }

  function ReadClassKey(m: RedisState, class_: string, now: int): Option<Entry> {
    Get(m, RedisKey(class_, ""), now)
  }

  /**
    The answer of a store that nobody writes meanwhile: the epoch's key is read at `asked` and an
    entry compared with the clock at `compared`; without one the class-wide key is read at `again`.
   */
  function RedisAnswer(m: RedisState, class_: string, epoch: string, asked: int, compared: int, again: int): Option<Entry> {
    match Get(m, RedisKey(class_, epoch), asked)
    case Some(e) => if Live(e.until, compared) then Some(e) else None
    case None => ReadClassKey(m, class_, again)
  }

  /** All of it at one instant. */
  function RedisIsRevoked(m: RedisState, class_: string, epoch: string, now: int): Option<Entry> {
    RedisAnswer(m, class_, epoch, now, now, now)
  }

  class RedisRevocationStore {
    var remote: RedisState

    constructor ()
      ensures remote == map[]
    {
      remote := map[];
    }

    /** `delay` is the time the command takes to reach Redis. */
    method RevokeClass(class_: string, epoch: string, reason: string, revokedBy: string, until: Option<int>, now: int, delay: nat)
      returns (r: Result<(), string>)
      modifies this
      ensures var e := Entry(class_, epoch, reason, now, until, revokedBy);
              match RedisRevoke(old(remote), e, delay)
              case Ok(m) => r.Ok? && remote == m
              case Err(msg) => r == Err(msg) && remote == old(remote)
    {
      var key := RedisKey(class_, epoch);
      var entry := Entry(class_, epoch, reason, now, until, revokedBy);
      var deadline := None;
      if until.Some? {
        var ttl := until.value - now;
        if ttl <= 0 {
          return Err("revoked_until must be in the future");
        }
        deadline := Some(now + delay + ttl);
      }
      remote := remote[key := Stored(entry, deadline)];
      return Ok(());
    }

    method IsRevoked(class_: string, epoch: string, asked: int, compared: int, again: int) returns (revoked: bool, entry: Option<Entry>)
      ensures entry == RedisAnswer(remote, class_, epoch, asked, compared, again) && revoked == entry.Some?
    {
      var key := RedisKey(class_, epoch);
      if key in remote && Live(remote[key].deadline, asked) {
        var e := remote[key].entry;
        if e.until.Some? && compared > e.until.value {
          return false, None;
        }
        return true, Some(e);
      }
      key := RedisKey(class_, "");
      if key in remote && Live(remote[key].deadline, again) {
        return true, Some(remote[key].entry);
      }
      return false, None;
    }

    method UnrevokeClass(class_: string, epoch: string)
      modifies this
      ensures remote == RedisUnrevoke(old(remote), class_, epoch)
    {
      remote := remote - {RedisKey(class_, epoch)};
    }
  }

  // ----- The timed specification, on histories of decisions -----

  /** `delay` matters to Redis only. */
  datatype Decision =
    | Revoke(entry: Entry, delay: nat)
    | Unrevoke(class_: string, epoch: string)

  datatype History = Nothing | Then(before: History, last: Decision)

  predicate About(d: Decision, class_: string, epoch: string) {
    match d
    case Revoke(e, _) => e.class_ == class_ && e.epoch == epoch
    case Unrevoke(c, e) => c == class_ && e == epoch
  }

  /** The entry the latest decision about exactly this class and scope left behind. */
  function Latest(h: History, class_: string, epoch: string): Option<Entry> {
    match h
    case Nothing => None
    case Then(before, d) =>
      if !About(d, class_, epoch) then Latest(before, class_, epoch)
      else if d.Revoke? then Some(d.entry)
      else None
  }

  /** How long the command behind that entry took. */
  function Delay(h: History, class_: string, epoch: string): nat {
    match h
    case Nothing => 0
    case Then(before, d) =>
      if !About(d, class_, epoch) then Delay(before, class_, epoch)
      else if d.Revoke? then d.delay
      else 0
  }

  predicate InForce(h: History, class_: string, epoch: string, now: int) {
    Latest(h, class_, epoch).Some? && Live(Latest(h, class_, epoch).value.until, now)
  }

  /** The specification: the class is revoked for this epoch, or for all of them. */
  predicate Revoked(h: History, class_: string, epoch: string, now: int) {
    InForce(h, class_, epoch, now) || InForce(h, class_, "", now)
  }

  /** Decisions the administration interface lets through, each dated before its own deadline. */
  predicate WellDated(h: History) {
    h.Then? ==>
      && WellDated(h.before)
      && match h.last
         case Revoke(e, _) =>
           ValidClass(e.class_) && ValidScope(e.epoch) && (e.until.Some? ==> e.revokedAt < e.until.value)
         case Unrevoke(c, s) => ValidClass(c) && ValidScope(s)
  }

  function InMemory(h: History): MemoryState {
    match h
    case Nothing => map[]
    case Then(before, Revoke(e, _)) => MemoryRevoke(InMemory(before), e)
    case Then(before, Unrevoke(c, s)) => MemoryUnrevoke(InMemory(before), c, s)
  }

  function InRedis(h: History): RedisState {
    match h
    case Nothing => map[]
    case Then(before, Revoke(e, delay)) =>
      (match RedisRevoke(InRedis(before), e, delay)
       case Ok(m) => m
       case Err(_) => InRedis(before))
    case Then(before, Unrevoke(c, s)) => RedisUnrevoke(InRedis(before), c, s)
  }

  lemma {:induction false} MemoryHolds(h: History, class_: string, epoch: string)
    requires WellDated(h) && ValidClass(class_) && ValidScope(epoch)
    ensures var key := MemoryKey(class_, epoch);
            && (key in InMemory(h) <==> Latest(h, class_, epoch).Some?)
            && (key in InMemory(h) ==> InMemory(h)[key] == Latest(h, class_, epoch).value)
  {
    if h.Nothing? {
    } else {
      MemoryHolds(h.before, class_, epoch);
      match h.last
      case Revoke(e, _) => ValidKeys(class_, epoch, e.class_, e.epoch);
      case Unrevoke(c, s) => ValidKeys(class_, epoch, c, s);
    }
  }

  /** The deadline of the Redis key of an entry whose command took `delay`. */
  function Deadline(e: Entry, delay: nat): Option<int> {
    match e.until
    case None => None
    case Some(u) => Some(u + delay)
  }

  lemma {:induction false} RedisHolds(h: History, class_: string, epoch: string)
    requires WellDated(h) && ValidClass(class_) && ValidScope(epoch)
    ensures var key, latest := RedisKey(class_, epoch), Latest(h, class_, epoch);
            && (key in InRedis(h) <==> latest.Some?)
            && (key in InRedis(h) ==> InRedis(h)[key] == Stored(latest.value, Deadline(latest.value, Delay(h, class_, epoch))))
  {
    if h.Nothing? {
    } else {
      RedisHolds(h.before, class_, epoch);
      match h.last
      case Revoke(e, _) => ValidKeys(class_, epoch, e.class_, e.epoch);
      case Unrevoke(c, s) => ValidKeys(class_, epoch, c, s);
    }
  }

  /** An expired entry for the epoch stands in front of a class-wide one still in force. */
  predicate Hidden(h: History, class_: string, epoch: string, now: int) {
    && Latest(h, class_, epoch).Some? && !Live(Latest(h, class_, epoch).value.until, now)
    && InForce(h, class_, "", now)
  }

  /** The in-memory store meets the specification exactly while nothing is hidden. */
  lemma MemoryRefinesExact(h: History, class_: string, epoch: string, now: int)
    requires WellDated(h) && ValidClass(class_) && ValidEpoch(epoch)
    ensures (MemoryIsRevoked(InMemory(h), class_, epoch, now).Some? <==> Revoked(h, class_, epoch, now))
       <==> !Hidden(h, class_, epoch, now)
  {
    MemoryHolds(h, class_, epoch);
    MemoryHolds(h, class_, "");
  }

  /** The entry has expired and its Redis key, stored late, has not. */
  predicate Lingers(h: History, class_: string, epoch: string, now: int) {
    && Latest(h, class_, epoch).Some? && !Live(Latest(h, class_, epoch).value.until, now)
    && Live(Deadline(Latest(h, class_, epoch).value, Delay(h, class_, epoch)), now)
  }

  /**
    How a key that outlives its deadline shows: the epoch's hides a class-wide revocation in force,
    and the class-wide one is believed, since that read compares no deadline.
   */
  predicate Strays(h: History, class_: string, epoch: string, now: int) {
    if Lingers(h, class_, epoch, now) then InForce(h, class_, "", now)
    else !InForce(h, class_, epoch, now) && Lingers(h, class_, "", now)
  }

  /** The Redis store, read undisturbed, meets the specification exactly while no key goes astray. */
  lemma RedisRefinesExact(h: History, class_: string, epoch: string, now: int)
    requires WellDated(h) && ValidClass(class_) && ValidEpoch(epoch)
    ensures (RedisIsRevoked(InRedis(h), class_, epoch, now).Some? <==> Revoked(h, class_, epoch, now))
       <==> !Strays(h, class_, epoch, now)
  {
    RedisHolds(h, class_, epoch);
    RedisHolds(h, class_, "");
  }

  /** Every command was executed at the instant its time to live was computed. */
  predicate Prompt(h: History) {
    h.Then? ==> Prompt(h.before) && (h.last.Revoke? ==> h.last.delay == 0)
  }

  lemma {:induction false} PromptDelay(h: History, class_: string, epoch: string)
    requires Prompt(h)
    ensures Delay(h, class_, epoch) == 0
  {
    if h.Nothing? {
    } else {
      PromptDelay(h.before, class_, epoch);
    }
  }

  /** With prompt commands it meets the specification on every history. */
  lemma RedisRefines(h: History, class_: string, epoch: string, now: int)
    requires WellDated(h) && Prompt(h) && ValidClass(class_) && ValidEpoch(epoch)
    ensures RedisIsRevoked(InRedis(h), class_, epoch, now).Some? <==> Revoked(h, class_, epoch, now)
  {
    PromptDelay(h, class_, epoch);
    PromptDelay(h, class_, "");
    RedisRefinesExact(h, class_, epoch, now);
  }

  /**
    Both ways of going astray. All epochs of a class are revoked until 10 by a command that took 5:
    at 12 Redis still refuses. One epoch revoked likewise and all epochs for good: at 12 Redis lets
    that epoch in.
   */
  lemma LateKeysStray()
    ensures var late := Then(Nothing, Revoke(Entry("c", "", "all", 1, Some(10), "admin"), 5));
            && WellDated(late) && !Revoked(late, "c", "2026-01", 12)
            && RedisIsRevoked(InRedis(late), "c", "2026-01", 12).Some?
    ensures var all := Then(Nothing, Revoke(Entry("c", "", "all", 1, None, "admin"), 0));
            var late := Then(all, Revoke(Entry("c", "2026-01", "one", 2, Some(10), "admin"), 5));
            && WellDated(late) && Revoked(late, "c", "2026-01", 12)
            && RedisIsRevoked(InRedis(late), "c", "2026-01", 12) == None
  {
    assert ValidEpoch("2026-01") && ValidClass("c");
    var late := Then(Nothing, Revoke(Entry("c", "", "all", 1, Some(10), "admin"), 5));
    assert Lingers(late, "c", "", 12);
    RedisRefinesExact(late, "c", "2026-01", 12);
    var all := Then(Nothing, Revoke(Entry("c", "", "all", 1, None, "admin"), 0));
    assert WellDated(all) && Latest(all, "c", "").Some?;
    var both := Then(all, Revoke(Entry("c", "2026-01", "one", 2, Some(10), "admin"), 5));
    assert Lingers(both, "c", "2026-01", 12) && InForce(both, "c", "", 12);
    RedisRefinesExact(both, "c", "2026-01", 12);
  }

  /**
    Whichever store answers "revoked", the entry it returns is the latest for its scope and in
    force, but for a class-wide key of Redis that outlives its deadline.
   */
  lemma AnswersAreInForce(h: History, class_: string, epoch: string, now: int)
    requires WellDated(h) && ValidClass(class_) && ValidEpoch(epoch)
    ensures forall e | MemoryIsRevoked(InMemory(h), class_, epoch, now) == Some(e) ::
              Live(e.until, now) && (Latest(h, class_, epoch) == Some(e) || Latest(h, class_, "") == Some(e))
    ensures forall e | RedisIsRevoked(InRedis(h), class_, epoch, now) == Some(e) ::
              || (Latest(h, class_, epoch) == Some(e) && Live(e.until, now))
              || (Latest(h, class_, "") == Some(e) && (Live(e.until, now) || Lingers(h, class_, "", now)))
  {
    MemoryHolds(h, class_, epoch);
    MemoryHolds(h, class_, "");
    RedisHolds(h, class_, epoch);
    RedisHolds(h, class_, "");
  }

  /**
    The diverging state: all epochs of a class revoked for good, then one epoch until 10. At 11
    that epoch's credentials are accepted again in memory, and not in Redis.
   */
  lemma StoresDiverge()
    ensures var h := Then(Then(Nothing,
                Revoke(Entry("c", "", "all", 1, None, "admin"), 0)),
                Revoke(Entry("c", "2026-01", "one", 2, Some(10), "admin"), 0));
            && WellDated(h) && Revoked(h, "c", "2026-01", 11) && Hidden(h, "c", "2026-01", 11)
            && MemoryIsRevoked(InMemory(h), "c", "2026-01", 11) == None
            && RedisIsRevoked(InRedis(h), "c", "2026-01", 11).Some?
  {
    var g := Then(Nothing, Revoke(Entry("c", "", "all", 1, None, "admin"), 0));
    var h := Then(g, Revoke(Entry("c", "2026-01", "one", 2, Some(10), "admin"), 0));
    assert ValidEpoch("2026-01") && ValidClass("c");
    assert WellDated(g);
    assert Latest(g, "c", "") == Some(Entry("c", "", "all", 1, None, "admin"));
    assert Latest(h, "c", "") == Latest(g, "c", "");
    MemoryRefinesExact(h, "c", "2026-01", 11);
    RedisRefines(h, "c", "2026-01", 11);
  }
}
