/**
  The two nullifier stores (internal/storage/nullifier_memory.go, nullifier_redis.go) against one
  specification: a set-if-absent table whose entries may expire.
 */
module Nullifiers {
  import opened Wrappers
  import opened Revocation

  /** Each stored nullifier with the last instant at which it is still there. */
  type Table<N> = map<N, Option<int>>

  predicate Present<N>(t: Table<N>, n: N, now: int) {
    n in t && Live(t[n], now)
  }

  function SetIfAbsent<N>(t: Table<N>, n: N, now: int, expiry: Option<int>): Table<N> {
    if Present(t, n, now) then t else t[n := expiry]
  }

  class InMemoryNullifierStore<N(==)> {
    var store: map<N, bool>

    ghost function Contents(): Table<N>
      reads this
    {
      map n | n in store && store[n] :: None
    }

    constructor ()
      ensures Contents() == map[]
    {
      store := map[];
    }

    /** The whole body runs under the lock; a cancelled request is refused first. */
    method CheckAndStore(cancelled: bool, n: N, ghost now: int) returns (r: Result<bool, string>)
      modifies this
      ensures cancelled ==> r.Err? && Contents() == old(Contents())
      ensures !cancelled ==> r == Ok(!Present(old(Contents()), n, now))
      ensures !cancelled ==> Contents() == SetIfAbsent(old(Contents()), n, now, None)
    {
      if cancelled {
        return Err("context canceled");
      }
      if n in store && store[n] {
        return Ok(false);
      }
      store := store[n := true];
      return Ok(true);
    }
  }

  /** What the network does with one attempt. */
  datatype Wire = Delivered | ReplyLost | RequestLost

  /** A zero expiration stores without a time to live. */
  function Expiry(expiration: nat, now: int): Option<int> {
    if expiration == 0 then None else Some(now + expiration)
  }

  class RedisNullifierStore<N(==)> {
    var remote: Table<N>
    var expiration: nat

    constructor (expiration: nat)
      ensures remote == map[] && this.expiration == expiration
    {
      remote := map[];
      this.expiration := expiration;
    }

    /** One SETNX attempt. */
    method CheckAndStore(wire: Wire, n: N, now: int) returns (r: Result<bool, string>)
      modifies this`remote
      ensures wire.RequestLost? ==> remote == old(remote)
      ensures !wire.RequestLost? ==> remote == SetIfAbsent(old(remote), n, now, Expiry(expiration, now))
      ensures if wire.Delivered? then r == Ok(!Present(old(remote), n, now)) else r.Err?
    {
      if wire.RequestLost? {
        return Err("i/o timeout");
      }
      var absent := !(n in remote && Live(remote[n], now));
      if absent {
        remote := remote[n := Expiry(expiration, now)];
      }
      if wire.ReplyLost? {
        return Err("i/o timeout");
      }
      return Ok(absent);
    }

    method SetExpiration(expiration: nat)
      modifies this`expiration
      ensures this.expiration == expiration
    {
      this.expiration := expiration;
    }
  }
}
