/**
  The bounded per-client rate limiter (internal/api/rate_limiter.go): a map of token buckets
  with least-recently-used eviction and idle cleanup.

  Time is in nanoseconds. One token is UNIT = 60 * 10^9 parts, so a limit of `rpm` requests a
  minute refills `rpm` parts a nanosecond and every quantity is an exact integer.
 */
module RateLimiter {
  import opened Wrappers

  const UNIT: int := 60_000_000_000
  const IDLE: int := 600_000_000_000

  datatype Params = Params(rpm: int, burst: int, maxClients: int)
  datatype Bucket = Bucket(tokens: int, last: int)
  datatype Client = Client(limit: Bucket, lastUpdated: int)
  type Clients = map<string, Client>

  // ----- One token bucket (golang.org/x/time/rate) -----

  function Cap(p: Params): int {
    p.burst * UNIT
  }

  function Rate(p: Params): nat {
    if p.rpm < 0 then 0 else p.rpm
  }

  function Min(a: int, b: int): int {
    if a < b then a else b
  }

  function NewBucket(p: Params, now: int): Bucket {
    Bucket(Cap(p), now)
  }

  /** The tokens a bucket holds at `now`; a clock that went backwards refills nothing. */
  function Level(p: Params, b: Bucket, now: int): int {
    Min(Cap(p), b.tokens + (if now < b.last then 0 else now - b.last) * Rate(p))
  }

  predicate Admits(p: Params, b: Bucket, now: int) {
    Level(p, b, now) >= UNIT
  }

  /** A refused request leaves the bucket as it was. */
  function Take(p: Params, b: Bucket, now: int): Bucket {
    if Admits(p, b, now) then Bucket(Level(p, b, now) - UNIT, now) else b
  }

  // ----- The limiter's transitions -----

  /** `k` is the stalest client, and stale at all. */
  predicate LeastRecent(m: Clients, k: string, now: int) {
    k in m && m[k].lastUpdated < now && forall j :: j in m ==> m[k].lastUpdated <= m[j].lastUpdated
  }

  predicate Full(p: Params, m: Clients) {
    p.maxClients > 0 && |m| >= p.maxClients
  }

  /**
    Which eviction a request by `ip` may cause. With several equally stale clients the map's
    iteration order decides; the empty key is found but never deleted.
   */
  predicate VictimOk(p: Params, m: Clients, ip: string, now: int, victim: Option<string>) {
    if ip in m || !Full(p, m) then victim == None
    else match victim
      case Some(k) => k != "" && LeastRecent(m, k, now)
      case None => (forall j :: j in m ==> now <= m[j].lastUpdated) || LeastRecent(m, "", now)
  }

  function Evict(m: Clients, victim: Option<string>): Clients {
    match victim
    case None => m
    case Some(k) => m - {k}
  }

  function BucketOf(p: Params, m: Clients, ip: string, now: int): Bucket {
    if ip in m then m[ip].limit else NewBucket(p, now)
  }

  predicate Allowed(p: Params, m: Clients, ip: string, now: int) {
    Admits(p, BucketOf(p, m, ip, now), now)
  }

  function AfterAllow(p: Params, m: Clients, ip: string, now: int, victim: Option<string>): Clients {
    Evict(m, victim)[ip := Client(Take(p, BucketOf(p, m, ip, now), now), now)]
  }

  predicate IsIdle(c: Client, now: int) {
    now - c.lastUpdated > IDLE
  }

  function AfterCleanup(m: Clients, now: int): Clients {
    map k | k in m && !IsIdle(m[k], now) :: m[k]
  }

  // ----- The limiter itself -----

  class Limiter {
    const p: Params
    const enabled: bool // false: the clients map is nil and every request passes
    var clients: Clients

    constructor (requestsPerMinute: int, burst: int, maxClients: int)
      ensures enabled <==> !(requestsPerMinute == 0 && burst == 0)
      ensures enabled ==> p == Params(requestsPerMinute, if burst < 0 then requestsPerMinute else burst, maxClients)
      ensures clients == map[]
    {
      enabled := !(requestsPerMinute == 0 && burst == 0);
      p := Params(requestsPerMinute, if burst < 0 then requestsPerMinute else burst, maxClients);
      clients := map[];
    }

    /** The scan for the oldest entry: any order of the keys, a strict comparison, starting from now. */
    method OldestKey(now: int) returns (oldestKey: string, found: bool)
      ensures found ==> LeastRecent(clients, oldestKey, now)
      ensures !found ==> oldestKey == "" && forall j :: j in clients ==> now <= clients[j].lastUpdated
    {
      oldestKey, found := "", false;
      var oldest := now;
      var keys := clients.Keys;
      while keys != {}
        invariant keys <= clients.Keys
        invariant oldest <= now
        invariant found ==> oldestKey in clients && clients[oldestKey].lastUpdated == oldest < now
        invariant !found ==> oldestKey == "" && oldest == now
        invariant forall j :: j in clients && j !in keys ==> oldest <= clients[j].lastUpdated
        decreases |keys|
      {
        var k :| k in keys;
        if clients[k].lastUpdated < oldest {
          oldest := clients[k].lastUpdated;
          oldestKey, found := k, true;
        }
        keys := keys - {k};
      }
    }

    /** `ip` is the host part already; `now` is the one clock reading of the call. */
    method Allow(ip: string, now: int) returns (ok: bool, ghost victim: Option<string>)
      modifies this
      ensures !enabled ==> ok && clients == old(clients)
      ensures enabled ==> VictimOk(p, old(clients), ip, now, victim)
      ensures enabled ==> ok == Allowed(p, old(clients), ip, now)
      ensures enabled ==> clients == AfterAllow(p, old(clients), ip, now, victim)
    {
      victim := None;
      if !enabled {
        return true, None;
      }
      var bucket := if ip in clients then clients[ip].limit else NewBucket(p, now);
      if ip !in clients && p.maxClients > 0 && |clients| >= p.maxClients {
        var oldestKey, found := OldestKey(now);
        if oldestKey != "" {
          victim := Some(oldestKey);
          clients := clients - {oldestKey};
        }
      }
      ok := Admits(p, bucket, now);
      clients := clients[ip := Client(Take(p, bucket, now), now)];
    }

    method Cleanup(now: int)
      modifies this
      ensures clients == AfterCleanup(old(clients), now)
    {
      ghost var start := clients;
      var keys := clients.Keys;
      while keys != {}
        invariant keys <= start.Keys && keys <= clients.Keys <= start.Keys
        invariant forall k :: k in clients ==> clients[k] == start[k]
        invariant forall k :: k in start && k !in keys ==> (k in clients <==> !IsIdle(start[k], now))
        decreases |keys|
      {
        var k :| k in keys;
        if IsIdle(clients[k], now) {
          clients := clients - {k};
        }
        keys := keys - {k};
      }
    }
  }
}
