/**
 The token-bucket limiter: buckets refill with time, a request spends one token, buckets idle
 for ten minutes are deleted, and the store is bounded by dropping the least recently
 refilled buckets.

 Amounts are integers in units of 1/60000 token, so that one millisecond refills `rpm` units.
 Times are milliseconds. A request reads the clock up to three times, in this order: for the
 periodic cleanup, for its own bucket, and for making room.
 */
module RateLimiter {
  import opened Base

  const TOKEN: nat := 60000
  const CLEANUP_INTERVAL_MS: nat := 5 * 60 * 1000
  const ENTRY_MAX_AGE_MS: nat := 10 * 60 * 1000
  const DEFAULT_MAX_BUCKETS: nat := 20_000

  datatype Config = Config(rpm: nat, burst: nat, maxBuckets: nat)

  function Configure(rpm: nat, burstSize: Option<nat>, maxBuckets: Option<nat>): Config {
    Config(rpm,
           if burstSize.Some? then burstSize.value else rpm,
           if maxBuckets.Some? then maxBuckets.value else DEFAULT_MAX_BUCKETS)
  }

  datatype Entry = Entry(tokens: int, lastRefill: int)

  type Store = map<string, Entry>

  datatype Snapshot = Snapshot(store: Store, lastCleanup: int)

  datatype Decision = Admitted(remaining: nat) | Refused(retryAfter: Option<nat>)

  // `victims` are the buckets the least-recently-refilled phase drops, should it run.
  datatype Request = Request(bucket: string, cleanupAt: int, at: int, roomAt: int, victims: set<string>)

  function IpBucketKey(ip: string): string {
    "ip:" + ip
  }

  // None: the resolver threw. An empty key also falls back to the peer address.
  function BucketOf(resolved: Option<string>, ip: string): string {
    if resolved.Some? && resolved.value != "" then resolved.value else IpBucketKey(ip)
  }

  // ---------------------------------------------------------------------------
  // One request
  // ---------------------------------------------------------------------------

  function Min(a: int, b: int): int {
    if a <= b then a else b
  }

  function Full(c: Config): nat {
    c.burst * TOKEN
  }

  function Gain(c: Config, ms: int): int {
    ms * c.rpm
  }

  function Refilled(c: Config, e: Entry, now: int): int {
    Min(Full(c), e.tokens + Gain(c, now - e.lastRefill))
  }

  function CeilDiv(a: int, b: int): int
    requires b > 0
  {
    (a + b - 1) / b
  }

  predicate Stale(e: Entry, now: int) {
    now - e.lastRefill > ENTRY_MAX_AGE_MS
  }

  function DropStale(store: Store, now: int): Store {
    map k | k in store && !Stale(store[k], now) :: store[k]
  }

  function Cleanup(s: Snapshot, now: int): Snapshot {
    if now - s.lastCleanup < CLEANUP_INTERVAL_MS then s else Snapshot(DropStale(s.store, now), now)
  }

  function MakeRoom(store: Store, maxBuckets: nat, now: int, victims: set<string>): Store {
    if |store| < maxBuckets then store
    else
      var kept := DropStale(store, now);
      if |kept| < maxBuckets then kept else kept - victims
  }

  // The buckets the drop phase may choose: as many as needed, none refilled later than a
  // bucket that stays.
  ghost predicate LeastRecent(store: Store, maxBuckets: nat, victims: set<string>) {
    && victims <= store.Keys
    && |victims| == Min(|store|, |store| - maxBuckets + 1)
    && forall v, k | v in victims && k in store.Keys - victims :: store[v].lastRefill <= store[k].lastRefill
  }

  ghost predicate ValidVictims(store: Store, maxBuckets: nat, now: int, victims: set<string>) {
    |store| >= maxBuckets && |DropStale(store, now)| >= maxBuckets ==>
      LeastRecent(DropStale(store, now), maxBuckets, victims)
  }

  // The decision for a bucket that holds `tokens` after its refill.
  function Decide(c: Config, tokens: int): Decision {
    if tokens >= TOKEN then
      var remaining := tokens / TOKEN - 1;
      Admitted(if remaining >= 0 then remaining else 0)
    else if c.rpm == 0 then Refused(None)
    else
      var secs := CeilDiv(TOKEN - tokens, c.rpm * 1000);
      Refused(Some(if secs >= 0 then secs else 0))
  }

  function Spend(c: Config, e: Entry, now: int): Entry {
    var tokens := Refilled(c, e, now);
    Entry(if tokens >= TOKEN then tokens - TOKEN else tokens, now)
  }

  function Opened(c: Config, s: Snapshot, r: Request): Store {
    var store := Cleanup(s, r.cleanupAt).store;
    if r.bucket in store then store
    else MakeRoom(store, c.maxBuckets, r.roomAt, r.victims)[r.bucket := Entry(Full(c), r.at)]
  }

  function Step(c: Config, s: Snapshot, r: Request): Snapshot {
    var store := Opened(c, s, r);
    Snapshot(store[r.bucket := Spend(c, store[r.bucket], r.at)], Cleanup(s, r.cleanupAt).lastCleanup)
  }

  function Answer(c: Config, s: Snapshot, r: Request): Decision {
    Decide(c, Refilled(c, Opened(c, s, r)[r.bucket], r.at))
  }

  // ---------------------------------------------------------------------------
  // The limiter
  // ---------------------------------------------------------------------------

  class Limiter {
    const config: Config
    var store: Store
    var lastCleanup: int

    constructor (rpm: nat, burstSize: Option<nat>, maxBuckets: Option<nat>, now: int)
      ensures config == Configure(rpm, burstSize, maxBuckets) && State() == Snapshot(map[], now)
    {
      config := Configure(rpm, burstSize, maxBuckets);
      store := map[];
      lastCleanup := now;
    }

    function State(): Snapshot
      reads this
    {
      Snapshot(store, lastCleanup)
    }

    method DeleteStale(now: int)
      modifies this`store
      ensures store == DropStale(old(store), now)
    {
      var keys := store.Keys;
      ghost var before := store;
      while keys != {}
        invariant keys <= before.Keys
        invariant forall k :: k in store <==> k in before && (k in keys || !Stale(before[k], now))
        invariant forall k | k in store :: store[k] == before[k]
        decreases keys
      {
        var k :| k in keys;
        keys := keys - {k};
        if Stale(store[k], now) {
          store := store - {k};
        }
      }
    }

    method CleanupStore(now: int)
      modifies this
      ensures State() == Cleanup(old(State()), now)
      ensures forall k :: k in store <==> k in old(store) && (now - old(lastCleanup) < 300_000 || now - old(store)[k].lastRefill <= 600_000)
      ensures forall k | k in store :: store[k] == old(store)[k]
      ensures lastCleanup == if now - old(lastCleanup) < 300_000 then old(lastCleanup) else now
    {
      if now - lastCleanup < CLEANUP_INTERVAL_MS {
        return;
      }
      lastCleanup := now;
      DeleteStale(now);
    }

    method Oldest() returns (oldest: string)
      requires store != map[]
      ensures oldest in store
      ensures forall k | k in store :: store[oldest].lastRefill <= store[k].lastRefill
    {
      var keys := store.Keys;
      assert exists k :: k in keys;
      oldest :| oldest in keys;
      while keys != {}
        invariant keys <= store.Keys && oldest in store
        invariant forall k | k in store.Keys - keys :: store[oldest].lastRefill <= store[k].lastRefill
        decreases keys
      {
        var k :| k in keys;
        keys := keys - {k};
        if store[k].lastRefill < store[oldest].lastRefill {
          oldest := k;
        }
      }
    }

    method MakeRoomFor(now: int) returns (ghost victims: set<string>)
      modifies this`store
      ensures ValidVictims(old(store), config.maxBuckets, now, victims)
      ensures store == MakeRoom(old(store), config.maxBuckets, now, victims)
      ensures |old(store)| < config.maxBuckets ==> store == old(store)
      ensures forall k | k in store :: k in old(store) && store[k] == old(store)[k]
      ensures |old(store)| >= config.maxBuckets ==> forall k | k in store :: now - store[k].lastRefill <= 600_000
      ensures (exists k | k in old(store) && k !in store :: now - old(store)[k].lastRefill <= 600_000) ==>
                |store| == (if config.maxBuckets > 0 then config.maxBuckets - 1 else 0)
    {
      victims := {};
      ghost var before := store;
      if |store| < config.maxBuckets {
        return;
      }
      DeleteStale(now);
      if |store| < config.maxBuckets {
        return;
      }
      victims := EvictOldest();
      EvictedSize(DropStale(before, now), config.maxBuckets, victims);
    }

    method EvictOldest() returns (ghost victims: set<string>)
      requires |store| >= config.maxBuckets
      modifies this`store
      ensures LeastRecent(old(store), config.maxBuckets, victims)
      ensures store == old(store) - victims
    {
      ghost var before := store;
      var drop := |store| - config.maxBuckets + 1;
      victims := {};
      assert before - {} == before;
      while drop > 0 && store != map[]
        invariant store == before - victims && Evicting(before, config.maxBuckets, victims, drop)
        decreases drop
      {
        var k := Oldest();
        EvictOne(before, config.maxBuckets, victims, drop, k);
        victims := victims + {k};
        store := store - {k};
        drop := drop - 1;
      }
      EvictDone(before, config.maxBuckets, victims, drop);
    }

    method Handle(resolved: Option<string>, ip: string, cleanupAt: int, at: int, roomAt: int)
      returns (decision: Decision, ghost request: Request)
      modifies this
      ensures request == Request(BucketOf(resolved, ip), cleanupAt, at, roomAt, request.victims)
      ensures request.bucket !in Cleanup(old(State()), cleanupAt).store ==>
                ValidVictims(Cleanup(old(State()), cleanupAt).store, config.maxBuckets, roomAt, request.victims)
      ensures State() == Step(config, old(State()), request)
      ensures decision == Answer(config, old(State()), request)
      ensures resolved.Some? && resolved.value != "" ==> request.bucket == resolved.value
      ensures resolved.None? || resolved.value == "" ==> request.bucket == "ip:" + ip
      ensures request.bucket in store && store[request.bucket].lastRefill == at
      ensures forall k | k in store && k != request.bucket :: k in old(store) && store[k] == old(store)[k]
      ensures lastCleanup == if cleanupAt - old(lastCleanup) < 300_000 then old(lastCleanup) else cleanupAt
    {
      ghost var victims := {};
      CleanupStore(cleanupAt);
      var bucket := BucketOf(resolved, ip);
      if bucket !in store {
        victims := MakeRoomFor(roomAt);
        store := store[bucket := Entry(Full(config), at)];
      }
      request := Request(bucket, cleanupAt, at, roomAt, victims);
      var entry := store[bucket];
      var tokens := Min(Full(config), entry.tokens + Gain(config, at - entry.lastRefill));
      decision := Decide(config, tokens);
      if tokens >= TOKEN {
        store := store[bucket := Entry(tokens - TOKEN, at)];
      } else {
        store := store[bucket := Entry(tokens, at)];
      }
    }
  }

  lemma EvictedSize(kept: Store, maxBuckets: nat, victims: set<string>)
    requires |kept| >= maxBuckets && LeastRecent(kept, maxBuckets, victims)
    ensures |kept - victims| == maxBuckets - 1 || |kept - victims| == maxBuckets == 0
  {
    assert (kept - victims).Keys == kept.Keys - victims;
    assert |kept.Keys - victims| == |kept.Keys| - |victims|;
  }

  // Part of the way: `drop` buckets are still to go, and none that went is younger.
  ghost predicate Evicting(before: Store, maxBuckets: nat, victims: set<string>, drop: int) {
    && victims <= before.Keys && 0 <= drop == |before| - maxBuckets + 1 - |victims|
    && forall v, k | v in victims && k in before.Keys - victims :: before[v].lastRefill <= before[k].lastRefill
  }

  lemma EvictOne(before: Store, maxBuckets: nat, victims: set<string>, drop: int, k: string)
    requires Evicting(before, maxBuckets, victims, drop) && drop > 0
    requires k in before.Keys - victims
    requires forall q | q in before.Keys - victims :: before[k].lastRefill <= before[q].lastRefill
    ensures Evicting(before, maxBuckets, victims + {k}, drop - 1)
    ensures before - victims - {k} == before - (victims + {k})
  {
    assert |victims + {k}| == |victims| + 1;
  }

  lemma EvictDone(before: Store, maxBuckets: nat, victims: set<string>, drop: int)
    requires Evicting(before, maxBuckets, victims, drop) && (drop == 0 || before - victims == map[])
    requires |before| >= maxBuckets
    ensures LeastRecent(before, maxBuckets, victims)
  {
    assert |before.Keys| == |victims| + |before.Keys - victims|;
    assert before - victims == map[] ==> (before - victims).Keys == before.Keys - victims == {};
  }
}
