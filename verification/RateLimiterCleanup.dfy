/**
 What deleting stale buckets can change: the limiter is compared with one that keeps the store
 bound, dropping the least recently refilled buckets, but never deletes a stale one.
 */
module RateLimiterCleanup {
  import opened Base
  import opened RateLimiter
  import opened RateLimiterRuns

  // ---------------------------------------------------------------------------
  // The limiter without stale deletions
  // ---------------------------------------------------------------------------

  function MakeRoomLru(store: Store, maxBuckets: nat, victims: set<string>): Store {
    if |store| < maxBuckets then store else store - victims
  }

  function OpenedLru(c: Config, store: Store, r: Request): Store {
    if r.bucket in store then store
    else MakeRoomLru(store, c.maxBuckets, r.victims)[r.bucket := Entry(Full(c), r.at)]
  }

  function StepLru(c: Config, store: Store, r: Request): Store {
    var start := OpenedLru(c, store, r);
    start[r.bucket := Spend(c, start[r.bucket], r.at)]
  }

  function AnswerLru(c: Config, store: Store, r: Request): Decision {
    Decide(c, Refilled(c, OpenedLru(c, store, r)[r.bucket], r.at))
  }

  function AnswersLru(c: Config, store: Store, run: seq<Request>): (answers: seq<Decision>)
    ensures |answers| == |run|
    decreases run
  {
    if run == [] then [] else [AnswerLru(c, store, run[0])] + AnswersLru(c, StepLru(c, store, run[0]), run[1..])
  }

  // The same request; each limiter drops victims of its own.
  predicate Twins(r: Request, q: Request) {
    q == r.(victims := q.victims)
  }

  // A request does not take ten minutes from its refill to making room.
  predicate Prompt(r: Request) {
    r.roomAt - r.at <= ENTRY_MAX_AGE_MS
  }

  predicate Oldest(store: Store, k: string) {
    k in store && forall q | q in store :: store[k].lastRefill <= store[q].lastRefill
  }

  predicate HasTie(store: Store) {
    exists k, q | k in store && q in store :: k != q && Oldest(store, k) && Oldest(store, q)
  }

  // Both limiters choose their victims as required; from the same store, with nothing stale in
  // it, they break a tie for the oldest bucket alike.
  ghost predicate FairChoice(c: Config, a: Store, b: Store, r: Request, q: Request) {
    && (r.bucket !in a ==> ValidVictims(a, c.maxBuckets, r.roomAt, r.victims))
    && (q.bucket !in b && |b| >= c.maxBuckets ==> LeastRecent(b, c.maxBuckets, q.victims))
    && (r.bucket !in a && a == b && HasTie(a) && DropStale(a, r.roomAt) == a ==> r.victims == q.victims)
  }

  // The two runs are the same requests, with fair choices throughout.
  ghost predicate Comparable(c: Config, s: Snapshot, b: Store, run: seq<Request>, other: seq<Request>)
    decreases run
  {
    if run == [] || other == [] then run == other
    else
      && Twins(run[0], other[0]) && Prompt(run[0])
      && FairChoice(c, Cleanup(s, run[0].cleanupAt).store, b, run[0], other[0])
      && Comparable(c, Step(c, s, run[0]), StepLru(c, b, other[0]), run[1..], other[1..])
  }

  // ---------------------------------------------------------------------------
  // The invariant
  // ---------------------------------------------------------------------------

  // Whatever b keeps besides a is stale, and older than all that a keeps.
  ghost predicate Outlives(a: Store, b: Store, now: int) {
    && (forall k | k in a :: k in b && b[k] == a[k])
    && (forall k | k in b && k !in a :: Stale(b[k], now))
    && (forall k, q | k in b && k !in a && q in a :: b[k].lastRefill < a[q].lastRefill)
  }

  ghost predicate Related(c: Config, s: Snapshot, b: Store, now: int) {
    Outlives(s.store, b, now) && Valid(c, Snapshot(b, 0), now) && |b| <= Bound(c)
  }

  lemma FewerKeys(a: Store, b: Store)
    requires forall k | k in a :: k in b && b[k] == a[k]
    ensures |a| <= |b| && (|a| == |b| ==> a == b)
  {
    SubsetSize(a.Keys, b.Keys);
    if |a| == |b| {
      assert |b.Keys - a.Keys| == |b.Keys| - |a.Keys|;
      assert b.Keys - a.Keys == {};
    }
  }

  // A store below its bound loses nothing.
  lemma RoomEnough(store: Store, c: Config, now: int, victims: set<string>)
    requires |store| < Bound(c)
    ensures MakeRoom(store, c.maxBuckets, now, victims) == store
  {
    if c.maxBuckets == 0 {
      assert store == map[];
    }
  }

  // From equal stores.
  lemma RoomSame(c: Config, a: Store, now: int, va: set<string>, vb: set<string>)
    requires |a| <= Bound(c) && ValidVictims(a, c.maxBuckets, now, va)
    requires |a| >= c.maxBuckets ==> LeastRecent(a, c.maxBuckets, vb)
    requires HasTie(a) && DropStale(a, now) == a ==> va == vb
    ensures Outlives(MakeRoom(a, c.maxBuckets, now, va), MakeRoomLru(a, c.maxBuckets, vb), now)
    ensures |MakeRoomLru(a, c.maxBuckets, vb)| < Bound(c)
  {
    if |a| >= c.maxBuckets {
      DropsToBound(c, a, vb);
      if DropStale(a, now) != a {
        RoomStale(c, a, now, va, vb);
      } else if !HasTie(a) {
        OneChoice(c, a, va, vb);
      }
    }
  }

  // Without a tie there is only one choice.
  lemma OneChoice(c: Config, a: Store, va: set<string>, vb: set<string>)
    requires c.maxBuckets <= |a| <= Bound(c) && !HasTie(a)
    requires LeastRecent(a, c.maxBuckets, va) && LeastRecent(a, c.maxBuckets, vb)
    ensures a - va == a - vb
  {
    DropsToBound(c, a, va);
    DropsToBound(c, a, vb);
    if c.maxBuckets > 0 {
      var v :| va == {v};
      var w :| vb == {w};
      assert v in va && w in vb;
      assert Oldest(a, v) && Oldest(a, w);
    }
  }

  lemma DropsToBound(c: Config, b: Store, victims: set<string>)
    requires c.maxBuckets <= |b| <= Bound(c) && LeastRecent(b, c.maxBuckets, victims)
    ensures |b - victims| < Bound(c)
    ensures c.maxBuckets > 0 ==> exists v :: victims == {v}
    ensures c.maxBuckets == 0 ==> b - victims == map[]
  {
    assert (b - victims).Keys == b.Keys - victims;
    assert |b.Keys - victims| == |b.Keys| - |victims|;
    if c.maxBuckets > 0 {
      OneElement(victims);
    } else {
      assert b.Keys - victims == {};
    }
  }

  lemma OneElement(s: set<string>)
    requires |s| == 1
    ensures exists v :: s == {v}
  {
    var v :| v in s;
    assert |s - {v}| == 0;
    assert s == {v};
  }

  // Some bucket is stale: both limiters drop a stale one.
  lemma RoomStale(c: Config, a: Store, now: int, va: set<string>, vb: set<string>)
    requires c.maxBuckets <= |a| <= Bound(c) && ValidVictims(a, c.maxBuckets, now, va)
    requires LeastRecent(a, c.maxBuckets, vb) && DropStale(a, now) != a
    ensures Outlives(MakeRoom(a, c.maxBuckets, now, va), a - vb, now)
  {
    var kept := DropStale(a, now);
    FewerKeys(kept, a);
    DropsToBound(c, a, vb);
    if c.maxBuckets == 0 {
      assert (kept - va).Keys == kept.Keys - va;
      assert |kept.Keys - va| == |kept.Keys| - |va|;
      assert kept - va == map[];
    } else {
      assert MakeRoom(a, c.maxBuckets, now, va) == kept;
      var v :| vb == {v};
      assert v in vb && v in a;
      assert exists k :: k in a && k !in kept;
      var w :| w in a && w !in kept;
      assert w != v ==> a[v].lastRefill <= a[w].lastRefill;
      assert Stale(a[v], now);
    }
  }

  // From a larger store the bound drops only what the other one does not keep.
  lemma RoomExtra(c: Config, a: Store, b: Store, now: int, vb: set<string>)
    requires Outlives(a, b, now) && a != b && |b| <= Bound(c)
    requires |b| >= c.maxBuckets ==> LeastRecent(b, c.maxBuckets, vb)
    ensures Outlives(a, MakeRoomLru(b, c.maxBuckets, vb), now)
    ensures |MakeRoomLru(b, c.maxBuckets, vb)| < Bound(c)
  {
    FewerKeys(a, b);
    if |b| >= c.maxBuckets {
      DropsToBound(c, b, vb);
      if c.maxBuckets > 0 {
        var v :| vb == {v};
        assert v in vb && v in b;
        assert exists x :: x in b && x !in a;
        var x :| x in b && x !in a;
        assert x != v ==> b[v].lastRefill <= b[x].lastRefill;
        assert v !in a;
      }
    }
  }

  // ---------------------------------------------------------------------------
  // One request
  // ---------------------------------------------------------------------------

  // What the two limiters find in the bucket and keep besides it.
  ghost predicate OpenedAlike(c: Config, x: Store, y: Store, r: Request) {
    && r.bucket in x && r.bucket in y && |y| <= Bound(c) && Valid(c, Snapshot(y, 0), r.at)
    && Refilled(c, x[r.bucket], r.at) == Refilled(c, y[r.bucket], r.at)
    && Outlives(x - {r.bucket}, y - {r.bucket}, r.roomAt)
    && (forall k | k in y && k !in x :: y[k].lastRefill < r.at)
  }

  // Spending from it keeps them alike.
  lemma SpendAlike(c: Config, x: Store, y: Store, r: Request)
    requires OpenedAlike(c, x, y, r) && r.at <= r.roomAt
    ensures var k := r.bucket;
            var x', y' := x[k := Spend(c, x[k], r.at)], y[k := Spend(c, y[k], r.at)];
            Outlives(x', y', r.roomAt) && Valid(c, Snapshot(y', 0), r.roomAt) && |y'| <= Bound(c)
  {
    var k := r.bucket;
    var e := Spend(c, x[k], r.at);
    var x', y' := x[k := e], y[k := e];
    RefilledBounds(c, y[k], r.at);
    assert y'.Keys == y.Keys;
    forall q | q in y' && q !in x' ensures Stale(y'[q], r.roomAt) && y'[q].lastRefill < r.at {
      assert q in y - {k} && q !in x - {k};
    }
    forall q, p | q in y' && q !in x' && p in x' ensures y'[q].lastRefill < x'[p].lastRefill {
      assert q in y - {k} && q !in x - {k};
      assert p != k ==> p in x - {k};
    }
    forall p | p in x' ensures p in y' && y'[p] == x'[p] {
      assert p != k ==> p in x - {k};
    }
  }

  // The bucket is in both stores.
  lemma OpenKnown(c: Config, a: Store, b: Store, r: Request)
    requires Outlives(a, b, r.cleanupAt) && Valid(c, Snapshot(b, 0), r.cleanupAt) && |b| <= Bound(c)
    requires r.cleanupAt <= r.at <= r.roomAt && r.bucket in a
    ensures OpenedAlike(c, a, b, r)
  {
    Without(a, b, r.bucket, r.cleanupAt, r.roomAt);
  }

  lemma Without(a: Store, b: Store, k: string, now: int, later: int)
    requires Outlives(a, b, now) && now <= later
    ensures Outlives(a - {k}, b - {k}, later)
  {
  }

  // The bucket was deleted as stale: opened anew on one side, full again on the other.
  lemma OpenDeleted(c: Config, a: Store, b: Store, r: Request)
    requires Outlives(a, b, r.cleanupAt) && Valid(c, Snapshot(b, 0), r.cleanupAt) && |b| <= Bound(c)
    requires r.cleanupAt <= r.at <= r.roomAt && Refills(c) && r.bucket !in a && r.bucket in b
    ensures OpenedAlike(c, MakeRoom(a, c.maxBuckets, r.roomAt, r.victims)[r.bucket := Entry(Full(c), r.at)], b, r)
  {
    var k := r.bucket;
    FewerKeys(a, b);
    RoomEnough(a, c, r.roomAt, r.victims);
    StaleIsFull(c, b[k], r.cleanupAt, r.at);
    Without(a, b, k, r.cleanupAt, r.roomAt);
    assert a[k := Entry(Full(c), r.at)] - {k} == a - {k};
  }

  // The bucket is new to both.
  lemma OpenNew(c: Config, a: Store, b: Store, r: Request, q: Request)
    requires Outlives(a, b, r.cleanupAt) && Valid(c, Snapshot(b, 0), r.cleanupAt) && |b| <= Bound(c)
    requires r.cleanupAt <= r.at <= r.roomAt && r.bucket !in b && Twins(r, q) && Prompt(r) && FairChoice(c, a, b, r, q)
    ensures OpenedAlike(c, MakeRoom(a, c.maxBuckets, r.roomAt, r.victims)[r.bucket := Entry(Full(c), r.at)],
                        MakeRoomLru(b, c.maxBuckets, q.victims)[r.bucket := Entry(Full(c), r.at)], r)
  {
    var k := r.bucket;
    var x, y := MakeRoom(a, c.maxBuckets, r.roomAt, r.victims), MakeRoomLru(b, c.maxBuckets, q.victims);
    FewerKeys(a, b);
    if a == b {
      RoomSame(c, a, r.roomAt, r.victims, q.victims);
    } else {
      RoomEnough(a, c, r.roomAt, r.victims);
      RoomExtra(c, a, b, r.roomAt, q.victims);
    }
    AddAlike(c, x, y, b, r);
  }

  lemma AddAlike(c: Config, x: Store, y: Store, b: Store, r: Request)
    requires Outlives(x, y, r.roomAt) && |y| < Bound(c) && Valid(c, Snapshot(b, 0), r.cleanupAt)
    requires r.cleanupAt <= r.at <= r.roomAt && Prompt(r) && r.bucket !in b
    requires forall k | k in y :: k in b && b[k] == y[k]
    ensures OpenedAlike(c, x[r.bucket := Entry(Full(c), r.at)], y[r.bucket := Entry(Full(c), r.at)], r)
  {
    var k, e := r.bucket, Entry(Full(c), r.at);
    assert x[k := e] - {k} == x && y[k := e] - {k} == y;
  }

  lemma StepAgrees(c: Config, s: Snapshot, b: Store, r: Request, q: Request, now: int)
    requires Related(c, s, b, now) && Ordered(r, now) && Refills(c) && Twins(r, q) && Prompt(r)
    requires FairChoice(c, Cleanup(s, r.cleanupAt).store, b, r, q)
    ensures Related(c, Step(c, s, r), StepLru(c, b, q), r.roomAt)
    ensures Answer(c, s, r) == AnswerLru(c, b, q)
  {
    var a := Cleanup(s, r.cleanupAt).store;
    assert Outlives(a, b, r.cleanupAt) && Valid(c, Snapshot(b, 0), r.cleanupAt);
    if r.bucket in a {
      OpenKnown(c, a, b, r);
    } else if r.bucket in b {
      OpenDeleted(c, a, b, r);
    } else {
      OpenNew(c, a, b, r, q);
    }
    SpendAlike(c, Opened(c, s, r), OpenedLru(c, b, q), r);
  }

  /**
   Every answer of every run is the one the limiter without stale deletions gives, whatever the
   store bound drops on either side.
   */
  lemma {:induction false} RunAgrees(c: Config, s: Snapshot, b: Store, run: seq<Request>, other: seq<Request>, now: int)
    requires Related(c, s, b, now) && Chronological(run, now) && Refills(c) && Comparable(c, s, b, run, other)
    ensures Answers(c, s, run) == AnswersLru(c, b, other)
    decreases run
  {
    hide Step, StepLru, Answer, AnswerLru, Related, Refills, FairChoice, Cleanup;
    if run != [] && other != [] {
      StepAgrees(c, s, b, run[0], other[0], now);
      RunAgrees(c, Step(c, s, run[0]), StepLru(c, b, other[0]), run[1..], other[1..], run[0].roomAt);
    }
  }

  lemma LruValid(c: Config, kept: Store, r: Request, now: int)
    requires Valid(c, Snapshot(kept, 0), now) && Ordered(r, now) && r.bucket in kept
    ensures Valid(c, Snapshot(StepLru(c, kept, r), 0), r.roomAt)
  {
    RefilledBounds(c, kept[r.bucket], r.at);
  }

  // ---------------------------------------------------------------------------
  // When deleting stale buckets is observable
  // ---------------------------------------------------------------------------

  function FinalLru(c: Config, store: Store, run: seq<Request>): Store
    decreases run
  {
    if run == [] then store else FinalLru(c, StepLru(c, store, run[0]), run[1..])
  }

  lemma {:induction false} AnswersConcat(c: Config, s: Snapshot, a: seq<Request>, b: seq<Request>)
    ensures Answers(c, s, a + b) == Answers(c, s, a) + Answers(c, Final(c, s, a), b)
    decreases a
  {
    if a == [] {
      assert a + b == b;
    } else {
      assert (a + b)[1..] == a[1..] + b;
      AnswersConcat(c, Step(c, s, a[0]), a[1..], b);
      Assoc([Answer(c, s, a[0])], Answers(c, Step(c, s, a[0]), a[1..]), Answers(c, Final(c, s, a), b));
    }
  }

  lemma Assoc(x: seq<Decision>, y: seq<Decision>, z: seq<Decision>)
    ensures x + (y + z) == x + y + z
  {
  }

  lemma {:induction false} AnswersLruConcat(c: Config, kept: Store, a: seq<Request>, b: seq<Request>)
    ensures AnswersLru(c, kept, a + b) == AnswersLru(c, kept, a) + AnswersLru(c, FinalLru(c, kept, a), b)
    decreases a
  {
    if a == [] {
      assert a + b == b;
    } else {
      assert (a + b)[1..] == a[1..] + b;
      AnswersLruConcat(c, StepLru(c, kept, a[0]), a[1..], b);
      Assoc([AnswerLru(c, kept, a[0])], AnswersLru(c, StepLru(c, kept, a[0]), a[1..]),
            AnswersLru(c, FinalLru(c, kept, a), b));
    }
  }

  // One burst drains the bucket, on both sides.
  lemma {:induction false} Drain(c: Config, s: Snapshot, kept: Store, k: string, n: nat)
    requires Valid(c, s, 0) && s.lastCleanup == 0
    requires s.store == map[k := Entry(n * TOKEN, 0)] && kept == s.store
    ensures Final(c, s, Asks(k, 0, n)) == Snapshot(map[k := Entry(0, 0)], 0)
    ensures FinalLru(c, kept, Asks(k, 0, n)) == map[k := Entry(0, 0)]
    decreases n
  {
    if n > 0 {
      AskNow(c, s, k, 0);
      StepValid(c, s, Ask(k, 0), 0);
      assert Gain(c, 0) == 0;
      var left := map[k := Entry((n - 1) * TOKEN, 0)];
      assert StepLru(c, kept, Ask(k, 0)) == left;
      assert Step(c, s, Ask(k, 0)) == Snapshot(left, 0);
      assert Asks(k, 0, n)[1..] == Asks(k, 0, n - 1);
      Drain(c, Snapshot(left, 0), left, k, n - 1);
    }
  }

  lemma AskLru(c: Config, kept: Store, k: string, now: int)
    requires Valid(c, Snapshot(kept, 0), now) && k in kept
    ensures var t, next := Refilled(c, kept[k], now), StepLru(c, kept, Ask(k, now));
            && AnswerLru(c, kept, Ask(k, now)) == Decide(c, t)
            && k in next && Valid(c, Snapshot(next, 0), now)
            && Refilled(c, next[k], now) == if t >= TOKEN then t - TOKEN else t
  {
    LruValid(c, kept, Ask(k, now), now);
    assert Gain(c, now - now) == 0;
  }

  lemma {:induction false} AskManyLru(c: Config, kept: Store, k: string, now: int, n: nat, i: nat)
    requires Valid(c, Snapshot(kept, 0), now) && k in kept && i < n
    ensures |AnswersLru(c, kept, Asks(k, now, n))| == n
    ensures AnswersLru(c, kept, Asks(k, now, n))[i].Admitted? <==> TOKEN * (i + 1) <= Refilled(c, kept[k], now)
    decreases n
  {
    assert Asks(k, now, n)[1..] == Asks(k, now, n - 1);
    AskLru(c, kept, k, now);
    if i > 0 {
      AskManyLru(c, StepLru(c, kept, Ask(k, now)), k, now, n - 1, i - 1);
    }
  }

  // The first request after the deletion finds a full bucket.
  lemma AskDeleted(c: Config, k: string, now: int, n: nat, i: nat)
    requires now > ENTRY_MAX_AGE_MS && i < n
    ensures var s := Snapshot(map[k := Entry(0, 0)], 0);
            && |Answers(c, s, Asks(k, now, n))| == n
            && (Answers(c, s, Asks(k, now, n))[i].Admitted? <==> TOKEN * (i + 1) <= Full(c))
  {
    var s, r := Snapshot(map[k := Entry(0, 0)], 0), Ask(k, now);
    assert DropStale(s.store, now) == map[];
    assert Opened(c, s, r) == map[k := Entry(Full(c), now)];
    assert Gain(c, now - now) == 0;
    AnswersSize(c, s, Asks(k, now, n));
    assert Asks(k, now, n)[1..] == Asks(k, now, n - 1);
    if i > 0 {
      StepValid(c, s, r, 0);
      AskMany(c, Step(c, s, r), k, now, n - 1, i - 1);
    }
  }

  lemma {:induction false} AsksChronological(k: string, from: int, now: int, n: nat, rest: seq<Request>)
    requires from <= now && Chronological(rest, now)
    ensures Chronological(Asks(k, now, n) + rest, from)
    decreases n
  {
    var run := Asks(k, now, n) + rest;
    if n == 0 {
      assert run == rest;
    } else {
      assert run[1..] == Asks(k, now, n - 1) + rest;
      AsksChronological(k, now, now, n - 1, rest);
    }
  }

  // Answers that depend on whether stale buckets are deleted, from an empty store.
  ghost predicate Observable(c: Config, run: seq<Request>, other: seq<Request>) {
    && Chronological(run, 0) && Comparable(c, Snapshot(map[], 0), map[], run, other)
    && Answers(c, Snapshot(map[], 0), run) != AnswersLru(c, map[], other)
  }

  // Two bursts, one as soon as the emptied bucket has been deleted.
  function TwoBursts(c: Config): seq<Request> {
    Asks("b", 0, c.burst) + Asks("b", ENTRY_MAX_AGE_MS + 1, c.burst)
  }

  lemma FirstBurst(c: Config)
    requires c.burst > 0
    ensures Final(c, Snapshot(map[], 0), Asks("b", 0, c.burst)) == Snapshot(map["b" := Entry(0, 0)], 0)
    ensures FinalLru(c, map[], Asks("b", 0, c.burst)) == map["b" := Entry(0, 0)]
  {
    var n, s, r := c.burst - 1, Snapshot(map[], 0), Ask("b", 0);
    var left := map["b" := Entry(n * TOKEN, 0)];
    assert Asks("b", 0, c.burst)[1..] == Asks("b", 0, n);
    assert MakeRoom(map[], c.maxBuckets, 0, {}) == map[];
    assert Gain(c, 0) == 0;
    assert Step(c, s, r) == Snapshot(left, 0);
    assert StepLru(c, map[], r) == left;
    Drain(c, Snapshot(left, 0), left, "b", n);
  }

  // Requests of one bucket, none of which has anything to drop.
  lemma {:induction false} OneBucketComparable(c: Config, s: Snapshot, b: Store, run: seq<Request>, k: string)
    requires forall i | 0 <= i < |run| :: run[i].bucket == k && run[i].victims == {} && Prompt(run[i])
    requires s.store.Keys <= {k} && b.Keys <= {k}
    ensures Comparable(c, s, b, run, run)
    decreases run
  {
    if run != [] {
      var r := run[0];
      var a := Cleanup(s, r.cleanupAt).store;
      assert k !in a ==> a == map[];
      assert k !in b ==> b == map[];
      OneBucketComparable(c, Step(c, s, r), StepLru(c, b, r), run[1..], k);
    }
  }

  lemma TwoBurstsDiffer(c: Config)
    requires !Refills(c)
    ensures c.burst > 0 && Observable(c, TwoBursts(c), TwoBursts(c))
  {
    var n, later, s := c.burst, ENTRY_MAX_AGE_MS + 1, Snapshot(map[], 0);
    GainMono(c, 0, later);
    var a, b := Asks("b", 0, n), Asks("b", later, n);
    TwoBurstsChronological(n, later);
    OneBucketComparable(c, s, map[], a + b, "b");
    SecondBurstDiffers(c, n, later);
    AnswersConcat(c, s, a, b);
    AnswersLruConcat(c, map[], a, b);
    AnswersSize(c, s, a);
    assert Answers(c, s, a + b)[n..] == Answers(c, Final(c, s, a), b);
    assert AnswersLru(c, map[], a + b)[n..] == AnswersLru(c, FinalLru(c, map[], a), b);
  }

  lemma TwoBurstsChronological(n: nat, later: nat)
    requires n > 0
    ensures Chronological(Asks("b", 0, n) + Asks("b", later, n), 0)
  {
    var b := Asks("b", later, n);
    AsksChronological("b", 0, later, n, []);
    assert b + [] == b;
    AsksChronological("b", 0, 0, n, b);
  }

  // The last request of the second burst is admitted only if the bucket had been deleted.
  lemma SecondBurstDiffers(c: Config, n: nat, later: nat)
    requires n == c.burst > 0 && later == ENTRY_MAX_AGE_MS + 1 && !Refills(c)
    ensures var b := Asks("b", later, n);
            var s, kept := Final(c, Snapshot(map[], 0), Asks("b", 0, n)), FinalLru(c, map[], Asks("b", 0, n));
            && |Answers(c, s, b)| == |AnswersLru(c, kept, b)| == n
            && Answers(c, s, b)[n - 1] != AnswersLru(c, kept, b)[n - 1]
  {
    FirstBurst(c);
    AskDeleted(c, "b", later, n, n - 1);
    AskManyLru(c, map["b" := Entry(0, 0)], "b", later, n, n - 1);
  }

  /**
   Deleting buckets idle for over ten minutes never changes an answer, evictions by the store
   bound included, exactly when such a bucket has always refilled.
   */
  lemma CleanupUnobservableIff(c: Config)
    ensures (forall run: seq<Request>, other: seq<Request> :: !Observable(c, run, other)) <==> 60000 * c.burst <= 600_001 * c.rpm
  {
    assert Refills(c) <==> 60000 * c.burst <= 600_001 * c.rpm;
    if Refills(c) {
      forall run: seq<Request>, other: seq<Request> ensures !Observable(c, run, other) {
        if Chronological(run, 0) && Comparable(c, Snapshot(map[], 0), map[], run, other) {
          RunAgrees(c, Snapshot(map[], 0), map[], run, other, 0);
        }
      }
    } else {
      TwoBurstsDiffer(c);
    }
  }

  lemma {:induction false} AdmittedConcat(c: Config, s: Snapshot, a: seq<Request>, b: seq<Request>, k: string)
    ensures AdmittedOf(c, s, a + b, k) == AdmittedOf(c, s, a, k) + AdmittedOf(c, Final(c, s, a), b, k)
    decreases a
  {
    if a == [] {
      assert a + b == b;
    } else {
      assert (a + b)[1..] == a[1..] + b;
      AdmittedConcat(c, Step(c, s, a[0]), a[1..], b, k);
    }
  }

  lemma {:induction false} AskAll(c: Config, s: Snapshot, k: string, now: int, n: nat)
    requires Valid(c, s, now) && k in s.store && s.store[k].lastRefill == now && n * TOKEN <= s.store[k].tokens
    ensures AdmittedOf(c, s, Asks(k, now, n), k) == n
    decreases n
  {
    if n > 0 {
      AskNow(c, s, k, now);
      StepValid(c, s, Ask(k, now), now);
      assert Asks(k, now, n)[1..] == Asks(k, now, n - 1);
      AskAll(c, Step(c, s, Ask(k, now)), k, now, n - 1);
    }
  }

  // A bucket that was just opened full admits its whole burst.
  lemma AskFull(c: Config, s: Snapshot, k: string, now: int)
    requires c.burst > 0 && Valid(c, s, now)
    requires Opened(c, s, Ask(k, now))[k] == Entry(Full(c), now)
    ensures AdmittedOf(c, s, Asks(k, now, c.burst), k) == c.burst
  {
    var r := Ask(k, now);
    assert Gain(c, now - now) == 0;
    assert Asks(k, now, c.burst)[1..] == Asks(k, now, c.burst - 1);
    StepValid(c, s, r, now);
    AskAll(c, Step(c, s, r), k, now, c.burst - 1);
  }

  // Within d milliseconds, admissions of one bucket beyond its burst plus the rate's yield,
  // from an empty store.
  ghost predicate Excess(c: Config, d: nat, run: seq<Request>, k: string) {
    && run != [] && Chronological(run, 0) && NeverEvicted(run, k) && run[|run| - 1].at - run[0].at <= d
    && 60000 * AdmittedOf(c, Snapshot(map[], 0), run, k) > 60000 * c.burst + c.rpm * (run[|run| - 1].at - run[0].at)
  }

  // Both bursts are admitted whole, the second one because the emptied bucket is deleted.
  lemma TwoBurstsAdmitted(c: Config, a: seq<Request>, b: seq<Request>)
    requires c.burst > 0 && a == Asks("b", 0, c.burst) && b == Asks("b", ENTRY_MAX_AGE_MS + 1, c.burst)
    ensures AdmittedOf(c, Snapshot(map[], 0), a + b, "b") == 2 * c.burst
  {
    var s := Snapshot(map[], 0);
    AdmittedConcat(c, s, a, b, "b");
    FirstBurstAdmitted(c);
    FirstBurst(c);
    SecondBurstAdmitted(c);
  }

  lemma FirstBurstAdmitted(c: Config)
    requires c.burst > 0
    ensures AdmittedOf(c, Snapshot(map[], 0), Asks("b", 0, c.burst), "b") == c.burst
  {
    assert MakeRoom(map[], c.maxBuckets, 0, {}) == map[];
    AskFull(c, Snapshot(map[], 0), "b", 0);
  }

  lemma SecondBurstAdmitted(c: Config)
    requires c.burst > 0
    ensures var later := ENTRY_MAX_AGE_MS + 1;
            AdmittedOf(c, Snapshot(map["b" := Entry(0, 0)], 0), Asks("b", later, c.burst), "b") == c.burst
  {
    var later, drained := ENTRY_MAX_AGE_MS + 1, Snapshot(map["b" := Entry(0, 0)], 0);
    assert DropStale(drained.store, later) == map[];
    assert Opened(c, drained, Ask("b", later)) == map["b" := Entry(Full(c), later)];
    AskFull(c, drained, "b", later);
  }

  lemma TwoBurstsExceed(c: Config)
    requires !Refills(c)
    ensures Excess(c, ENTRY_MAX_AGE_MS + 1, TwoBursts(c), "b")
  {
    hide AdmittedOf, Refills;
    var n, later := c.burst, ENTRY_MAX_AGE_MS + 1;
    NotRefilled(c);
    var a, b := Asks("b", 0, n), Asks("b", later, n);
    TwoBurstsChronological(n, later);
    TwoBurstsAdmitted(c, a, b);
    var run: seq<Request> := a + b;
    assert run[0].at == 0 && run[|run| - 1].at == later;
  }

  lemma NotRefilled(c: Config)
    requires !Refills(c)
    ensures c.burst > 0 && 60000 * c.burst > c.rpm * (ENTRY_MAX_AGE_MS + 1)
  {
    GainMono(c, 0, ENTRY_MAX_AGE_MS + 1);
    InNumbers(c, ENTRY_MAX_AGE_MS + 1);
  }

  /**
   The bound on windows of at most d milliseconds holds of all runs exactly if these are at
   most ten minutes long or idle buckets refill before they are deleted.
   */
  lemma WindowBoundIff(c: Config, d: nat)
    ensures (forall run: seq<Request>, k: string :: !Excess(c, d, run, k)) <==> 60000 * c.burst <= 600_001 * c.rpm || d <= 600_000
  {
    assert Refills(c) <==> 60000 * c.burst <= 600_001 * c.rpm;
    if Refills(c) || d <= ENTRY_MAX_AGE_MS {
      forall run: seq<Request>, k: string ensures !Excess(c, d, run, k) {
        if run != [] && Chronological(run, 0) && NeverEvicted(run, k) && run[|run| - 1].at - run[0].at <= d {
          WindowBound(c, Snapshot(map[], 0), run, k, 0);
        }
      }
    } else {
      TwoBurstsExceed(c);
      assert Excess(c, d, TwoBursts(c), "b");
    }
  }

  /** With the default burst, or one of up to ten minutes' rate, cleanup shows in no run. */
  lemma UsualConfigUnobservable(rpm: nat, burstSize: Option<nat>, maxBuckets: Option<nat>, run: seq<Request>, other: seq<Request>)
    requires burstSize.Some? ==> burstSize.value <= 10 * rpm
    ensures !Observable(Configure(rpm, burstSize, maxBuckets), run, other)
  {
    CleanupUnobservableIff(Configure(rpm, burstSize, maxBuckets));
  }
}
