/**
 Runs of the limiter: how many requests a bucket admits in a window of time, what deleting
 stale buckets can change, and what the Retry-After and Remaining headers promise.
 */
module RateLimiterRuns {
  import opened Base
  import opened RateLimiter

  // ---------------------------------------------------------------------------
  // Arithmetic of refills
  // ---------------------------------------------------------------------------

  lemma GainAdds(c: Config, a: int, b: int)
    ensures Gain(c, a + b) == Gain(c, a) + Gain(c, b)
  {
  }

  // In tokens and milliseconds.
  lemma InNumbers(c: Config, ms: int)
    ensures TOKEN == 60000 && Full(c) == 60000 * c.burst && Gain(c, ms) == c.rpm * ms
  {
  }

  lemma GainMono(c: Config, a: int, b: int)
    requires a <= b
    ensures Gain(c, a) <= Gain(c, b)
  {
    assert Gain(c, b) == Gain(c, a) + (b - a) * c.rpm;
  }

  lemma MulMono(a: int, b: int, f: int)
    requires a <= b && f >= 0
    ensures a * f <= b * f
  {
  }

  lemma CeilDivIff(a: int, b: int, n: int)
    requires b > 0
    ensures n >= CeilDiv(a, b) <==> n * b >= a
  {
    var q := CeilDiv(a, b);
    if n >= q {
      MulMono(q, n, b);
    } else {
      MulMono(n, q - 1, b);
    }
  }

  // ---------------------------------------------------------------------------
  // Valid states
  // ---------------------------------------------------------------------------

  // Every bucket holds between nothing and a full burst, and was refilled in the past.
  ghost predicate Valid(c: Config, s: Snapshot, now: int) {
    forall k | k in s.store :: 0 <= s.store[k].tokens <= Full(c) && s.store[k].lastRefill <= now
  }

  // The request's clock reads, in order and not before `now`.
  predicate Ordered(r: Request, now: int) {
    now <= r.cleanupAt <= r.at <= r.roomAt
  }

  // The amount a bucket can spend at a time: a missing bucket starts full.
  function Spendable(c: Config, s: Snapshot, k: string, now: int): int {
    if k in s.store then Refilled(c, s.store[k], now) else Full(c)
  }

  lemma RefilledBounds(c: Config, e: Entry, now: int)
    requires 0 <= e.tokens <= Full(c) && e.lastRefill <= now
    ensures 0 <= Refilled(c, e, now) <= Full(c)
  {
    GainMono(c, 0, now - e.lastRefill);
  }

  /** Tokens stay between none and a full burst, and a request is admitted iff one is there. */
  lemma StepValid(c: Config, s: Snapshot, r: Request, now: int)
    requires Valid(c, s, now) && Ordered(r, now)
    ensures Valid(c, Step(c, s, r), r.roomAt)
  {
    var store := Opened(c, s, r);
    assert forall k | k in store && k != r.bucket :: k in s.store && store[k] == s.store[k];
    var e := store[r.bucket];
    assert e == Entry(Full(c), r.at) || (r.bucket in s.store && e == s.store[r.bucket]);
    RefilledBounds(c, e, r.at);
  }

  // ---------------------------------------------------------------------------
  // Deleting a stale bucket
  // ---------------------------------------------------------------------------

  /**
   A bucket idle for more than ten minutes is full again. With a clock of whole
   milliseconds that takes exactly this.
   */
  predicate Refills(c: Config) {
    Full(c) <= Gain(c, ENTRY_MAX_AGE_MS + 1)
  }

  lemma StaleIsFull(c: Config, e: Entry, staleAt: int, now: int)
    requires Refills(c) && e.tokens >= 0 && Stale(e, staleAt) && staleAt <= now
    ensures Refilled(c, e, now) == Full(c)
  {
    GainMono(c, ENTRY_MAX_AGE_MS + 1, now - e.lastRefill);
  }

  // What a request leaves other buckets to spend, later on.
  lemma OtherBucket(c: Config, s: Snapshot, r: Request, now: int, k: string, later: int)
    requires Valid(c, s, now) && Ordered(r, now) && r.roomAt <= later
    requires Refills(c) && k != r.bucket && k !in r.victims
    ensures Spendable(c, Step(c, s, r), k, later) == Spendable(c, s, k, later)
  {
    if k in s.store {
      if Stale(s.store[k], r.cleanupAt) {
        StaleIsFull(c, s.store[k], r.cleanupAt, later);
      }
      if Stale(s.store[k], r.roomAt) {
        StaleIsFull(c, s.store[k], r.roomAt, later);
      }
    }
  }

  // What a request finds in its own bucket, and what it leaves there.
  lemma OwnBucket(c: Config, s: Snapshot, r: Request, now: int)
    requires Valid(c, s, now) && Ordered(r, now) && Refills(c)
    ensures Answer(c, s, r) == Decide(c, Spendable(c, s, r.bucket, r.at))
    ensures var t := Spendable(c, s, r.bucket, r.at);
            Step(c, s, r).store[r.bucket] == Entry(if t >= TOKEN then t - TOKEN else t, r.at)
  {
    var k := r.bucket;
    if k in s.store && Stale(s.store[k], r.cleanupAt) {
      StaleIsFull(c, s.store[k], r.cleanupAt, r.at);
    }
    assert Refilled(c, Entry(Full(c), r.at), r.at) == Full(c);
  }

  // The bucket has not been idle long enough to be deleted by `later`.
  predicate Kept(s: Snapshot, k: string, later: int) {
    k in s.store && later - s.store[k].lastRefill <= ENTRY_MAX_AGE_MS
  }

  // A request finds in its bucket at least what the bucket can spend: a deletion only fills it.
  lemma FindsAtLeast(c: Config, s: Snapshot, r: Request, now: int)
    requires Valid(c, s, now) && Ordered(r, now)
    ensures Refilled(c, Opened(c, s, r)[r.bucket], r.at) >= Spendable(c, s, r.bucket, r.at)
    ensures Kept(s, r.bucket, r.at) || Refills(c) ==>
              Refilled(c, Opened(c, s, r)[r.bucket], r.at) == Spendable(c, s, r.bucket, r.at)
  {
    assert Gain(c, r.at - r.at) == 0;
    if Refills(c) {
      OwnBucket(c, s, r, now);
      RefilledBounds(c, Entry(Full(c), r.at), r.at);
      if r.bucket in s.store && Stale(s.store[r.bucket], r.cleanupAt) {
        StaleIsFull(c, s.store[r.bucket], r.cleanupAt, r.at);
      }
    }
  }

  // A request of another bucket leaves this one alone, or deletes it.
  lemma OtherKeeps(c: Config, s: Snapshot, r: Request, now: int, k: string, later: int)
    requires Valid(c, s, now) && Ordered(r, now) && r.roomAt <= later
    requires k != r.bucket && k !in r.victims
    ensures Spendable(c, Step(c, s, r), k, later) >= Spendable(c, s, k, later)
    ensures Kept(s, k, later) ==> Kept(Step(c, s, r), k, later)
    ensures Kept(s, k, later) || Refills(c) ==>
              Spendable(c, Step(c, s, r), k, later) == Spendable(c, s, k, later)
  {
    if Refills(c) {
      OtherBucket(c, s, r, now, k, later);
    }
  }

  // ---------------------------------------------------------------------------
  // Admissions in a window
  // ---------------------------------------------------------------------------

  ghost predicate Chronological(run: seq<Request>, now: int) {
    run == [] || (Ordered(run[0], now) && Chronological(run[1..], run[0].roomAt))
  }

  function Final(c: Config, s: Snapshot, run: seq<Request>): Snapshot
    decreases run
  {
    if run == [] then s else Final(c, Step(c, s, run[0]), run[1..])
  }

  function Answers(c: Config, s: Snapshot, run: seq<Request>): seq<Decision>
    decreases run
  {
    if run == [] then [] else [Answer(c, s, run[0])] + Answers(c, Step(c, s, run[0]), run[1..])
  }

  // How many requests of bucket k the run admits.
  function AdmittedOf(c: Config, s: Snapshot, run: seq<Request>, k: string): nat
    decreases run
  {
    if run == [] then 0
    else (if run[0].bucket == k && Answer(c, s, run[0]).Admitted? then 1 else 0)
         + AdmittedOf(c, Step(c, s, run[0]), run[1..], k)
  }

  ghost predicate NeverEvicted(run: seq<Request>, k: string) {
    forall r | r in run :: k !in r.victims
  }

  // Nothing can be gained by a deletion until `end`: it would find the bucket full again, or
  // come later.
  predicate Steady(c: Config, s: Snapshot, k: string, end: int) {
    Refills(c) || Kept(s, k, end)
  }

  lemma StepSpendable(c: Config, s: Snapshot, r: Request, now: int, from: int, k: string, end: int)
    requires Valid(c, s, now) && Ordered(r, now) && k !in r.victims
    requires now <= from <= r.at <= end && Steady(c, s, k, end)
    ensures var spent := if r.bucket == k && Answer(c, s, r).Admitted? then TOKEN else 0;
            r.roomAt <= end ==>
              && Steady(c, Step(c, s, r), k, end)
              && spent + Spendable(c, Step(c, s, r), k, r.roomAt) <= Spendable(c, s, k, from) + Gain(c, r.roomAt - from)
    ensures r.bucket == k && Answer(c, s, r).Admitted? ==>
              TOKEN <= Spendable(c, s, k, from) + Gain(c, r.at - from)
  {
    Rises(c, s, k, from, r.at);
    if k == r.bucket {
      FindsAtLeast(c, s, r, now);
      GainAdds(c, r.at - from, r.roomAt - r.at);
    } else if r.roomAt <= end {
      Rises(c, s, k, from, r.roomAt);
      OtherKeeps(c, s, r, now, k, r.roomAt);
      OtherKeeps(c, s, r, now, k, end);
    }
  }

  // Waiting adds at most what the rate yields.
  lemma Rises(c: Config, s: Snapshot, k: string, now: int, later: int)
    requires Valid(c, s, now) && now <= later
    ensures Spendable(c, s, k, later) <= Spendable(c, s, k, now) + Gain(c, later - now)
    ensures 0 <= Spendable(c, s, k, now) <= Full(c)
  {
    GainMono(c, 0, later - now);
    if k in s.store {
      var e := s.store[k];
      RefilledBounds(c, e, now);
      GainAdds(c, now - e.lastRefill, later - now);
    }
  }

  lemma {:induction false} AtInRun(run: seq<Request>, now: int)
    requires run != [] && Chronological(run, now)
    ensures now <= run[0].at <= run[|run| - 1].at
    ensures |run| > 1 ==> run[0].roomAt <= run[1].at <= run[|run| - 1].at
    decreases run
  {
    if |run| > 1 {
      AtInRun(run[1..], run[0].roomAt);
    }
  }

  lemma {:induction false} Budget(c: Config, s: Snapshot, run: seq<Request>, k: string, now: int, from: int)
    requires Valid(c, s, now) && Chronological(run, now) && NeverEvicted(run, k)
    requires run != [] && now <= from <= run[0].at && Steady(c, s, k, run[|run| - 1].at)
    ensures TOKEN * AdmittedOf(c, s, run, k) <= Spendable(c, s, k, from) + Gain(c, run[|run| - 1].at - from)
    decreases run
  {
    hide Step, Answer, Spendable, Steady, Gain;
    var r, rest := run[0], run[1..];
    assert r in run;
    AtInRun(run, now);
    if rest == [] {
      BudgetOne(c, s, run, k, now, from);
    } else {
      StepValid(c, s, r, now);
      StepSpendable(c, s, r, now, from, k, run[|run| - 1].at);
      Budget(c, Step(c, s, r), rest, k, r.roomAt, r.roomAt);
      BudgetCons(c, s, run, k, from, Spendable(c, s, k, from), Spendable(c, Step(c, s, r), k, r.roomAt));
    }
  }

  lemma BudgetCons(c: Config, s: Snapshot, run: seq<Request>, k: string, from: int, held: int, left: int)
    requires |run| > 1
    requires var r, end := run[0], run[|run| - 1].at;
             var spent := if r.bucket == k && Answer(c, s, r).Admitted? then TOKEN else 0;
             && spent + left <= held + Gain(c, r.roomAt - from)
             && TOKEN * AdmittedOf(c, Step(c, s, r), run[1..], k) <= left + Gain(c, end - r.roomAt)
    ensures TOKEN * AdmittedOf(c, s, run, k) <= held + Gain(c, run[|run| - 1].at - from)
  {
    hide Step, Answer, Gain;
    var r, end := run[0], run[|run| - 1].at;
    GainAdds(c, r.roomAt - from, end - r.roomAt);
    AddUp(r.bucket == k && Answer(c, s, r).Admitted?, AdmittedOf(c, Step(c, s, r), run[1..], k), held, left,
          Gain(c, r.roomAt - from), Gain(c, end - r.roomAt));
  }

  lemma BudgetOne(c: Config, s: Snapshot, run: seq<Request>, k: string, now: int, from: int)
    requires Valid(c, s, now) && |run| == 1 && Ordered(run[0], now) && k !in run[0].victims
    requires now <= from <= run[0].at && Steady(c, s, k, run[0].at)
    ensures TOKEN * AdmittedOf(c, s, run, k) <= Spendable(c, s, k, from) + Gain(c, run[0].at - from)
  {
    StepSpendable(c, s, run[0], now, from, k, run[0].at);
    Rises(c, s, k, from, from);
    GainMono(c, 0, run[0].at - from);
    assert AdmittedOf(c, Step(c, s, run[0]), run[1..], k) == 0;
  }

  lemma AddUp(admitted: bool, n: nat, held: int, left: int, gain: int, more: int)
    requires (if admitted then TOKEN else 0) + left <= held + gain && TOKEN * n <= left + more
    ensures TOKEN * ((if admitted then 1 else 0) + n) <= held + (gain + more)
  {
  }

  // The first request of a bucket leaves no more than a full burst, spent or not.
  lemma FirstUse(c: Config, s: Snapshot, r: Request, now: int, end: int)
    requires Valid(c, s, now) && Ordered(r, now)
    ensures var k, spent := r.bucket, if Answer(c, s, r).Admitted? then TOKEN else 0;
            && spent <= Full(c)
            && spent + Spendable(c, Step(c, s, r), k, r.roomAt) <= Full(c) + Gain(c, r.roomAt - r.at)
            && (end - r.at <= ENTRY_MAX_AGE_MS ==> Kept(Step(c, s, r), k, end))
  {
    StepValid(c, s, r, now);
  }

  /**
   In any stretch of a run, a bucket the store bound never drops admits at most its burst
   plus what the rate yields between the first and the last request: whatever the burst if
   the stretch is at most ten minutes, and always if an idle bucket refills in time.
   */
  lemma {:induction false} WindowBound(c: Config, s: Snapshot, run: seq<Request>, k: string, now: int)
    requires Valid(c, s, now) && Chronological(run, now) && NeverEvicted(run, k) && run != []
    requires Refills(c) || run[|run| - 1].at - run[0].at <= ENTRY_MAX_AGE_MS
    ensures TOKEN * AdmittedOf(c, s, run, k) <= Full(c) + Gain(c, run[|run| - 1].at - run[0].at)
    ensures 60000 * AdmittedOf(c, s, run, k) <= 60000 * c.burst + c.rpm * (run[|run| - 1].at - run[0].at)
    decreases run
  {
    hide Step, Answer, Spendable, Refills, Gain;
    var r, rest, end := run[0], run[1..], run[|run| - 1].at;
    AtInRun(run, now);
    assert r in run;
    InNumbers(c, end - r.at);
    StepValid(c, s, r, now);
    GainMono(c, 0, end - r.at);
    if r.bucket != k {
      if rest != [] {
        WindowBound(c, Step(c, s, r), rest, k, r.roomAt);
        GainMono(c, end - rest[0].at, end - r.at);
      }
    } else {
      FirstUse(c, s, r, now, end);
      if rest != [] {
        Budget(c, Step(c, s, r), rest, k, r.roomAt, r.roomAt);
        BudgetCons(c, s, run, k, r.at, Full(c), Spendable(c, Step(c, s, r), k, r.roomAt));
      }
    }
  }

  /** Over any run, tokens stay between none and a full burst, and no refill lies in the future. */
  lemma {:induction false} RunValid(c: Config, s: Snapshot, run: seq<Request>, now: int)
    requires Valid(c, s, now) && Chronological(run, now)
    ensures Valid(c, Final(c, s, run), LastRead(now, run))
    ensures forall k | k in Final(c, s, run).store :: 0 <= Final(c, s, run).store[k].tokens <= 60000 * c.burst
    decreases run
  {
    if run != [] {
      StepValid(c, s, run[0], now);
      RunValid(c, Step(c, s, run[0]), run[1..], run[0].roomAt);
    }
  }

  lemma {:induction false} AnswersSize(c: Config, s: Snapshot, run: seq<Request>)
    ensures |Answers(c, s, run)| == |run|
    decreases run
  {
    if run != [] {
      AnswersSize(c, Step(c, s, run[0]), run[1..]);
    }
  }

  // ---------------------------------------------------------------------------
  // Requests at one instant
  // ---------------------------------------------------------------------------

  function Ask(k: string, now: int): Request {
    Request(k, now, now, now, {})
  }

  function Asks(k: string, now: int, n: nat): seq<Request> {
    seq(n, i => Ask(k, now))
  }

  // A bucket asked at the instant of its last refill is neither stale nor refilled.
  lemma AskNow(c: Config, s: Snapshot, k: string, now: int)
    requires Valid(c, s, now) && k in s.store && s.store[k].lastRefill == now
    ensures var t := s.store[k].tokens;
            && Answer(c, s, Ask(k, now)) == Decide(c, t)
            && Step(c, s, Ask(k, now)).store[k] == Entry(if t >= TOKEN then t - TOKEN else t, now)
  {
    assert Gain(c, now - now) == 0;
  }

  // Of several such requests the first tokens/60000 are admitted and the others refused.
  lemma {:induction false} AskMany(c: Config, s: Snapshot, k: string, now: int, n: nat, i: nat)
    requires Valid(c, s, now) && k in s.store && s.store[k].lastRefill == now && i < n
    ensures |Answers(c, s, Asks(k, now, n))| == n
    ensures Answers(c, s, Asks(k, now, n))[i].Admitted? <==> TOKEN * (i + 1) <= s.store[k].tokens
    decreases n
  {
    AskNow(c, s, k, now);
    AnswersSize(c, s, Asks(k, now, n));
    assert Asks(k, now, n)[1..] == Asks(k, now, n - 1);
    if i > 0 {
      StepValid(c, s, Ask(k, now), now);
      AskMany(c, Step(c, s, Ask(k, now)), k, now, n - 1, i - 1);
    }
  }

  /**
   The Remaining header of an admission is the number of further requests at the same instant
   that will be admitted: exactly the next `remaining` ones.
   */
  lemma RemainingIsExact(c: Config, s: Snapshot, r: Request, now: int, n: nat, i: nat)
    requires Valid(c, s, now) && Ordered(r, now) && r.at == r.roomAt && i < n
    requires Answer(c, s, r).Admitted?
    ensures |Answers(c, Step(c, s, r), Asks(r.bucket, r.at, n))| == n
    ensures Answers(c, Step(c, s, r), Asks(r.bucket, r.at, n))[i].Admitted? <==> i < Answer(c, s, r).remaining
  {
    StepValid(c, s, r, now);
    AskMany(c, Step(c, s, r), r.bucket, r.at, n, i);
  }

  /** A caller the limiter does not know is admitted exactly `burst` times at one instant. */
  lemma NewcomerGetsBurst(c: Config, k: string, now: int, n: nat, i: nat)
    requires i < n
    ensures var s := Snapshot(map[], now);
            && |Answers(c, s, Asks(k, now, n))| == n
            && (Answers(c, s, Asks(k, now, n))[i].Admitted? <==> i < c.burst)
  {
    var s, r := Snapshot(map[], now), Ask(k, now);
    assert MakeRoom(map[], c.maxBuckets, now, {}) == map[];
    assert Gain(c, now - now) == 0;
    assert Refilled(c, Opened(c, s, r)[k], now) == Full(c);
    AnswersSize(c, s, Asks(k, now, n));
    assert Asks(k, now, n)[1..] == Asks(k, now, n - 1);
    if i > 0 {
      StepValid(c, s, r, now);
      AskMany(c, Step(c, s, r), k, now, n - 1, i - 1);
    }
  }

  /** Without a configured burst that is the rate per minute. */
  lemma DefaultBurst(rpm: nat, maxBuckets: Option<nat>, k: string, now: int, n: nat, i: nat)
    requires i < n
    ensures var c, s := Configure(rpm, None, maxBuckets), Snapshot(map[], now);
            && |Answers(c, s, Asks(k, now, n))| == n
            && (Answers(c, s, Asks(k, now, n))[i].Admitted? <==> i < rpm)
            && c.maxBuckets == (if maxBuckets.Some? then maxBuckets.value else 20_000)
  {
    NewcomerGetsBurst(Configure(rpm, None, maxBuckets), k, now, n, i);
  }

  /** Principals behind one address leave each other's tokens alone. */
  lemma PrincipalsApart(c: Config, s: Snapshot, p: string, q: string, ip: string, r: Request, now: int, later: int)
    requires Valid(c, s, now) && Ordered(r, now) && r.roomAt <= later && p != "" && q != "" && p != q
    requires r.bucket == BucketOf(Some(p), ip) && BucketOf(Some(q), ip) !in r.victims
    ensures Spendable(c, Step(c, s, r), q, later) >= Spendable(c, s, q, later)
    ensures Kept(s, q, later) ==> Spendable(c, Step(c, s, r), q, later) == Spendable(c, s, q, later)
  {
    OtherKeeps(c, s, r, now, q, later);
  }

  // ---------------------------------------------------------------------------
  // Retry-After
  // ---------------------------------------------------------------------------

  // A refusal does not cost the bucket anything.
  lemma RefusedKeeps(c: Config, s: Snapshot, r: Request, now: int, later: int)
    requires Valid(c, s, now) && Ordered(r, now) && r.roomAt <= later
    requires Answer(c, s, r).Refused?
    ensures Spendable(c, Step(c, s, r), r.bucket, later) >= Spendable(c, s, r.bucket, later)
    ensures Kept(s, r.bucket, later) ==> Kept(Step(c, s, r), r.bucket, later)
    ensures Kept(s, r.bucket, later) || Refills(c) ==>
              Spendable(c, Step(c, s, r), r.bucket, later) == Spendable(c, s, r.bucket, later)
  {
    FindsAtLeast(c, s, r, now);
    GainMono(c, 0, later - r.at);
    if r.bucket in s.store {
      GainAdds(c, r.at - s.store[r.bucket].lastRefill, later - r.at);
    }
  }

  // A run that admits nothing of bucket k and does not drop it.
  ghost predicate Quiet(c: Config, s: Snapshot, run: seq<Request>, k: string, now: int) {
    Chronological(run, now) && NeverEvicted(run, k) && AdmittedOf(c, s, run, k) == 0
  }

  /**
   While a bucket admits nothing and is not dropped, nothing that happens takes anything from
   it, and nothing is added either before it has been idle for ten minutes.
   */
  lemma {:induction false} QuietRun(c: Config, s: Snapshot, run: seq<Request>, k: string, now: int, later: int)
    requires Valid(c, s, now) && Quiet(c, s, run, k, now)
    requires now <= later && (run != [] ==> run[|run| - 1].roomAt <= later)
    ensures Spendable(c, Final(c, s, run), k, later) >= Spendable(c, s, k, later)
    ensures Kept(s, k, later) ==> Kept(Final(c, s, run), k, later)
    ensures Kept(s, k, later) || Refills(c) ==> Spendable(c, Final(c, s, run), k, later) == Spendable(c, s, k, later)
    ensures Valid(c, Final(c, s, run), later)
    decreases run
  {
    if run != [] {
      var r, rest := run[0], run[1..];
      assert r in run;
      StepValid(c, s, r, now);
      LaterInRun(run, now);
      assert rest != [] ==> rest[|rest| - 1] == run[|run| - 1];
      if r.bucket == k {
        RefusedKeeps(c, s, r, now, later);
      } else {
        OtherKeeps(c, s, r, now, k, later);
      }
      QuietRun(c, Step(c, s, r), rest, k, r.roomAt, later);
    }
  }

  lemma {:induction false} LaterInRun(run: seq<Request>, now: int)
    requires run != [] && Chronological(run, now)
    ensures now <= run[0].roomAt <= run[|run| - 1].roomAt
    decreases run
  {
    if |run| > 1 {
      LaterInRun(run[1..], run[0].roomAt);
    }
  }

  // The last clock read of a run that starts at `now`.
  function LastRead(now: int, run: seq<Request>): int {
    if run == [] then now else run[|run| - 1].roomAt
  }

  /**
   After a refusal, and as long as the bucket admits nothing and is not dropped, a request
   `secs` whole seconds later is admitted exactly when `secs` has reached Retry-After. This
   needs nothing of the burst: Retry-After is at most a minute, and until then the bucket is
   not idle long enough to be deleted.
   */
  lemma RetryAfterIsExact(c: Config, s: Snapshot, refused: Request, now: int, run: seq<Request>, again: Request, secs: nat)
    requires Valid(c, s, now) && Ordered(refused, now) && c.rpm > 0 && c.burst > 0
    requires Answer(c, s, refused).Refused? && Quiet(c, Step(c, s, refused), run, refused.bucket, refused.roomAt)
    requires Ordered(again, LastRead(refused.roomAt, run))
    requires again.bucket == refused.bucket && again.at == refused.at + 1000 * secs
    ensures Answer(c, s, refused).retryAfter.Some?
    ensures Answer(c, Final(c, Step(c, s, refused), run), again).Admitted? <==>
              secs >= Answer(c, s, refused).retryAfter.value
  {
    var s', k := Step(c, s, refused), refused.bucket;
    StepValid(c, s, refused, now);
    AfterRefusal(c, s, refused, now);
    var t := s'.store[k].tokens;
    AfterQuiet(c, s', run, again, refused.roomAt);
    RetrySeconds(c, t, secs);
    assert secs < 60 ==> Kept(s', k, again.at);
  }

  // A refused bucket stays, with what it held; the answer was decided on that.
  lemma AfterRefusal(c: Config, s: Snapshot, refused: Request, now: int)
    requires Valid(c, s, now) && Ordered(refused, now) && Answer(c, s, refused).Refused?
    ensures var s', k := Step(c, s, refused), refused.bucket;
            && k in s'.store && s'.store[k].lastRefill == refused.at
            && 0 <= s'.store[k].tokens < TOKEN && Answer(c, s, refused) == Decide(c, s'.store[k].tokens)
  {
    StepValid(c, s, refused, now);
  }

  // What the next request of the bucket finds after the quiet run.
  lemma AfterQuiet(c: Config, s: Snapshot, run: seq<Request>, again: Request, now: int)
    requires Valid(c, s, now) && Quiet(c, s, run, again.bucket, now)
    requires Ordered(again, LastRead(now, run))
    ensures now <= again.at
    ensures var found := Refilled(c, Opened(c, Final(c, s, run), again)[again.bucket], again.at);
            && found >= Spendable(c, s, again.bucket, again.at)
            && (Kept(s, again.bucket, again.at) ==> found == Spendable(c, s, again.bucket, again.at))
  {
    if run != [] { LaterInRun(run, now); }
    QuietRun(c, s, run, again.bucket, now, LastRead(now, run));
    QuietRun(c, s, run, again.bucket, now, again.at);
    FindsAtLeast(c, Final(c, s, run), again, LastRead(now, run));
  }

  lemma RetrySeconds(c: Config, t: int, secs: nat)
    requires c.rpm > 0 && c.burst > 0 && 0 <= t < TOKEN
    ensures Decide(c, t).Refused? && Decide(c, t).retryAfter.Some? && Decide(c, t).retryAfter.value <= 60
    ensures Min(Full(c), t + Gain(c, 1000 * secs)) >= TOKEN <==> secs >= Decide(c, t).retryAfter.value
  {
    CeilDivIff(TOKEN - t, c.rpm * 1000, secs);
    CeilDivIff(TOKEN - t, c.rpm * 1000, 0);
    CeilDivIff(TOKEN - t, c.rpm * 1000, 60);
    MulMono(1, c.rpm, TOKEN);
    assert Gain(c, 1000 * secs) == secs * (c.rpm * 1000);
    assert Full(c) >= TOKEN;
  }

  // ---------------------------------------------------------------------------
  // The store bound
  // ---------------------------------------------------------------------------

  lemma DropSize(store: Store, now: int)
    ensures |DropStale(store, now)| <= |store|
  {
    var kept := DropStale(store, now);
    assert kept.Keys <= store.Keys;
    SubsetSize(kept.Keys, store.Keys);
  }

  lemma SubsetSize<T>(a: set<T>, b: set<T>)
    requires a <= b
    ensures |a| <= |b|
  {
    assert b == a + (b - a);
  }

  function Bound(c: Config): nat {
    if c.maxBuckets > 0 then c.maxBuckets else 1
  }

  lemma RoomMade(store: Store, maxBuckets: nat, now: int, victims: set<string>)
    requires ValidVictims(store, maxBuckets, now, victims)
    ensures |MakeRoom(store, maxBuckets, now, victims)| < (if maxBuckets > 0 then maxBuckets else 1)
  {
    var kept := DropStale(store, now);
    if |store| >= maxBuckets && |kept| >= maxBuckets {
      assert (kept - victims).Keys == kept.Keys - victims;
      assert |kept.Keys - victims| == |kept.Keys| - |victims|;
    }
  }

  /** With victims chosen as required, the store never grows past its bound. */
  lemma StoreBounded(c: Config, s: Snapshot, r: Request)
    requires |s.store| <= Bound(c)
    requires var store := Cleanup(s, r.cleanupAt).store;
             r.bucket !in store ==> ValidVictims(store, c.maxBuckets, r.roomAt, r.victims)
    ensures |Step(c, s, r).store| <= Bound(c)
  {
    var store := Cleanup(s, r.cleanupAt).store;
    DropSize(s.store, r.cleanupAt);
    if r.bucket in store {
      assert Step(c, s, r).store.Keys == store.Keys;
    } else {
      RoomMade(store, c.maxBuckets, r.roomAt, r.victims);
    }
  }

}
