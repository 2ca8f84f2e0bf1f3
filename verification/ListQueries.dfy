/**
 The listing queries: the fused statement, which deduplicates the whole row set, and the
 bounded read, which takes a growing prefix of the raw versions and deduplicates it in code.

 A statement's WHERE clause is the predicate `keep`; it is applied before deduplication on
 both paths.
 */
module ListQueries {
  import opened Base
  import opened MemoryRows

  const PLAIN_LIST_DEDUP_SLACK: nat := 50
  const PLAIN_LIST_MAX_WINDOW: nat := 100_000

  // `plain` is false when the request has a search, embedding, attribute or time-range part.
  datatype Filters = Filters(keep: Row -> bool, plain: bool, limit: Option<nat>, offset: nat)

  datatype Page = Page(memories: seq<Row>, total: nat)

  function Where(rows: seq<Row>, keep: Row -> bool): (s: seq<Row>)
    ensures forall r :: r in s <==> r in rows && keep(r)
  {
    if rows == [] then []
    else
      var rest := Where(rows[..|rows| - 1], keep);
      assert rows == rows[..|rows| - 1] + [rows[|rows| - 1]];
      if keep(rows[|rows| - 1]) then rest + [rows[|rows| - 1]] else rest
  }

  // LIMIT/OFFSET, and equally the slice taken in code: rows [offset, offset + limit).
  function Slice(list: seq<Row>, offset: nat, limit: nat): (s: seq<Row>)
    ensures |s| <= limit
  {
    var lo := if offset <= |list| then offset else |list|;
    var hi := if offset + limit <= |list| then offset + limit else |list|;
    list[lo..hi]
  }

  function IdsOf(rows: seq<Row>): set<Option<Id>> {
    set r | r in rows :: r.id
  }

  predicate HasId(rows: seq<Row>, id: Option<Id>) {
    exists k | 0 <= k < |rows| :: rows[k].id == id
  }

  // Two versions of one memory with the same timestamp are the same row.
  ghost predicate VersionsAgree(src: seq<Row>) {
    forall r, q | r in src && q in src && r.id.Some? && q.id == r.id && q.ts == r.ts :: q == r
  }

  /**
   What the store guarantees: no two different versions of a memory share a timestamp, and
   a row without an id carries no action either (a malformed line).
   */
  ghost predicate WellFormed(src: seq<Row>) {
    && VersionsAgree(src)
    && (forall r | r in src && r.id.None? :: r.action.None?)
  }

  // ---------------------------------------------------------------------------
  // Fused statement
  // ---------------------------------------------------------------------------

  // r is a version no other version of its id is later than.
  ghost predicate IsNewest(src: seq<Row>, r: Row) {
    r in src && forall q | q in src && q.id == r.id :: !LaterTs(q.ts, r.ts)
  }

  ghost predicate DistinctIds(s: seq<Row>) {
    forall i, j | 0 <= i < j < |s| :: s[i].id != s[j].id
  }

  // ROW_NUMBER() OVER (PARTITION BY id ORDER BY ts DESC NULLS LAST) = 1, ties broken anyhow.
  ghost predicate IsDedup(src: seq<Row>, picked: seq<Row>) {
    && DistinctIds(picked)
    && (forall p | p in picked :: IsNewest(src, p))
    && (forall r | r in src :: HasId(picked, r.id))
  }

  // The rows of the fused statement before LIMIT/OFFSET.
  ghost predicate IsFusedList(src: seq<Row>, list: seq<Row>) {
    exists picked :: IsDedup(src, picked) && IsOrdering(Where(picked, IsLive), list)
  }

  // Where `id` first occurs in d, or |d|.
  function IndexOfId(d: seq<Row>, id: Option<Id>): (k: nat)
    ensures k <= |d|
    ensures k < |d| ==> d[k].id == id
    ensures forall m | 0 <= m < k :: d[m].id != id
  {
    if d == [] || d[0].id == id then 0 else 1 + IndexOfId(d[1..], id)
  }

  // One pass that keeps the latest version of each id.
  function Dedup(src: seq<Row>): seq<Row> {
    if src == [] then [] else Keep(Dedup(src[..|src| - 1]), src[|src| - 1])
  }

  function Keep(d: seq<Row>, r: Row): seq<Row> {
    var k := IndexOfId(d, r.id);
    if k == |d| then d + [r] else if LaterTs(r.ts, d[k].ts) then d[k := r] else d
  }

  lemma {:induction false} DedupDedups(src: seq<Row>)
    ensures IsDedup(src, Dedup(src))
  {
    if src != [] {
      var front, r := src[..|src| - 1], src[|src| - 1];
      assert src == front + [r];
      DedupDedups(front);
      KeepNewest(front, r, Dedup(front));
      KeepCovers(front, r, Dedup(front));
    }
  }

  lemma KeepNewest(front: seq<Row>, r: Row, d: seq<Row>)
    requires IsDedup(front, d)
    ensures forall p | p in Keep(d, r) :: IsNewest(front + [r], p)
  {
    var src, k := front + [r], IndexOfId(d, r.id);
    assert k < |d| ==> IsNewest(front, d[k]);
    forall q | q in front && q.id == r.id ensures k < |d| {
      var m :| 0 <= m < |d| && d[m].id == q.id;
    }
    forall p | p in Keep(d, r) ensures IsNewest(src, p) {
      assert p != r ==> IsNewest(front, p);
      if p != r && p.id == r.id {
        var m :| 0 <= m < |d| && d[m] == p;
        assert m == k;
      }
    }
  }

  lemma KeepCovers(front: seq<Row>, r: Row, d: seq<Row>)
    requires IsDedup(front, d)
    ensures forall q | q in front + [r] :: HasId(Keep(d, r), q.id)
  {
    var next, k := Keep(d, r), IndexOfId(d, r.id);
    forall q | q in front + [r] ensures HasId(next, q.id) {
      if q in front {
        var m :| 0 <= m < |d| && d[m].id == q.id;
        assert next[m].id == q.id;
      } else {
        assert next[k].id == r.id;
      }
    }
  }

  function FusedList(src: seq<Row>): seq<Row> {
    OrderBy(Where(Dedup(src), IsLive))
  }

  lemma FusedListIs(src: seq<Row>)
    ensures IsFusedList(src, FusedList(src))
  {
    DedupDedups(src);
    OrderByOrders(Where(Dedup(src), IsLive));
  }

  // ---------------------------------------------------------------------------
  // Deduplication in code
  // ---------------------------------------------------------------------------

  // First occurrences, tombstones dropped, of rows that arrive newest first.
  function LiveList(raw: seq<Row>): seq<Row> {
    if raw == [] then []
    else
      var front, r := raw[..|raw| - 1], raw[|raw| - 1];
      LiveList(front) + if r.id.Some? && !HasId(front, r.id) && IsLive(r) then [r] else []
  }

  method DedupePage(raw: seq<Row>, offset: nat, limit: nat) returns (page: seq<Row>)
    ensures page == Slice(LiveList(raw), offset, limit)
  {
    var seen: set<Id> := {};
    var live: seq<Row> := [];
    for i := 0 to |raw|
      invariant live == LiveList(raw[..i])
      invariant forall id: Id :: id in seen <==> HasId(raw[..i], Some(id))
    {
      var row := raw[i];
      assert raw[..i + 1] == raw[..i] + [row];
      assert raw[..i + 1][..i] == raw[..i];
      HasIdAppend(raw[..i], row);
      if row.id.None? || row.id.value in seen {
        continue;
      }
      seen := seen + {row.id.value};
      if !IsLive(row) {
        continue;
      }
      live := live + [row];
    }
    assert raw[..|raw|] == raw;
    page := Slice(live, offset, limit);
  }

  lemma HasIdAppend(rows: seq<Row>, r: Row)
    ensures forall id :: HasId(rows + [r], id) <==> HasId(rows, id) || id == r.id
  {
    forall id ensures HasId(rows + [r], id) <==> HasId(rows, id) || id == r.id {
      if k :| 0 <= k < |rows| && rows[k].id == id { assert (rows + [r])[k].id == id; }
      assert (rows + [r])[|rows|] == r;
    }
  }

  lemma {:induction false} LiveListPrefix(raw: seq<Row>, k: nat)
    requires k <= |raw|
    ensures LiveList(raw[..k]) <= LiveList(raw)
  {
    if k == |raw| {
      assert raw[..k] == raw;
    } else {
      var front := raw[..|raw| - 1];
      LiveListPrefix(front, k);
      assert front[..k] == raw[..k];
    }
  }

  // ---------------------------------------------------------------------------
  // The two forms agree
  // ---------------------------------------------------------------------------

  // A version a listing shows: live, and the newest of its id.
  ghost predicate Shown(src: seq<Row>, r: Row) {
    r.id.Some? && IsLive(r) && IsNewest(src, r)
  }

  ghost predicate StrictlySorted(s: seq<Row>) {
    forall i, j | 0 <= i < j < |s| :: Precedes(s[i], s[j])
  }

  lemma {:induction false} StrictUnique(x: seq<Row>, y: seq<Row>)
    requires StrictlySorted(x) && StrictlySorted(y)
    requires forall r :: r in x <==> r in y
    ensures x == y
  {
    assert x != [] ==> x[0] in x;
    assert y != [] ==> y[0] in y;
    if x != [] {
      assert x[0] in y && y[0] in x;
      PrecedesTotal(x[0], y[0]);
      assert x[0] == y[0];
      forall r ensures r in x[1..] <==> r in y[1..] {
        PrecedesTotal(x[0], x[0]);
        assert x == [x[0]] + x[1..] && y == [y[0]] + y[1..];
        if r in x[1..] { var k :| 1 <= k < |x| && x[k] == r; assert Precedes(x[0], r); assert r in x; }
        if r in y[1..] { var k :| 1 <= k < |y| && y[k] == r; assert Precedes(y[0], r); assert r in y; }
      }
      StrictUnique(x[1..], y[1..]);
      assert x == [x[0]] + x[1..] && y == [y[0]] + y[1..];
    }
  }

  // The row at k is the first of its id.
  ghost predicate FirstAt(s: seq<Row>, k: int) {
    0 <= k < |s| && forall m | 0 <= m < k :: s[m].id != s[k].id
  }

  lemma {:induction false} LiveListMembers(s: seq<Row>, r: Row)
    ensures r in LiveList(s) <==> r.id.Some? && IsLive(r) && exists k :: FirstAt(s, k) && s[k] == r
  {
    if s != [] {
      var n := |s| - 1;
      var front, last := s[..n], s[n];
      LiveListMembers(front, r);
      forall k | k < n ensures FirstAt(front, k) <==> FirstAt(s, k) {}
      assert HasId(front, last.id) <==> !FirstAt(s, n);
    }
  }

  lemma {:induction false} LiveListStrict(s: seq<Row>)
    requires Sorted(s)
    ensures StrictlySorted(LiveList(s))
  {
    if s != [] {
      var n := |s| - 1;
      var front, last := s[..n], s[n];
      LiveListStrict(front);
      var live := LiveList(front);
      if !HasId(front, last.id) {
        forall m | m in live ensures Precedes(m, last) {
          LiveListMembers(front, m);
          var k :| FirstAt(front, k) && front[k] == m;
          assert s[k] == m;
          PrecedesTotal(m, last);
        }
      }
    }
  }

  lemma FirstIsNewest(src: seq<Row>, s: seq<Row>, k: int)
    requires IsOrdering(src, s) && FirstAt(s, k)
    ensures IsNewest(src, s[k])
  {
    SameMembers(src, s);
    forall q | q in src && q.id == s[k].id ensures !LaterTs(q.ts, s[k].ts) {
      var m :| 0 <= m < |s| && s[m] == q;
      assert m >= k;
    }
  }

  // In a sorted row set the first version of an id is its newest.
  lemma LiveListShown(src: seq<Row>, s: seq<Row>, r: Row)
    requires VersionsAgree(src) && IsOrdering(src, s)
    ensures r in LiveList(s) <==> Shown(src, r)
  {
    SameMembers(src, s);
    LiveListMembers(s, r);
    if r in LiveList(s) {
      var k :| FirstAt(s, k) && s[k] == r;
      FirstIsNewest(src, s, k);
    }
    if Shown(src, r) {
      var m :| 0 <= m < |s| && s[m] == r;
      var k := IndexOfId(s, r.id);
      assert FirstAt(s, k);
      FirstIsNewest(src, s, k);
      assert s[k] in src;
      assert !LaterTs(r.ts, s[k].ts) && !LaterTs(s[k].ts, r.ts);
    }
  }

  lemma FusedShown(src: seq<Row>, list: seq<Row>, r: Row)
    requires VersionsAgree(src) && IsFusedList(src, list)
    ensures r.id.Some? ==> (r in list <==> Shown(src, r))
    ensures r.id.None? && r in list ==> IsLive(r) && IsNewest(src, r)
  {
    var picked: seq<Row> :| IsDedup(src, picked) && IsOrdering(Where(picked, IsLive), list);
    SameMembers(Where(picked, IsLive), list);
    if Shown(src, r) {
      assert HasId(picked, r.id);
      var k :| 0 <= k < |picked| && picked[k].id == r.id;
      assert picked[k] in picked && IsNewest(src, picked[k]);
      assert !LaterTs(r.ts, picked[k].ts) && !LaterTs(picked[k].ts, r.ts);
    }
  }

  lemma {:induction false} WhereDistinct(rows: seq<Row>, keep: Row -> bool)
    requires DistinctIds(rows)
    ensures DistinctIds(Where(rows, keep))
  {
    if rows != [] {
      var n := |rows| - 1;
      var rest := Where(rows[..n], keep);
      WhereDistinct(rows[..n], keep);
      forall i | 0 <= i < |rest| ensures rest[i].id != rows[n].id {
        assert rest[i] in rows[..n];
      }
    }
  }

  lemma {:induction false} DistinctCount(s: seq<Row>, x: Row)
    requires DistinctIds(s)
    ensures multiset(s)[x] <= 1
  {
    if s != [] {
      assert s == [s[0]] + s[1..];
      DistinctCount(s[1..], x);
      if x == s[0] { assert x !in s[1..]; }
    }
  }

  lemma DistinctIdsOrdering(rows: seq<Row>, s: seq<Row>)
    requires DistinctIds(rows) && multiset(s) == multiset(rows)
    ensures DistinctIds(s)
  {
    SameMembers(rows, s);
    forall i, j | 0 <= i < j < |s| ensures s[i].id != s[j].id {
      if s[i].id == s[j].id {
        assert s[i] in rows && s[j] in rows;
        assert s[i] == s[j];
        assert s == s[..j] + [s[j]] + s[j + 1..];
        assert s[..j][i] == s[i];
        assert multiset(s[..j])[s[i]] >= 1;
        DistinctCount(rows, s[i]);
        assert false;
      }
    }
  }

  lemma FusedStrict(src: seq<Row>, list: seq<Row>)
    requires IsFusedList(src, list)
    ensures DistinctIds(list) && StrictlySorted(list)
  {
    var picked: seq<Row> :| IsDedup(src, picked) && IsOrdering(Where(picked, IsLive), list);
    WhereDistinct(picked, IsLive);
    DistinctIdsOrdering(Where(picked, IsLive), list);
    forall i, j | 0 <= i < j < |list| ensures Precedes(list[i], list[j]) {
      PrecedesTotal(list[i], list[j]);
    }
  }

  /**
   Whatever tie-breaking either statement uses: sorting every version, keeping first
   occurrences and dropping tombstones gives the fused list.
   */
  lemma ScanIsFused(src: seq<Row>, s: seq<Row>, list: seq<Row>)
    requires WellFormed(src) && IsOrdering(src, s) && IsFusedList(src, list)
    ensures LiveList(s) == list
  {
    LiveListStrict(s);
    FusedStrict(src, list);
    forall r ensures r in LiveList(s) <==> r in list {
      LiveListShown(src, s, r);
      FusedShown(src, list, r);
    }
    StrictUnique(LiveList(s), list);
  }

  /**
   Without the guarantee about rows that have no id the two forms differ: the code skips
   every such row, the fused statement shows the newest one when it is live.
   */
  lemma AnonymousRowDecides(src: seq<Row>, s: seq<Row>, list: seq<Row>, newest: Row)
    requires VersionsAgree(src) && IsOrdering(src, s) && IsFusedList(src, list)
    requires newest.id.None? && IsNewest(src, newest)
    requires forall q | q in src && q.id.None? && q.ts == newest.ts :: q == newest
    ensures LiveList(s) == list <==> !IsLive(newest)
  {
    LiveListStrict(s);
    FusedStrict(src, list);
    AnonymousShown(src, list, newest);
    LiveListShown(src, s, newest);
    if !IsLive(newest) {
      forall r ensures r in LiveList(s) <==> r in list {
        LiveListShown(src, s, r);
        FusedShown(src, list, r);
        assert r.id.None? && r in list ==> r.ts == newest.ts;
      }
      StrictUnique(LiveList(s), list);
    }
  }

  lemma AnonymousShown(src: seq<Row>, list: seq<Row>, newest: Row)
    requires IsFusedList(src, list)
    requires newest.id.None? && IsNewest(src, newest)
    requires forall q | q in src && q.id.None? && q.ts == newest.ts :: q == newest
    ensures newest in list <==> IsLive(newest)
  {
    var picked: seq<Row> :| IsDedup(src, picked) && IsOrdering(Where(picked, IsLive), list);
    SameMembers(Where(picked, IsLive), list);
    assert HasId(picked, newest.id);
    var k :| 0 <= k < |picked| && picked[k].id == newest.id;
    assert picked[k] in picked && IsNewest(src, picked[k]);
    assert !LaterTs(newest.ts, picked[k].ts) && !LaterTs(picked[k].ts, newest.ts);
  }

  /**
   Which rows a listing holds: those with an id, an action other than "tombstone", and no later
   version.
   */
  lemma ListedIff(src: seq<Row>, list: seq<Row>, r: Row)
    requires WellFormed(src) && IsFusedList(src, list)
    ensures r in list <==>
              && r in src && r.id.Some? && r.action.Some? && r.action.value != "tombstone"
              && forall q | q in src && q.id == r.id :: q.ts.None? || (r.ts.Some? && q.ts.value <= r.ts.value)
  {
    FusedShown(src, list, r);
  }

  /** In which order: newest first, rows without a time last, and by id at one instant. */
  lemma ListedInOrder(src: seq<Row>, list: seq<Row>, i: nat, j: nat)
    requires IsFusedList(src, list) && i < j < |list|
    ensures var a, b := list[i], list[j];
            || (a.ts.Some? && (b.ts.None? || a.ts.value > b.ts.value))
            || (a.ts == b.ts && a.id.Some? && (b.id.None? || TextBefore(a.id.value, b.id.value)))
  {
    FusedStrict(src, list);
  }

  lemma FusedListUnique(src: seq<Row>, list: seq<Row>)
    requires WellFormed(src) && IsFusedList(src, list)
    ensures list == FusedList(src)
  {
    OrderByOrders(src);
    FusedListIs(src);
    ScanIsFused(src, OrderBy(src), list);
    ScanIsFused(src, OrderBy(src), FusedList(src));
  }

  // ---------------------------------------------------------------------------
  // Totals
  // ---------------------------------------------------------------------------

  // arg_max(action, ts) takes rows whose action and ts are both non-null.
  predicate Timed(r: Row) {
    r.ts.Some? && r.action.Some?
  }

  // HAVING arg_max(action, ts) != 'tombstone', for the group of `id`.
  predicate ArgMaxLive(src: seq<Row>, id: Option<Id>) {
    exists r | r in src ::
      && r.id == id && Timed(r) && IsLive(r)
      && forall q | q in src && q.id == id && Timed(q) :: !LaterTs(q.ts, r.ts)
  }

  function CountedIds(src: seq<Row>): set<Option<Id>> {
    set id | id in IdsOf(src) && ArgMaxLive(src, id)
  }

  // The hash aggregate `SELECT COUNT(*) ... GROUP BY id HAVING ...`.
  function CountLive(src: seq<Row>): nat {
    |CountedIds(src)|
  }

  // A live row whose id has no version with a parseable timestamp: shown, but not counted.
  predicate Untimed(src: seq<Row>, r: Row) {
    r in src && r.id.Some? && IsLive(r) && forall q | q in src && q.id == r.id :: q.ts.None?
  }

  // A newest version without an action, above one that the aggregate takes as live: counted,
  // but not shown.
  predicate Actionless(src: seq<Row>, r: Row) {
    r in src && r.action.None? && ArgMaxLive(src, r.id) && forall q | q in src && q.id == r.id :: !LaterTs(q.ts, r.ts)
  }

  function UntimedIds(src: seq<Row>): set<Option<Id>> {
    set r | r in src && Untimed(src, r) :: r.id
  }

  function ActionlessIds(src: seq<Row>): set<Option<Id>> {
    set r | r in src && Actionless(src, r) :: r.id
  }

  lemma {:induction false} DistinctIdsSize(s: seq<Row>)
    requires DistinctIds(s)
    ensures |IdsOf(s)| == |s|
  {
    if s != [] {
      var n := |s| - 1;
      var front, last := s[..n], s[n];
      assert s == front + [last];
      DistinctIdsSize(front);
      assert IdsOf(s) == IdsOf(front) + {last.id};
    }
  }

  // The ids the aggregate counts and the page does not show.
  lemma CountedNotShown(src: seq<Row>, id: Option<Id>)
    requires WellFormed(src)
    ensures id in CountedIds(src) - IdsOf(FusedList(src)) <==> id in ActionlessIds(src)
  {
    var list := FusedList(src);
    FusedListIs(src);
    if id in CountedIds(src) - IdsOf(list) {
      var r := Counted(src, id);
      var p := NewestOf(src, id);
      FusedShown(src, list, p);
      assert p.action.Some? ==> Timed(p);
      assert Actionless(src, p);
    }
    if id in ActionlessIds(src) {
      var p: Row :| p in src && Actionless(src, p) && p.id == id;
      var r := Counted(src, id);
      NotListed(src, list, p);
    }
  }

  lemma Counted(src: seq<Row>, id: Option<Id>) returns (r: Row)
    requires ArgMaxLive(src, id)
    ensures r in src && r.id == id && Timed(r) && IsLive(r)
    ensures forall q | q in src && q.id == id && Timed(q) :: !LaterTs(q.ts, r.ts)
  {
    r :| r in src && r.id == id && Timed(r) && IsLive(r)
      && forall q | q in src && q.id == id && Timed(q) :: !LaterTs(q.ts, r.ts);
  }

  lemma NewestOf(src: seq<Row>, id: Option<Id>) returns (p: Row)
    requires id in IdsOf(src)
    ensures IsNewest(src, p) && p.id == id
  {
    DedupDedups(src);
    var r: Row :| r in src && r.id == id;
    assert HasId(Dedup(src), r.id);
    var k :| 0 <= k < |Dedup(src)| && Dedup(src)[k].id == id;
    p := Dedup(src)[k];
    assert p in Dedup(src);
  }

  // A memory whose newest version is not live is not listed.
  lemma NotListed(src: seq<Row>, list: seq<Row>, p: Row)
    requires VersionsAgree(src) && IsFusedList(src, list)
    requires p.id.Some? && IsNewest(src, p) && !IsLive(p)
    ensures p.id !in IdsOf(list)
  {
    forall r | r in list ensures r.id != p.id {
      FusedShown(src, list, r);
      assert r.id == p.id ==> !LaterTs(r.ts, p.ts) && !LaterTs(p.ts, r.ts);
    }
  }

  // A shown memory with some parseable timestamp is counted.
  lemma TimedIsCounted(src: seq<Row>, r: Row, q: Row)
    requires IsNewest(src, r) && IsLive(r) && q in src && q.id == r.id && q.ts.Some?
    ensures ArgMaxLive(src, r.id)
  {
    assert Timed(r);
  }

  // The ids the page shows and the aggregate does not count.
  lemma ShownNotCounted(src: seq<Row>, id: Option<Id>)
    requires WellFormed(src)
    ensures id in IdsOf(FusedList(src)) - CountedIds(src) <==> id in UntimedIds(src)
  {
    var list := FusedList(src);
    FusedListIs(src);
    if id in IdsOf(list) - CountedIds(src) {
      var r: Row :| r in list && r.id == id;
      FusedShown(src, list, r);
      forall q | q in src && q.id == id ensures q.ts.None? {
        if q.ts.Some? {
          TimedIsCounted(src, r, q);
        }
      }
      assert Untimed(src, r);
    }
    if id in UntimedIds(src) {
      var r: Row :| r in src && Untimed(src, r) && r.id == id;
      FusedShown(src, list, r);
      assert IsNewest(src, r) && r in list;
    }
  }

  lemma Differences(src: seq<Row>, extra: set<Option<Id>>, missing: set<Option<Id>>)
    requires WellFormed(src)
    requires extra == CountedIds(src) - IdsOf(FusedList(src)) && missing == IdsOf(FusedList(src)) - CountedIds(src)
    ensures extra == ActionlessIds(src) && missing == UntimedIds(src)
  {
    forall id ensures id in extra <==> id in ActionlessIds(src) {
      CountedNotShown(src, id);
    }
    forall id ensures id in missing <==> id in UntimedIds(src) {
      ShownNotCounted(src, id);
    }
  }

  /**
   The hash aggregate and the fused list differ by exactly the memories one of them misses:
   the page shows those without any parseable timestamp, the aggregate counts those whose
   newest version lacks an action.
   */
  lemma TotalsBalance(src: seq<Row>)
    requires WellFormed(src)
    ensures CountLive(src) + |UntimedIds(src)| == |FusedList(src)| + |ActionlessIds(src)|
  {
    var counted, shown := CountedIds(src), IdsOf(FusedList(src));
    FusedListIs(src);
    FusedStrict(src, FusedList(src));
    DistinctIdsSize(FusedList(src));
    Differences(src, counted - shown, shown - counted);
  }

  // The totals agree exactly when equally many memories are missed on either side.
  predicate TotalsAgree(src: seq<Row>) {
    |UntimedIds(src)| == |ActionlessIds(src)|
  }

  lemma TotalsAgreeIff(src: seq<Row>)
    requires WellFormed(src)
    ensures CountLive(src) == |FusedList(src)| <==> TotalsAgree(src)
    ensures (forall r | r in src && r.id.Some? :: r.action.Some?) ==>
              (TotalsAgree(src) <==> forall r :: !Untimed(src, r))
  {
    TotalsBalance(src);
    if forall r | r in src && r.id.Some? :: r.action.Some? {
      forall r | r in src ensures !Actionless(src, r) {
        assert r.id.None? ==> !ArgMaxLive(src, r.id);
      }
      assert ActionlessIds(src) == {};
      if r :| Untimed(src, r) {
        assert r.id in UntimedIds(src);
      } else {
        assert UntimedIds(src) == {};
      }
    }
  }

  /** One live row without a parseable timestamp is shown, and the aggregate reports zero. */
  lemma UntimedRowNotCounted()
    ensures var src := [Row(Some("a"), None, Some("add"), "")];
            WellFormed(src) && !TotalsAgree(src) && CountLive(src) == 0 && FusedList(src) == src
  {
    var src := [Row(Some("a"), None, Some("add"), "")];
    assert CountedIds(src) == {};
    FusedOne(src[0]);
    TotalsAgreeIff(src);
  }

  /** A newest version without an action hides its memory, but the aggregate looks past it. */
  lemma ActionlessRowCounted(add: Row, late: Row)
    requires add == Row(Some("a"), Some(1), Some("add"), "") && late == Row(Some("a"), Some(2), None, "")
    ensures WellFormed([add, late]) && CountLive([add, late]) == 1 && FusedList([add, late]) == []
  {
    var src := [add, late];
    assert add in src && late in src;
    OneActionless(src, add, late);
  }

  lemma OneActionless(src: seq<Row>, add: Row, late: Row)
    requires forall r :: r in src <==> r == add || r == late
    requires IsLive(add) && add.id.Some? && add.ts.Some? && late.id == add.id && late.action.None? && LaterTs(late.ts, add.ts)
    ensures WellFormed(src) && CountLive(src) == 1 && FusedList(src) == []
  {
    assert VersionsAgree(src);
    assert CountedIds(src) == {add.id} by {
      assert ArgMaxLive(src, add.id);
      assert add in src;
    }
    AllHidden(src, add, late);
  }

  lemma AllHidden(src: seq<Row>, add: Row, late: Row)
    requires WellFormed(src) && forall r :: r in src <==> r == add || r == late
    requires add.id.Some? && late.id == add.id && late.action.None? && LaterTs(late.ts, add.ts)
    ensures FusedList(src) == []
  {
    var list := FusedList(src);
    FusedListIs(src);
    assert list != [] ==> list[0] in list;
    assert late in src;
    forall r ensures r !in list {
      FusedShown(src, list, r);
    }
  }

  lemma FusedOne(r: Row)
    requires IsLive(r)
    ensures FusedList([r]) == [r]
  {
    var src := [r];
    assert src[..0] == [] && src[1..] == [];
    assert Dedup([]) == [] && Keep([], r) == src;
    assert Where([], IsLive) == [] && Where(src, IsLive) == src;
    assert OrderBy([]) == [] && Insert(r, []) == src;
  }

  // ---------------------------------------------------------------------------
  // The queries
  // ---------------------------------------------------------------------------

  datatype BoundedRead = BoundedRead(pageRows: seq<Row>, total: nat)

  // ORDER BY ... LIMIT window: a prefix of some ordering, all of it when it fits.
  ghost predicate IsTop(src: seq<Row>, window: nat, top: seq<Row>) {
    exists s :: IsOrdering(src, s) && top == if window <= |s| then s[..window] else s
  }

  method RunBoundedRead(src: seq<Row>, window: nat) returns (res: BoundedRead)
    ensures IsTop(src, window, res.pageRows)
    ensures res.total == CountLive(src)
  {
    var s := OrderBy(src);
    OrderByOrders(src);
    res := BoundedRead(if window <= |s| then s[..window] else s, CountLive(src));
  }

  // OFFSET is only emitted together with a LIMIT.
  function PageOf(list: seq<Row>, limit: Option<nat>, offset: nat): seq<Row> {
    if limit.Some? then Slice(list, offset, limit.value) else list
  }

  function FusedPage(src: seq<Row>, limit: Option<nat>, offset: nat): seq<Row> {
    PageOf(FusedList(src), limit, offset)
  }

  // `list` is the ordered list the statement happened to produce.
  method QueryFused(src: seq<Row>, limit: Option<nat>, offset: nat) returns (res: Page, ghost list: seq<Row>)
    ensures IsFusedList(src, list) && res == Page(PageOf(list, limit, offset), |list|)
    ensures WellFormed(src) ==>
              forall other | IsFusedList(src, other) :: res == Page(PageOf(other, limit, offset), |other|)
  {
    var matches := Where(Dedup(src), IsLive);
    var ordered := OrderBy(matches);
    list := ordered;
    FusedListIs(src);
    res := Page(PageOf(ordered, limit, offset), |matches|);
    OrderByOrders(matches);
    SameMembers(matches, ordered);
    if WellFormed(src) {
      forall other | IsFusedList(src, other) ensures res == Page(PageOf(other, limit, offset), |other|) {
        FusedListUnique(src, other);
      }
    }
  }

  // The largest window the doubling reaches without passing the cap.
  function LastWindow(window: nat): (w: nat)
    requires 0 < window <= PLAIN_LIST_MAX_WINDOW
    ensures window <= w <= PLAIN_LIST_MAX_WINDOW < 2 * w
    decreases PLAIN_LIST_MAX_WINDOW - window
  {
    if 2 * window > PLAIN_LIST_MAX_WINDOW then window else LastWindow(2 * window)
  }

  lemma SliceOfPrefix(live: seq<Row>, all: seq<Row>, offset: nat, limit: nat)
    requires live <= all && |Slice(live, offset, limit)| == limit
    ensures Slice(live, offset, limit) == Slice(all, offset, limit)
  {
    if limit > 0 {
      assert offset + limit <= |live|;
      assert live[offset..offset + limit] == all[offset..offset + limit];
    }
  }

  // A prefix of the versions that yields a full page, or all of them, yields the fused page.
  lemma TopServesPage(src: seq<Row>, window: nat, top: seq<Row>, offset: nat, limit: nat)
    requires WellFormed(src) && IsTop(src, window, top)
    requires |Slice(LiveList(top), offset, limit)| == limit || |top| < window
    ensures Slice(LiveList(top), offset, limit) == Slice(FusedList(src), offset, limit)
  {
    var s: seq<Row> :| IsOrdering(src, s) && top == if window <= |s| then s[..window] else s;
    FusedListIs(src);
    ScanIsFused(src, s, FusedList(src));
    if window <= |s| {
      LiveListPrefix(s, window);
      SliceOfPrefix(LiveList(top), LiveList(s), offset, limit);
    }
  }

  // A window that left the page short stays a witness: no smaller window does better.
  ghost predicate ShortAt(src: seq<Row>, window: nat, needed: nat) {
    exists top :: IsTop(src, window, top) && |top| == window && |LiveList(top)| < needed
  }

  function FirstWindow(limit: nat, offset: nat): nat {
    offset + limit + PLAIN_LIST_DEDUP_SLACK
  }

  // The only reasons to give up: no limit, a first window past the cap, or a page that is
  // still short at the last window the doubling reaches.
  ghost predicate CannotBound(src: seq<Row>, limit: Option<nat>, offset: nat) {
    limit.Some? ==>
      var first := FirstWindow(limit.value, offset);
      first <= PLAIN_LIST_MAX_WINDOW ==> ShortAt(src, LastWindow(first), offset + limit.value)
  }

  // The refill may go on with this window, or has found the reason to give up.
  ghost predicate Refilling(src: seq<Row>, limit: nat, offset: nat, window: nat) {
    && window >= FirstWindow(limit, offset)
    && if window <= PLAIN_LIST_MAX_WINDOW then LastWindow(window) == LastWindow(FirstWindow(limit, offset))
       else CannotBound(src, Some(limit), offset)
  }

  lemma RefillOn(src: seq<Row>, limit: nat, offset: nat, window: nat, top: seq<Row>)
    requires Refilling(src, limit, offset, window) && window <= PLAIN_LIST_MAX_WINDOW
    requires IsTop(src, window, top) && |top| == window && |LiveList(top)| < offset + limit
    ensures Refilling(src, limit, offset, window * 2)
  {
    assert ShortAt(src, window, offset + limit);
    assert 2 * window <= PLAIN_LIST_MAX_WINDOW ==> LastWindow(window) == LastWindow(2 * window);
  }

  // A window larger than the source is never left short.
  lemma NotShort(src: seq<Row>, limit: nat, offset: nat)
    requires CannotBound(src, Some(limit), offset) && FirstWindow(limit, offset) <= PLAIN_LIST_MAX_WINDOW
    ensures |src| >= FirstWindow(limit, offset)
  {
    var window := LastWindow(FirstWindow(limit, offset));
    var top :| IsTop(src, window, top) && |top| == window && |LiveList(top)| < offset + limit;
    var s: seq<Row> :| IsOrdering(src, s) && top == if window <= |s| then s[..window] else s;
    SameMembers(src, s);
  }

  method QueryPlainListBounded(src: seq<Row>, limit: Option<nat>, offset: nat)
    returns (res: Option<Page>)
    requires WellFormed(src)
    ensures res.Some? ==> res.value.memories == FusedPage(src, limit, offset)
    ensures res.Some? ==> res.value.total == CountLive(src)
    ensures limit == Some(0) ==> res.Some?
    ensures res.None? ==> CannotBound(src, limit, offset)
    ensures limit.None? ==> res.None?
    ensures limit.Some? && limit.value > 0 && offset + limit.value + 50 > 100_000 ==> res.None?
    ensures limit.Some? && |src| < offset + limit.value + 50 <= 100_000 ==> res.Some?
  {
    if limit.None? {
      return None;
    }
    var needed := offset + limit.value;
    if limit.value == 0 {
      return Some(Page([], CountLive(src)));
    }
    var window := needed + PLAIN_LIST_DEDUP_SLACK;
    while true
      invariant Refilling(src, limit.value, offset, window)
      decreases 2 * PLAIN_LIST_MAX_WINDOW - window
    {
      if window > PLAIN_LIST_MAX_WINDOW {
        if FirstWindow(limit.value, offset) <= PLAIN_LIST_MAX_WINDOW { NotShort(src, limit.value, offset); }
        return None;
      }
      var read := RunBoundedRead(src, window);
      var exhausted := |read.pageRows| < window;
      var memories := DedupePage(read.pageRows, offset, limit.value);
      if |memories| == limit.value || exhausted {
        TopServesPage(src, window, read.pageRows, offset, limit.value);
        return Some(Page(memories, read.total));
      }
      RefillOn(src, limit.value, offset, window, read.pageRows);
      window := window * 2;
    }
  }

  // Whether the bounded read can serve the page at all.
  predicate MayBound(plain: bool, limit: Option<nat>, offset: nat) {
    plain && limit.Some? && (limit.value == 0 || FirstWindow(limit.value, offset) <= PLAIN_LIST_MAX_WINDOW)
  }

  // What a caller gets: the fused page, with the aggregate total if the bounded read served it.
  ghost predicate Served(src: seq<Row>, plain: bool, limit: Option<nat>, offset: nat, page: Page) {
    && page.memories == FusedPage(src, limit, offset)
    && (page.total == |FusedList(src)| || (MayBound(plain, limit, offset) && page.total == CountLive(src)))
    && (plain && limit == Some(0) ==> page.total == CountLive(src))
  }

  method QueryMemoriesWithTotal(rows: seq<Row>, filters: Filters) returns (res: Page)
    requires WellFormed(Where(rows, filters.keep))
    ensures Served(Where(rows, filters.keep), filters.plain, filters.limit, filters.offset, res)
    ensures TotalsAgree(Where(rows, filters.keep)) ==> res.total == |FusedList(Where(rows, filters.keep))|
    ensures filters.limit.None? ==> IsFusedList(Where(rows, filters.keep), res.memories) && res.total == |res.memories|
  {
    var src := Where(rows, filters.keep);
    TotalsAgreeIff(src);
    if filters.plain {
      var bounded := QueryPlainListBounded(src, filters.limit, filters.offset);
      if bounded.Some? {
        return bounded.value;
      }
    }
    FusedListIs(src);
    ghost var list;
    res, list := QueryFused(src, filters.limit, filters.offset);
  }

  /**
   All pages of a plain listing report the same total exactly when the two totals agree. When
   they do not, the page of limit 0 and the unlimited one differ.
   */
  lemma SameTotalIff(src: seq<Row>)
    requires WellFormed(src)
    ensures TotalsAgree(src) <==>
              forall limit, offset, page, limit', offset', page' |
                Served(src, true, limit, offset, page) && Served(src, true, limit', offset', page') ::
                page.total == page'.total
  {
    TotalsAgreeIff(src);
    if !TotalsAgree(src) {
      var all := Page(FusedPage(src, None, 0), |FusedList(src)|);
      var none := Page(FusedPage(src, Some(0), 0), CountLive(src));
      assert Served(src, true, None, 0, all) && Served(src, true, Some(0), 0, none);
    }
  }

  // ---------------------------------------------------------------------------
  // Paging
  // ---------------------------------------------------------------------------

  // The pages at offset, offset + limit, ... of a listing, put end to end.
  function Pages(list: seq<Row>, offset: nat, limit: nat): seq<Row>
    requires limit > 0
    decreases |list| - offset
  {
    if offset >= |list| then [] else Slice(list, offset, limit) + Pages(list, offset + limit, limit)
  }

  lemma {:induction false} PagesTile(list: seq<Row>, offset: nat, limit: nat)
    requires limit > 0 && offset <= |list|
    ensures Pages(list, offset, limit) == list[offset..]
    decreases |list| - offset
  {
    if offset < |list| {
      var next := offset + limit;
      var hi := if next <= |list| then next else |list|;
      if next <= |list| {
        PagesTile(list, next, limit);
      }
      assert Pages(list, next, limit) == list[hi..];
      assert Slice(list, offset, limit) == list[offset..hi];
      assert list[offset..] == list[offset..hi] + list[hi..];
    }
  }

  // Walking the pages from offset 0 shows every live memory once, newest first.
  lemma PagesShowEachOnce(src: seq<Row>, limit: nat, r: Row)
    requires WellFormed(src) && limit > 0
    ensures var shown := Pages(FusedList(src), 0, limit);
            && DistinctIds(shown) && StrictlySorted(shown)
            && (r in shown <==> Shown(src, r))
  {
    var list := FusedList(src);
    PagesTile(list, 0, limit);
    assert list[0..] == list;
    FusedListIs(src);
    FusedStrict(src, list);
    FusedShown(src, list, r);
  }

  function Memories(pages: seq<Page>): seq<Row> {
    if pages == [] then [] else Memories(pages[..|pages| - 1]) + pages[|pages| - 1].memories
  }

  function Covered(list: seq<Row>, n: nat): seq<Row> {
    if n <= |list| then list[..n] else list
  }

  lemma NextPage(list: seq<Row>, n: nat, limit: nat)
    ensures Covered(list, n) + Slice(list, n, limit) == Covered(list, n + limit)
  {
  }

  // Where page i starts.
  function Offset(i: nat, limit: nat): nat {
    i * limit
  }

  lemma OffsetNext(i: nat, limit: nat)
    ensures Offset(i + 1, limit) == Offset(i, limit) + limit
  {
  }

  lemma {:induction false} MemoriesTile(list: seq<Row>, limit: nat, pages: seq<Page>)
    requires forall i: nat | i < |pages| :: pages[i].memories == Slice(list, Offset(i, limit), limit)
    ensures Memories(pages) == Covered(list, Offset(|pages|, limit))
  {
    if pages != [] {
      var n := |pages| - 1;
      MemoriesTile(list, limit, pages[..n]);
      OffsetNext(n, limit);
      NextPage(list, Offset(n, limit), limit);
    }
  }

  /**
   The pages served at offsets 0, L, 2L, ..., by whichever mix of reads, put end to end are
   the first rows of the listing, and all of it once they reach its size.
   */
  lemma ServedPagesTile(src: seq<Row>, plain: bool, limit: nat, pages: seq<Page>)
    requires forall i: nat | i < |pages| :: Served(src, plain, Some(limit), Offset(i, limit), pages[i])
    ensures Memories(pages) == Covered(FusedList(src), Offset(|pages|, limit))
  {
    forall i: nat | i < |pages|
      ensures pages[i].memories == Slice(FusedList(src), Offset(i, limit), limit)
    {
      assert Served(src, plain, Some(limit), Offset(i, limit), pages[i]);
    }
    MemoriesTile(FusedList(src), limit, pages);
  }
}
