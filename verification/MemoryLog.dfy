/**
 The append-only log of one partition: inserts and updates append a version, a deletion
 appends a tombstone. The listing view of the log is compared with replaying it into a map.
 */
module MemoryLog {
  import opened Base
  import opened MemoryRows
  import opened ListQueries

  // Each version of a memory is later than those before it; malformed lines carry no action.
  ghost predicate Increasing(log: seq<Row>) {
    && (forall r | r in log && r.id.None? :: r.action.None?)
    && (forall i, j | 0 <= i < j < |log| && log[i].id.Some? && log[i].id == log[j].id :: LaterTs(log[j].ts, log[i].ts))
  }

  function ReplayStep(m: map<Id, Row>, r: Row): map<Id, Row> {
    if r.id.None? then m else if IsLive(r) then m[r.id.value := r] else m - {r.id.value}
  }

  // Event sourcing: the last event of each memory decides.
  function Replay(log: seq<Row>): map<Id, Row> {
    if log == [] then map[] else ReplayStep(Replay(log[..|log| - 1]), log[|log| - 1])
  }

  // ---------------------------------------------------------------------------
  // One append
  // ---------------------------------------------------------------------------

  // t is later than every version of its memory so far.
  ghost predicate IsLatest(log: seq<Row>, t: Row) {
    forall q | q in log && q.id == t.id :: LaterTs(t.ts, q.ts)
  }

  // Appending the latest version replaces its memory's record and no other.
  lemma AppendShown(log: seq<Row>, t: Row, r: Row)
    requires t.id.Some? && IsLatest(log, t)
    ensures Shown(log + [t], r) <==> if r.id == t.id then r == t && IsLive(t) else Shown(log, r)
  {
    assert forall q :: q in log + [t] <==> q in log || q == t;
    if r.id == t.id && r in log {
      assert LaterTs(t.ts, r.ts);
      assert t in log + [t];
    }
  }

  lemma AppendAgrees(log: seq<Row>, t: Row)
    requires VersionsAgree(log) && IsLatest(log, t)
    ensures VersionsAgree(log + [t])
  {
  }

  /**
   A deletion lowers the count by one when the memory was shown and by nothing otherwise,
   hides that memory, and leaves the record of every other memory as it was.
   */
  lemma TombstoneCount(log: seq<Row>, t: Row)
    requires WellFormed(log)
    requires t.id.Some? && t.action == Some(TOMBSTONE) && IsLatest(log, t)
    ensures |FusedList(log + [t])| ==
            |FusedList(log)| - if HasId(FusedList(log), t.id) then 1 else 0
    ensures forall r :: r in FusedList(log + [t]) <==> r in FusedList(log) && r.id != t.id
  {
    var before, after := FusedList(log), FusedList(log + [t]);
    FusedListIs(log);
    FusedListIs(log + [t]);
    forall r ensures r in after <==> r in before && r.id != t.id {
      AppendAgrees(log, t);
      AppendShown(log, t, r);
      FusedShown(log, before, r);
      FusedShown(log + [t], after, r);
    }
    FusedStrict(log, before);
    FusedStrict(log + [t], after);
    CountWithout(before, after, t.id);
  }

  lemma CountWithout(before: seq<Row>, after: seq<Row>, id: Option<Id>)
    requires DistinctIds(before) && DistinctIds(after)
    requires forall r :: r in after <==> r in before && r.id != id
    ensures |after| == |before| - if HasId(before, id) then 1 else 0
  {
    DistinctIdsSize(before);
    DistinctIdsSize(after);
    if HasId(before, id) {
      var k :| 0 <= k < |before| && before[k].id == id;
      assert before[k] in before;
    }
    assert HasId(before, id) <==> id in IdsOf(before);
    assert IdsOf(after) == IdsOf(before) - {id};
  }

  // Another newest version of the same id may stand in for the one picked.
  lemma Repicked(log: seq<Row>, d: seq<Row>, k: nat, r: Row)
    requires IsDedup(log, d) && IsNewest(log, r) && k < |d| && d[k].id == r.id
    ensures IsDedup(log, d[k := r])
  {
    var picked := d[k := r];
    assert forall m | 0 <= m < |d| :: picked[m].id == d[m].id;
    forall q | q in log ensures HasId(picked, q.id) {
      assert HasId(d, q.id);
      var m :| 0 <= m < |d| && d[m].id == q.id;
      assert picked[m].id == q.id;
    }
  }

  // The engine may pick any newest version of a memory; it is listed if that one is live.
  lemma PickAny(log: seq<Row>, r: Row) returns (list: seq<Row>)
    requires IsNewest(log, r)
    ensures IsFusedList(log, list) && (HasId(list, r.id) <==> IsLive(r))
  {
    var d := Dedup(log);
    DedupDedups(log);
    assert HasId(d, r.id);
    var k := IndexOfId(d, r.id);
    Repicked(log, d, k, r);
    var picked := d[k := r];
    var live := Where(picked, IsLive);
    list := OrderBy(live);
    OrderByOrders(live);
    SameMembers(live, list);
    OnePicked(picked, k);
    SameHasId(live, list, r.id);
  }

  lemma OneOfId(picked: seq<Row>, k: nat, q: Row)
    requires DistinctIds(picked) && k < |picked| && q in picked && q.id == picked[k].id
    ensures q == picked[k]
  {
    var m :| 0 <= m < |picked| && picked[m] == q;
    assert !(m < k) && !(k < m);
  }

  lemma OnePicked(picked: seq<Row>, k: nat)
    requires DistinctIds(picked) && k < |picked|
    ensures HasId(Where(picked, IsLive), picked[k].id) <==> IsLive(picked[k])
  {
    var live, r := Where(picked, IsLive), picked[k];
    if HasId(live, r.id) {
      var m :| 0 <= m < |live| && live[m].id == r.id;
      var q := live[m];
      assert q in live;
      OneOfId(picked, k, q);
    }
    if IsLive(r) {
      assert r in live;
      var m :| 0 <= m < |live| && live[m] == r;
    }
  }

  lemma SameHasId(a: seq<Row>, b: seq<Row>, id: Option<Id>)
    requires forall r :: r in a <==> r in b
    ensures HasId(a, id) <==> HasId(b, id)
  {
    if HasId(a, id) {
      var k :| 0 <= k < |a| && a[k].id == id;
      assert a[k] in b;
    }
    if HasId(b, id) {
      var k :| 0 <= k < |b| && b[k].id == id;
      assert b[k] in a;
    }
  }

  // Whichever version was picked decides whether the memory is listed.
  lemma PickedDecides(log: seq<Row>, list: seq<Row>, id: Option<Id>) returns (r: Row)
    requires IsFusedList(log, list) && id in IdsOf(log)
    ensures IsNewest(log, r) && r.id == id && (HasId(list, id) <==> IsLive(r))
  {
    var picked: seq<Row> :| IsDedup(log, picked) && IsOrdering(Where(picked, IsLive), list);
    SameMembers(Where(picked, IsLive), list);
    var q: Row :| q in log && q.id == id;
    assert HasId(picked, q.id);
    var k :| 0 <= k < |picked| && picked[k].id == id;
    r := picked[k];
    assert r in picked;
    OnePicked(picked, k);
    SameHasId(Where(picked, IsLive), list, id);
  }

  // The memory is hidden, or shown, whatever ties the engine breaks.
  ghost predicate SurelyHidden(log: seq<Row>, id: Option<Id>) {
    forall list | IsFusedList(log, list) :: !HasId(list, id)
  }

  ghost predicate SurelyListed(log: seq<Row>, id: Option<Id>) {
    forall list | IsFusedList(log, list) :: HasId(list, id)
  }

  /**
   A tombstone hides its memory for sure exactly when it is later than the shown version; with
   a clock behind the last write the deletion has no effect, and at the same instant either
   answer is possible.
   */
  lemma TombstoneHidesIff(log: seq<Row>, shown: Row, t: Row)
    requires VersionsAgree(log) && Shown(log, shown) && t.id == shown.id && t.action == Some(TOMBSTONE)
    ensures SurelyHidden(log + [t], t.id) <==> LaterTs(t.ts, shown.ts)
    ensures SurelyListed(log + [t], t.id) <==> LaterTs(shown.ts, t.ts)
  {
    var after := log + [t];
    assert forall q :: q in after <==> q in log || q == t;
    assert t.id in IdsOf(after);
    if !LaterTs(t.ts, shown.ts) {
      var list := PickAny(after, shown);
    }
    if !LaterTs(shown.ts, t.ts) {
      var list := PickAny(after, t);
    }
    forall list | IsFusedList(after, list)
      ensures LaterTs(t.ts, shown.ts) ==> !HasId(list, t.id)
      ensures LaterTs(shown.ts, t.ts) ==> HasId(list, t.id)
    {
      var r := PickedDecides(after, list, t.id);
      assert r != t ==> r in log && !LaterTs(r.ts, shown.ts);
      assert LaterTs(t.ts, shown.ts) ==> r == t;
      assert LaterTs(shown.ts, t.ts) && r != t ==> r.ts == shown.ts;
    }
  }

  /** A tombstone one millisecond too old: the memory stays listed. */
  lemma LateClockTombstone()
    ensures var log := [Row(Some("a"), Some(2), Some("add"), "")];
            SurelyListed(log + [Row(Some("a"), Some(1), Some(TOMBSTONE), "")], Some("a"))
  {
    var shown := Row(Some("a"), Some(2), Some("add"), "");
    TombstoneHidesIff([shown], shown, Row(Some("a"), Some(1), Some(TOMBSTONE), ""));
  }

  // ---------------------------------------------------------------------------
  // The whole log
  // ---------------------------------------------------------------------------

  // A malformed line shows nothing and hides nothing.
  lemma AnonymousShowsNothing(front: seq<Row>, t: Row, r: Row)
    requires t.id.None? && t.action.None?
    ensures Shown(front + [t], r) <==> Shown(front, r)
  {
    assert forall q :: q in front + [t] <==> q in front || q == t;
  }

  lemma {:induction false} ReplayShown(log: seq<Row>, r: Row)
    requires Increasing(log)
    ensures Shown(log, r) <==> r.id.Some? && r.id.value in Replay(log) && Replay(log)[r.id.value] == r
  {
    if log != [] {
      var front, t := log[..|log| - 1], log[|log| - 1];
      ReplayShown(front, r);
      assert log == front + [t] && t in log;
      if t.id.Some? {
        AppendShown(front, t, r);
      } else {
        AnonymousShowsNothing(front, t, r);
      }
    }
  }

  lemma {:induction false} ReplayKeys(log: seq<Row>, id: Id)
    requires id in Replay(log)
    ensures Replay(log)[id].id == Some(id)
  {
    var front, t := log[..|log| - 1], log[|log| - 1];
    if t.id != Some(id) {
      ReplayKeys(front, id);
    }
  }

  // The unfiltered listing shows exactly the records of the replayed log, and counts them.
  lemma ReplayAgrees(log: seq<Row>)
    requires Increasing(log)
    ensures forall r :: r in FusedList(log) <==>
              r.id.Some? && r.id.value in Replay(log) && Replay(log)[r.id.value] == r
    ensures |FusedList(log)| == |Replay(log)|
  {
    var list, m := FusedList(log), Replay(log);
    FusedListIs(log);
    forall r ensures r in list <==> r.id.Some? && r.id.value in m && m[r.id.value] == r {
      ReplayShown(log, r);
      FusedShown(log, list, r);
    }
    FusedStrict(log, list);
    DistinctIdsSize(list);
    forall id | id in m ensures Some(id) in IdsOf(list) {
      ReplayKeys(log, id);
      assert m[id] in list;
    }
    SomeSize(m.Keys, IdsOf(list));
  }

  lemma {:induction false} SomeSize(ids: set<Id>, some: set<Option<Id>>)
    requires forall id :: id in ids <==> Some(id) in some
    requires None !in some
    ensures |ids| == |some|
  {
    if ids != {} {
      var id :| id in ids;
      SomeSize(ids - {id}, some - {Some(id)});
    } else {
      forall o ensures o !in some {
        match o
        case None =>
        case Some(id) => assert id !in ids;
      }
      assert some == {};
    }
  }

  // ---------------------------------------------------------------------------
  // The writer
  // ---------------------------------------------------------------------------

  // The record a lookup by id yields.
  ghost predicate Found(log: seq<Row>, id: Id, r: Row) {
    r.id == Some(id) && Shown(log, r)
  }

  // The filter `id = '<id>'`.
  function ById(id: Id): Row -> bool {
    (r: Row) => r.id == Some(id)
  }

  lemma AtMostOne(list: seq<Row>, id: Id)
    requires DistinctIds(list) && forall r | r in list :: r.id == Some(id)
    ensures |list| <= 1
  {
    DistinctIdsSize(list);
    assert IdsOf(list) == {} || IdsOf(list) == {Some(id)};
  }

  lemma OneRecord(log: seq<Row>, id: Id, list: seq<Row>)
    requires VersionsAgree(log) && IsFusedList(Where(log, ById(id)), list)
    ensures |list| <= 1 && forall r :: r in list <==> Found(log, id, r)
  {
    var one := Where(log, ById(id));
    FusedStrict(one, list);
    forall r ensures r in list <==> Found(log, id, r) {
      FusedShown(one, list, r);
      assert r.id.None? && IsNewest(one, r) ==> r in one;
    }
    AtMostOne(list, id);
  }

  lemma OneServed(log: seq<Row>, id: Id, list: seq<Row>, read: Page)
    requires VersionsAgree(log) && IsFusedList(Where(log, ById(id)), list)
    requires read.memories == PageOf(list, Some(1), 0)
    ensures |read.memories| <= 1 && forall r :: r in read.memories <==> Found(log, id, r)
  {
    OneRecord(log, id, list);
  }

  class Partition {
    var log: seq<Row>

    constructor ()
      ensures log == []
    {
      log := [];
    }

    method Insert(memory: Row)
      modifies this
      ensures log == old(log) + [memory]
    {
      log := log + [memory];
    }

    // queryMemories with the id filter and limit 1.
    method Lookup(id: Id) returns (found: Option<Row>)
      requires VersionsAgree(log)
      ensures forall r :: Found(log, id, r) <==> found == Some(r)
    {
      var read, list := QueryFused(Where(log, ById(id)), Some(1), 0);
      OneServed(log, id, list, read);
      found := if read.memories == [] then None else Some(read.memories[0]);
    }

    /**
     Appends a tombstone that copies the columns of the record it deletes, changed by `amend`
     (the reason and the author), or carries `minimal` columns when the lookup finds none.
     */
    method Tombstone(id: Id, now: int, amend: string -> string, minimal: string)
      requires VersionsAgree(log)
      modifies this
      ensures exists payload ::
                && log == old(log) + [Row(Some(id), Some(now), Some(TOMBSTONE), payload)]
                && (forall r | Found(old(log), id, r) :: payload == amend(r.payload))
                && ((forall r :: !Found(old(log), id, r)) ==> payload == minimal)
    {
      var original := Lookup(id);
      var payload := if original.Some? then amend(original.value.payload) else minimal;
      Insert(Row(Some(id), Some(now), Some(TOMBSTONE), payload));
    }
  }
}
