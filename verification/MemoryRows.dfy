/**
 The rows of the append-only memory store and the order the listing queries use.

 `ts` is the instant `try_cast(timestamp AS TIMESTAMP)` yields, None when the text does
 not parse. A malformed JSON line is ingested as a row whose columns are all null, so `id`
 and `action` are optional too. `payload` stands for the remaining columns.
 */
module MemoryRows {
  import opened Base

  type Id = string

  const TOMBSTONE := "tombstone"

  datatype Row = Row(id: Option<Id>, ts: Option<int>, action: Option<string>, payload: string)

  // The outer filter `action != 'tombstone'`: a null action is filtered out as well.
  predicate IsLive(r: Row) {
    r.action.Some? && r.action.value != TOMBSTONE
  }

  // `ts DESC NULLS LAST`: a sorts strictly before b.
  predicate LaterTs(a: Option<int>, b: Option<int>) {
    a.Some? && (b.None? || a.value > b.value)
  }

  predicate TextBefore(a: string, b: string) {
    b != [] && (a == [] || a[0] < b[0] || (a[0] == b[0] && TextBefore(a[1..], b[1..])))
  }

  // `id ASC`, with the default NULLS LAST.
  predicate IdBefore(a: Option<Id>, b: Option<Id>) {
    a.Some? && (b.None? || TextBefore(a.value, b.value))
  }

  // The listing order: newest first, then id.
  predicate Precedes(a: Row, b: Row) {
    LaterTs(a.ts, b.ts) || (a.ts == b.ts && IdBefore(a.id, b.id))
  }

  // The texts agree on their first k characters, and there a ends or has the smaller one.
  ghost predicate SmallerAt(a: string, b: string, k: nat) {
    k <= |a| && k < |b| && a[..k] == b[..k] && (k == |a| || a[k] < b[k])
  }

  // The order of texts: at the first difference, or by length.
  lemma {:induction false} TextBeforeIff(a: string, b: string)
    ensures TextBefore(a, b) <==> exists k: nat :: SmallerAt(a, b, k)
  {
    if a != [] && b != [] && a[0] == b[0] {
      TextBeforeIff(a[1..], b[1..]);
      forall k: nat ensures SmallerAt(a[1..], b[1..], k) <==> SmallerAt(a, b, k + 1) {
        SmallerBehind(a, b, k);
      }
      if k: nat :| SmallerAt(a, b, k) {
        assert SmallerAt(a[1..], b[1..], k - 1);
      }
    } else {
      assert TextBefore(a, b) ==> SmallerAt(a, b, 0);
      assert forall k: nat | SmallerAt(a, b, k) && k > 0 :: a[..k][0] == b[..k][0];
    }
  }

  lemma SmallerBehind(a: string, b: string, k: nat)
    requires a != [] && b != [] && a[0] == b[0]
    ensures SmallerAt(a[1..], b[1..], k) <==> SmallerAt(a, b, k + 1)
  {
    if k < |a| && k < |b| {
      assert a[..k + 1] == [a[0]] + a[1..][..k] && b[..k + 1] == [b[0]] + b[1..][..k];
    }
  }

  lemma TextBeforeTrans(a: string, b: string, c: string)
    requires TextBefore(a, b) && TextBefore(b, c)
    ensures TextBefore(a, c)
  {
  }

  lemma TextBeforeTotal(a: string, b: string)
    ensures TextBefore(a, b) || TextBefore(b, a) || a == b
    ensures !(TextBefore(a, b) && TextBefore(b, a))
    ensures !TextBefore(a, a)
  {
    if a != [] && b != [] && a[0] == b[0] {
      TextBeforeTotal(a[1..], b[1..]);
      assert a == [a[0]] + a[1..] && b == [b[0]] + b[1..];
    }
    if a != [] {
      TextBeforeTotal(a[1..], a[1..]);
    }
  }

  // Two rows are incomparable exactly when timestamp and id coincide.
  lemma PrecedesTotal(a: Row, b: Row)
    ensures !(Precedes(a, b) && Precedes(b, a))
    ensures !Precedes(a, b) && !Precedes(b, a) <==> a.ts == b.ts && a.id == b.id
  {
    if a.id.Some? && b.id.Some? {
      TextBeforeTotal(a.id.value, b.id.value);
    }
  }

  lemma PrecedesTrans(a: Row, b: Row, c: Row)
    requires Precedes(a, b) && Precedes(b, c)
    ensures Precedes(a, c)
  {
    if a.id.Some? && b.id.Some? && c.id.Some? && a.ts == b.ts == c.ts {
      TextBeforeTrans(a.id.value, b.id.value, c.id.value);
    }
  }

  lemma NotAfterTrans(a: Row, b: Row, c: Row)
    requires !Precedes(b, a) && !Precedes(c, b)
    ensures !Precedes(c, a)
  {
    PrecedesTotal(a, b);
    PrecedesTotal(b, c);
    if Precedes(a, b) && Precedes(b, c) {
      PrecedesTrans(a, b, c);
    }
    PrecedesTotal(a, c);
  }

  ghost predicate Sorted(s: seq<Row>) {
    forall i, j | 0 <= i < j < |s| :: !Precedes(s[j], s[i])
  }

  // What ORDER BY promises: the same rows, sorted; ties in any order.
  ghost predicate IsOrdering(rows: seq<Row>, s: seq<Row>) {
    multiset(s) == multiset(rows) && Sorted(s)
  }

  lemma SameMembers(rows: seq<Row>, s: seq<Row>)
    requires multiset(s) == multiset(rows)
    ensures |s| == |rows|
    ensures forall r :: r in s <==> r in rows
  {
    assert |multiset(s)| == |s| && |multiset(rows)| == |rows|;
    forall r ensures r in s <==> r in rows {
      assert r in s <==> r in multiset(s);
      assert r in rows <==> r in multiset(rows);
    }
  }

  function Insert(r: Row, s: seq<Row>): seq<Row> {
    if s == [] then [r]
    else if Precedes(s[0], r) then [s[0]] + Insert(r, s[1..])
    else [r] + s
  }

  lemma {:induction false} InsertSorts(r: Row, s: seq<Row>)
    requires Sorted(s)
    ensures multiset(Insert(r, s)) == multiset(s) + multiset{r}
    ensures Sorted(Insert(r, s))
  {
    if s != [] {
      assert s == [s[0]] + s[1..];
      if Precedes(s[0], r) {
        InsertSorts(r, s[1..]);
        InsertBehind(r, s, Insert(r, s[1..]));
      } else {
        InsertInFront(r, s);
      }
    }
  }

  lemma InsertInFront(r: Row, s: seq<Row>)
    requires s != [] && Sorted(s) && !Precedes(s[0], r)
    ensures Sorted([r] + s)
  {
    forall k | 0 <= k < |s| ensures !Precedes(s[k], r) {
      if k > 0 { NotAfterTrans(r, s[0], s[k]); }
    }
  }

  lemma InsertBehind(r: Row, s: seq<Row>, rest: seq<Row>)
    requires s != [] && Sorted(s) && Precedes(s[0], r)
    requires Sorted(rest) && multiset(rest) == multiset(s[1..]) + multiset{r}
    ensures multiset([s[0]] + rest) == multiset(s) + multiset{r}
    ensures Sorted([s[0]] + rest)
  {
    assert s == [s[0]] + s[1..];
    forall k | 0 <= k < |rest| ensures !Precedes(rest[k], s[0]) {
      assert rest[k] in multiset(rest);
      if rest[k] == r {
        PrecedesTotal(s[0], r);
      } else {
        assert rest[k] in s[1..];
      }
    }
  }

  // One way to carry out ORDER BY.
  function OrderBy(rows: seq<Row>): seq<Row> {
    if rows == [] then [] else Insert(rows[0], OrderBy(rows[1..]))
  }

  lemma {:induction false} OrderByOrders(rows: seq<Row>)
    ensures IsOrdering(rows, OrderBy(rows))
  {
    if rows != [] {
      assert rows == [rows[0]] + rows[1..];
      OrderByOrders(rows[1..]);
      InsertSorts(rows[0], OrderBy(rows[1..]));
    }
  }
}
