/**
 The edit distance behind the "closest supported operator" hint: a rolling one-row table,
 the recursive distance it computes, and single-character edit scripts as the meaning of
 that distance.
 */
module EditDistance {
  import opened Base

  // ---------------------------------------------------------------------------
  // Edits
  // ---------------------------------------------------------------------------

  datatype Edit =
    | Insert(at: nat, c: char)
    | Delete(at: nat)
    | Substitute(at: nat, c: char)

  predicate Fits(e: Edit, s: string) {
    match e
    case Insert(at, _) => at <= |s|
    case Delete(at) => at < |s|
    case Substitute(at, _) => at < |s|
  }

  function Apply(e: Edit, s: string): string
    requires Fits(e, s)
  {
    match e
    case Insert(at, c) => s[..at] + [c] + s[at..]
    case Delete(at) => s[..at] + s[at + 1..]
    case Substitute(at, c) => s[..at] + [c] + s[at + 1..]
  }

  // The script turns s into t, one edit after the other.
  predicate Turns(script: seq<Edit>, s: string, t: string) {
    if script == [] then s == t
    else Fits(script[0], s) && Turns(script[1..], Apply(script[0], s), t)
  }

  // ---------------------------------------------------------------------------
  // The distance
  // ---------------------------------------------------------------------------

  function Min(a: nat, b: nat): nat {
    if a <= b then a else b
  }

  function Cost(x: char, y: char): nat {
    if x == y then 0 else 1
  }

  function Init(s: string): string
    requires s != []
  {
    s[..|s| - 1]
  }

  function Last(s: string): char
    requires s != []
  {
    s[|s| - 1]
  }

  function Dist(a: string, b: string): nat
    decreases |a| + |b|
  {
    if a == [] then |b|
    else if b == [] then |a|
    else Min(Min(Dist(Init(a), b) + 1, Dist(a, Init(b)) + 1), Dist(Init(a), Init(b)) + Cost(Last(a), Last(b)))
  }

  // ---------------------------------------------------------------------------
  // No script is shorter
  // ---------------------------------------------------------------------------

  // Appending one character moves the distance by at most one, either way.
  lemma {:induction false} AppendLipschitz(s: string, c: char, b: string)
    ensures Dist(s + [c], b) <= Dist(s, b) + 1
    ensures Dist(s, b) <= Dist(s + [c], b) + 1
    decreases |b|
  {
    var t := s + [c];
    assert Init(t) == s;
    if b != [] {
      AppendLipschitz(s, c, Init(b));
      if s != [] {
        assert Dist(s, b) <= Dist(s, Init(b)) + 1;
      } else {
        assert Dist(t, b) <= Dist(s, b) + 1;
      }
    }
  }

  // Two texts that differ in their last character only.
  lemma {:induction false} LastLipschitz(s: string, x: char, y: char, b: string)
    ensures Dist(s + [x], b) <= Dist(s + [y], b) + 1
    decreases |b|
  {
    var sx, sy := s + [x], s + [y];
    assert Init(sx) == s && Init(sy) == s;
    if b != [] {
      LastLipschitz(s, x, y, Init(b));
    }
  }

  // A common last character does not let the distances drift further apart.
  lemma {:induction false} ExtendLipschitz(s: string, t: string, x: char, b: string)
    requires forall k: nat | k <= |b| :: Dist(s, b[..k]) <= Dist(t, b[..k]) + 1
    ensures Dist(s + [x], b) <= Dist(t + [x], b) + 1
    decreases |b|
  {
    var sx, tx := s + [x], t + [x];
    assert Init(sx) == s && Init(tx) == t;
    assert b[..|b|] == b;
    if b == [] {
      assert b[..0] == [];
      assert Dist(s, []) <= Dist(t, []) + 1;
    } else {
      forall k: nat | k <= |Init(b)| ensures Dist(s, Init(b)[..k]) <= Dist(t, Init(b)[..k]) + 1 {
        assert Init(b)[..k] == b[..k];
      }
      ExtendLipschitz(s, t, x, Init(b));
      assert Dist(s, Init(b)) <= Dist(t, Init(b)) + 1;
    }
  }

  // An edit acts on the text before the last character, or only on its end.
  lemma EditInFront(e: Edit, s: string)
    requires s != [] && Fits(e, Init(s)) && !(e.Insert? && e.at == |s|)
    ensures Fits(e, s) && Apply(e, s) == Apply(e, Init(s)) + [Last(s)]
  {
    match e
    case Insert(at, c) => InsertInFront(at, c, s);
    case Delete(at) => CutInFront(at, [], s);
    case Substitute(at, c) => CutInFront(at, [c], s);
  }

  lemma InsertInFront(at: nat, c: char, s: string)
    requires at < |s|
    ensures s[..at] + [c] + s[at..] == Init(s)[..at] + [c] + Init(s)[at..] + [Last(s)]
  {
    assert s[at..] == Init(s)[at..] + [Last(s)];
  }

  lemma CutInFront(at: nat, put: string, s: string)
    requires at < |s| - 1
    ensures s[..at] + put + s[at + 1..] == Init(s)[..at] + put + Init(s)[at + 1..] + [Last(s)]
  {
    assert s[at + 1..] == Init(s)[at + 1..] + [Last(s)];
  }

  lemma EditAtEnd(e: Edit, s: string)
    requires s != [] && Fits(e, s) && !Fits(e, Init(s))
    ensures s == Init(s) + [Last(s)]
    ensures Apply(e, s) ==
            if e.Insert? then s + [e.c] else if e.Delete? then Init(s) else Init(s) + [e.c]
  {
    if !e.Insert? {
      assert s[e.at + 1..] == [] && s[..e.at] == Init(s);
    }
  }

  // One edit of the source text moves its distance to any target by at most one.
  lemma {:induction false} EditLipschitz(e: Edit, s: string, b: string)
    requires Fits(e, s)
    ensures Dist(s, b) <= Dist(Apply(e, s), b) + 1
    decreases |s|, 0
  {
    if s == [] {
      assert Apply(e, s) == s + [e.c];
      AppendLipschitz(s, e.c, b);
    } else {
      if Fits(e, Init(s)) {
        EditInFront(e, s);
        assert s == Init(s) + [Last(s)];
        EditLipschitzAll(e, Init(s), b);
        ExtendLipschitz(Init(s), Apply(e, Init(s)), Last(s), b);
      } else {
        EditAtEnd(e, s);
        match e
        case Insert(_, c) => AppendLipschitz(s, c, b);
        case Delete(_) => AppendLipschitz(Init(s), Last(s), b);
        case Substitute(_, c) => LastLipschitz(Init(s), Last(s), c, b);
      }
    }
  }

  lemma EditLipschitzAll(e: Edit, s: string, b: string)
    requires Fits(e, s)
    ensures forall k: nat | k <= |b| :: Dist(s, b[..k]) <= Dist(Apply(e, s), b[..k]) + 1
    decreases |s|, 1
  {
    forall k: nat | k <= |b| ensures Dist(s, b[..k]) <= Dist(Apply(e, s), b[..k]) + 1 {
      EditLipschitz(e, s, b[..k]);
    }
  }

  lemma {:induction false} DistSelf(s: string)
    ensures Dist(s, s) == 0
  {
    if s != [] {
      DistSelf(Init(s));
    }
  }

  // No script that turns a into b is shorter than the distance.
  lemma {:induction false} NoneShorter(script: seq<Edit>, a: string, b: string)
    requires Turns(script, a, b)
    ensures Dist(a, b) <= |script|
  {
    if script == [] {
      DistSelf(a);
    } else {
      NoneShorter(script[1..], Apply(script[0], a), b);
      EditLipschitz(script[0], a, b);
    }
  }

  // ---------------------------------------------------------------------------
  // Some script attains it
  // ---------------------------------------------------------------------------

  lemma {:induction false} TurnsConcat(p: seq<Edit>, q: seq<Edit>, s: string, t: string, u: string)
    requires Turns(p, s, t) && Turns(q, t, u)
    ensures Turns(p + q, s, u)
  {
    if p == [] {
      assert p + q == q;
    } else {
      assert (p + q)[1..] == p[1..] + q;
      TurnsConcat(p[1..], q, Apply(p[0], s), t, u);
    }
  }

  // A script leaves a character appended to its source alone.
  lemma {:induction false} TurnsFramed(p: seq<Edit>, s: string, t: string, x: char)
    requires Turns(p, s, t)
    ensures Turns(p, s + [x], t + [x])
  {
    if p != [] {
      assert Apply(p[0], s + [x]) == Apply(p[0], s) + [x];
      TurnsFramed(p[1..], Apply(p[0], s), t, x);
    }
  }

  lemma EndWith(p: seq<Edit>, s: string, t: string, e: Edit, u: string)
    requires Turns(p, s, t) && Fits(e, t) && Apply(e, t) == u
    ensures Turns(p + [e], s, u)
  {
    assert [e][1..] == [];
    assert Turns([e], t, u);
    TurnsConcat(p, [e], s, t, u);
  }

  lemma EndEdits(t: string, x: char)
    requires t != []
    ensures var e := Insert(|t| - 1, Last(t)); Fits(e, Init(t)) && Apply(e, Init(t)) == t
    ensures var e := Substitute(|t| - 1, Last(t)); Fits(e, Init(t) + [x]) && Apply(e, Init(t) + [x]) == t
    ensures var e := Delete(|t| - 1); Fits(e, t) && Apply(e, t) == Init(t)
    ensures t == Init(t) + [Last(t)]
  {
  }

  lemma EndWithSubstitute(p: seq<Edit>, a: string, b: string) returns (script: seq<Edit>)
    requires a != [] && b != [] && Turns(p, Init(a), Init(b))
    ensures Turns(script, a, b) && |script| == |p| + Cost(Last(a), Last(b))
  {
    EndEdits(a, Last(a));
    EndEdits(b, Last(a));
    TurnsFramed(p, Init(a), Init(b), Last(a));
    if Last(a) == Last(b) {
      script := p;
    } else {
      var e := Substitute(|b| - 1, Last(b));
      EndWith(p, a, Init(b) + [Last(a)], e, b);
      script := p + [e];
    }
  }

  // A script of exactly the distance's length, found by retracing the minimum.
  lemma {:induction false} BestScript(a: string, b: string) returns (script: seq<Edit>)
    ensures Turns(script, a, b) && |script| == Dist(a, b)
    decreases |a| + |b|
  {
    if a == [] && b == [] {
      script := [];
    } else if b != [] && (a == [] || Dist(a, b) == Dist(a, Init(b)) + 1) {
      var p := BestScript(a, Init(b));
      EndEdits(b, Last(b));
      EndWith(p, a, Init(b), Insert(|b| - 1, Last(b)), b);
      script := p + [Insert(|b| - 1, Last(b))];
    } else if b == [] || Dist(a, b) == Dist(Init(a), b) + 1 {
      var p := BestScript(Init(a), b);
      EndEdits(a, Last(a));
      script := [Delete(|a| - 1)] + p;
    } else {
      var p := BestScript(Init(a), Init(b));
      script := EndWithSubstitute(p, a, b);
    }
  }

  /** The distance is the least length of a script that turns a into b. */
  lemma DistIsLeast(a: string, b: string)
    ensures exists script :: Turns(script, a, b) && |script| == Dist(a, b)
    ensures forall script | Turns(script, a, b) :: Dist(a, b) <= |script|
  {
    var best := BestScript(a, b);
    forall script | Turns(script, a, b) ensures Dist(a, b) <= |script| {
      NoneShorter(script, a, b);
    }
  }

  // ---------------------------------------------------------------------------
  // A metric
  // ---------------------------------------------------------------------------

  lemma {:induction false} DistSymmetric(a: string, b: string)
    ensures Dist(a, b) == Dist(b, a)
    decreases |a| + |b|
  {
    if a != [] && b != [] {
      DistSymmetric(Init(a), b);
      DistSymmetric(a, Init(b));
      DistSymmetric(Init(a), Init(b));
    }
  }

  lemma DistTriangle(a: string, b: string, c: string)
    ensures Dist(a, c) <= Dist(a, b) + Dist(b, c)
  {
    var p := BestScript(a, b);
    var q := BestScript(b, c);
    TurnsConcat(p, q, a, b, c);
    NoneShorter(p + q, a, c);
  }

  lemma DistZeroIff(a: string, b: string)
    ensures Dist(a, b) == 0 <==> a == b
  {
    DistSelf(a);
    var best := BestScript(a, b);
  }

  // ---------------------------------------------------------------------------
  // The one-row table
  // ---------------------------------------------------------------------------

  // Entry (i, j) of the full table.
  function Cell(a: string, b: string, i: nat, j: nat): nat
    requires i <= |a| && j <= |b|
  {
    Dist(a[..i], b[..j])
  }

  lemma CellStep(a: string, b: string, i: nat, j: nat)
    requires 0 < i <= |a| && 0 < j <= |b|
    ensures Cell(a, b, i, j) ==
            Min(Min(Cell(a, b, i - 1, j) + 1, Cell(a, b, i, j - 1) + 1),
                Cell(a, b, i - 1, j - 1) + Cost(a[i - 1], b[j - 1]))
  {
    assert Init(a[..i]) == a[..i - 1] && Init(b[..j]) == b[..j - 1];
  }

  // The row holds entries of line i before column j and of line i - 1 from there on.
  ghost predicate RowHolds(prev: seq<nat>, a: string, b: string, i: nat, j: nat)
    requires |prev| == |b| + 1 && 0 < i <= |a|
  {
    forall k: nat | k <= |b| :: prev[k] == Cell(a, b, if k < j then i else i - 1, k)
  }

  // The value written at column j.
  lemma RowStep(prev: seq<nat>, a: string, b: string, i: nat, j: nat, diagonal: nat)
    requires |prev| == |b| + 1 && 0 < i <= |a| && 0 < j <= |b|
    requires RowHolds(prev, a, b, i, j) && diagonal == Cell(a, b, i - 1, j - 1)
    ensures RowHolds(prev[j := Min(Min(prev[j] + 1, prev[j - 1] + 1), diagonal + Cost(a[i - 1], b[j - 1]))],
                     a, b, i, j + 1)
    ensures prev[j] == Cell(a, b, i - 1, j)
  {
    CellStep(a, b, i, j);
    assert prev[j - 1] == Cell(a, b, i, j - 1);
  }

  method EditDistance(a: string, b: string) returns (d: nat)
    ensures d == Dist(a, b)
  {
    var prev := new nat[|b| + 1](i => i);
    var i := 1;
    while i <= |a|
      invariant 1 <= i <= |a| + 1
      invariant forall k: nat | k <= |b| :: prev[k] == Cell(a, b, i - 1, k)
    {
      var diagonal := prev[0];
      prev[0] := i;
      var j := 1;
      while j <= |b|
        invariant 1 <= j <= |b| + 1
        invariant diagonal == Cell(a, b, i - 1, j - 1)
        invariant RowHolds(prev[..], a, b, i, j)
      {
        var above := prev[j];
        ghost var row := prev[..];
        RowStep(row, a, b, i, j, diagonal);
        prev[j] := Min(Min(prev[j] + 1, prev[j - 1] + 1), diagonal + Cost(a[i - 1], b[j - 1]));
        assert prev[..] == row[j := prev[j]];
        diagonal := above;
        j := j + 1;
      }
      assert forall k: nat | k <= |b| :: prev[..][k] == prev[k];
      i := i + 1;
    }
    d := prev[|b|];
    assert a[..|a|] == a && b[..|b|] == b;
  }

  // ---------------------------------------------------------------------------
  // The hint
  // ---------------------------------------------------------------------------

  const FILTER_OPS: seq<string> :=
    ["eq", "ne", "neq", "gt", "gte", "lt", "lte", "like", "ilike", "in", "is", "isdistinct", "fts", "plfts"]

  // The entry at k is the first one nearest to the text.
  ghost predicate NearestAt(text: string, ops: seq<string>, k: nat)
    requires k < |ops|
  {
    && (forall j | 0 <= j < |ops| :: Dist(text, ops[k]) <= Dist(text, ops[j]))
    && (forall j | 0 <= j < k :: Dist(text, ops[k]) < Dist(text, ops[j]))
  }

  method Closest(text: string, ops: seq<string>) returns (best: Option<string>)
    ensures best.None? <==> ops == []
    ensures best.Some? ==> exists k: nat | k < |ops| :: best.value == ops[k] && NearestAt(text, ops, k)
    ensures text in ops ==> best == Some(text)
  {
    best := None;
    var bestDistance: Option<nat> := None;
    ghost var at := 0;
    for i := 0 to |ops|
      invariant i == 0 ==> best == None && bestDistance == None
      invariant i > 0 ==> 0 <= at < i && best == Some(ops[at]) && bestDistance == Some(Dist(text, ops[at]))
      invariant i > 0 ==> NearestAt(text, ops[..i], at)
    {
      var distance := EditDistance(text, ops[i]);
      assert ops[..i + 1] == ops[..i] + [ops[i]];
      if bestDistance.None? || distance < bestDistance.value {
        bestDistance := Some(distance);
        best := Some(ops[i]);
        at := i;
      }
    }
    assert ops[..|ops|] == ops;
    if text in ops {
      var k :| 0 <= k < |ops| && ops[k] == text;
      DistSelf(text);
      assert Dist(text, ops[at]) <= Dist(text, ops[k]);
      DistZeroIff(text, ops[at]);
    }
  }

  // `lower` is the runtime's conversion to lower case.
  method ClosestFilterOp(op: string, lower: string -> string) returns (best: Option<string>)
    ensures best.Some? && exists k: nat | k < |FILTER_OPS| ::
              best.value == FILTER_OPS[k] && NearestAt(lower(op), FILTER_OPS, k)
    ensures lower(op) in FILTER_OPS ==> best == Some(lower(op))
    ensures lower(op) in {"eq", "ne", "neq", "gt", "gte", "lt", "lte", "like", "ilike", "in", "is", "isdistinct", "fts", "plfts"} ==>
              best == Some(lower(op))
  {
    best := Closest(lower(op), FILTER_OPS);
  }
}
