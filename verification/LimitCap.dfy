/**
 The row cap of the read-only query surface: find the top-level LIMIT of a statement in its
 masked text and append, insert or clamp it in the original text.

 Keywords are matched as slices of five or six characters, so they are also found inside
 longer identifiers.
 */
module LimitCap {
  import opened Base
  import opened Text
  import opened SqlMask

  function Lower(c: char): char {
    if 'A' <= c <= 'Z' then c + 32 as char else c
  }

  // The slice of five characters at i is "limit" in any case.
  predicate AtLimit(t: string, i: nat) {
    && i + 5 <= |t|
    && Lower(t[i]) == 'l' && Lower(t[i + 1]) == 'i' && Lower(t[i + 2]) == 'm' && Lower(t[i + 3]) == 'i'
    && Lower(t[i + 4]) == 't'
  }

  // The slice of six characters at i is "offset" in any case.
  predicate AtOffset(t: string, i: nat) {
    && i + 6 <= |t|
    && Lower(t[i]) == 'o' && Lower(t[i + 1]) == 'f' && Lower(t[i + 2]) == 'f' && Lower(t[i + 3]) == 's'
    && Lower(t[i + 4]) == 'e' && Lower(t[i + 5]) == 't'
  }

  function Delta(c: char): int {
    if c == '(' then 1 else if c == ')' then -1 else 0
  }

  // Parentheses opened minus parentheses closed before position i.
  function DepthAt(t: string, i: nat): int
    requires i <= |t|
  {
    if i == 0 then 0 else DepthAt(t, i - 1) + Delta(t[i - 1])
  }

  predicate TopLimit(t: string, i: nat) {
    AtLimit(t, i) && DepthAt(t, i) == 0
  }

  predicate TopOffset(t: string, i: nat) {
    AtOffset(t, i) && DepthAt(t, i) == 0
  }

  // The last top-level LIMIT, or -1.
  ghost predicate IsLastLimit(t: string, r: int) {
    && -1 <= r < |t|
    && (r >= 0 ==> TopLimit(t, r))
    && forall i: nat | r < i < |t| :: !TopLimit(t, i)
  }

  // The first top-level OFFSET, or -1.
  ghost predicate IsFirstOffset(t: string, r: int) {
    && -1 <= r < |t|
    && (r >= 0 ==> TopOffset(t, r))
    && forall i: nat | i < (if r >= 0 then r else |t|) :: !TopOffset(t, i)
  }

  function LastLimitBelow(t: string, n: nat): (r: int)
    requires n <= |t|
    ensures -1 <= r < n && (r >= 0 ==> TopLimit(t, r))
  {
    if n == 0 then -1 else if TopLimit(t, n - 1) then n - 1 else LastLimitBelow(t, n - 1)
  }

  function LastLimit(t: string): (r: int)
    ensures -1 <= r < |t| && (r >= 0 ==> TopLimit(t, r))
  {
    LastLimitBelow(t, |t|)
  }

  function FirstOffsetFrom(t: string, i: nat): (r: int)
    requires i <= |t|
    ensures r == -1 || (i <= r < |t| && TopOffset(t, r))
    decreases |t| - i
  {
    if i == |t| then -1 else if TopOffset(t, i) then i else FirstOffsetFrom(t, i + 1)
  }

  function FirstOffset(t: string): (r: int)
    ensures r == -1 || (0 <= r < |t| && TopOffset(t, r))
  {
    FirstOffsetFrom(t, 0)
  }

  // The keywords, each letter in either case.
  lemma KeywordsIff(t: string, i: nat)
    ensures AtLimit(t, i) <==>
              && i + 5 <= |t| && t[i] in "lL" && t[i + 1] in "iI" && t[i + 2] in "mM" && t[i + 3] in "iI" && t[i + 4] in "tT"
    ensures AtOffset(t, i) <==>
              && i + 6 <= |t| && t[i] in "oO" && t[i + 1] in "fF" && t[i + 2] in "fF" && t[i + 3] in "sS"
              && t[i + 4] in "eE" && t[i + 5] in "tT"
  {
  }

  // The depth is the number of opened parentheses less that of closed ones.
  lemma {:induction false} DepthCounts(t: string, i: nat)
    requires i <= |t|
    ensures DepthAt(t, i) == (multiset(t[..i])['('] as int) - multiset(t[..i])[')']
  {
    if i > 0 {
      DepthCounts(t, i - 1);
      assert t[..i] == t[..i - 1] + [t[i - 1]];
    }
  }

  lemma {:induction false} LastLimitBelowIs(t: string, n: nat)
    requires n <= |t|
    ensures forall i: nat | LastLimitBelow(t, n) < i < n :: !TopLimit(t, i)
  {
    if n > 0 && !TopLimit(t, n - 1) {
      LastLimitBelowIs(t, n - 1);
    }
  }

  lemma LastLimitIff(t: string, r: int)
    ensures LastLimit(t) == r <==> IsLastLimit(t, r)
  {
    LastLimitBelowIs(t, |t|);
  }

  lemma {:induction false} FirstOffsetFromIs(t: string, n: nat)
    requires n <= |t|
    ensures var r := FirstOffsetFrom(t, n);
            forall i: nat | n <= i < (if r >= 0 then r else |t|) :: !TopOffset(t, i)
    decreases |t| - n
  {
    if n < |t| && !TopOffset(t, n) {
      FirstOffsetFromIs(t, n + 1);
    }
  }

  lemma FirstOffsetIff(t: string, r: int)
    ensures FirstOffset(t) == r <==> IsFirstOffset(t, r)
  {
    FirstOffsetFromIs(t, 0);
  }

  // After a match the loop skips the keyword; no match starts inside it.
  method FindTopLevelLimit(masked: string) returns (last: int)
    ensures IsLastLimit(masked, last)
  {
    var depth := 0;
    last := -1;
    var i := 0;
    while i < |masked|
      invariant 0 <= i <= |masked|
      invariant depth == DepthAt(masked, i)
      invariant -1 <= last < i
      invariant last >= 0 ==> TopLimit(masked, last)
      invariant forall k: nat | last < k < i :: !TopLimit(masked, k)
    {
      var c := masked[i];
      if c == '(' {
        depth := depth + 1;
      } else if c == ')' {
        depth := depth - 1;
      } else if depth == 0 && AtLimit(masked, i) {
        last := i;
        KeywordIsFlat(masked, i);
        i := i + 4;
      }
      i := i + 1;
    }
  }

  // Inside a matched LIMIT no other match starts and the depth does not change.
  lemma KeywordIsFlat(t: string, i: nat)
    requires AtLimit(t, i)
    ensures DepthAt(t, i + 5) == DepthAt(t, i)
    ensures forall k: nat | i < k < i + 5 :: !AtLimit(t, k)
  {
    assert DepthAt(t, i + 1) == DepthAt(t, i) && DepthAt(t, i + 2) == DepthAt(t, i + 1);
    assert DepthAt(t, i + 3) == DepthAt(t, i + 2) && DepthAt(t, i + 4) == DepthAt(t, i + 3);
    assert DepthAt(t, i + 5) == DepthAt(t, i + 4);
  }

  method FindTopLevelOffset(masked: string) returns (first: int)
    ensures IsFirstOffset(masked, first)
  {
    var depth := 0;
    for i := 0 to |masked|
      invariant depth == DepthAt(masked, i)
      invariant forall k: nat | k < i :: !TopOffset(masked, k)
    {
      var c := masked[i];
      if c == '(' {
        depth := depth + 1;
      } else if c == ')' {
        depth := depth - 1;
      } else if depth == 0 && AtOffset(masked, i) {
        return i;
      }
    }
    first := -1;
  }

  // ---------------------------------------------------------------------------
  // Numbers
  // ---------------------------------------------------------------------------

  predicate IsDigit(c: char) {
    '0' <= c <= '9'
  }

  function Digits(n: nat): (s: string)
    ensures s != [] && forall i | 0 <= i < |s| :: IsDigit(s[i])
  {
    var last := ['0' + (n % 10) as char];
    if n < 10 then last else Digits(n / 10) + last
  }

  function DigitValue(c: char): nat
    requires IsDigit(c)
  {
    c as int - '0' as int
  }

  function Value(s: string): nat
    requires forall i | 0 <= i < |s| :: IsDigit(s[i])
  {
    if s == [] then 0 else 10 * Value(s[..|s| - 1]) + DigitValue(s[|s| - 1])
  }

  lemma {:induction false} ValueOfDigits(n: nat)
    ensures Value(Digits(n)) == n
  {
    var last := ['0' + (n % 10) as char];
    if n < 10 {
      assert last[..0] == [];
    } else {
      ValueOfDigits(n / 10);
      assert Digits(n)[..|Digits(n)| - 1] == Digits(n / 10);
    }
  }

  // Decimal notation.
  lemma ValueIsDecimal(s: string, c: char)
    requires (forall i | 0 <= i < |s| :: IsDigit(s[i])) && '0' <= c <= '9'
    ensures Value(s + [c]) == 10 * Value(s) + (c as int - 48) && Value("") == 0
  {
    assert (s + [c])[..|s|] == s;
  }

  // First position from i on that is not white space (or the end).
  function SkipSpaces(t: string, i: nat): (j: nat)
    requires i <= |t|
    ensures i <= j <= |t| && (forall k | i <= k < j :: IsSpace(t[k])) && (j < |t| ==> !IsSpace(t[j]))
    decreases |t| - i
  {
    if i < |t| && IsSpace(t[i]) then SkipSpaces(t, i + 1) else i
  }

  function SkipDigits(t: string, i: nat): (j: nat)
    requires i <= |t|
    ensures i <= j <= |t| && (forall k | i <= k < j :: IsDigit(t[k])) && (j < |t| ==> !IsDigit(t[j]))
    decreases |t| - i
  {
    if i < |t| && IsDigit(t[i]) then SkipDigits(t, i + 1) else i
  }

  // The bounds of the number in /^limit\s+(\d+)(?=\s|$)/ matched at k.
  datatype Span = Span(lo: nat, hi: nat)

  function LimitNumber(t: string, k: nat): (r: Option<Span>)
    requires k + 5 <= |t|
    ensures r.Some? ==> k + 5 < r.value.lo < r.value.hi <= |t|
    ensures r.Some? ==> forall i | r.value.lo <= i < r.value.hi :: IsDigit(t[i])
  {
    var lo := SkipSpaces(t, k + 5);
    var hi := SkipDigits(t, lo);
    if lo > k + 5 && hi > lo && (hi == |t| || IsSpace(t[hi])) then Some(Span(lo, hi)) else None
  }

  // ---------------------------------------------------------------------------
  // The cap
  // ---------------------------------------------------------------------------

  datatype Capped = Capped(sql: string, capped: bool)

  const NOT_NUMERIC := "LIMIT must be a numeric literal"

  function Appendix(cap: nat): string {
    " LIMIT " + Digits(cap)
  }

  function Insertion(cap: nat): string {
    "LIMIT " + Digits(cap) + " "
  }

  function CapLimit(statement: string, cap: nat): Result<Capped, string> {
    var masked := Mask(statement);
    var k := LastLimit(masked);
    if k == -1 then
      var o := FirstOffset(masked);
      if o == -1 then Ok(Capped(statement + Appendix(cap), true))
      else Ok(Capped(statement[..o] + Insertion(cap) + statement[o..], true))
    else
      var number := LimitNumber(masked, k);
      if number.None? then Err(NOT_NUMERIC)
      else if Value(masked[number.value.lo..number.value.hi]) <= cap then Ok(Capped(statement, false))
      else Ok(Capped(statement[..number.value.lo] + Digits(cap) + statement[number.value.hi..], true))
  }

  method ApplyLimitCap(statement: string, cap: nat) returns (res: Result<Capped, string>)
    ensures res == CapLimit(statement, cap)
  {
    var masked := MaskSqlLiterals(statement);
    var limitIdx := FindTopLevelLimit(masked);
    LastLimitIff(masked, limitIdx);
    if limitIdx == -1 {
      var offsetIdx := FindTopLevelOffset(masked);
      FirstOffsetIff(masked, offsetIdx);
      if offsetIdx == -1 {
        return Ok(Capped(statement + Appendix(cap), true));
      }
      return Ok(Capped(statement[..offsetIdx] + Insertion(cap) + statement[offsetIdx..], true));
    }
    var number := LimitNumber(masked, limitIdx);
    if number.None? {
      return Err(NOT_NUMERIC);
    }
    var Span(lo, hi) := number.value;
    if Value(masked[lo..hi]) <= cap {
      return Ok(Capped(statement, false));
    }
    res := Ok(Capped(statement[..lo] + Digits(cap) + statement[hi..], true));
  }

  // ---------------------------------------------------------------------------
  // Edited texts
  // ---------------------------------------------------------------------------

  // t is m with the n characters at d replaced by w.
  ghost predicate Edited(m: string, t: string, d: nat, n: nat, w: string) {
    && d + n <= |m| && |t| == |m| - n + |w|
    && (forall i: nat | i < d :: t[i] == m[i])
    && (forall i: nat | d <= i < d + |w| :: t[i] == w[i - d])
    && (forall i: nat | d + |w| <= i < |t| :: t[i] == m[i - |w| + n])
  }

  ghost predicate Flat(t: string, lo: nat, hi: nat) {
    lo <= hi <= |t| && forall i | lo <= i < hi :: Delta(t[i]) == 0
  }

  lemma {:induction false} DepthFlat(t: string, lo: nat, hi: nat)
    requires Flat(t, lo, hi)
    ensures DepthAt(t, hi) == DepthAt(t, lo)
  {
    if lo < hi {
      DepthFlat(t, lo, hi - 1);
    }
  }

  lemma {:induction false} DepthPrefix(m: string, t: string, i: nat)
    requires i <= |m| && i <= |t| && forall k: nat | k < i :: t[k] == m[k]
    ensures DepthAt(t, i) == DepthAt(m, i)
  {
    if i > 0 {
      DepthPrefix(m, t, i - 1);
    }
  }

  lemma {:induction false} DepthEdited(m: string, t: string, d: nat, n: nat, w: string, i: nat)
    requires Edited(m, t, d, n, w) && d + |w| <= i <= |t|
    requires Flat(m, d, d + n) && Flat(t, d, d + |w|)
    ensures DepthAt(t, i) == DepthAt(m, i - |w| + n)
  {
    if i == d + |w| {
      DepthFlat(t, d, i);
      DepthFlat(m, d, d + n);
      DepthPrefix(m, t, d);
    } else {
      DepthEdited(m, t, d, n, w, i - 1);
    }
  }

  // Editing plain text outside literals and comments edits the masked text alike; everything
  // else, literals and comments included, stays as it was.
  lemma MaskEdited(s: string, d: nat, n: nat, w: string)
    requires d + n <= |s| && AtCode(s, d) && Plain(s[d..d + n]) && Plain(w) && w != []
    ensures Edited(s, s[..d] + w + s[d + n..], d, n, w)
    ensures Edited(Mask(s), Mask(s[..d] + w + s[d + n..]), d, n, w)
  {
    var a, cut, b := s[..d], s[d..d + n], s[d + n..];
    assert a + (cut + b) == s && a + (w + b) == a + w + b;
    MaskCommutes(a, cut, w, b);
  }

  // Letters that occur in "limit" after its first position.
  predicate Inner(c: char) {
    Lower(c) == 'i' || Lower(c) == 'm' || Lower(c) == 't'
  }

  // A match cannot start before d and reach over it when the character at d is no inner letter.
  lemma NoCrossing(t: string, d: nat, i: nat)
    requires i < d < |t| && d < i + 5 && !Inner(t[d])
    ensures !AtLimit(t, i)
  {
    assert d == i + 1 || d == i + 2 || d == i + 3 || d == i + 4;
  }

  // Matches before and behind an edit are the matches of the unedited text.
  lemma MatchEdited(m: string, t: string, d: nat, n: nat, w: string, i: nat)
    requires Edited(m, t, d, n, w) && Flat(m, d, d + n) && Flat(t, d, d + |w|)
    ensures i + 5 <= d ==> (TopLimit(t, i) <==> TopLimit(m, i))
    ensures d + |w| <= i < |t| ==> (TopLimit(t, i) <==> TopLimit(m, i - |w| + n))
  {
    if i + 5 <= d {
      DepthPrefix(m, t, i);
    } else if d + |w| <= i < |t| {
      DepthEdited(m, t, d, n, w, i);
    }
  }

  // ---------------------------------------------------------------------------
  // Reading the limit back
  // ---------------------------------------------------------------------------

  // The numeric top-level limit in a masked text, as the cap reads it.
  function LimitIn(masked: string): Option<nat> {
    var k := LastLimit(masked);
    if k == -1 then None
    else
      var number := LimitNumber(masked, k);
      if number.None? then None else Some(Value(masked[number.value.lo..number.value.hi]))
  }

  function RowLimit(sql: string): Option<nat> {
    LimitIn(Mask(sql))
  }

  // A second application leaves the statement alone.
  predicate Normal(sql: string, cap: nat) {
    CapLimit(sql, cap) == Ok(Capped(sql, false))
  }

  ghost predicate NumberStands(t: string, k: nat, lo: nat, digits: string) {
    && k + 5 < lo && lo + |digits| <= |t|
    && (forall i | k + 5 <= i < lo :: IsSpace(t[i]))
    && (forall i | lo <= i < lo + |digits| :: t[i] == digits[i - lo])
    && (lo + |digits| < |t| ==> IsSpace(t[lo + |digits|]))
  }

  lemma NumberRead(t: string, k: nat, lo: nat, n: nat)
    requires NumberStands(t, k, lo, Digits(n))
    ensures LimitNumber(t, k) == Some(Span(lo, lo + |Digits(n)|))
    ensures t[lo..lo + |Digits(n)|] == Digits(n)
  {
    var hi := lo + |Digits(n)|;
    assert forall i | lo <= i < hi :: IsDigit(t[i]);
    SkipDigitsTo(t, lo, hi);
  }

  lemma {:induction false} SkipDigitsTo(t: string, i: nat, j: nat)
    requires i <= j <= |t| && (forall x | i <= x < j :: IsDigit(t[x])) && (j < |t| ==> IsSpace(t[j]))
    ensures SkipDigits(t, i) == j
    decreases j - i
  {
    if i < j {
      SkipDigitsTo(t, i + 1, j);
    }
  }

  // Behind the keyword at k: white space, then the digits from lo to hi, then white space or the
  // end of the text.
  ghost predicate NumberBehind(t: string, k: nat, lo: nat, hi: nat) {
    && k + 5 < lo < hi <= |t|
    && (forall i | k + 5 <= i < lo :: IsSpace(t[i])) && (forall i | lo <= i < hi :: '0' <= t[i] <= '9')
    && (hi < |t| ==> IsSpace(t[hi]))
  }

  lemma NumberIff(t: string, k: nat, lo: nat, hi: nat)
    requires k + 5 <= |t|
    ensures LimitNumber(t, k) == Some(Span(lo, hi)) <==> NumberBehind(t, k, lo, hi)
  {
    if NumberBehind(t, k, lo, hi) {
      SkipDigitsTo(t, lo, hi);
    }
  }

  /** A statement is refused exactly when no plain number stands behind its top-level LIMIT. */
  lemma RefusedIff(s: string, cap: nat)
    ensures CapLimit(s, cap).Err? <==>
              exists k: nat :: IsLastLimit(Mask(s), k) && forall lo, hi :: !NumberBehind(Mask(s), k, lo, hi)
  {
    var m := Mask(s);
    var k := LastLimit(m);
    LastLimitIff(m, k);
    if k >= 0 {
      forall lo: nat, hi: nat ensures LimitNumber(m, k) == Some(Span(lo, hi)) <==> NumberBehind(m, k, lo, hi) {
        NumberIff(m, k, lo, hi);
      }
      if LimitNumber(m, k).Some? {
        var Span(lo, hi) := LimitNumber(m, k).value;
        assert NumberBehind(m, k, lo, hi);
      }
    }
    if j: nat :| IsLastLimit(m, j) && forall lo, hi :: !NumberBehind(m, j, lo, hi) {
      LastLimitIff(m, j);
    }
  }

  // Between the texts x and y, paste stands in the output where cut stood.
  ghost predicate Edits(s: string, out: string, x: string, cut: string, paste: string, y: string) {
    s == x + cut + y && out == x + paste + y
  }

  /** Apart from the limit's digits, or the limit itself, an accepted statement keeps its text. */
  lemma CapKeepsText(s: string, cap: nat) returns (x: string, cut: string, paste: string, y: string)
    requires CapLimit(s, cap).Ok?
    ensures Edits(s, CapLimit(s, cap).value.sql, x, cut, paste, y)
    ensures !CapLimit(s, cap).value.capped ==> paste == cut
    ensures cut != "" ==> paste == Digits(cap) && forall i | 0 <= i < |cut| :: '0' <= cut[i] <= '9'
    ensures cut == "" ==> paste == "" || paste == Appendix(cap) || paste == Insertion(cap)
  {
    hide Mask, LastLimit, FirstOffset, LimitNumber, Digits, Value;
    var m := Mask(s);
    MaskLength(s);
    var k, o := LastLimit(m), FirstOffset(m);
    if !CapLimit(s, cap).value.capped {
      x, cut, paste, y := s, "", "", "";
    } else if k == -1 && o == -1 {
      x, cut, paste, y := s, "", Appendix(cap), "";
    } else if k == -1 {
      x, cut, paste, y := s[..o], s[o..o], Insertion(cap), s[o..];
    } else {
      var Span(lo, hi) := LimitNumber(m, k).value;
      x, cut, paste, y := s[..lo], s[lo..hi], Digits(cap), s[hi..];
      CutDigits(s, lo, hi);
    }
  }

  lemma MaskLength(s: string)
    ensures |Mask(s)| == |s|
  {
  }

  lemma CutDigits(s: string, lo: nat, hi: nat)
    requires lo < hi <= |s| && forall i | lo <= i < hi :: IsDigit(Mask(s)[i])
    ensures s[lo..hi] != "" && forall i | 0 <= i < |s[lo..hi]| :: '0' <= s[lo..hi][i] <= '9'
  {
    forall i | lo <= i < hi ensures '0' <= s[i] <= '9' {
      VisibleIsCode(s, i);
    }
  }

  lemma ReadsBack(t: string, k: nat, lo: nat, cap: nat)
    requires IsLastLimit(t, k) && NumberStands(t, k, lo, Digits(cap))
    ensures LimitIn(t) == Some(cap)
  {
    LastLimitIff(t, k);
    NumberRead(t, k, lo, cap);
    ValueOfDigits(cap);
  }

  // ---------------------------------------------------------------------------
  // Pasting a limit
  // ---------------------------------------------------------------------------

  // w is harmless text that holds one LIMIT, at `at`, followed by a space and the digits.
  ghost predicate HoldsLimit(w: string, at: nat, digits: string) {
    && at + 6 + |digits| <= |w| <= at + 7 + |digits|
    && AtLimit(w, at) && w[at + 5] == ' '
    && (forall i | at + 6 <= i < at + 6 + |digits| :: w[i] == digits[i - (at + 6)])
    && (at + 6 + |digits| < |w| ==> w[at + 6 + |digits|] == ' ')
    && Flat(w, 0, |w|) && !Inner(w[0])
    && (forall i: nat | i < |w| && i != at :: Lower(w[i]) != 'l')
  }

  // Pasted into a text without a top-level limit it is the only one, if it stands at depth 0.
  lemma PastedLimit(m: string, t: string, d: nat, w: string, at: nat, digits: string)
    requires IsLastLimit(m, -1) && Edited(m, t, d, 0, w) && HoldsLimit(w, at, digits)
    ensures IsLastLimit(t, if DepthAt(m, d) == 0 then d + at else -1)
  {
    DepthPrefix(m, t, d);
    DepthFlat(t, d, d + at);
    forall i: nat | i < |t| && i != d + at ensures !TopLimit(t, i) {
      MatchEdited(m, t, d, 0, w, i);
      if i < d && i + 5 > d {
        NoCrossing(t, d, i);
      } else if d <= i < d + |w| {
        assert t[i] == w[i - d];
      }
    }
  }

  lemma PastedNumber(m: string, t: string, d: nat, w: string, at: nat, digits: string)
    requires Edited(m, t, d, 0, w) && HoldsLimit(w, at, digits)
    requires |w| == at + 7 + |digits| || d == |m|
    ensures NumberStands(t, d + at, d + at + 6, digits)
  {
  }

  lemma PastedReads(m: string, t: string, d: nat, w: string, at: nat, cap: nat)
    requires IsLastLimit(m, -1) && Edited(m, t, d, 0, w) && HoldsLimit(w, at, Digits(cap))
    requires |w| == at + 7 + |Digits(cap)| || d == |m|
    ensures LimitIn(t) == if DepthAt(m, d) == 0 then Some(cap) else None
  {
    PastedLimit(m, t, d, w, at, Digits(cap));
    if DepthAt(m, d) == 0 {
      PastedNumber(m, t, d, w, at, Digits(cap));
      ReadsBack(t, d + at, d + at + 6, cap);
    } else {
      LastLimitIff(t, -1);
    }
  }

  // ---------------------------------------------------------------------------
  // Appending
  // ---------------------------------------------------------------------------

  lemma AppendixPlain(cap: nat)
    ensures Plain(Appendix(cap)) && '\n' !in Appendix(cap)
    ensures Mask(Appendix(cap)) == Appendix(cap)
  {
    var u := Appendix(cap);
    forall i | 0 <= i < |u| ensures !Special(u[i]) && u[i] != '\n' {
      if i >= 7 { assert u[i] == Digits(cap)[i - 7]; }
    }
    PlainMask(u, "");
    assert u + "" == u && Mask("") == "";
  }

  // The masked text of an appended statement.
  lemma MaskAppended(s: string, cap: nat)
    ensures var out, u, at := Mask(s + Appendix(cap)), Appendix(cap), EndMode(s, 0, Code);
            && |out| == |s| + |u| && out[..|s|] == Mask(s)
            && (at == Code ==> out[|s|..] == u)
            && (at != Code ==> forall i | |s| <= i < |out| :: out[i] == ' ')
  {
    var u, at := Appendix(cap), EndMode(s, 0, Code);
    ReachesEnd(s, 0, Code);
    assert s + "" == s;
    AppendixPlain(cap);
    MaskResume(s, "", u, at);
    assert Mask(s)[..|s|] == Mask(s);
    if at != Code {
      PlainVanishes(u, at);
    }
  }

  lemma AppendixText(cap: nat)
    ensures HoldsLimit(Appendix(cap), 1, Digits(cap))
  {
    var u, digits := Appendix(cap), Digits(cap);
    assert forall i | 7 <= i < |u| :: u[i] == digits[i - 7];
  }

  // Spaces behind a text without a limit add none.
  lemma BlankTail(m: string, t: string)
    requires IsLastLimit(m, -1) && |m| <= |t| && forall i: nat | i < |m| :: t[i] == m[i]
    requires forall i: nat | |m| <= i < |t| :: t[i] == ' '
    ensures IsLastLimit(t, -1)
  {
    forall i: nat | i < |t| ensures !TopLimit(t, i) {
      if i + 5 <= |m| {
        DepthPrefix(m, t, i);
        assert !TopLimit(m, i);
      } else if i < |m| && i + 5 <= |t| {
        NoCrossing(t, |m|, i);
      }
    }
  }

  // Neither a top-level LIMIT nor a top-level OFFSET: the cap appends.
  predicate Appends(s: string) {
    LastLimit(Mask(s)) == -1 && FirstOffset(Mask(s)) == -1
  }

  // The statement ends outside literals and comments, with its parentheses balanced.
  predicate EndsOpen(s: string) {
    EndMode(s, 0, Code) == Code && DepthAt(Mask(s), |s|) == 0
  }

  lemma AppendReads(s: string, cap: nat)
    requires Appends(s)
    ensures RowLimit(s + Appendix(cap)) == if EndsOpen(s) then Some(cap) else None
  {
    var m, t, u := Mask(s), Mask(s + Appendix(cap)), Appendix(cap);
    MaskAppended(s, cap);
    LastLimitIff(m, -1);
    assert forall i: nat | i < |m| :: t[i] == t[..|m|][i];
    if EndMode(s, 0, Code) == Code {
      assert forall i: nat | |m| <= i < |t| :: t[i] == t[|m|..][i - |m|];
      AppendixText(cap);
      assert Edited(m, t, |m|, 0, u);
      PastedReads(m, t, |m|, u, 1, cap);
    } else {
      BlankTail(m, t);
      LastLimitIff(t, -1);
    }
  }

  // ---------------------------------------------------------------------------
  // Inserting before OFFSET
  // ---------------------------------------------------------------------------

  lemma InsertionText(cap: nat)
    ensures Plain(Insertion(cap)) && |Insertion(cap)| == |Digits(cap)| + 7
    ensures HoldsLimit(Insertion(cap), 0, Digits(cap))
  {
    var w := Insertion(cap);
    forall i: nat | i < |w|
      ensures !Special(w[i]) && Delta(w[i]) == 0 && (i > 0 ==> Lower(w[i]) != 'l')
      ensures w[i] == if i < 6 then "LIMIT "[i] else if i < |w| - 1 then Digits(cap)[i - 6] else ' '
    {
    }
  }

  lemma InsertReads(s: string, cap: nat)
    requires LastLimit(Mask(s)) == -1 && FirstOffset(Mask(s)) != -1
    ensures var o := FirstOffset(Mask(s));
            RowLimit(s[..o] + Insertion(cap) + s[o..]) == Some(cap)
  {
    var m := Mask(s);
    var o := FirstOffset(m);
    LastLimitIff(m, -1);
    assert m[o] != ' ' && m[o] != '\n';
    VisibleIsCode(s, o);
    InsertionText(cap);
    assert s[o..o] == "" && o + 0 == o;
    MaskEdited(s, o, 0, Insertion(cap));
    PastedReads(m, Mask(s[..o] + Insertion(cap) + s[o..]), o, Insertion(cap), 0, cap);
  }

  // ---------------------------------------------------------------------------
  // Clamping
  // ---------------------------------------------------------------------------

  lemma ClampedLimit(m: string, t: string, k: nat, lo: nat, hi: nat, cap: nat)
    requires IsLastLimit(m, k) && LimitNumber(m, k) == Some(Span(lo, hi))
    requires Edited(m, t, lo, hi - lo, Digits(cap))
    ensures IsLastLimit(t, k)
  {
    var digits, n := Digits(cap), hi - lo;
    MatchEdited(m, t, lo, n, digits, k);
    forall i: nat | k < i < |t| ensures !TopLimit(t, i) {
      MatchEdited(m, t, lo, n, digits, i);
      if i < lo && i + 5 > lo {
        NoCrossing(t, lo, i);
      }
    }
  }

  lemma ClampReads(s: string, cap: nat, k: nat, lo: nat, hi: nat)
    requires LastLimit(Mask(s)) == k && LimitNumber(Mask(s), k) == Some(Span(lo, hi))
    ensures RowLimit(s[..lo] + Digits(cap) + s[hi..]) == Some(cap)
  {
    var m, digits := Mask(s), Digits(cap);
    LastLimitIff(m, k);
    DigitsAreCode(s, lo, hi);
    assert lo + (hi - lo) == hi;
    MaskEdited(s, lo, hi - lo, digits);
    ClampedReads(m, Mask(s[..lo] + digits + s[hi..]), k, lo, hi, cap);
  }

  lemma DigitsAreCode(s: string, lo: nat, hi: nat)
    requires lo < hi <= |s| && forall i | lo <= i < hi :: IsDigit(Mask(s)[i])
    ensures AtCode(s, lo) && Plain(s[lo..hi])
  {
    VisibleIsCode(s, lo);
    forall i | lo <= i < hi ensures IsDigit(s[i]) {
      VisibleIsCode(s, i);
    }
  }

  lemma ClampedReads(m: string, t: string, k: nat, lo: nat, hi: nat, cap: nat)
    requires IsLastLimit(m, k) && LimitNumber(m, k) == Some(Span(lo, hi))
    requires Edited(m, t, lo, hi - lo, Digits(cap))
    ensures LimitIn(t) == Some(cap)
  {
    ClampedLimit(m, t, k, lo, hi, cap);
    ReadsBack(t, k, lo, cap);
  }

  // ---------------------------------------------------------------------------
  // The cap is a normaliser
  // ---------------------------------------------------------------------------

  // The limit of the output: the smaller of what was asked for and the cap; none when an
  // appended one landed inside a literal, comment or parenthesis.
  lemma CapReads(s: string, cap: nat)
    requires CapLimit(s, cap).Ok?
    ensures var res, asked := CapLimit(s, cap).value, RowLimit(s);
            RowLimit(res.sql) ==
            if asked.Some? && asked.value <= cap then asked
            else if Appends(s) && !EndsOpen(s) then None
            else Some(cap)
    ensures CapLimit(s, cap).value.capped <==> RowLimit(s).None? || RowLimit(s).value > cap
  {
    var m := Mask(s);
    var k := LastLimit(m);
    if k == -1 {
      if FirstOffset(m) == -1 {
        AppendReads(s, cap);
      } else {
        InsertReads(s, cap);
      }
    } else {
      var Span(lo, hi) := LimitNumber(m, k).value;
      if Value(m[lo..hi]) > cap {
        ClampReads(s, cap, k, lo, hi);
      }
    }
  }

  /**
   Capping an accepted statement once is capping it for good, exactly when the cap did not
   have to append or the statement ends outside literals and comments at depth 0. Otherwise
   the appended LIMIT has no effect at top level.
   */
  lemma CapNormalises(s: string, cap: nat)
    requires CapLimit(s, cap).Ok?
    ensures var out := CapLimit(s, cap).value.sql;
            Normal(out, cap) <==> !Appends(s) || EndsOpen(s)
  {
    CapReads(s, cap);
  }

  lemma {:induction false} PlainStaysCode(s: string, i: nat, n: nat)
    requires i <= n <= |s| && forall k | i <= k < n :: !Special(s[k])
    ensures EndMode(s, i, Code) == EndMode(s, n, Code)
    decreases n - i
  {
    if i < n {
      assert Scan(s, i, Code) == Move(1, Code, true);
      PlainStaysCode(s, i + 1, n);
    }
  }

  lemma {:induction false} CommentRuns(s: string, i: nat)
    requires i <= |s| && forall k | i <= k < |s| :: s[k] != '\n'
    ensures EndMode(s, i, LineComment) == LineComment
    decreases |s| - i
  {
    if i < |s| {
      CommentRuns(s, i + 1);
    }
  }

  // A statement with a comment behind it ends inside the comment.
  lemma EndsInComment(s: string, n: nat)
    requires n + 2 <= |s| && PairAt(s, n, '-', '-')
    requires (forall k | 0 <= k < n :: !Special(s[k])) && (forall k | n + 2 <= k < |s| :: s[k] != '\n')
    ensures EndMode(s, 0, Code) == LineComment
  {
    PlainStaysCode(s, 0, n);
    CommentRuns(s, n + 2);
  }

  /** A trailing comment swallows the appended limit. */
  lemma CommentSwallowsLimit(s: string, cap: nat)
    requires s == "SELECT 1 -- x"
    ensures var out := s + Appendix(cap);
            && CapLimit(s, cap) == Ok(Capped(out, true))
            && RowLimit(out) == None && !Normal(out, cap)
  {
    var m := Mask(s);
    forall i | 0 <= i < |m| ensures Lower(m[i]) != 'i' && Lower(m[i]) != 'o' {
      assert m[i] == s[i] || m[i] == ' ';
    }
    EndsInComment(s, 9);
    AppendReads(s, cap);
  }
}
