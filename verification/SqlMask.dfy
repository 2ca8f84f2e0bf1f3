/**
 Masking of string literals, quoted identifiers and comments: a scanner overwrites them with
 spaces so that keyword searches cannot match inside them, at unchanged positions.
 */
module SqlMask {

  predicate IsQuote(c: char) {
    c == '\'' || c == '"' || c == '`'
  }

  type Quote = c: char | IsQuote(c) witness '"'

  // What the scanner is inside of.
  datatype Mode = Code | Quoted(q: Quote) | LineComment | BlockComment

  predicate PairAt(s: string, i: nat, x: char, y: char) {
    i + 1 < |s| && s[i] == x && s[i + 1] == y
  }

  // One scanner move: how far, into which mode, and whether the character stays visible.
  datatype Move = Move(width: nat, next: Mode, keep: bool)

  function Scan(s: string, i: nat, m: Mode): (mv: Move)
    requires i < |s|
    ensures 1 <= mv.width <= 2 && i + mv.width <= |s|
    ensures mv.keep ==> mv.width == 1
  {
    match m
    case Code =>
      if IsQuote(s[i]) then Move(1, Quoted(s[i]), false)
      else if PairAt(s, i, '-', '-') then Move(2, LineComment, false)
      else if PairAt(s, i, '/', '*') then Move(2, BlockComment, false)
      else Move(1, Code, true)
    case Quoted(q) =>
      if PairAt(s, i, q, q) then Move(2, m, false)
      else if s[i] == q then Move(1, Code, false)
      else Move(1, m, false)
    case LineComment =>
      if s[i] == '\n' then Move(1, Code, true) else Move(1, LineComment, false)
    case BlockComment =>
      if PairAt(s, i, '*', '/') then Move(2, Code, false) else Move(1, BlockComment, false)
  }

  // The scanner, at i in mode m, leaves the character at p visible.
  predicate Shown(s: string, i: nat, m: Mode, p: nat)
    requires i <= p < |s|
    decreases |s| - i
  {
    var mv := Scan(s, i, m);
    if p < i + mv.width then mv.keep else Shown(s, i + mv.width, mv.next, p)
  }

  // The masked form of a text the scanner enters in mode m.
  function MaskIn(s: string, m: Mode): (t: string)
    ensures |t| == |s|
  {
    seq(|s|, p requires 0 <= p < |s| => if Shown(s, 0, m, p) then s[p] else ' ')
  }

  function Mask(s: string): string {
    MaskIn(s, Code)
  }

  // The scanner, at i in mode m, arrives at position p in mode at.
  predicate Reaches(s: string, i: nat, m: Mode, p: nat, at: Mode)
    requires i <= p <= |s|
    decreases p - i
  {
    if i == p then m == at
    else
      var mv := Scan(s, i, m);
      i + mv.width <= p && Reaches(s, i + mv.width, mv.next, p, at)
  }

  // Position p lies outside literals and comments, and no token spans it.
  predicate AtCode(s: string, p: nat)
    requires p <= |s|
  {
    Reaches(s, 0, Code, p, Code)
  }

  // The mode the scanner ends in.
  function EndMode(s: string, i: nat, m: Mode): Mode
    requires i <= |s|
    decreases |s| - i
  {
    if i == |s| then m
    else
      var mv := Scan(s, i, m);
      EndMode(s, i + mv.width, mv.next)
  }

  // ---------------------------------------------------------------------------
  // What masking does to the text
  // ---------------------------------------------------------------------------

  // No quote, no `--` and no `/*`.
  ghost predicate Clean(t: string) {
    forall i: nat | i < |t| :: !IsQuote(t[i]) && !PairAt(t, i, '-', '-') && !PairAt(t, i, '/', '*')
  }

  lemma {:induction false} ShownIsHarmless(s: string, i: nat, m: Mode, p: nat)
    requires i <= p < |s| && Shown(s, i, m, p)
    ensures !IsQuote(s[p]) && !PairAt(s, p, '-', '-') && !PairAt(s, p, '/', '*')
    decreases |s| - i
  {
    var mv := Scan(s, i, m);
    if p >= i + mv.width {
      ShownIsHarmless(s, i + mv.width, mv.next, p);
    }
  }

  lemma MaskClean(s: string)
    ensures Clean(Mask(s))
  {
    var t := Mask(s);
    forall p: nat | p < |t| ensures !IsQuote(t[p]) && !PairAt(t, p, '-', '-') && !PairAt(t, p, '/', '*') {
      if Shown(s, 0, Code, p) {
        ShownIsHarmless(s, 0, Code, p);
        assert p + 1 < |t| ==> t[p + 1] == s[p + 1] || t[p + 1] == ' ';
      }
    }
  }

  lemma {:induction false} CleanIsShown(t: string, i: nat, p: nat)
    requires Clean(t) && i <= p < |t|
    ensures Shown(t, i, Code, p)
    decreases |t| - i
  {
    assert Scan(t, i, Code) == Move(1, Code, true);
    if p > i {
      CleanIsShown(t, i + 1, p);
    }
  }

  lemma MaskIdempotent(s: string)
    ensures Mask(Mask(s)) == Mask(s)
  {
    var t := Mask(s);
    MaskClean(s);
    forall p | 0 <= p < |t| ensures Mask(t)[p] == t[p] {
      CleanIsShown(t, 0, p);
    }
  }

  // ---------------------------------------------------------------------------
  // Editing
  // ---------------------------------------------------------------------------

  predicate Special(c: char) {
    IsQuote(c) || c == '-' || c == '/' || c == '*'
  }

  // Text that neither opens nor closes a literal or comment.
  predicate Plain(u: string) {
    forall i | 0 <= i < |u| :: !Special(u[i])
  }

  predicate StartsPlain(b: string) {
    b == [] || !Special(b[0])
  }

  // s ends with b, from position d on.
  ghost predicate EndsWith(s: string, d: nat, b: string) {
    |s| == d + |b| && forall k: nat | k < |b| :: s[d + k] == b[k]
  }

  // A suffix is masked alike wherever it stands.
  lemma {:induction false} ShownShift(s: string, d: nat, b: string, i: nat, m: Mode, p: nat)
    requires EndsWith(s, d, b) && i <= p < |b|
    ensures Shown(s, d + i, m, d + p) == Shown(b, i, m, p)
    decreases |b| - i
  {
    var mv := Scan(b, i, m);
    assert s[d + i] == b[i] && (i + 1 < |b| ==> s[d + (i + 1)] == b[i + 1]);
    assert Scan(s, d + i, m) == mv;
    var j := i + mv.width;
    if p >= j {
      assert d + i + mv.width == d + j;
      ShownShift(s, d, b, j, mv.next, p);
    }
  }

  // From a place the scanner arrives at, it goes on as if started there.
  lemma {:induction false} ShownBeyond(s: string, i: nat, m: Mode, p: nat, at: Mode, k: nat)
    requires i <= p <= k < |s| && Reaches(s, i, m, p, at)
    ensures Shown(s, i, m, k) == Shown(s, p, at, k)
    decreases p - i
  {
    if i < p {
      var mv := Scan(s, i, m);
      ShownBeyond(s, i + mv.width, mv.next, p, at, k);
    }
  }

  lemma ScanStable(a: string, b: string, c: string, i: nat, m: Mode)
    requires i < |a| && StartsPlain(c) && i + Scan(a + b, i, m).width <= |a|
    ensures Scan(a + c, i, m) == Scan(a + b, i, m)
  {
    assert (a + b)[i] == a[i] == (a + c)[i];
    if i + 1 < |a| {
      assert (a + b)[i + 1] == a[i + 1] == (a + c)[i + 1];
    } else if c != [] {
      assert (a + c)[i + 1] == c[0];
    }
  }

  // Where the scanner arrives, and what it shows before, does not depend on plain text put
  // behind that place.
  lemma {:induction false} ReachStable(a: string, b: string, c: string, i: nat, m: Mode, at: Mode)
    requires i <= |a| && Reaches(a + b, i, m, |a|, at) && StartsPlain(c)
    ensures Reaches(a + c, i, m, |a|, at)
    ensures forall p: nat | i <= p < |a| :: Shown(a + c, i, m, p) == Shown(a + b, i, m, p)
    decreases |a| - i
  {
    if i < |a| {
      var mv := Scan(a + b, i, m);
      ScanStable(a, b, c, i, m);
      ReachStable(a, b, c, i + mv.width, mv.next, at);
    }
  }

  lemma ShownSplit(s: string, d: nat, b: string, at: Mode, p: nat)
    requires EndsWith(s, d, b) && p < |b| && Reaches(s, 0, Code, d, at)
    ensures Shown(s, 0, Code, d + p) == Shown(b, 0, at, p)
  {
    ShownBeyond(s, 0, Code, d, at, d + p);
    ShownShift(s, d, b, 0, at, p);
  }

  // The masked text splits where the scanner arrives.
  lemma MaskSplit(a: string, b: string, at: Mode)
    requires Reaches(a + b, 0, Code, |a|, at)
    ensures Mask(a + b)[|a|..] == MaskIn(b, at)
  {
    MaskSplitEnds(a + b, |a|, b, at);
  }

  lemma MaskSplitEnds(s: string, d: nat, b: string, at: Mode)
    requires EndsWith(s, d, b) && Reaches(s, 0, Code, d, at)
    ensures Mask(s)[d..] == MaskIn(b, at)
  {
    var t, u := Mask(s), MaskIn(b, at);
    forall p: nat | p < |b| ensures t[d + p] == u[p] {
      ShownSplit(s, d, b, at, p);
    }
  }

  lemma MaskResume(a: string, b: string, c: string, at: Mode)
    requires Reaches(a + b, 0, Code, |a|, at) && StartsPlain(c)
    ensures Reaches(a + c, 0, Code, |a|, at)
    ensures Mask(a + c) == Mask(a + b)[..|a|] + MaskIn(c, at)
  {
    ReachStable(a, b, c, 0, Code, at);
    MaskSplit(a, c, at);
    forall p: nat | p < |a| ensures Mask(a + c)[p] == Mask(a + b)[p] {
      assert (a + b)[p] == a[p] == (a + c)[p];
    }
    assert Mask(a + c)[..|a|] == Mask(a + b)[..|a|];
  }

  // Plain text outside literals and comments is left alone, and so is the scanner's mode.
  lemma {:induction false} PlainReached(u: string, b: string, i: nat, p: nat)
    requires Plain(u) && i <= p <= |u|
    ensures Reaches(u + b, i, Code, p, Code)
    ensures p < |u| ==> Shown(u + b, i, Code, p)
    decreases |u| - i
  {
    if i < |u| {
      assert (u + b)[i] == u[i] && !Special(u[i]);
      assert Scan(u + b, i, Code) == Move(1, Code, true);
      if i < p {
        PlainReached(u, b, i + 1, p);
      }
    }
  }

  lemma PlainMask(u: string, b: string)
    requires Plain(u)
    ensures Mask(u + b) == u + Mask(b)
  {
    PlainReached(u, b, 0, |u|);
    MaskSplit(u, b, Code);
    forall p: nat | p < |u| ensures Mask(u + b)[p] == u[p] {
      PlainReached(u, b, 0, p);
    }
    assert Mask(u + b)[..|u|] == u;
  }

  /**
   Masking commutes with editing: replacing plain text by other plain text (or inserting it)
   at a place the scanner reaches outside literals and comments edits the masked text alike.
   */
  lemma MaskCommutes(a: string, cut: string, paste: string, b: string)
    requires AtCode(a + (cut + b), |a|)
    requires Plain(cut) && Plain(paste) && paste != []
    ensures var before := Mask(a + (cut + b));
            && Mask(a + (paste + b)) == before[..|a|] + (paste + before[|a| + |cut|..])
            && before == before[..|a|] + (cut + before[|a| + |cut|..])
  {
    var rest := cut + b;
    MaskSplit(a, rest, Code);
    MaskResume(a, rest, paste + b, Code);
    PlainMask(paste, b);
    PlainMask(cut, b);
    assert Mask(a + rest)[|a| + |cut|..] == Mask(b);
  }

  // A visible character other than a newline sits where the scanner is outside everything.
  lemma {:induction false} ShownIsCode(s: string, i: nat, m: Mode, p: nat)
    requires i <= p < |s| && Shown(s, i, m, p) && s[p] != '\n'
    ensures Reaches(s, i, m, p, Code)
    decreases |s| - i
  {
    var mv := Scan(s, i, m);
    if p >= i + mv.width {
      ShownIsCode(s, i + mv.width, mv.next, p);
    }
  }

  lemma VisibleIsCode(s: string, p: nat)
    requires p < |s| && Mask(s)[p] !in {' ', '\n'}
    ensures AtCode(s, p) && s[p] == Mask(s)[p]
  {
    ShownIsCode(s, 0, Code, p);
  }

  lemma {:induction false} ReachesEnd(s: string, i: nat, m: Mode)
    requires i <= |s|
    ensures Reaches(s, i, m, |s|, EndMode(s, i, m))
    decreases |s| - i
  {
    if i < |s| {
      var mv := Scan(s, i, m);
      ReachesEnd(s, i + mv.width, mv.next);
    }
  }

  // Plain text without a newline vanishes inside a literal or comment.
  lemma {:induction false} PlainHidden(u: string, i: nat, m: Mode, p: nat)
    requires i <= p < |u| && Plain(u) && '\n' !in u && m != Code
    ensures !Shown(u, i, m, p)
    decreases |u| - i
  {
    assert !Special(u[i]) && u[i] in u;
    assert Scan(u, i, m) == Move(1, m, false);
    if i < p {
      PlainHidden(u, i + 1, m, p);
    }
  }

  lemma PlainVanishes(u: string, m: Mode)
    requires Plain(u) && '\n' !in u && m != Code
    ensures forall p | 0 <= p < |u| :: MaskIn(u, m)[p] == ' '
  {
    forall p | 0 <= p < |u| ensures MaskIn(u, m)[p] == ' ' {
      PlainHidden(u, 0, m, p);
    }
  }

  // ---------------------------------------------------------------------------
  // What each kind of token is masked to
  // ---------------------------------------------------------------------------

  function Spaces(n: nat): string {
    seq(n, i => ' ')
  }

  // From i on, in mode m, everything up to n is hidden, and the scanner is outside again at n.
  ghost predicate HiddenTo(s: string, i: nat, m: Mode, n: nat) {
    && i <= n <= |s| && Reaches(s, i, m, n, Code)
    && forall p | i <= p < n :: !Shown(s, i, m, p)
  }

  lemma HiddenMask(s: string, n: nat)
    requires HiddenTo(s, 0, Code, n)
    ensures Mask(s) == Spaces(n) + Mask(s[n..])
  {
    assert s == s[..n] + s[n..];
    MaskSplit(s[..n], s[n..], Code);
    assert Mask(s)[..n] == Spaces(n);
  }

  // No quote, or quotes in pairs.
  predicate Paired(body: string, q: char) {
    if body == "" then true
    else if body[0] != q then Paired(body[1..], q)
    else |body| > 1 && body[1] == q && Paired(body[2..], q)
  }

  lemma {:induction false} WithoutIsPaired(body: string, q: char)
    requires q !in body
    ensures Paired(body, q)
  {
    if body != "" {
      WithoutIsPaired(body[1..], q);
    }
  }

  lemma {:induction false} LiteralHidden(s: string, i: nat, q: Quote, body: string, n: nat)
    requires i < n <= |s| && s[i..n] == body + [q] && Paired(body, q) && (n < |s| ==> s[n] != q)
    ensures HiddenTo(s, i, Quoted(q), n)
    decreases |body|
  {
    assert s[i] == s[i..n][0] && (i + 1 < n ==> s[i + 1] == s[i..n][1]);
    if body == "" {
      assert i + 1 == n;
    } else if body[0] != q {
      assert s[i + 1..n] == body[1..] + [q];
      LiteralHidden(s, i + 1, q, body[1..], n);
    } else {
      assert s[i + 2..n] == body[2..] + [q];
      LiteralHidden(s, i + 2, q, body[2..], n);
    }
  }

  /**
   A literal or quoted identifier, its quotes included, is masked up to its closing quote, and
   scanning goes on behind it; a doubled quote does not close it.
   */
  lemma MaskLiteral(a: string, q: char, body: string, b: string)
    requires q == '\'' || q == '"' || q == '`'
    requires Plain(a) && Paired(body, q) && (b == "" || b[0] != q)
    ensures Mask(a + ([q] + body + [q] + b)) == a + (Spaces(|body| + 2) + Mask(b))
  {
    var s, n := [q] + body + [q] + b, |body| + 2;
    assert s[1..n] == body + [q];
    LiteralHidden(s, 1, q, body, n);
    HiddenMask(s, n);
    assert s[n..] == b;
    PlainMask(a, s);
  }

  lemma {:induction false} LineHidden(s: string, i: nat, n: nat)
    requires i <= n <= |s| && (forall k | i <= k < n :: s[k] != '\n')
    ensures Reaches(s, i, LineComment, n, LineComment)
    ensures forall p | i <= p < n :: !Shown(s, i, LineComment, p)
    decreases n - i
  {
    if i < n {
      LineHidden(s, i + 1, n);
    }
  }

  // At a newline, and at the end of the text, a line comment is over.
  lemma CommentOver(b: string)
    requires b == "" || b[0] == '\n'
    ensures MaskIn(b, LineComment) == Mask(b)
  {
    if b != "" {
      assert Scan(b, 0, LineComment) == Scan(b, 0, Code);
    }
  }

  /** A line comment is masked up to the newline, which stays; scanning goes on there. */
  lemma MaskLine(a: string, body: string, b: string)
    requires Plain(a) && '\n' !in body && (b == "" || b[0] == '\n')
    ensures Mask(a + ("--" + body + b)) == a + (Spaces(|body| + 2) + Mask(b))
  {
    var mark := "--" + body;
    var s, n := mark + b, |mark|;
    assert forall k | 2 <= k < n :: s[k] == body[k - 2];
    LineHidden(s, 2, n);
    assert Scan(s, 0, Code) == Move(2, LineComment, false);
    assert forall p | 0 <= p < n :: !Shown(s, 0, Code, p);
    assert Mask(s)[..n] == Spaces(n);
    MaskSplit(mark, b, LineComment);
    CommentOver(b);
    assert Mask(s) == Mask(s)[..n] + Mask(s)[n..];
    PlainMask(a, s);
  }

  lemma {:induction false} BlockHidden(s: string, i: nat, n: nat)
    requires i + 2 <= n <= |s| && PairAt(s, n - 2, '*', '/') && (forall k: nat | i <= k < n - 2 :: !PairAt(s, k, '*', '/'))
    ensures HiddenTo(s, i, BlockComment, n)
    decreases n - i
  {
    if i < n - 2 {
      BlockHidden(s, i + 1, n);
    }
  }

  /** A block comment is masked up to its first closing mark, and scanning goes on behind it. */
  lemma MaskBlock(a: string, body: string, b: string)
    requires Plain(a) && forall k: nat | k < |body| :: !PairAt(body, k, '*', '/')
    ensures Mask(a + ("/*" + body + "*/" + b)) == a + (Spaces(|body| + 4) + Mask(b))
  {
    var s, n := "/*" + body + "*/" + b, |body| + 4;
    forall k: nat | 2 <= k < n - 2 ensures !PairAt(s, k, '*', '/') {
      assert !PairAt(body, k - 2, '*', '/');
      assert s[k] == body[k - 2] && (k + 1 < n - 2 ==> s[k + 1] == body[k - 1]);
    }
    assert s[n - 2] == '*' && s[n - 1] == '/';
    BlockHidden(s, 2, n);
    HiddenMask(s, n);
    assert s[n..] == b;
    PlainMask(a, s);
  }

  /** Any other character outside literals and comments stays. */
  lemma MaskCode(c: char, b: string)
    requires c != '\'' && c != '"' && c != '`'
    requires !(b != "" && ((c == '-' && b[0] == '-') || (c == '/' && b[0] == '*')))
    ensures Mask([c] + b) == [c] + Mask(b)
  {
    var s := [c] + b;
    assert Scan(s, 0, Code) == Move(1, Code, true);
    assert Reaches(s, 0, Code, 1, Code);
    MaskSplit([c], b, Code);
    assert Mask(s)[..1] == [c];
  }

  lemma {:induction false} NeverClosed(s: string, i: nat, m: Mode)
    requires i <= |s| && (m.Quoted? || m.BlockComment?)
    requires m.Quoted? ==> Paired(s[i..], m.q)
    requires m.BlockComment? ==> forall k: nat | i <= k < |s| :: !PairAt(s, k, '*', '/')
    ensures forall p | i <= p < |s| :: !Shown(s, i, m, p)
    decreases |s| - i
  {
    if i < |s| {
      assert s[i] == s[i..][0] && (i + 1 < |s| ==> s[i + 1] == s[i..][1]);
      var mv := Scan(s, i, m);
      assert mv.next == m && !mv.keep;
      assert s[i + mv.width..] == s[i..][mv.width..];
      NeverClosed(s, i + mv.width, m);
    }
  }

  /** A literal that is never closed is masked to the end of the text, and so is a block comment. */
  lemma MaskOpen(a: string, q: char, body: string)
    requires Plain(a) && (q == '\'' || q == '"' || q == '`')
    ensures Paired(body, q) ==> Mask(a + ([q] + body)) == a + Spaces(|body| + 1)
    ensures (forall k: nat | k < |body| :: !PairAt(body, k, '*', '/')) ==> Mask(a + ("/*" + body)) == a + Spaces(|body| + 2)
  {
    var s, t := [q] + body, "/*" + body;
    if Paired(body, q) {
      assert s[1..] == body;
      NeverClosed(s, 1, Quoted(q));
      assert Scan(s, 0, Code) == Move(1, Quoted(q), false);
      assert forall p | 0 <= p < |s| :: !Shown(s, 0, Code, p);
      assert Mask(s) == Spaces(|s|);
      PlainMask(a, s);
    }
    if forall k: nat | k < |body| :: !PairAt(body, k, '*', '/') {
      forall k: nat | 2 <= k < |t| ensures !PairAt(t, k, '*', '/') {
        assert !PairAt(body, k - 2, '*', '/');
        assert t[k] == body[k - 2] && (k + 1 < |t| ==> t[k + 1] == body[k - 1]);
      }
      NeverClosed(t, 2, BlockComment);
      assert Scan(t, 0, Code) == Move(2, BlockComment, false);
      assert forall p | 0 <= p < |t| :: !Shown(t, 0, Code, p);
      assert Mask(t) == Spaces(|t|);
      PlainMask(a, t);
    }
  }

  // ---------------------------------------------------------------------------
  // The scanner in place
  // ---------------------------------------------------------------------------

  // The buffer holds the masked text before i and the original text from i on, where the
  // scanner goes on in mode m.
  ghost predicate Progress(buf: string, sql: string, i: nat, m: Mode) {
    && |buf| == |sql| && i <= |sql|
    && (forall k: nat | k < i :: buf[k] == Mask(sql)[k])
    && (forall k: nat | i <= k < |sql| :: buf[k] == sql[k])
    && (forall k: nat | i <= k < |sql| :: Shown(sql, 0, Code, k) == Shown(sql, i, m, k))
  }

  // One move, kept or overwritten.
  lemma Advance(buf: string, next: string, sql: string, i: nat, m: Mode)
    requires Progress(buf, sql, i, m) && i < |sql| && |next| == |buf|
    requires var mv := Scan(sql, i, m);
             forall k: nat | k < |buf| :: next[k] == if i <= k < i + mv.width && !mv.keep then ' ' else buf[k]
    ensures var mv := Scan(sql, i, m); Progress(next, sql, i + mv.width, mv.next)
  {
  }

  // At the end of the text the mode no longer matters.
  lemma AtEnd(buf: string, sql: string, m: Mode)
    requires Progress(buf, sql, |sql|, m)
    ensures Progress(buf, sql, |sql|, Code)
  {
  }

  // Overwrites the characters of one hidden move with spaces.
  method Blank(buf: array<char>, sql: string, i: nat, width: nat, ghost m: Mode) returns (next: nat)
    requires i < |sql| && Progress(buf[..], sql, i, m)
    requires width == Scan(sql, i, m).width && !Scan(sql, i, m).keep
    modifies buf
    ensures next == i + width <= buf.Length == |sql|
    ensures Progress(buf[..], sql, next, Scan(sql, i, m).next)
  {
    ghost var was := buf[..];
    buf[i] := ' ';
    if width == 2 {
      buf[i + 1] := ' ';
    }
    next := i + width;
    Advance(was, buf[..], sql, i, m);
  }

  method SkipQuoted(buf: array<char>, sql: string, start: nat, quote: Quote) returns (i: nat)
    requires Progress(buf[..], sql, start, Quoted(quote))
    modifies buf
    ensures start <= i <= buf.Length == |sql| && Progress(buf[..], sql, i, Code)
  {
    i := start;
    while i < |sql|
      invariant start <= i <= |sql| && Progress(buf[..], sql, i, Quoted(quote))
    {
      if buf[i] == quote {
        if i + 1 < |sql| && buf[i + 1] == quote {
          i := Blank(buf, sql, i, 2, Quoted(quote));
          continue;
        }
        i := Blank(buf, sql, i, 1, Quoted(quote));
        return;
      }
      i := Blank(buf, sql, i, 1, Quoted(quote));
    }
    AtEnd(buf[..], sql, Quoted(quote));
  }

  method SkipLine(buf: array<char>, sql: string, start: nat) returns (i: nat)
    requires Progress(buf[..], sql, start, LineComment)
    modifies buf
    ensures start <= i <= buf.Length == |sql| && Progress(buf[..], sql, i, Code)
  {
    i := start;
    while i < |sql| && buf[i] != '\n'
      invariant start <= i <= |sql| && Progress(buf[..], sql, i, LineComment)
    {
      i := Blank(buf, sql, i, 1, LineComment);
    }
  }

  method SkipBlock(buf: array<char>, sql: string, start: nat) returns (i: nat)
    requires Progress(buf[..], sql, start, BlockComment)
    modifies buf
    ensures start <= i <= buf.Length == |sql| && Progress(buf[..], sql, i, Code)
  {
    i := start;
    while i < |sql| && !(buf[i] == '*' && i + 1 < |sql| && buf[i + 1] == '/')
      invariant start <= i <= |sql| && Progress(buf[..], sql, i, BlockComment)
    {
      i := Blank(buf, sql, i, 1, BlockComment);
    }
    if i < |sql| {
      i := Blank(buf, sql, i, 2, BlockComment);
    } else {
      AtEnd(buf[..], sql, BlockComment);
    }
  }

  method MaskSqlLiterals(sql: string) returns (masked: string)
    ensures masked == Mask(sql) && |masked| == |sql|
    ensures forall p | 0 <= p < |sql| :: masked[p] == sql[p] || masked[p] == ' '
  {
    var n := |sql|;
    var buf := new char[n](k requires 0 <= k < n => sql[k]);
    var i := 0;
    while i < n
      invariant 0 <= i <= n == buf.Length
      invariant Progress(buf[..], sql, i, Code)
    {
      var c := buf[i];
      if IsQuote(c) {
        i := Blank(buf, sql, i, 1, Code);
        i := SkipQuoted(buf, sql, i, c);
      } else if c == '-' && i + 1 < n && buf[i + 1] == '-' {
        i := Blank(buf, sql, i, 2, Code);
        i := SkipLine(buf, sql, i);
      } else if c == '/' && i + 1 < n && buf[i + 1] == '*' {
        i := Blank(buf, sql, i, 2, Code);
        i := SkipBlock(buf, sql, i);
      } else {
        Advance(buf[..], buf[..], sql, i, Code);
        i := i + 1;
      }
    }
    masked := buf[..];
  }
}
