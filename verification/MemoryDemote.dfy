/**
 The entry parser and in-place replacer of the L1 memory file: entries are separated by lines
 holding only a section sign, and one entry is replaced by a one-line pointer at the offsets
 the parse found.

 A line may end with any of the four line terminators, but only a newline is skipped after a
 separator.
 */
module MemoryDemote {
  import opened Base
  import opened Text

  const SECTION: char := '\U{00A7}'
  const GLOSS_LENGTH: nat := 160
  const HASH_PREFIX: nat := 12

  datatype Entry = Entry(index: nat, start: nat, end: nat, text: string)

  datatype ParseError = EmptyFile | UnfinishedLine | NoSeparators | EmptyEntry | EmptyFinalEntry

  // ---------------------------------------------------------------------------
  // Parsing
  // ---------------------------------------------------------------------------

  // The line at p is exactly a section sign.
  predicate SeparatorAt(t: string, p: nat) {
    && p < |t| && t[p] == SECTION
    && (p == 0 || IsTerminator(t[p - 1]))
    && (p + 1 == |t| || IsTerminator(t[p + 1]))
  }

  // The first separator from i on, or the end of the text.
  function NextSeparator(t: string, i: nat): (p: nat)
    requires i <= |t|
    ensures i <= p <= |t|
    ensures p < |t| ==> SeparatorAt(t, p)
    ensures forall k | i <= k < p :: !SeparatorAt(t, k)
    decreases |t| - i
  {
    if i == |t| || SeparatorAt(t, i) then i else NextSeparator(t, i + 1)
  }

  // Where the entry behind the separator at p starts.
  function Behind(t: string, p: nat): (start: nat)
    requires p < |t|
    ensures p < start <= |t|
  {
    if p + 1 < |t| && t[p + 1] == '\n' then p + 2 else p + 1
  }

  function EntriesFrom(t: string, start: nat, index: nat): (es: seq<Entry>)
    requires start <= |t|
    ensures es != []
    decreases |t| - start
  {
    var p := NextSeparator(t, start);
    var e := Entry(index, start, p, Trim(t[start..p]));
    if p == |t| then [e] else [e] + EntriesFrom(t, Behind(t, p), index + 1)
  }

  function Texts(es: seq<Entry>): (texts: seq<string>)
    ensures |texts| == |es|
  {
    if es == [] then [] else [es[0].text] + Texts(es[1..])
  }

  lemma {:induction false} TextAt(es: seq<Entry>, k: nat)
    requires k < |es|
    ensures Texts(es)[k] == es[k].text
  {
    if k > 0 {
      TextAt(es[1..], k - 1);
    }
  }

  lemma {:induction false} TextsConcat(a: seq<Entry>, b: seq<Entry>)
    ensures Texts(a + b) == Texts(a) + Texts(b)
  {
    if a == [] {
      assert a + b == b;
    } else {
      assert (a + b)[1..] == a[1..] + b;
      TextsConcat(a[1..], b);
      Text.Assoc([a[0].text], Texts(a[1..]), Texts(b));
    }
  }

  predicate HasEmpty(es: seq<Entry>) {
    "" in Texts(es)
  }

  function Parse(t: string): Result<seq<Entry>, ParseError> {
    if t == "" then Err(EmptyFile)
    else if t[|t| - 1] != '\n' then Err(UnfinishedLine)
    else
      var es := EntriesFrom(t, 0, 1);
      if |es| == 1 then Err(NoSeparators)
      else if HasEmpty(es[..|es| - 1]) then Err(EmptyEntry)
      else if es[|es| - 1].text == "" then Err(EmptyFinalEntry)
      else Ok(es)
  }

  function Separators(t: string, i: nat): seq<nat>
    requires i <= |t|
    decreases |t| - i
  {
    if i == |t| then [] else (if SeparatorAt(t, i) then [i] else []) + Separators(t, i + 1)
  }

  method FindSeparators(t: string) returns (separators: seq<nat>)
    ensures separators == Separators(t, 0)
  {
    separators := [];
    for i := 0 to |t|
      invariant separators + Separators(t, i) == Separators(t, 0)
    {
      if SeparatorAt(t, i) {
        assert separators + ([i] + Separators(t, i + 1)) == separators + [i] + Separators(t, i + 1);
        separators := separators + [i];
      }
    }
  }

  lemma NoneRightBehind(t: string, p: nat)
    requires SeparatorAt(t, p)
    ensures Separators(t, p + 1) == Separators(t, Behind(t, p))
  {
    assert p + 1 < |t| ==> t[p + 1] != SECTION;
  }

  // The separators from i on are the next one and those behind it.
  lemma {:induction false} SeparatorsUnfold(t: string, i: nat)
    requires i <= |t|
    ensures var p := NextSeparator(t, i);
            Separators(t, i) == if p == |t| then [] else [p] + Separators(t, Behind(t, p))
    decreases |t| - i
  {
    if i < |t| {
      if SeparatorAt(t, i) {
        NoneRightBehind(t, i);
      } else {
        SeparatorsUnfold(t, i + 1);
      }
    }
  }

  lemma TakeEntry(done: seq<Entry>, t: string, start: nat, index: nat, e: Entry)
    requires start <= |t| && NextSeparator(t, start) < |t|
    requires e == Entry(index, start, NextSeparator(t, start), Trim(t[start..NextSeparator(t, start)]))
    ensures done + EntriesFrom(t, start, index) == done + [e] + EntriesFrom(t, Behind(t, e.end), index + 1)
    ensures HasEmpty(done + [e]) <==> HasEmpty(done) || e.text == ""
  {
    var rest := EntriesFrom(t, Behind(t, e.end), index + 1);
    assert done + ([e] + rest) == done + [e] + rest;
    TextsConcat(done, [e]);
    assert [e][1..] == [];
  }

  lemma EmptyInFront(front: seq<Entry>, rest: seq<Entry>)
    requires HasEmpty(front) && rest != []
    ensures HasEmpty((front + rest)[..|front + rest| - 1])
  {
    assert (front + rest)[..|front + rest| - 1] == front + rest[..|rest| - 1];
    TextsConcat(front, rest[..|rest| - 1]);
  }

  // The parse so far: the entries read, and where the next one starts.
  ghost predicate ReadUpTo(t: string, rest: seq<nat>, entries: seq<Entry>, start: nat) {
    && start <= |t| && rest == Separators(t, start)
    && EntriesFrom(t, 0, 1) == entries + EntriesFrom(t, start, |entries| + 1)
    && !HasEmpty(entries)
  }

  lemma ReadOne(t: string, rest: seq<nat>, entries: seq<Entry>, start: nat)
    requires Terminated(t) && t != ""
    requires ReadUpTo(t, rest, entries, start) && rest != []
    ensures start <= rest[0] < |t|
    ensures var e := Entry(|entries| + 1, start, rest[0], Trim(t[start..rest[0]]));
            if e.text == "" then Parse(t) == Err(EmptyEntry)
            else ReadUpTo(t, rest[1..], entries + [e], Behind(t, rest[0]))
  {
    SeparatorsUnfold(t, start);
    var p := rest[0];
    var e := Entry(|entries| + 1, start, p, Trim(t[start..p]));
    TakeEntry(entries, t, start, |entries| + 1, e);
    if e.text == "" {
      EmptyInFront(entries + [e], EntriesFrom(t, Behind(t, p), |entries| + 2));
    }
  }

  lemma ReadLast(t: string, entries: seq<Entry>, start: nat)
    requires Terminated(t) && t != "" && entries != []
    requires ReadUpTo(t, [], entries, start)
    ensures var last := Entry(|entries| + 1, start, |t|, Trim(t[start..]));
            Parse(t) == if last.text == "" then Err(EmptyFinalEntry) else Ok(entries + [last])
  {
    SeparatorsUnfold(t, start);
    assert t[start..] == t[start..|t|];
    var last := Entry(|entries| + 1, start, |t|, Trim(t[start..]));
    var all := entries + [last];
    assert EntriesFrom(t, 0, 1) == all && all[..|all| - 1] == entries;
  }

  lemma ParseRefuses(t: string)
    requires t == "" || !Terminated(t) || Separators(t, 0) == []
    ensures Parse(t) ==
            Err(if t == "" then EmptyFile else if !Terminated(t) then UnfinishedLine else NoSeparators)
  {
    SeparatorsUnfold(t, 0);
  }

  // One turn of the loop over the separators: None when the entry is empty.
  method ReadEntry(t: string, ghost rest: seq<nat>, entries: seq<Entry>, start: nat, p: nat)
    returns (more: Option<seq<Entry>>, next: nat)
    requires Terminated(t) && t != ""
    requires ReadUpTo(t, rest, entries, start) && rest != [] && p == rest[0]
    ensures if more.None? then Parse(t) == Err(EmptyEntry)
            else |more.value| == |entries| + 1 && ReadUpTo(t, rest[1..], more.value, next)
  {
    ReadOne(t, rest, entries, start);
    next := p + 1;
    if next < |t| && t[next] == '\n' {
      next := next + 1;
    }
    var text := Trim(t[start..p]);
    more := if text == "" then None else Some(entries + [Entry(|entries| + 1, start, p, text)]);
  }

  method ParseMemoryEntries(t: string) returns (res: Result<seq<Entry>, ParseError>)
    ensures res == Parse(t)
  {
    if |t| == 0 {
      ParseRefuses(t);
      return Err(EmptyFile);
    }
    if t[|t| - 1] != '\n' {
      ParseRefuses(t);
      return Err(UnfinishedLine);
    }
    var separators := FindSeparators(t);
    if separators == [] {
      ParseRefuses(t);
      return Err(NoSeparators);
    }
    var entries: seq<Entry> := [];
    var start: nat := 0;
    ghost var rest := separators;
    for k := 0 to |separators|
      invariant |entries| == k && rest == separators[k..] && ReadUpTo(t, rest, entries, start)
    {
      assert separators[k] == rest[0] && rest[1..] == separators[k + 1..];
      var more, next := ReadEntry(t, rest, entries, start, separators[k]);
      if more.None? {
        return Err(EmptyEntry);
      }
      entries, start, rest := more.value, next, rest[1..];
    }
    ReadLast(t, entries, start);
    var finalText := Trim(t[start..]);
    if finalText == "" {
      return Err(EmptyFinalEntry);
    }
    res := Ok(entries + [Entry(|entries| + 1, start, |t|, finalText)]);
  }

  // ---------------------------------------------------------------------------
  // Tiling
  // ---------------------------------------------------------------------------

  ghost predicate NoSeparatorIn(t: string, lo: nat, hi: nat) {
    forall p | lo <= p < hi :: !SeparatorAt(t, p)
  }

  // The entries and the separators between them cover the text from `start` on, in order.
  ghost predicate Tiles(t: string, start: nat, index: nat, es: seq<Entry>) {
    && es != [] && es[0].start == start && es[|es| - 1].end == |t|
    && (forall k | 0 <= k < |es| ::
          && es[k].index == index + k && es[k].start <= es[k].end <= |t|
          && es[k].text == Trim(t[es[k].start..es[k].end])
          && NoSeparatorIn(t, es[k].start, es[k].end))
    && (forall k | 0 <= k < |es| - 1 ::
          SeparatorAt(t, es[k].end) && es[k + 1].start == Behind(t, es[k].end))
  }

  /** The parse is the one way to tile the text with entries and separator lines. */
  lemma {:induction false} EntriesTileIff(t: string, start: nat, index: nat, es: seq<Entry>)
    requires start <= |t|
    ensures Tiles(t, start, index, es) <==> es == EntriesFrom(t, start, index)
    decreases |t| - start
  {
    var p := NextSeparator(t, start);
    var e := Entry(index, start, p, Trim(t[start..p]));
    if p < |t| {
      var next := Behind(t, p);
      var all := EntriesFrom(t, start, index);
      EntriesTileIff(t, next, index + 1, all[1..]);
      assert all == [e] + all[1..];
      if es != [] {
        EntriesTileIff(t, next, index + 1, es[1..]);
        if Tiles(t, start, index, es) {
          FirstTile(t, start, index, es);
          RestTiles(t, start, index, es);
          assert es == [e] + es[1..];
        }
      }
      ConsTiles(t, index, e, all[1..]);
    } else if Tiles(t, start, index, es) {
      FirstTile(t, start, index, es);
    }
  }

  lemma FirstTile(t: string, start: nat, index: nat, es: seq<Entry>)
    requires start <= |t| && Tiles(t, start, index, es)
    ensures var p := NextSeparator(t, start); es[0] == Entry(index, start, p, Trim(t[start..p]))
    ensures |es| == 1 <==> NextSeparator(t, start) == |t|
  {
    var p := NextSeparator(t, start);
    assert es[0].end < |t| ==> |es| > 1 && SeparatorAt(t, es[0].end);
    assert |es| > 1 ==> SeparatorAt(t, es[0].end);
    assert NoSeparatorIn(t, start, es[0].end);
    assert p >= es[0].end;
  }

  lemma RestTiles(t: string, start: nat, index: nat, es: seq<Entry>)
    requires Tiles(t, start, index, es) && |es| > 1
    ensures Tiles(t, Behind(t, es[0].end), index + 1, es[1..])
  {
    var rest := es[1..];
    assert forall k | 0 <= k < |rest| :: rest[k] == es[k + 1];
    forall k | 0 <= k < |rest| - 1
      ensures SeparatorAt(t, rest[k].end) && rest[k + 1].start == Behind(t, rest[k].end)
    {
      assert rest[k] == es[k + 1] && rest[k + 1] == es[k + 1 + 1];
    }
  }

  lemma ConsTiles(t: string, index: nat, e: Entry, rest: seq<Entry>)
    requires e.index == index && e.start <= e.end && SeparatorAt(t, e.end)
    requires e.text == Trim(t[e.start..e.end]) && NoSeparatorIn(t, e.start, e.end)
    requires Tiles(t, Behind(t, e.end), index + 1, rest)
    ensures Tiles(t, e.start, index, [e] + rest)
  {
  }

  // ---------------------------------------------------------------------------
  // The pointer
  // ---------------------------------------------------------------------------

  // The first of the lines that is not blank, trimmed.
  function FirstLine(parts: seq<string>): Option<string> {
    if parts == [] then None
    else if Trim(parts[0]) != "" then Some(Trim(parts[0]))
    else FirstLine(parts[1..])
  }

  function DropHashes(s: string): string {
    if s != [] && s[0] == '#' then DropHashes(s[1..]) else s
  }

  // s without its heading marker.
  function DropHeading(s: string): string {
    if s != [] && s[0] == '#' then TrimStart(DropHashes(s)) else s
  }

  // Every run of white space as one space.
  function Collapse(s: string): string {
    if s == [] then []
    else if !IsSpace(s[0]) then [s[0]] + Collapse(s[1..])
    else if |s| > 1 && IsSpace(s[1]) then Collapse(s[1..])
    else " " + Collapse(s[1..])
  }

  function Cut(s: string, n: nat): string {
    if |s| <= n then s else s[..n]
  }

  // None: the entry has no content.
  function OneLineGloss(entry: string): Option<string> {
    var line := FirstLine(Split(entry));
    if line.None? then None else Some(Cut(Collapse(DropHeading(line.value)), GLOSS_LENGTH))
  }

  function PointerFor(hash: string, gloss: string): string {
    "[db#" + Cut(hash, HASH_PREFIX) + "] " + gloss
  }

  function ReplaceEntry(t: string, e: Entry, pointer: string): string
    requires e.start <= e.end <= |t|
  {
    t[..e.start] + (pointer + "\n") + t[e.end..]
  }

  lemma {:induction false} TrimStartOfBlank(s: string)
    ensures TrimStart(s) == "" <==> Blank(s)
    ensures TrimStart(s) != "" ==> !IsSpace(TrimStart(s)[0])
  {
    if s != [] && IsSpace(s[0]) {
      TrimStartOfBlank(s[1..]);
      ConsBlank(s[0], s[1..]);
      assert s == [s[0]] + s[1..];
    }
  }

  lemma {:induction false} TrimEndKeepsStart(s: string)
    requires s != "" && !IsSpace(s[0])
    ensures TrimEnd(s) != "" && TrimEnd(s)[0] == s[0]
  {
    if IsSpace(s[|s| - 1]) {
      TrimEndKeepsStart(s[..|s| - 1]);
    }
  }

  lemma TrimOfBlank(s: string)
    ensures Trim(s) == "" <==> Blank(s)
  {
    TrimStartOfBlank(s);
    if TrimStart(s) != "" {
      TrimEndKeepsStart(TrimStart(s));
    }
  }

  ghost predicate SomeText(parts: seq<string>) {
    exists k | 0 <= k < |parts| :: !Blank(parts[k])
  }

  lemma {:induction false} FirstLineIff(parts: seq<string>)
    ensures FirstLine(parts).Some? <==> SomeText(parts)
  {
    if parts != [] {
      TrimOfBlank(parts[0]);
      FirstLineIff(parts[1..]);
      if FirstLine(parts[1..]).Some? {
        var k :| 0 <= k < |parts[1..]| && !Blank(parts[1..][k]);
        assert !Blank(parts[k + 1]);
      }
      assert forall k | 0 < k < |parts| :: parts[k] == parts[1..][k - 1];
    }
  }

  lemma {:induction false} SplitBlankIff(t: string)
    ensures SomeText(Split(t)) <==> !Blank(t)
  {
    if t != [] {
      var rest := Split(t[1..]);
      SplitBlankIff(t[1..]);
      SplitBlankStep(t, rest, Split(t));
    }
  }

  lemma SplitBlankStep(t: string, rest: seq<string>, parts: seq<string>)
    requires t != [] && rest != []
    requires SomeText(rest) <==> !Blank(t[1..])
    requires parts == if t[0] == '\n' then [[]] + rest else [[t[0]] + rest[0]] + rest[1..]
    ensures SomeText(parts) <==> !Blank(t)
  {
    ConsBlank(t[0], t[1..]);
    assert t == [t[0]] + t[1..];
    if t[0] == '\n' {
      assert forall k | 0 <= k < |rest| :: parts[k + 1] == rest[k];
      assert forall k | 0 < k < |parts| :: parts[k] == rest[k - 1];
    } else {
      ConsBlank(t[0], rest[0]);
      assert parts[0] == [t[0]] + rest[0];
      assert forall k | 0 < k < |rest| :: parts[k] == rest[k];
    }
  }

  lemma ConsBlank(c: char, s: string)
    ensures Blank([c] + s) <==> IsSpace(c) && Blank(s)
  {
    assert Blank([c] + s) ==> IsSpace(([c] + s)[0]) && forall i | 0 <= i < |s| :: s[i] == ([c] + s)[i + 1];
  }

  // The only white space is single spaces.
  ghost predicate SingleSpaced(s: string) {
    forall i | 0 <= i < |s| :: IsSpace(s[i]) ==> s[i] == ' ' && (i > 0 ==> !IsSpace(s[i - 1]))
  }

  // And there is none in front.
  ghost predicate OneLine(s: string) {
    SingleSpaced(s) && (s != "" ==> !IsSpace(s[0]))
  }

  lemma ConsSpaced(c: char, s: string)
    requires SingleSpaced(s) && (IsSpace(c) ==> c == ' ' && (s != "" ==> !IsSpace(s[0])))
    ensures SingleSpaced([c] + s)
  {
    forall i | 0 < i < |[c] + s| && IsSpace(([c] + s)[i]) ensures ([c] + s)[i] == ' ' && !IsSpace(([c] + s)[i - 1]) {
      assert ([c] + s)[i] == s[i - 1] && (i > 1 ==> ([c] + s)[i - 1] == s[i - 2]);
    }
  }

  lemma {:induction false} CollapseSpaced(s: string)
    ensures SingleSpaced(Collapse(s))
    ensures s != "" && !IsSpace(s[0]) ==> OneLine(Collapse(s))
  {
    if s != "" {
      CollapseSpaced(s[1..]);
      ConsSpaced(if IsSpace(s[0]) then if |s| > 1 && IsSpace(s[1]) then 'x' else ' ' else s[0], Collapse(s[1..]));
    }
  }

  lemma {:induction false} FirstLineTrimmed(parts: seq<string>)
    ensures FirstLine(parts).Some? ==> FirstLine(parts).value != "" && !IsSpace(FirstLine(parts).value[0])
  {
    if parts != [] {
      TrimStartOfBlank(parts[0]);
      if TrimStart(parts[0]) != "" {
        TrimEndKeepsStart(TrimStart(parts[0]));
      }
      FirstLineTrimmed(parts[1..]);
    }
  }

  /**
   An entry has a gloss exactly when it is not blank; the gloss is one line, without runs of
   white space, of at most 160 characters.
   */
  lemma GlossIsOneLine(entry: string)
    ensures OneLineGloss(entry).Some? <==> !Blank(entry)
    ensures OneLineGloss(entry).Some? ==> OneLine(OneLineGloss(entry).value) && |OneLineGloss(entry).value| <= GLOSS_LENGTH
  {
    FirstLineIff(Split(entry));
    SplitBlankIff(entry);
    var line := FirstLine(Split(entry));
    if line.Some? {
      FirstLineTrimmed(Split(entry));
      TrimStartOfBlank(DropHashes(line.value));
      CollapseSpaced(DropHeading(line.value));
    }
  }

  // The word at the start of s.
  function FirstWord(s: string): string {
    if s == "" || IsSpace(s[0]) then "" else [s[0]] + FirstWord(s[1..])
  }

  lemma {:induction false} FirstWordIs(s: string)
    ensures |FirstWord(s)| <= |s| && FirstWord(s) == s[..|FirstWord(s)|]
    ensures s != "" && !IsSpace(s[0]) ==> FirstWord(s) != ""
  {
    if s != "" && !IsSpace(s[0]) {
      FirstWordIs(s[1..]);
    }
  }

  // The words of a text, white space aside.
  function Words(s: string): seq<string>
    decreases |s|
  {
    if s == "" then []
    else if IsSpace(s[0]) then Words(s[1..])
    else
      FirstWordIs(s);
      [FirstWord(s)] + Words(s[|FirstWord(s)|..])
  }

  lemma {:induction false} CollapseStart(s: string)
    ensures s != "" && IsSpace(s[0]) ==> Collapse(s) != "" && Collapse(s)[0] == ' '
    ensures s == "" ==> Collapse(s) == ""
  {
    if s != "" {
      CollapseStart(s[1..]);
    }
  }

  // Up to the end of its first word a text is left alone.
  lemma {:induction false} CollapseFirst(s: string)
    ensures FirstWord(Collapse(s)) == FirstWord(s)
    ensures |FirstWord(s)| <= |s| && |FirstWord(s)| <= |Collapse(s)|
    ensures Collapse(s)[|FirstWord(s)|..] == Collapse(s[|FirstWord(s)|..])
  {
    CollapseStart(s);
    if s != "" && !IsSpace(s[0]) {
      CollapseFirst(s[1..]);
      var rest := Collapse(s[1..]);
      assert Collapse(s) == [s[0]] + rest && ([s[0]] + rest)[1..] == rest;
    }
  }

  // Collapsing white space keeps the words.
  lemma {:induction false} CollapseWords(s: string)
    ensures Words(Collapse(s)) == Words(s)
    decreases |s|
  {
    if s != "" {
      if IsSpace(s[0]) {
        CollapseWords(s[1..]);
        assert (" " + Collapse(s[1..]))[1..] == Collapse(s[1..]);
      } else {
        FirstWordIs(s);
        CollapseFirst(s);
        CollapseWords(s[|FirstWord(s)|..]);
        assert Collapse(s) != "" && Collapse(s)[0] == s[0];
      }
    }
  }

  lemma {:induction false} FirstLineAt(parts: seq<string>) returns (k: nat)
    requires FirstLine(parts).Some?
    ensures k < |parts| && !Blank(parts[k]) && FirstLine(parts).value == Trim(parts[k])
    ensures forall j | 0 <= j < k :: Blank(parts[j])
  {
    k := 0;
    TrimOfBlank(parts[0]);
    if Blank(parts[0]) {
      var j := FirstLineAt(parts[1..]);
      k := j + 1;
      assert forall i | 0 < i < k :: parts[i] == parts[1..][i - 1];
    }
  }

  // A heading marker: signs, then white space; without signs there is none.
  lemma HeadingIs(s: string) returns (marks: string, gap: string)
    ensures s == marks + gap + DropHeading(s) && Blank(gap) && (marks == "" ==> gap == "")
    ensures forall i | 0 <= i < |marks| :: marks[i] == '#'
    ensures gap == "" && DropHeading(s) != "" ==> DropHeading(s)[0] != '#'
    ensures marks != "" && DropHeading(s) != "" ==> !IsSpace(DropHeading(s)[0])
  {
    marks, gap := "", "";
    if s != [] && s[0] == '#' {
      marks := HashesAre(s);
      gap := TrimStartIs(DropHashes(s));
    }
  }

  lemma {:induction false} HashesAre(s: string) returns (marks: string)
    ensures s == marks + DropHashes(s) && forall i | 0 <= i < |marks| :: marks[i] == '#'
    ensures s != "" && s[0] == '#' ==> marks != ""
    ensures DropHashes(s) != "" ==> DropHashes(s)[0] != '#'
  {
    marks := "";
    if s != [] && s[0] == '#' {
      var more := HashesAre(s[1..]);
      marks := "#" + more;
      assert s == [s[0]] + s[1..];
    }
  }

  /**
   The gloss: the words of the entry's first line that is not blank, its heading marker aside,
   one space apart, cut off at 160 characters.
   */
  lemma GlossIs(entry: string) returns (k: nat, marks: string, gap: string, rest: string, full: string)
    requires !Blank(entry)
    ensures k < |Split(entry)| && !Blank(Split(entry)[k]) && forall j | 0 <= j < k :: Blank(Split(entry)[j])
    ensures Trim(Split(entry)[k]) == marks + gap + rest && Blank(gap) && (marks == "" ==> gap == "")
    ensures (forall i | 0 <= i < |marks| :: marks[i] == '#') && (gap == "" && rest != "" ==> rest[0] != '#')
    ensures Words(full) == Words(rest) && SingleSpaced(full)
    ensures OneLineGloss(entry) == Some(if |full| <= 160 then full else full[..160])
  {
    GlossIsOneLine(entry);
    k := FirstLineAt(Split(entry));
    var line := Trim(Split(entry)[k]);
    marks, gap := HeadingIs(line);
    rest, full := DropHeading(line), Collapse(DropHeading(line));
    CollapseWords(rest);
    CollapseSpaced(rest);
  }

  /** A demotion line gives the first twelve characters of the hash, then the gloss. */
  lemma PointerReads(hash: string, gloss: string)
    requires |hash| >= 12
    ensures var w := PointerFor(hash, gloss);
            |w| == 18 + |gloss| && w[..4] == "[db#" && w[4..16] == hash[..12] && w[16..18] == "] " && w[18..] == gloss
  {
  }

  // ---------------------------------------------------------------------------
  // Replacing an entry
  // ---------------------------------------------------------------------------

  // A line that cannot be taken for a separator.
  ghost predicate IsPointer(w: string) {
    && w != "" && w[0] != SECTION && !IsSpace(w[0])
    && forall i | 0 <= i < |w| :: !IsTerminator(w[i])
  }

  lemma PointerIsPointer(hash: string, gloss: string)
    requires OneLine(gloss) && forall i | 0 <= i < |hash| :: !IsTerminator(hash[i])
    ensures IsPointer(PointerFor(hash, gloss))
  {
    var w := PointerFor(hash, gloss);
    var h := Cut(hash, HASH_PREFIX);
    forall i | 0 <= i < |w| ensures !IsTerminator(w[i]) {
      if 4 <= i < 4 + |h| {
        assert w[i] == h[i - 4] == hash[i - 4];
      } else if i >= 6 + |h| {
        var c := gloss[i - 6 - |h|];
        assert w[i] == c && (IsSpace(c) ==> c == ' ');
      }
    }
  }

  lemma TrimPointer(w: string)
    requires IsPointer(w)
    ensures Trim(w + "\n") == Trim(w) && Trim(w) != ""
  {
    assert (w + "\n")[..|w|] == w;
    assert TrimStart(w + "\n") == w + "\n" && TrimStart(w) == w;
    TrimEndKeepsStart(w);
  }

  // u is t with the text between lo and hi replaced by the line w.
  ghost predicate Spliced(t: string, u: string, lo: nat, hi: nat, w: string) {
    && lo <= hi <= |t| && |u| == lo + |w| + 1 + (|t| - hi)
    && (forall i: nat {:trigger u[i]} | i < lo :: u[i] == t[i])
    && (forall i: nat | lo <= i < lo + |w| :: u[i] == w[i - lo])
    && u[lo + |w|] == '\n'
    && (forall i: nat | lo + |w| < i < |u| :: u[i] == t[i - (lo + |w| + 1) + hi])
  }

  // Where a position behind the replaced text moves to.
  function Moved(lo: nat, hi: nat, w: string, p: nat): nat
    requires p >= hi
  {
    p - hi + lo + |w| + 1
  }

  lemma SeparatorBefore(t: string, u: string, lo: nat, hi: nat, w: string, p: nat)
    requires Spliced(t, u, lo, hi, w) && p + 1 < lo
    ensures SeparatorAt(u, p) == SeparatorAt(t, p)
  {
    assert u[p] == t[p] && u[p + 1] == t[p + 1] && (p > 0 ==> u[p - 1] == t[p - 1]);
  }

  lemma NoSeparatorInside(t: string, u: string, lo: nat, hi: nat, w: string, p: nat)
    requires Spliced(t, u, lo, hi, w) && IsPointer(w) && lo <= p < lo + |w| + 1
    ensures !SeparatorAt(u, p)
  {
    if p == lo {
      assert u[lo + 0] == w[0];
    } else {
      assert u[lo + (p - lo - 1)] == w[p - lo - 1];
    }
  }

  lemma SeparatorAfter(t: string, u: string, lo: nat, hi: nat, w: string, p: nat)
    requires Spliced(t, u, lo, hi, w) && hi <= p < |t| && (hi == |t| || SeparatorAt(t, hi))
    ensures SeparatorAt(u, Moved(lo, hi, w, p)) == SeparatorAt(t, p)
    ensures p < |t| && SeparatorAt(t, p) ==> Moved(lo, hi, w, Behind(t, p)) == Behind(u, Moved(lo, hi, w, p))
  {
    var q := Moved(lo, hi, w, p);
    assert u[q] == t[p] && (p + 1 < |t| ==> u[q + 1] == t[p + 1]);
    assert p > hi ==> u[q - 1] == t[p - 1];
    assert p == hi ==> u[q - 1] == u[lo + |w|];
  }

  lemma {:induction false} NextAfter(t: string, u: string, lo: nat, hi: nat, w: string, p: nat)
    requires Spliced(t, u, lo, hi, w) && hi <= p <= |t| && (hi == |t| || SeparatorAt(t, hi))
    ensures NextSeparator(u, Moved(lo, hi, w, p)) == Moved(lo, hi, w, NextSeparator(t, p))
    decreases |t| - p
  {
    if p < |t| {
      SeparatorAfter(t, u, lo, hi, w, p);
      if !SeparatorAt(t, p) {
        NextAfter(t, u, lo, hi, w, p + 1);
        assert Moved(lo, hi, w, p + 1) == Moved(lo, hi, w, p) + 1;
      }
    }
  }

  lemma {:induction false} EntryBounds(t: string, start: nat, index: nat, i: nat)
    requires start <= |t| && i < |EntriesFrom(t, start, index)|
    ensures var e := EntriesFrom(t, start, index)[i];
            && start <= e.start <= e.end <= |t| && (i > 0 ==> start < e.start)
            && (e.end < |t| ==> SeparatorAt(t, e.end)) && (e.end < |t| <==> i < |EntriesFrom(t, start, index)| - 1)
    decreases |t| - start
  {
    if i > 0 {
      EntryBounds(t, Behind(t, NextSeparator(t, start)), index + 1, i - 1);
    }
  }

  // Behind the replaced text the entries stay as they were.
  lemma {:induction false} RestTexts(t: string, u: string, lo: nat, hi: nat, w: string, p: nat, index: nat)
    requires Spliced(t, u, lo, hi, w) && hi <= p <= |t| && (hi == |t| || SeparatorAt(t, hi))
    ensures Texts(EntriesFrom(u, Moved(lo, hi, w, p), index)) == Texts(EntriesFrom(t, p, index))
    decreases |t| - p
  {
    var q := NextSeparator(t, p);
    NextAfter(t, u, lo, hi, w, p);
    assert u[Moved(lo, hi, w, p)..Moved(lo, hi, w, q)] == t[p..q];
    if q < |t| {
      SeparatorAfter(t, u, lo, hi, w, q);
      RestTexts(t, u, lo, hi, w, Behind(t, q), index + 1);
      UnfoldTexts(t, p, index);
      UnfoldTexts(u, Moved(lo, hi, w, p), index);
    }
  }

  // The texts of the entries behind the separator at p, if there is one.
  function TailTexts(t: string, p: nat, index: nat): seq<string>
    requires p <= |t|
  {
    if p == |t| then [] else Texts(EntriesFrom(t, Behind(t, p), index))
  }

  lemma UnfoldTexts(t: string, start: nat, index: nat)
    requires start <= |t|
    ensures var p := NextSeparator(t, start);
            Texts(EntriesFrom(t, start, index)) == [Trim(t[start..p])] + TailTexts(t, p, index + 1)
  {
    var p := NextSeparator(t, start);
    var e := Entry(index, start, p, Trim(t[start..p]));
    var rest := if p == |t| then [] else EntriesFrom(t, Behind(t, p), index + 1);
    assert EntriesFrom(t, start, index) == [e] + rest && ([e] + rest)[1..] == rest;
  }

  // The search reaches the end of the replaced text from anywhere in front of it or inside.
  lemma NextIsEnd(t: string, u: string, lo: nat, hi: nat, w: string, from: nat)
    requires Spliced(t, u, lo, hi, w) && IsPointer(w) && (hi == |t| || SeparatorAt(t, hi))
    requires from <= lo && NoSeparatorIn(u, from, lo)
    ensures NextSeparator(u, from) == lo + |w| + 1
  {
    forall p | lo <= p < lo + |w| + 1 ensures !SeparatorAt(u, p) {
      NoSeparatorInside(t, u, lo, hi, w, p);
    }
    if hi < |t| {
      SeparatorAfter(t, u, lo, hi, w, hi);
    }
  }

  // The search in front of the replaced text stops where it did.
  lemma NextBefore(t: string, u: string, lo: nat, hi: nat, w: string, from: nat)
    requires Spliced(t, u, lo, hi, w) && from <= |t| && NextSeparator(t, from) + 1 < lo
    ensures var p := NextSeparator(t, from);
            && NextSeparator(u, from) == p && Behind(u, p) == Behind(t, p) && u[from..p] == t[from..p]
  {
    var p := NextSeparator(t, from);
    forall k | from <= k <= p ensures SeparatorAt(u, k) == SeparatorAt(t, k) {
      SeparatorBefore(t, u, lo, hi, w, k);
    }
  }

  lemma EntryBehind(t: string, start: nat, index: nat, i: nat)
    requires start <= |t| && 0 < i < |EntriesFrom(t, start, index)|
    ensures var p, es := NextSeparator(t, start), EntriesFrom(t, start, index);
            && p < |t| && |es| == 1 + |EntriesFrom(t, Behind(t, p), index + 1)|
            && es[i] == EntriesFrom(t, Behind(t, p), index + 1)[i - 1]
            && Behind(t, p) <= es[i].start && (i > 1 ==> Behind(t, p) < es[i].start)
            && (i == 1 ==> Behind(t, p) == es[i].start)
  {
    EntryBounds(t, Behind(t, NextSeparator(t, start)), index + 1, i - 1);
  }

  lemma PointerText(t: string, u: string, lo: nat, hi: nat, w: string)
    requires Spliced(t, u, lo, hi, w)
    ensures u[lo..lo + |w| + 1] == w + "\n"
  {
    var line := u[lo..lo + |w| + 1];
    assert forall i: nat | i < |w| :: line[i] == u[lo + i] == w[i];
  }

  lemma TailMoved(t: string, u: string, lo: nat, hi: nat, w: string, index: nat)
    requires Spliced(t, u, lo, hi, w) && (hi == |t| || SeparatorAt(t, hi))
    ensures TailTexts(u, lo + |w| + 1, index) == TailTexts(t, hi, index)
  {
    if hi < |t| {
      SeparatorAfter(t, u, lo, hi, w, hi);
      RestTexts(t, u, lo, hi, w, Behind(t, hi), index);
    }
  }

  // From a place in front of the replaced text that meets no separator, the first entry ends
  // with the pointer and the others are those behind the replaced text.
  lemma TextsFrom(t: string, u: string, from: nat, lo: nat, hi: nat, w: string, index: nat)
    requires Spliced(t, u, lo, hi, w) && IsPointer(w) && (hi == |t| || SeparatorAt(t, hi))
    requires from <= lo && NoSeparatorIn(u, from, lo)
    ensures Texts(EntriesFrom(u, from, index)) == [Trim(u[from..lo + |w| + 1])] + TailTexts(t, hi, index + 1)
  {
    UnfoldTexts(u, from, index);
    NextIsEnd(t, u, lo, hi, w, from);
    TailMoved(t, u, lo, hi, w, index + 1);
  }

  lemma ReplaceHere(t: string, u: string, lo: nat, hi: nat, w: string, index: nat)
    requires Spliced(t, u, lo, hi, w) && IsPointer(w) && NextSeparator(t, lo) == hi
    ensures Texts(EntriesFrom(u, lo, index)) == Texts(EntriesFrom(t, lo, index))[0 := Trim(w)]
  {
    var texts := Texts(EntriesFrom(u, lo, index));
    var tail := TailTexts(t, hi, index + 1);
    assert texts == [Trim(w)] + tail by {
      TextsFrom(t, u, lo, lo, hi, w, index);
      PointerText(t, u, lo, hi, w);
      TrimPointer(w);
    }
    assert Texts(EntriesFrom(t, lo, index)) == [Trim(t[lo..hi])] + tail by {
      UnfoldTexts(t, lo, index);
    }
    FirstUpdate(Trim(t[lo..hi]), tail, Trim(w));
  }

  lemma FirstUpdate(x: string, rest: seq<string>, y: string)
    ensures [y] + rest == ([x] + rest)[0 := y]
  {
  }

  lemma ConsUpdate(x: string, rest: seq<string>, i: nat, y: string)
    requires 0 < i <= |rest|
    ensures [x] + rest[i - 1 := y] == ([x] + rest)[i := y]
  {
  }

  lemma {:induction false} ReplaceTexts(t: string, u: string, start: nat, index: nat, i: nat, e: Entry, w: string)
    requires start <= |t| && start <= |u| && i < |EntriesFrom(t, start, index)| && e == EntriesFrom(t, start, index)[i]
    requires Spliced(t, u, e.start, e.end, w) && IsPointer(w)
    requires i > 0 ==> e.start > 0 && t[e.start - 1] == '\n'
    ensures Texts(EntriesFrom(u, start, index)) == Texts(EntriesFrom(t, start, index))[i := Trim(w)]
    decreases i
  {
    if i == 0 {
      ReplaceHere(t, u, e.start, e.end, w, index);
    } else {
      var p := NextSeparator(t, start);
      EntryBehind(t, start, index, i);
      NextBefore(t, u, e.start, e.end, w, start);
      ReplaceTexts(t, u, Behind(t, p), index + 1, i - 1, e, w);
      UnfoldTexts(t, start, index);
      UnfoldTexts(u, start, index);
      ConsUpdate(Trim(t[start..p]), Texts(EntriesFrom(t, Behind(t, p), index + 1)), i, Trim(w));
    }
  }

  // Glued to its separator, the pointer ends no line: the search runs past both.
  lemma GluedLine(t: string, u: string, lo: nat, hi: nat, w: string, from: nat)
    requires Spliced(t, u, lo, hi, w) && IsPointer(w)
    requires from < lo && NextSeparator(t, from) + 1 == lo
    ensures NoSeparatorIn(u, from, lo)
  {
    forall k | from <= k < lo ensures !SeparatorAt(u, k) {
      if k + 1 < lo {
        SeparatorBefore(t, u, lo, hi, w, k);
      } else {
        assert u[k + 1] == u[lo + 0] == w[0];
      }
    }
  }

  lemma GlueHere(t: string, u: string, from: nat, lo: nat, hi: nat, w: string, index: nat)
    requires Spliced(t, u, lo, hi, w) && IsPointer(w) && NextSeparator(t, lo) == hi
    requires from < lo && NextSeparator(t, from) + 1 == lo && Behind(t, lo - 1) == lo
    ensures |EntriesFrom(u, from, index)| == |EntriesFrom(t, from, index)| - 1
  {
    GluedLine(t, u, lo, hi, w, from);
    TextsFrom(t, u, from, lo, hi, w, index);
    assert |EntriesFrom(u, from, index)| == 1 + |TailTexts(t, hi, index + 1)|;
    TwoEntries(t, from, lo, hi, index);
  }

  lemma CountFrom(t: string, start: nat, index: nat)
    requires start <= |t|
    ensures |EntriesFrom(t, start, index)| == 1 + |TailTexts(t, NextSeparator(t, start), index + 1)|
  {
    UnfoldTexts(t, start, index);
  }

  lemma {:induction false} SameCount(t: string, p: nat, index: nat, index': nat)
    requires p <= |t|
    ensures |TailTexts(t, p, index)| == |TailTexts(t, p, index')|
    decreases |t| - p
  {
    if p < |t| {
      CountFrom(t, Behind(t, p), index);
      CountFrom(t, Behind(t, p), index');
      SameCount(t, NextSeparator(t, Behind(t, p)), index + 1, index' + 1);
    }
  }

  lemma TwoEntries(t: string, from: nat, lo: nat, hi: nat, index: nat)
    requires lo <= |t| && from < lo && NextSeparator(t, from) + 1 == lo && Behind(t, lo - 1) == lo
    requires NextSeparator(t, lo) == hi
    ensures |EntriesFrom(t, from, index)| == 2 + |TailTexts(t, hi, index + 1)|
  {
    CountFrom(t, from, index);
    assert |TailTexts(t, lo - 1, index + 1)| == |EntriesFrom(t, lo, index + 1)|;
    CountFrom(t, lo, index + 1);
    SameCount(t, hi, index + 1, index + 2);
  }

  // Without a newline in front of the entry the pointer is glued to the separator.
  lemma {:induction false} ReplaceGlues(t: string, u: string, start: nat, index: nat, i: nat, e: Entry, w: string)
    requires start <= |t| && start <= |u| && 0 < i < |EntriesFrom(t, start, index)| && e == EntriesFrom(t, start, index)[i]
    requires Spliced(t, u, e.start, e.end, w) && IsPointer(w)
    requires e.start > 0 && t[e.start - 1] != '\n'
    ensures |EntriesFrom(u, start, index)| == |EntriesFrom(t, start, index)| - 1
    decreases i
  {
    var p := NextSeparator(t, start);
    EntryBehind(t, start, index, i);
    if i == 1 {
      GlueHere(t, u, start, e.start, e.end, w, index);
    } else {
      NextBefore(t, u, e.start, e.end, w, start);
      ReplaceGlues(t, u, Behind(t, p), index + 1, i - 1, e, w);
    }
  }

  // ---------------------------------------------------------------------------
  // Reparsing
  // ---------------------------------------------------------------------------

  lemma EmptyIff(es: seq<Entry>)
    requires es != []
    ensures HasEmpty(es[..|es| - 1]) || es[|es| - 1].text == "" <==> HasEmpty(es)
  {
    var front, last := es[..|es| - 1], es[|es| - 1];
    assert es == front + [last] && [last][1..] == [];
    TextsConcat(front, [last]);
  }

  lemma ParseOkIff(t: string)
    ensures var es := EntriesFrom(t, 0, 1);
            && (Parse(t).Ok? <==> t != "" && Terminated(t) && |es| > 1 && !HasEmpty(es))
            && (Parse(t).Ok? ==> Parse(t).value == es)
  {
    EmptyIff(EntriesFrom(t, 0, 1));
  }

  lemma ReplaceSplices(t: string, e: Entry, w: string)
    requires e.start <= e.end <= |t|
    ensures Spliced(t, ReplaceEntry(t, e, w), e.start, e.end, w)
  {
    var u, lo, hi := ReplaceEntry(t, e, w), e.start, e.end;
    assert forall i: nat | i < |w| :: u[lo + i] == (w + "\n")[i];
  }

  // The text around the entry stays as it is.
  lemma ReplaceKeepsRest(t: string, e: Entry, w: string)
    requires e.start <= e.end <= |t|
    ensures var u, n := ReplaceEntry(t, e, w), e.start + |w|;
            && |u| == n + 1 + (|t| - e.end)
            && u[..e.start] == t[..e.start] && u[e.start..n] == w && u[n] == '\n' && u[n + 1..] == t[e.end..]
  {
  }

  /** Which texts are refused, and why. */
  lemma ParseErrors(t: string)
    ensures Parse(t) == Err(EmptyFile) <==> t == ""
    ensures Parse(t) == Err(UnfinishedLine) <==> t != "" && t[|t| - 1] != '\n'
    ensures Parse(t) == Err(NoSeparators) <==> t != "" && t[|t| - 1] == '\n' && forall p | 0 <= p < |t| :: !SeparatorAt(t, p)
    ensures Parse(t) == Err(EmptyEntry) ==> exists k | 0 <= k < |EntriesFrom(t, 0, 1)| - 1 :: EntriesFrom(t, 0, 1)[k].text == ""
    ensures Parse(t) == Err(EmptyFinalEntry) ==>
              var es := EntriesFrom(t, 0, 1);
              es[|es| - 1].text == "" && forall k | 0 <= k < |es| - 1 :: es[k].text != ""
  {
    var es := EntriesFrom(t, 0, 1);
    var front := es[..|es| - 1];
    assert |es| == 1 <==> NextSeparator(t, 0) == |t|;
    forall k: nat | k < |front| ensures Texts(front)[k] == es[k].text {
      TextAt(front, k);
    }
  }

  lemma SeparatorIff(t: string, p: nat)
    ensures SeparatorAt(t, p) <==>
              && p < |t| && t[p] as int == 0xA7 && (p == 0 || t[p - 1] as int in {10, 13, 0x2028, 0x2029})
              && (p + 1 == |t| || t[p + 1] as int in {10, 13, 0x2028, 0x2029})
  {
    if p < |t| && p > 0 { SpaceIff(t[p - 1]); }
    if p + 1 < |t| { SpaceIff(t[p + 1]); }
  }

  // Reparsing shows the same entries but for one, which is the trimmed pointer.
  ghost predicate Reparses(t: string, es: seq<Entry>, i: nat, w: string)
    requires i < |es| && es[i].start <= es[i].end <= |t|
  {
    var now := Parse(ReplaceEntry(t, es[i], w));
    now.Ok? && Texts(now.value) == Texts(es)[i := Trim(w)]
  }

  /**
   Replacing an entry changes that entry and no other, exactly when it is the first one or a
   newline stands in front of it. Behind a separator that ends with another line terminator
   the pointer is glued to the separator, which is lost.
   */
  lemma ReplaceReparsesIff(t: string, es: seq<Entry>, i: nat, w: string)
    requires Parse(t) == Ok(es) && i < |es| && IsPointer(w)
    ensures es[i].start <= es[i].end <= |t| && (i > 0 ==> es[i].start > 0)
    ensures Reparses(t, es, i, w) <==> i == 0 || t[es[i].start - 1] == '\n'
  {
    var e := es[i];
    ParseOkIff(t);
    EntryBounds(t, 0, 1, i);
    if i > 0 && t[e.start - 1] != '\n' {
      ReplaceBreaks(t, es, i, w);
    } else {
      ReplaceKeeps(t, es, i, w);
    }
  }

  lemma ReplaceKeeps(t: string, es: seq<Entry>, i: nat, w: string)
    requires Parse(t) == Ok(es) && i < |es| && IsPointer(w) && es[i].start <= es[i].end <= |t|
    requires i == 0 || (es[i].start > 0 && t[es[i].start - 1] == '\n')
    ensures Reparses(t, es, i, w)
  {
    var u := ReplaceEntry(t, es[i], w);
    ParseOkIff(t);
    ReplaceSplices(t, es[i], w);
    ReplaceTexts(t, u, 0, 1, i, es[i], w);
    TrimPointer(w);
    EndsWithNewline(t, u, es[i].start, es[i].end, w);
    ParseOkIff(u);
  }

  lemma EndsWithNewline(t: string, u: string, lo: nat, hi: nat, w: string)
    requires Spliced(t, u, lo, hi, w) && Terminated(t)
    ensures u != "" && Terminated(u)
  {
    assert hi < |t| ==> u[|t| - 1 - hi + lo + |w| + 1] == t[|t| - 1];
  }

  lemma ReplaceBreaks(t: string, es: seq<Entry>, i: nat, w: string)
    requires Parse(t) == Ok(es) && 0 < i < |es| && IsPointer(w) && es[i].start <= es[i].end <= |t|
    requires es[i].start > 0 && t[es[i].start - 1] != '\n'
    ensures !Reparses(t, es, i, w)
  {
    var u := ReplaceEntry(t, es[i], w);
    ParseOkIff(t);
    ReplaceSplices(t, es[i], w);
    ReplaceGlues(t, u, 0, 1, i, es[i], w);
    ParseOkIff(u);
  }

  /** In a file whose lines all end with newlines every replacement is exact. */
  lemma NewlineFilesReparse(t: string, es: seq<Entry>, i: nat, w: string)
    requires Parse(t) == Ok(es) && i < |es| && IsPointer(w)
    requires forall k | 0 <= k < |t| :: IsTerminator(t[k]) ==> t[k] == '\n'
    ensures es[i].start <= es[i].end <= |t| && Reparses(t, es, i, w)
  {
    ReplaceReparsesIff(t, es, i, w);
    ParseOkIff(t);
    EntriesTileIff(t, 0, 1, es);
    if i > 0 {
      assert SeparatorAt(t, es[i - 1].end) && es[i - 1 + 1].start == Behind(t, es[i - 1].end);
    }
  }

  const CR_FILE: string := "a\n\U{00A7}\r\nb\n"
  const CR_ENTRIES: seq<Entry> := [Entry(1, 0, 2, "a"), Entry(2, 3, 7, "b")]

  lemma CrTrims()
    ensures Trim("a\n") == "a" && Trim("\r\nb\n") == "b"
  {
    assert "a\n"[..1] == "a";
    assert "\r\nb\n"[1..] == "\nb\n" && "\nb\n"[1..] == "b\n" && "b\n"[..1] == "b";
  }

  lemma CrTiles()
    ensures Tiles(CR_FILE, 0, 1, CR_ENTRIES)
  {
    var t := CR_FILE;
    assert t[0..2] == "a\n" && t[3..7] == "\r\nb\n";
    CrTrims();
    assert SeparatorAt(t, 2) && Behind(t, 2) == 3;
    forall p | 0 <= p < |t| && p != 2 ensures !SeparatorAt(t, p) {}
  }

  lemma CrParses()
    ensures Parse(CR_FILE) == Ok(CR_ENTRIES)
  {
    CrTiles();
    EntriesTileIff(CR_FILE, 0, 1, CR_ENTRIES);
    assert Texts(CR_ENTRIES) == ["a", "b"] by {
      TextAt(CR_ENTRIES, 0);
      TextAt(CR_ENTRIES, 1);
    }
    ParseOkIff(CR_FILE);
  }

  /** A separator line that ends with a carriage return and a newline is lost. */
  lemma CarriageReturnLosesSeparator(w: string)
    requires IsPointer(w)
    ensures Parse(CR_FILE) == Ok(CR_ENTRIES) && !Reparses(CR_FILE, CR_ENTRIES, 1, w)
  {
    CrParses();
    ReplaceReparsesIff(CR_FILE, CR_ENTRIES, 1, w);
  }

  /** The pointer a demotion writes is one that reparses. */
  lemma DemotionPointer(t: string, es: seq<Entry>, i: nat, hash: string)
    requires Parse(t) == Ok(es) && i < |es| && forall k | 0 <= k < |hash| :: !IsTerminator(hash[k])
    ensures OneLineGloss(es[i].text).Some?
    ensures IsPointer(PointerFor(hash, OneLineGloss(es[i].text).value))
  {
    ParseOkIff(t);
    TextAt(es, i);
    EntriesTileIff(t, 0, 1, es);
    var raw := t[es[i].start..es[i].end];
    assert es[i].text == Trim(raw) && es[i].text != "";
    TrimNotBlank(raw);
    GlossIsOneLine(es[i].text);
    PointerIsPointer(hash, OneLineGloss(es[i].text).value);
  }

  lemma TrimNotBlank(s: string)
    requires Trim(s) != ""
    ensures !Blank(Trim(s))
  {
    TrimStartOfBlank(s);
    TrimOfBlank(s);
    TrimEndKeepsStart(TrimStart(s));
  }
}
