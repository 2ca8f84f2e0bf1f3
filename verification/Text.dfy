/** White space, trimming and line splitting, as the source's runtime defines them. */
module Text {

  predicate IsSpace(c: char) {
    || c in {' ', '\t', '\n', '\r', '\U{000B}', '\U{000C}', '\U{00A0}', '\U{1680}'}
    || '\U{2000}' <= c <= '\U{200A}'
    || c in {'\U{2028}', '\U{2029}', '\U{202F}', '\U{205F}', '\U{3000}', '\U{FEFF}'}
  }

  predicate IsTerminator(c: char) {
    c == '\n' || c == '\r' || c == '\U{2028}' || c == '\U{2029}'
  }

  predicate Blank(s: string) {
    forall i | 0 <= i < |s| :: IsSpace(s[i])
  }

  function TrimStart(s: string): string {
    if s != [] && IsSpace(s[0]) then TrimStart(s[1..]) else s
  }

  function TrimEnd(s: string): string {
    if s != [] && IsSpace(s[|s| - 1]) then TrimEnd(s[..|s| - 1]) else s
  }

  function Trim(s: string): string {
    TrimEnd(TrimStart(s))
  }

  // White space and line terminators of the runtime, by code point.
  lemma SpaceIff(c: char)
    ensures var n := c as int;
            IsSpace(c) <==>
              || 9 <= n <= 13 || n == 32 || n == 160 || n == 0x1680 || 0x2000 <= n <= 0x200A
              || n == 0x2028 || n == 0x2029 || n == 0x202F || n == 0x205F || n == 0x3000 || n == 0xFEFF
    ensures IsTerminator(c) <==> c as int in {10, 13, 0x2028, 0x2029}
  {
  }

  lemma {:induction false} TrimStartIs(s: string) returns (x: string)
    ensures s == x + TrimStart(s) && Blank(x)
    ensures TrimStart(s) != "" ==> !IsSpace(TrimStart(s)[0])
  {
    x := "";
    if s != [] && IsSpace(s[0]) {
      var y := TrimStartIs(s[1..]);
      x := [s[0]] + y;
      assert s == [s[0]] + s[1..];
    }
  }

  lemma {:induction false} TrimEndIs(s: string) returns (y: string)
    ensures s == TrimEnd(s) + y && Blank(y)
    ensures TrimEnd(s) != "" ==> !IsSpace(TrimEnd(s)[|TrimEnd(s)| - 1])
  {
    y := "";
    if s != [] && IsSpace(s[|s| - 1]) {
      var x := TrimEndIs(s[..|s| - 1]);
      y := x + [s[|s| - 1]];
      assert s == s[..|s| - 1] + [s[|s| - 1]];
    }
  }

  /** Trimming takes white space off both ends, all of it, and nothing else. */
  lemma TrimIs(s: string) returns (x: string, y: string)
    ensures s == x + Trim(s) + y && Blank(x) && Blank(y)
    ensures Trim(s) != "" ==> !IsSpace(Trim(s)[0]) && !IsSpace(Trim(s)[|Trim(s)| - 1])
  {
    x := TrimStartIs(s);
    y := TrimEndIs(TrimStart(s));
    assert Trim(s) != "" ==> Trim(s)[0] == TrimStart(s)[0];
  }

  // text.split("\n")
  function Split(text: string): (parts: seq<string>)
    ensures parts != []
  {
    if text == [] then [[]]
    else
      var rest := Split(text[1..]);
      if text[0] == '\n' then [[]] + rest else [[text[0]] + rest[0]] + rest[1..]
  }

  // The lines a reader looks at: blank ones are skipped.
  function NonBlank(parts: seq<string>): seq<string> {
    if parts == [] then []
    else (if Blank(parts[0]) then [] else [parts[0]]) + NonBlank(parts[1..])
  }

  function Lines(text: string): seq<string> {
    NonBlank(Split(text))
  }

  // Every line followed by a newline.
  function Unlines(lines: seq<string>): string {
    if lines == [] then [] else lines[0] + "\n" + Unlines(lines[1..])
  }

  // lines.join("\n")
  function Join(lines: seq<string>): string {
    if lines == [] then [] else if |lines| == 1 then lines[0] else lines[0] + "\n" + Join(lines[1..])
  }

  lemma {:induction false} JoinUnlines(lines: seq<string>)
    requires lines != []
    ensures Join(lines) + "\n" == Unlines(lines)
  {
    if |lines| == 1 {
      assert Unlines(lines[1..]) == [];
    } else {
      JoinUnlines(lines[1..]);
      assert lines[0] + "\n" + Join(lines[1..]) + "\n" == lines[0] + "\n" + (Join(lines[1..]) + "\n");
    }
  }

  // Empty, or ending with a newline.
  predicate Terminated(text: string) {
    text == [] || text[|text| - 1] == '\n'
  }

  predicate IsLine(line: string) {
    '\n' !in line && !Blank(line)
  }

  lemma {:induction false} SplitParts(text: string)
    ensures forall p | p in Split(text) :: '\n' !in p
  {
    if text != [] {
      SplitParts(text[1..]);
    }
  }

  /** Splitting undoes joining: the parts, which hold no newline, make up the text. */
  lemma {:induction false} SplitJoins(text: string)
    ensures Join(Split(text)) == text && forall p | p in Split(text) :: '\n' !in p
  {
    SplitParts(text);
    if text != [] {
      var rest := Split(text[1..]);
      SplitJoins(text[1..]);
      assert text == [text[0]] + text[1..];
      if text[0] == '\n' {
        assert ([[]] + rest)[1..] == rest;
      } else {
        JoinFirst(text[0], rest);
      }
    }
  }

  lemma JoinFirst(c: char, parts: seq<string>)
    requires parts != []
    ensures Join([[c] + parts[0]] + parts[1..]) == [c] + Join(parts)
  {
    var more := [[c] + parts[0]] + parts[1..];
    assert more[1..] == parts[1..];
    if |parts| > 1 {
      assert [c] + parts[0] + "\n" + Join(parts[1..]) == [c] + (parts[0] + "\n" + Join(parts[1..]));
    }
  }

  lemma {:induction false} NonBlankMembers(parts: seq<string>)
    ensures forall p | p in NonBlank(parts) :: p in parts && !Blank(p)
  {
    if parts != [] {
      NonBlankMembers(parts[1..]);
    }
  }

  lemma LinesAreLines(text: string)
    ensures forall line | line in Lines(text) :: IsLine(line)
  {
    SplitParts(text);
    NonBlankMembers(Split(text));
  }

  lemma {:induction false} NonBlankConcat(a: seq<string>, b: seq<string>)
    ensures NonBlank(a + b) == NonBlank(a) + NonBlank(b)
  {
    if a == [] {
      assert a + b == b;
    } else {
      assert (a + b)[1..] == a[1..] + b;
      NonBlankConcat(a[1..], b);
    }
  }

  lemma {:induction false} SplitLine(line: string, rest: string)
    requires '\n' !in line
    ensures Split(line + "\n" + rest) == [line] + Split(rest)
  {
    var t := line + "\n" + rest;
    if line == [] {
      assert t[1..] == rest;
    } else {
      assert t[1..] == line[1..] + "\n" + rest;
      SplitLine(line[1..], rest);
      assert [line[0]] + line[1..] == line;
      assert ([line[1..]] + Split(rest))[1..] == Split(rest);
    }
  }

  lemma LinesCons(line: string, rest: string)
    requires '\n' !in line
    ensures Lines(line + "\n" + rest) == (if Blank(line) then [] else [line]) + Lines(rest)
  {
    SplitLine(line, rest);
    assert ([line] + Split(rest))[1..] == Split(rest);
  }

  lemma NoLines()
    ensures Lines("") == []
  {
    assert Split("")[1..] == [];
  }

  // Text appended after a newline adds its lines after the existing ones.
  lemma {:induction false} LinesConcat(a: string, b: string)
    requires Terminated(a)
    ensures Lines(a + b) == Lines(a) + Lines(b)
  {
    if a == [] {
      assert a + b == b;
      NoLines();
    } else {
      var line := TakeLine(a);
      var tail := a[|line| + 1..];
      assert a == line + "\n" + tail;
      LinesConcat(tail, b);
      LinesConcatStep(line, tail, b);
    }
  }

  lemma LinesConcatStep(line: string, tail: string, b: string)
    requires '\n' !in line
    requires Lines(tail + b) == Lines(tail) + Lines(b)
    ensures Lines(line + "\n" + tail + b) == Lines(line + "\n" + tail) + Lines(b)
  {
    var head: seq<string> := if Blank(line) then [] else [line];
    var whole := line + "\n" + tail + b;
    assert whole == line + "\n" + (tail + b);
    LinesCons(line, tail);
    LinesCons(line, tail + b);
    Assoc(head, Lines(tail), Lines(b));
  }

  lemma Assoc(x: seq<string>, y: seq<string>, z: seq<string>)
    ensures x + (y + z) == x + y + z
  {
  }

  lemma TakeLine(a: string) returns (line: string)
    requires a != [] && Terminated(a)
    ensures |line| < |a| && '\n' !in line && line == a[..|line|] && a[|line|] == '\n'
    ensures Terminated(a[|line| + 1..])
  {
    line := [];
    while a[|line|] != '\n'
      invariant |line| < |a| && '\n' !in line && line == a[..|line|]
      decreases |a| - |line|
    {
      line := line + [a[|line|]];
    }
  }

  // Writing lines out and reading them back.
  lemma {:induction false} LinesUnlines(lines: seq<string>)
    requires forall line | line in lines :: IsLine(line)
    ensures Lines(Unlines(lines)) == lines
    ensures Terminated(Unlines(lines))
  {
    if lines == [] {
      NoLines();
    } else {
      assert IsLine(lines[0]);
      LinesUnlines(lines[1..]);
      LinesCons(lines[0], Unlines(lines[1..]));
      assert lines == [lines[0]] + lines[1..];
    }
  }
}
