/**
 Which files a declared table's glob resolves, and the file an append creates when there is
 none: the glob with every wildcard segment replaced by the table's own file name.

 A path is the sequence of its segments below the namespace directory.
 */
module TableGlob {
  import opened Text

  type Path = seq<string>

  predicate HasWildcard(part: string) {
    '*' in part || '?' in part
  }

  predicate Hidden(name: string) {
    name != "" && name[0] == '.'
  }

  // glob.split("/").filter(nonempty)
  function Parts(glob: string): (parts: seq<string>)
    ensures "" !in parts
  {
    if glob == "" then []
    else if glob[0] == '/' then Parts(glob[1..])
    else
      var first := FirstSegment(glob);
      [first] + Parts(glob[|first|..])
  }

  function FirstSegment(glob: string): (s: string)
    ensures |s| <= |glob|
    ensures glob != "" && glob[0] != '/' ==> s != ""
  {
    if glob == "" || glob[0] == '/' then "" else [glob[0]] + FirstSegment(glob[1..])
  }

  // The anchored pattern of one segment: `*` any run, `?` any one character, the rest itself.
  predicate Matches(part: string, name: string)
    decreases |part|, |name|
  {
    if part == "" then name == ""
    else if part[0] == '*' then
      Matches(part[1..], name) || (name != "" && !IsTerminator(name[0]) && Matches(part, name[1..]))
    else
      && name != "" && (if part[0] == '?' then !IsTerminator(name[0]) else name[0] == part[0])
      && Matches(part[1..], name[1..])
  }

  // The directory walk arrives at the file from the place where `parts` are still to match.
  predicate Walks(parts: seq<string>, path: Path)
    decreases |path|
  {
    && parts != [] && path != [] && !Hidden(path[0])
    && if parts[0] == "**" then |path| > 1 && (Walks(parts, path[1..]) || Walks(parts[1..], path[1..]))
       else
         && Matches(parts[0], path[0])
         && if |parts| == 1 then |path| == 1 else Walks(parts[1..], path[1..])
  }

  predicate AnyWildcard(parts: seq<string>) {
    exists i | 0 <= i < |parts| :: HasWildcard(parts[i])
  }

  predicate Resolves(parts: seq<string>, path: Path) {
    if AnyWildcard(parts) then Walks(parts, path) else path == parts
  }

  function FileName(table: string): string {
    table + ".jsonl"
  }

  function DerivedPath(table: string, parts: seq<string>): Path {
    seq(|parts|, i requires 0 <= i < |parts| => if HasWildcard(parts[i]) then FileName(table) else parts[i])
  }

  // How often the walk arrives at the file.
  function Arrivals(parts: seq<string>, path: Path): nat
    decreases |path|
  {
    if parts == [] || path == [] || Hidden(path[0]) then 0
    else if parts[0] == "**" then
      if |path| > 1 then Arrivals(parts, path[1..]) + Arrivals(parts[1..], path[1..]) else 0
    else if !Matches(parts[0], path[0]) then 0
    else if |parts| == 1 then if |path| == 1 then 1 else 0
    else Arrivals(parts[1..], path[1..])
  }

  function DoubleStars(parts: seq<string>): nat {
    if parts == [] then 0 else (if parts[0] == "**" then 1 else 0) + DoubleStars(parts[1..])
  }

  lemma {:induction false} ArrivesIff(parts: seq<string>, path: Path)
    ensures Arrivals(parts, path) > 0 <==> Walks(parts, path)
    decreases |path|
  {
    if parts != [] && path != [] {
      ArrivesIff(parts, path[1..]);
      ArrivesIff(parts[1..], path[1..]);
    }
  }

  lemma {:induction false} LiteralArrivals(parts: seq<string>, path: Path)
    requires DoubleStars(parts) == 0
    ensures Arrivals(parts, path) <= 1 && (Arrivals(parts, path) > 0 ==> |path| == |parts|)
    decreases |path|
  {
    if parts != [] && path != [] {
      LiteralArrivals(parts[1..], path[1..]);
    }
  }

  /** With at most one `**` segment a file is resolved at most once. */
  lemma {:induction false} ArrivesOnce(parts: seq<string>, path: Path)
    requires DoubleStars(parts) <= 1
    ensures Arrivals(parts, path) <= 1
    decreases |path|
  {
    if parts != [] && path != [] {
      ArrivesOnce(parts, path[1..]);
      ArrivesOnce(parts[1..], path[1..]);
      if parts[0] == "**" {
        LiteralArrivals(parts[1..], path[1..]);
        ArrivesIff(parts, path[1..]);
        if Walks(parts, path[1..]) {
          WalkLength(parts, path[1..]);
        }
      }
    }
  }

  /** With two it may be resolved twice. */
  lemma ArrivesTwice(a: string, b: string, c: string, f: string)
    requires !Hidden(a) && !Hidden(b) && !Hidden(c) && !Hidden(f) && !HasWildcard(f)
    ensures Arrivals(["**", "**", f], [a, b, c, f]) == 2
  {
    var stars, path := ["**", "**", f], [a, b, c, f];
    LiteralMatches(f, f);
    assert "**"[0] == '*' && f != "**";
    assert stars[1..] == ["**", f] && ["**", f][1..] == [f] && [f][1..] == [];
    assert path[1..] == [b, c, f] && [b, c, f][1..] == [c, f] && [c, f][1..] == [f];
    assert Arrivals([f], [f]) == 1 && Arrivals([f], [c, f]) == 0;
    assert Arrivals(["**", f], [f]) == 0 && Arrivals(["**", f], [c, f]) == 1;
    assert Arrivals(["**", f], [b, c, f]) == 1;
    assert Arrivals(stars, [f]) == 0 && Arrivals(stars, [c, f]) == 0 && Arrivals(stars, [b, c, f]) == 1;
  }

  // ---------------------------------------------------------------------------
  // When the derived file resolves
  // ---------------------------------------------------------------------------

  // One segment of the glob accepts what is derived from it.
  predicate Accepts(table: string, part: string) {
    if HasWildcard(part) then part == "**" || Matches(part, FileName(table)) else !Hidden(part)
  }

  ghost predicate AcceptsAll(table: string, parts: seq<string>) {
    forall i | 0 <= i < |parts| :: Accepts(table, parts[i])
  }

  // Either an exact path, or no trailing `**`, no hidden literal segment, and every wildcard
  // segment matches the table's own file name.
  ghost predicate Covers(table: string, parts: seq<string>) {
    AnyWildcard(parts) ==> parts[|parts| - 1] != "**" && AcceptsAll(table, parts)
  }

  lemma {:induction false} LiteralMatches(part: string, name: string)
    requires !HasWildcard(part)
    ensures Matches(part, name) <==> name == part
  {
    if part != "" {
      assert part == [part[0]] + part[1..];
      if name != "" {
        assert name == [name[0]] + name[1..];
        LiteralMatches(part[1..], name[1..]);
      }
    }
  }

  // Every segment takes at least one path segment, and a trailing `**` takes no file.
  lemma {:induction false} WalkLength(parts: seq<string>, path: Path)
    requires Walks(parts, path)
    ensures |path| >= |parts| && parts[|parts| - 1] != "**"
    ensures forall i | 0 <= i < |path| :: path[i] == "" || path[i][0] != '.'
    decreases |path|
  {
    if parts[0] == "**" {
      if Walks(parts, path[1..]) {
        WalkLength(parts, path[1..]);
      } else {
        WalkLength(parts[1..], path[1..]);
      }
    } else if |parts| > 1 {
      WalkLength(parts[1..], path[1..]);
    }
  }

  lemma DerivedTail(table: string, parts: seq<string>)
    requires parts != []
    ensures DerivedPath(table, parts)[1..] == DerivedPath(table, parts[1..])
    ensures AcceptsAll(table, parts) <==> Accepts(table, parts[0]) && AcceptsAll(table, parts[1..])
  {
    assert parts == [parts[0]] + parts[1..];
  }

  // The walk arrives at the derived file exactly segment by segment.
  lemma {:induction false} DerivedWalks(table: string, parts: seq<string>)
    requires parts != [] && !Hidden(FileName(table))
    ensures Walks(parts, DerivedPath(table, parts)) <==> parts[|parts| - 1] != "**" && AcceptsAll(table, parts)
    decreases |parts|
  {
    var path := DerivedPath(table, parts);
    DerivedTail(table, parts);
    if !HasWildcard(parts[0]) {
      LiteralMatches(parts[0], path[0]);
    }
    if Walks(parts, path[1..]) {
      WalkLength(parts, path[1..]);
    }
    if |parts| > 1 {
      DerivedWalks(table, parts[1..]);
    }
  }

  /** The derived file is one the glob resolves exactly when the glob covers it. */
  lemma DerivedResolvesIff(table: string, parts: seq<string>)
    requires !Hidden(FileName(table))
    ensures Resolves(parts, DerivedPath(table, parts)) <==> Covers(table, parts)
  {
    if AnyWildcard(parts) {
      DerivedWalks(table, parts);
    } else {
      assert DerivedPath(table, parts) == parts;
    }
  }

  // ---------------------------------------------------------------------------
  // The usual pattern: a star and a suffix
  // ---------------------------------------------------------------------------

  ghost predicate OneLineName(name: string) {
    forall i | 0 <= i < |name| :: !IsTerminator(name[i])
  }

  /** `*` followed by literal text matches exactly the names that end with that text. */
  lemma {:induction false} StarSuffixIff(suffix: string, name: string)
    requires !HasWildcard(suffix) && OneLineName(name)
    ensures Matches("*" + suffix, name) <==> |name| >= |suffix| && name[|name| - |suffix|..] == suffix
    decreases |name|
  {
    var part := "*" + suffix;
    assert part[1..] == suffix;
    LiteralMatches(suffix, name);
    if name != "" {
      StarSuffixIff(suffix, name[1..]);
      if |name| > |suffix| {
        assert name[1..][|name[1..]| - |suffix|..] == name[|name| - |suffix|..];
      }
    }
  }

  lemma {:induction false} AfterLiteral(literal: string, part: string, name: string)
    requires !HasWildcard(literal)
    ensures Matches(literal + part, name) <==>
              |name| >= |literal| && name[..|literal|] == literal && Matches(part, name[|literal|..])
  {
    var whole := literal + part;
    if literal == "" {
      assert whole == part && name[0..] == name;
    } else if name != "" {
      assert whole[0] == literal[0] && whole[1..] == literal[1..] + part;
      AfterLiteral(literal[1..], part, name[1..]);
      if |name| >= |literal| {
        assert name[1..][|literal| - 1..] == name[|literal|..];
        assert name[..|literal|] == [name[0]] + name[1..][..|literal| - 1];
        assert literal == [literal[0]] + literal[1..];
      }
    }
  }

  /** A star between two literal texts matches exactly the names that start and end with them. */
  lemma StarBetweenIff(before: string, after: string, name: string)
    requires !HasWildcard(before) && !HasWildcard(after) && OneLineName(name)
    ensures Matches(before + ("*" + after), name) <==>
              |name| >= |before| + |after| && name[..|before|] == before && name[|name| - |after|..] == after
  {
    AfterLiteral(before, "*" + after, name);
    if |name| >= |before| {
      EndsAlike(after, name, |before|);
    }
  }

  lemma EndsAlike(after: string, name: string, n: nat)
    requires !HasWildcard(after) && OneLineName(name) && n <= |name|
    ensures Matches("*" + after, name[n..]) <==> |name| >= n + |after| && name[|name| - |after|..] == after
  {
    var rest := name[n..];
    StarSuffixIff(after, rest);
    if |rest| >= |after| {
      assert rest[|rest| - |after|..] == name[|name| - |after|..];
    }
  }

  /** n question marks match exactly the names of n characters. */
  lemma {:induction false} QuestionsIff(n: nat, name: string)
    ensures Matches(seq(n, i => '?'), name) <==> |name| == n && OneLineName(name)
  {
    var part := seq(n, i => '?');
    if n > 0 && name != "" {
      assert part[1..] == seq(n - 1, i => '?');
      QuestionsIff(n - 1, name[1..]);
      assert OneLineName(name) <==> !IsTerminator(name[0]) && OneLineName(name[1..]) by {
        assert name == [name[0]] + name[1..];
      }
    }
  }

  // A glob of literal directories and one star pattern covers the table's own file exactly
  // when that file's name ends with the pattern's suffix.
  lemma SuffixGlobCovers(table: string, dirs: seq<string>, suffix: string)
    requires OneLineName(FileName(table)) && !HasWildcard(suffix)
    requires forall i | 0 <= i < |dirs| :: !HasWildcard(dirs[i]) && !Hidden(dirs[i])
    ensures var name := FileName(table);
            Covers(table, dirs + ["*" + suffix]) <==>
              |name| >= |suffix| && name[|name| - |suffix|..] == suffix
  {
    var last := "*" + suffix;
    var parts := dirs + [last];
    assert parts[|dirs|] == last && last[0] == '*' && HasWildcard(last);
    assert suffix != "" ==> last[1] == suffix[0] && suffix[0] in suffix;
    StarSuffixIff(suffix, FileName(table));
    assert forall i | 0 <= i < |dirs| :: parts[i] == dirs[i] && Accepts(table, parts[i]);
    assert Accepts(table, parts[|dirs|]) <==> Matches(last, FileName(table));
  }

  lemma {:induction false} FirstSegmentIs(a: string, rest: string)
    requires '/' !in a
    ensures FirstSegment(a + "/" + rest) == a && FirstSegment(a) == a
  {
    var glob := a + "/" + rest;
    if a != "" {
      assert glob[1..] == a[1..] + "/" + rest;
      FirstSegmentIs(a[1..], rest);
      assert a == [a[0]] + a[1..];
    }
  }

  lemma PartsOf(a: string, rest: string)
    requires '/' !in a && a != ""
    ensures Parts(a + "/" + rest) == [a] + Parts(rest) && Parts(a) == [a]
  {
    var glob := a + "/" + rest;
    FirstSegmentIs(a, rest);
    assert glob[|a|..] == "/" + rest && ("/" + rest)[1..] == rest;
    assert a[|a|..] == "";
  }

  const JSON_GLOB := "data/*.json"

  // The table's own file ends in .jsonl: a suffix that ends in another letter misses it.
  lemma SuffixMisses(table: string, dirs: seq<string>, suffix: string)
    requires OneLineName(FileName(table)) && !HasWildcard(suffix)
    requires forall i | 0 <= i < |dirs| :: !HasWildcard(dirs[i]) && !Hidden(dirs[i])
    requires suffix != "" && suffix[|suffix| - 1] != 'l'
    ensures !Covers(table, dirs + ["*" + suffix])
  {
    var name := FileName(table);
    SuffixGlobCovers(table, dirs, suffix);
    assert name[|name| - 1] == 'l';
    if |name| >= |suffix| {
      assert name[|name| - |suffix|..][|suffix| - 1] == name[|name| - 1];
    }
  }

  lemma JsonGlobMisses(table: string, parts: seq<string>)
    requires OneLineName(FileName(table)) && parts == ["data"] + ["*" + ".json"]
    ensures !Covers(table, parts)
  {
    SuffixMisses(table, ["data"], ".json");
  }

  const JSONL_GLOB := "data/*.jsonl"

  lemma JsonlGlobCovers(table: string, parts: seq<string>)
    requires OneLineName(FileName(table)) && parts == ["data"] + ["*" + ".jsonl"]
    ensures Covers(table, parts)
  {
    var name, suffix := FileName(table), ".jsonl";
    assert name[|table|..] == suffix;
    SuffixGlobCovers(table, ["data"], suffix);
  }

  lemma JsonlGlobParts()
    ensures Parts(JSONL_GLOB) == ["data"] + ["*" + ".jsonl"]
  {
    assert JSONL_GLOB == "data" + "/" + "*.jsonl" && "*.jsonl" == "*" + ".jsonl";
    PartsOf("data", "*.jsonl");
    PartsOf("*.jsonl", "");
  }

  lemma JsonGlobParts()
    ensures Parts(JSON_GLOB) == ["data"] + ["*" + ".json"]
  {
    assert JSON_GLOB == "data" + "/" + "*.json" && "*.json" == "*" + ".json";
    PartsOf("data", "*.json");
    PartsOf("*.json", "");
  }
}
