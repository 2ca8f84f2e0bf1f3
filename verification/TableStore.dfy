/**
 The declared-table store: rows live as JSON lines in several files. Inserts append to the
 last file, PATCH and DELETE rewrite every file, and a read by key walks the files in order.

 Files are texts, in the resolved (sorted) order. JSON text is handled by a codec about
 which only the laws in `Lawful` are used.
 */
module TableStore {
  import opened Base
  import opened Text
  import opened TableGlob

  // A JSON value as a column holds it; `Nested` is an object or array with its String() form.
  datatype Value =
    | Null
    | Bool(b: bool)
    | Num(digits: string)
    | Str(s: string)
    | Nested(shown: string, json: string)

  type Record = map<string, Value>

  datatype Parsed = Unparseable | NotAnObject | Object(row: Record)

  datatype Codec = Codec(parse: string -> Parsed, stringify: Record -> string)

  // JSON.parse undoes JSON.stringify, whose output is one non-blank line.
  ghost predicate Lawful(codec: Codec) {
    RoundTrips(codec) && OneLine(codec)
  }

  ghost predicate RoundTrips(codec: Codec) {
    forall r :: codec.parse(codec.stringify(r)) == Object(r)
  }

  ghost predicate OneLine(codec: Codec) {
    forall r :: IsLine(codec.stringify(r))
  }

  // ---------------------------------------------------------------------------
  // Key comparison
  // ---------------------------------------------------------------------------

  // String(v)
  function Show(v: Value): string {
    match v
    case Null => "null"
    case Bool(b) => if b then "true" else "false"
    case Num(digits) => digits
    case Str(s) => s
    case Nested(shown, _) => shown
  }

  // The value an operand of the filter `pk=eq.<operand>` stands for.
  function Decode(boolean: bool, operand: string): Value {
    if operand == "null" || operand == "" then Null
    else if boolean && operand == "true" then Bool(true)
    else if boolean && operand == "false" then Bool(false)
    else Str(operand)
  }

  // A missing cell is None.
  predicate CellMatches(boolean: bool, operand: string, cell: Option<Value>) {
    var decoded := Decode(boolean, operand);
    if cell.None? || cell.value.Null? then decoded == Null else Show(cell.value) == Show(decoded)
  }

  /**
   A cell that is not null matches exactly the operand it prints as, whatever the column's
   type; but a cell printing as the empty text is out of reach, and the empty operand also
   reaches a cell printing as "null".
   */
  lemma CellMatchesIff(boolean: bool, operand: string, v: Value)
    requires !v.Null?
    ensures CellMatches(boolean, operand, Some(v)) <==>
              if operand == "" then Show(v) == "null" else Show(v) == operand
  {
  }

  /**
   A cell can be reached by some operand exactly when it is null or prints as some text, and
   no operand reaches two non-null cells that print differently.
   */
  lemma ReachableIff(boolean: bool, cell: Option<Value>)
    ensures (exists operand :: CellMatches(boolean, operand, cell)) <==>
              cell.None? || cell.value.Null? || Show(cell.value) != ""
    ensures forall operand, v: Value, w: Value |
              !v.Null? && !w.Null? && CellMatches(boolean, operand, Some(v)) && CellMatches(boolean, operand, Some(w)) ::
              Show(v) == Show(w)
  {
    if cell.None? || cell.value.Null? {
      assert CellMatches(boolean, "null", cell);
    } else {
      CellMatchesIff(boolean, Show(cell.value), cell.value);
    }
  }

  /** A cell holding the empty text, for instance, is out of reach. */
  lemma EmptyKeyUnreachable(boolean: bool, operand: string)
    ensures !CellMatches(boolean, operand, Some(Str("")))
  {
    CellMatchesIff(boolean, operand, Str(""));
  }

  // A declaration: its key column, whether that column is boolean, its name and its glob.
  datatype Table = Table(codec: Codec, pk: string, boolean: bool, name: string, glob: string)

  // What the registry accepts as a table name.
  predicate IsTableName(name: string) {
    name != "" && forall i | 0 <= i < |name| ::
      'a' <= name[i] <= 'z' || '0' <= name[i] <= '9' || name[i] == '_' || name[i] == '-'
  }

  // The file an append creates is one the glob resolves.
  predicate DerivedResolves(t: Table) {
    Resolves(Parts(t.glob), DerivedPath(t.name, Parts(t.glob)))
  }

  function Cell(row: Record, column: string): Option<Value> {
    if column in row then Some(row[column]) else None
  }

  predicate RowMatches(t: Table, operand: string, row: Record) {
    CellMatches(t.boolean, operand, Cell(row, t.pk))
  }

  /**
   Which rows an operand reaches: a missing or null key exactly "" and "null"; any other key
   exactly the operand that spells it, save that "" reaches only what is spelled "null".
   */
  lemma KeyMatchIff(t: Table, operand: string, row: Record)
    ensures t.pk !in row || row[t.pk] == Null ==> (RowMatches(t, operand, row) <==> operand == "" || operand == "null")
    ensures t.pk in row && row[t.pk].Num? ==>
              (RowMatches(t, operand, row) <==> row[t.pk].digits == if operand == "" then "null" else operand)
    ensures t.pk in row && row[t.pk].Str? ==>
              (RowMatches(t, operand, row) <==> row[t.pk].s == if operand == "" then "null" else operand)
    ensures t.pk in row && row[t.pk].Bool? ==>
              (RowMatches(t, operand, row) <==> operand == if row[t.pk].b then "true" else "false")
    ensures t.pk in row && row[t.pk].Nested? ==>
              (RowMatches(t, operand, row) <==> row[t.pk].shown == if operand == "" then "null" else operand)
  {
    if t.pk in row && !row[t.pk].Null? {
      CellMatchesIff(t.boolean, operand, row[t.pk]);
    }
  }

  // ---------------------------------------------------------------------------
  // Mutations, on lines and on rows
  // ---------------------------------------------------------------------------

  // What a mutation makes of a matching row; Delete drops it.
  datatype Mutation = Delete | Patch(body: Record)

  predicate LineMatches(t: Table, operand: string, line: string) {
    var p := t.codec.parse(line);
    p.Object? && RowMatches(t, operand, p.row)
  }

  function RewriteLine(t: Table, operand: string, m: Mutation, line: string): seq<string> {
    if !LineMatches(t, operand, line) then [line]
    else if m.Delete? then []
    else [t.codec.stringify(t.codec.parse(line).row + m.body)]
  }

  function RewriteLines(t: Table, operand: string, m: Mutation, lines: seq<string>): seq<string> {
    if lines == [] then [] else RewriteLine(t, operand, m, lines[0]) + RewriteLines(t, operand, m, lines[1..])
  }

  function CountMatching(t: Table, operand: string, lines: seq<string>): nat {
    if lines == [] then 0 else
      (if LineMatches(t, operand, lines[0]) then 1 else 0) + CountMatching(t, operand, lines[1..])
  }

  // The rows a table's lines hold; lines that are not objects hold none.
  function Rows(t: Table, lines: seq<string>): seq<Record> {
    if lines == [] then [] else RowOf(t, lines[0]) + Rows(t, lines[1..])
  }

  // The row a line holds, if any.
  function RowOf(t: Table, line: string): seq<Record> {
    var p := t.codec.parse(line);
    if p.Object? then [p.row] else []
  }

  function RewriteRow(t: Table, operand: string, m: Mutation, row: Record): seq<Record> {
    if !RowMatches(t, operand, row) then [row] else if m.Delete? then [] else [row + m.body]
  }

  function RewriteRows(t: Table, operand: string, m: Mutation, rows: seq<Record>): seq<Record> {
    if rows == [] then [] else RewriteRow(t, operand, m, rows[0]) + RewriteRows(t, operand, m, rows[1..])
  }

  function CountRows(t: Table, operand: string, rows: seq<Record>): nat {
    if rows == [] then 0 else
      (if RowMatches(t, operand, rows[0]) then 1 else 0) + CountRows(t, operand, rows[1..])
  }

  // ---------------------------------------------------------------------------
  // Files
  // ---------------------------------------------------------------------------

  function AllLines(files: seq<string>): seq<string> {
    if files == [] then [] else Lines(files[0]) + AllLines(files[1..])
  }

  function RewriteText(t: Table, operand: string, m: Mutation, text: string): string {
    Unlines(RewriteLines(t, operand, m, Lines(text)))
  }

  ghost predicate AllTerminated(files: seq<string>) {
    forall i | 0 <= i < |files| :: Terminated(files[i])
  }

  function PrintRows(t: Table, rows: seq<Record>): seq<string> {
    seq(|rows|, i requires 0 <= i < |rows| => t.codec.stringify(rows[i]))
  }

  // lines.join("\n") + "\n": appending no rows still writes a newline.
  function AppendedText(t: Table, rows: seq<Record>): string {
    if rows == [] then "\n" else Unlines(PrintRows(t, rows))
  }

  // ---------------------------------------------------------------------------
  // Refinement of the plain row sequence
  // ---------------------------------------------------------------------------

  lemma {:induction false} RewriteLinesAreLines(t: Table, operand: string, m: Mutation, lines: seq<string>)
    requires OneLine(t.codec) && forall line | line in lines :: IsLine(line)
    ensures forall line | line in RewriteLines(t, operand, m, lines) :: IsLine(line)
  {
    if lines != [] {
      RewriteLinesAreLines(t, operand, m, lines[1..]);
    }
  }

  lemma {:induction false} RowsConcat(t: Table, a: seq<string>, b: seq<string>)
    ensures Rows(t, a + b) == Rows(t, a) + Rows(t, b)
  {
    if a == [] {
      assert a + b == b;
    } else {
      assert (a + b)[1..] == a[1..] + b;
      RowsConcat(t, a[1..], b);
    }
  }

  lemma {:induction false} RewriteConcat(t: Table, operand: string, m: Mutation, a: seq<string>, b: seq<string>)
    ensures RewriteLines(t, operand, m, a + b) == RewriteLines(t, operand, m, a) + RewriteLines(t, operand, m, b)
    ensures CountMatching(t, operand, a + b) == CountMatching(t, operand, a) + CountMatching(t, operand, b)
  {
    if a == [] {
      assert a + b == b;
    } else {
      assert (a + b)[1..] == a[1..] + b;
      RewriteConcat(t, operand, m, a[1..], b);
      Assoc(RewriteLine(t, operand, m, a[0]), RewriteLines(t, operand, m, a[1..]), RewriteLines(t, operand, m, b));
    }
  }

  lemma {:induction false} RewriteRowsConcat(t: Table, operand: string, m: Mutation, a: seq<Record>, b: seq<Record>)
    ensures RewriteRows(t, operand, m, a + b) == RewriteRows(t, operand, m, a) + RewriteRows(t, operand, m, b)
    ensures CountRows(t, operand, a + b) == CountRows(t, operand, a) + CountRows(t, operand, b)
  {
    if a == [] {
      assert a + b == b;
    } else {
      assert (a + b)[1..] == a[1..] + b;
      RewriteRowsConcat(t, operand, m, a[1..], b);
    }
  }

  lemma RewriteLineRefines(t: Table, operand: string, m: Mutation, line: string)
    requires RoundTrips(t.codec)
    ensures Rows(t, RewriteLine(t, operand, m, line)) == RewriteRows(t, operand, m, RowOf(t, line))
    ensures (if LineMatches(t, operand, line) then 1 else 0) == CountRows(t, operand, RowOf(t, line))
  {
    var one := RewriteLine(t, operand, m, line);
    if one != [] { assert one[1..] == []; }
    var p := t.codec.parse(line);
    if p.Object? { assert [p.row][1..] == []; }
  }

  // On lines, a rewrite is a rewrite of the rows they hold.
  lemma {:induction false} RewriteRefines(t: Table, operand: string, m: Mutation, lines: seq<string>)
    requires RoundTrips(t.codec)
    ensures Rows(t, RewriteLines(t, operand, m, lines)) == RewriteRows(t, operand, m, Rows(t, lines))
    ensures CountMatching(t, operand, lines) == CountRows(t, operand, Rows(t, lines))
  {
    if lines != [] {
      RewriteRefines(t, operand, m, lines[1..]);
      RewriteLineRefines(t, operand, m, lines[0]);
      RowsConcat(t, RewriteLine(t, operand, m, lines[0]), RewriteLines(t, operand, m, lines[1..]));
      RewriteRowsConcat(t, operand, m, RowOf(t, lines[0]), Rows(t, lines[1..]));
    }
  }

  lemma RewriteOneFile(t: Table, operand: string, m: Mutation, text: string)
    requires Lawful(t.codec)
    ensures Lines(RewriteText(t, operand, m, text)) == RewriteLines(t, operand, m, Lines(text))
    ensures Terminated(RewriteText(t, operand, m, text))
  {
    LinesAreLines(text);
    RewriteLinesAreLines(t, operand, m, Lines(text));
    LinesUnlines(RewriteLines(t, operand, m, Lines(text)));
  }

  lemma {:induction false} RewriteAllLines(t: Table, operand: string, m: Mutation, before: seq<string>, after: seq<string>)
    requires |before| == |after|
    requires forall i | 0 <= i < |before| :: Lines(after[i]) == RewriteLines(t, operand, m, Lines(before[i]))
    ensures AllLines(after) == RewriteLines(t, operand, m, AllLines(before))
  {
    if before != [] {
      RewriteAllLines(t, operand, m, before[1..], after[1..]);
      RewriteConcat(t, operand, m, Lines(before[0]), AllLines(before[1..]));
    }
  }

  // Rewriting every file rewrites the lines of the whole table.
  lemma RewriteFiles(t: Table, operand: string, m: Mutation, before: seq<string>, after: seq<string>)
    requires Lawful(t.codec) && |before| == |after|
    requires forall i | 0 <= i < |before| :: after[i] == RewriteText(t, operand, m, before[i])
    ensures AllLines(after) == RewriteLines(t, operand, m, AllLines(before))
    ensures AllTerminated(after)
  {
    forall i | 0 <= i < |before|
      ensures Lines(after[i]) == RewriteLines(t, operand, m, Lines(before[i])) && Terminated(after[i])
    {
      RewriteOneFile(t, operand, m, before[i]);
    }
    RewriteAllLines(t, operand, m, before, after);
  }

  // A patch touches only the matching lines; every other line keeps its text and place.
  lemma {:induction false} PatchInPlace(t: Table, operand: string, body: Record, lines: seq<string>)
    ensures var after := RewriteLines(t, operand, Patch(body), lines);
            && |after| == |lines|
            && forall i | 0 <= i < |lines| ::
                 if LineMatches(t, operand, lines[i])
                 then after[i] == t.codec.stringify(t.codec.parse(lines[i]).row + body)
                 else after[i] == lines[i]
  {
    if lines != [] {
      PatchInPlace(t, operand, body, lines[1..]);
    }
  }

  ghost predicate Ascending(at: seq<nat>) {
    forall i, j | 0 <= i < j < |at| :: at[i] < at[j]
  }

  // From line n on, the lines kept are b; they stand at the positions `at`, which are those of
  // the lines that do not match.
  ghost predicate KeptFrom(t: Table, operand: string, lines: seq<string>, n: nat, b: seq<string>, at: seq<nat>) {
    && |at| == |b| && Ascending(at)
    && (forall i | 0 <= i < |at| :: n <= at[i] < |lines| && !LineMatches(t, operand, lines[at[i]]) && b[i] == lines[at[i]])
    && (forall k: nat | n <= k < |lines| && !LineMatches(t, operand, lines[k]) :: k in at)
  }

  lemma {:induction false} KeptPositions(t: Table, operand: string, lines: seq<string>, n: nat) returns (at: seq<nat>)
    requires n <= |lines|
    ensures KeptFrom(t, operand, lines, n, RewriteLines(t, operand, Delete, lines[n..]), at)
    ensures |lines| - n == |at| + CountMatching(t, operand, lines[n..])
    decreases |lines| - n
  {
    at := [];
    if n < |lines| {
      at := KeptPositions(t, operand, lines, n + 1);
      assert lines[n..][1..] == lines[n + 1..];
      var rest := RewriteLines(t, operand, Delete, lines[n + 1..]);
      if LineMatches(t, operand, lines[n]) {
        assert RewriteLines(t, operand, Delete, lines[n..]) == rest;
      } else {
        at := [n] + at;
      }
    }
  }

  // A deletion keeps exactly the lines that do not match, unparseable ones included, in order.
  lemma DeleteKeepsRest(t: Table, operand: string, lines: seq<string>) returns (at: seq<nat>)
    ensures KeptFrom(t, operand, lines, 0, RewriteLines(t, operand, Delete, lines), at)
    ensures |lines| == |at| + CountMatching(t, operand, lines)
  {
    at := KeptPositions(t, operand, lines, 0);
    assert lines[0..] == lines;
  }

  lemma {:induction false} PrintedRows(t: Table, rows: seq<Record>)
    requires Lawful(t.codec)
    ensures Rows(t, PrintRows(t, rows)) == rows
    ensures forall line | line in PrintRows(t, rows) :: IsLine(line)
  {
    if rows != [] {
      PrintedRows(t, rows[1..]);
      assert PrintRows(t, rows)[1..] == PrintRows(t, rows[1..]);
    }
  }

  lemma AppendedLines(t: Table, rows: seq<Record>)
    requires Lawful(t.codec)
    ensures Rows(t, Lines(AppendedText(t, rows))) == rows
    ensures AppendedText(t, rows) != [] && Terminated(AppendedText(t, rows))
  {
    PrintedRows(t, rows);
    if rows == [] {
      assert "\n" == "" + "\n" + "";
      LinesCons("", "");
      NoLines();
    } else {
      LinesUnlines(PrintRows(t, rows));
    }
  }

  lemma AllLinesOne(text: string)
    ensures AllLines([text]) == Lines(text)
  {
    assert [text][1..] == [];
    assert AllLines([]) == [];
  }

  function SetLast(files: seq<string>, text: string): seq<string>
    requires files != []
  {
    files[|files| - 1 := text]
  }

  lemma {:induction false} AppendToLast(files: seq<string>, text: string)
    requires AllTerminated(files) && files != []
    ensures AllLines(SetLast(files, files[|files| - 1] + text)) == AllLines(files) + Lines(text)
  {
    var last := files[|files| - 1] + text;
    if |files| == 1 {
      LinesConcat(files[0], text);
      AllLinesOne(files[0]);
      AllLinesOne(last);
      assert files == [files[0]] && SetLast(files, last) == [last];
    } else {
      AppendToLast(files[1..], text);
      Assoc(Lines(files[0]), AllLines(files[1..]), Lines(text));
    }
  }

  // ---------------------------------------------------------------------------
  // Calls
  // ---------------------------------------------------------------------------

  // `detached` is the derived file when the glob does not resolve it: written, never read.
  datatype Disk = Disk(files: seq<string>, detached: string)

  datatype Call = Append(rows: seq<Record>) | Mutate(operand: string, m: Mutation)

  function ExecAppend(t: Table, d: Disk, rows: seq<Record>): Disk {
    var text, n := AppendedText(t, rows), |d.files| - 1;
    if d.files != [] then d.(files := SetLast(d.files, d.files[n] + text))
    else if DerivedResolves(t) then d.(files := [text])
    else d.(detached := d.detached + text)
  }

  function Exec(t: Table, d: Disk, c: Call): Disk {
    match c
    case Append(rows) => ExecAppend(t, d, rows)
    case Mutate(operand, m) =>
      d.(files := seq(|d.files|, i requires 0 <= i < |d.files| => RewriteText(t, operand, m, d.files[i])))
  }

  // The table as a reader sees it.
  function View(t: Table, d: Disk): seq<Record> {
    Rows(t, AllLines(d.files))
  }

  function AbstractExec(t: Table, rows: seq<Record>, c: Call): seq<Record> {
    match c
    case Append(more) => rows + more
    case Mutate(operand, m) => RewriteRows(t, operand, m, rows)
  }

  ghost predicate Usable(t: Table, d: Disk) {
    AllTerminated(d.files) && (d.files != [] || DerivedResolves(t))
  }

  lemma AppendView(t: Table, d: Disk, rows: seq<Record>)
    requires Lawful(t.codec) && AllTerminated(d.files)
    ensures AllTerminated(ExecAppend(t, d, rows).files)
    ensures View(t, ExecAppend(t, d, rows)) ==
            if d.files != [] || DerivedResolves(t) then View(t, d) + rows else []
  {
    AppendedLines(t, rows);
    if d.files != [] {
      AppendToFiles(t, d.files, AppendedText(t, rows));
    } else if DerivedResolves(t) {
      AllLinesOne(AppendedText(t, rows));
      assert View(t, d) + rows == rows;
    }
  }

  lemma AppendToFiles(t: Table, files: seq<string>, text: string)
    requires AllTerminated(files) && files != [] && text != [] && Terminated(text)
    ensures var n := |files| - 1;
            var after := SetLast(files, files[n] + text);
            AllTerminated(after) && Rows(t, AllLines(after)) == Rows(t, AllLines(files)) + Rows(t, Lines(text))
  {
    AppendToLast(files, text);
    RowsConcat(t, AllLines(files), Lines(text));
  }

  /**
   An append shows up in the table exactly when some file already resolves or the glob covers
   the table's own file; otherwise the rows land in a file no later call reads.
   */
  lemma AppendVisibleIff(t: Table, d: Disk, rows: seq<Record>)
    requires Lawful(t.codec) && AllTerminated(d.files) && IsTableName(t.name) && rows != []
    ensures View(t, ExecAppend(t, d, rows)) == View(t, d) + rows <==> d.files != [] || Covers(t.name, Parts(t.glob))
  {
    TableNameIsPlain(t.name);
    DerivedResolvesIff(t.name, Parts(t.glob));
    AppendView(t, d, rows);
  }

  lemma TableNameIsPlain(name: string)
    requires IsTableName(name)
    ensures !Hidden(FileName(name)) && OneLineName(FileName(name))
  {
    var file := FileName(name);
    assert forall i | 0 <= i < |name| :: file[i] == name[i];
    assert forall i | |name| <= i < |file| :: file[i] == ".jsonl"[i - |name|];
  }

  /** With a glob of .json files, rows appended to a table without files are never read. */
  lemma JsonGlobLosesRows(t: Table, d: Disk, rows: seq<Record>)
    requires IsTableName(t.name) && t.glob == JSON_GLOB && d.files == []
    ensures ExecAppend(t, d, rows).files == [] && View(t, ExecAppend(t, d, rows)) == []
  {
    TableNameIsPlain(t.name);
    JsonGlobParts();
    JsonGlobMisses(t.name, Parts(t.glob));
    DerivedResolvesIff(t.name, Parts(t.glob));
  }

  // Rows that no call reads are still written, behind those written there before.
  lemma DetachedGrows(t: Table, d: Disk, rows: seq<Record>)
    requires Lawful(t.codec) && Terminated(d.detached) && d.files == [] && !DerivedResolves(t)
    ensures var after := ExecAppend(t, d, rows).detached;
            Terminated(after) && Rows(t, Lines(after)) == Rows(t, Lines(d.detached)) + rows
  {
    AppendedLines(t, rows);
    LinesConcat(d.detached, AppendedText(t, rows));
    RowsConcat(t, Lines(d.detached), Lines(AppendedText(t, rows)));
  }

  /** With a glob of .jsonl files they are read at once, whatever the table's name. */
  lemma JsonlGlobKeepsRows(t: Table, d: Disk, rows: seq<Record>)
    requires Lawful(t.codec) && IsTableName(t.name) && t.glob == JSONL_GLOB && d.files == []
    ensures View(t, ExecAppend(t, d, rows)) == rows
  {
    TableNameIsPlain(t.name);
    JsonlGlobParts();
    JsonlGlobCovers(t.name, Parts(t.glob));
    DerivedResolvesIff(t.name, Parts(t.glob));
    AppendView(t, d, rows);
  }

  lemma ExecRefines(t: Table, d: Disk, c: Call)
    requires Lawful(t.codec) && Usable(t, d)
    ensures View(t, Exec(t, d, c)) == AbstractExec(t, View(t, d), c)
    ensures Usable(t, Exec(t, d, c))
  {
    match c
    case Append(rows) => AppendView(t, d, rows);
    case Mutate(operand, m) =>
      RewriteFiles(t, operand, m, d.files, Exec(t, d, c).files);
      RewriteRefines(t, operand, m, AllLines(d.files));
  }

  function Run(t: Table, d: Disk, calls: seq<Call>): Disk
    decreases calls
  {
    if calls == [] then d else Run(t, Exec(t, d, calls[0]), calls[1..])
  }

  function AbstractRun(t: Table, rows: seq<Record>, calls: seq<Call>): seq<Record>
    decreases calls
  {
    if calls == [] then rows else AbstractRun(t, AbstractExec(t, rows, calls[0]), calls[1..])
  }

  /** Any sequence of appends, patches and deletions acts as on one plain row sequence. */
  lemma {:induction false} RunRefines(t: Table, d: Disk, calls: seq<Call>)
    requires Lawful(t.codec) && Usable(t, d)
    ensures View(t, Run(t, d, calls)) == AbstractRun(t, View(t, d), calls)
    ensures Usable(t, Run(t, d, calls))
    decreases calls
  {
    if calls != [] {
      ExecRefines(t, d, calls[0]);
      RunRefines(t, Exec(t, d, calls[0]), calls[1..]);
    }
  }

  // ---------------------------------------------------------------------------
  // Lookup by key
  // ---------------------------------------------------------------------------

  function FirstMatch(t: Table, operand: string, rows: seq<Record>): Option<Record> {
    if rows == [] then None
    else if RowMatches(t, operand, rows[0]) then Some(rows[0])
    else FirstMatch(t, operand, rows[1..])
  }

  // The row found matches and none before it does; nothing found, none matches.
  lemma {:induction false} FirstMatchIs(t: Table, operand: string, rows: seq<Record>)
    ensures var found := FirstMatch(t, operand, rows);
            if found.None? then forall r | r in rows :: !RowMatches(t, operand, r)
            else exists k | 0 <= k < |rows| ::
                   rows[k] == found.value && RowMatches(t, operand, rows[k])
                   && forall j | 0 <= j < k :: !RowMatches(t, operand, rows[j])
  {
    if rows != [] && !RowMatches(t, operand, rows[0]) {
      FirstMatchIs(t, operand, rows[1..]);
      var found := FirstMatch(t, operand, rows[1..]);
      if found.Some? {
        var k :| 0 <= k < |rows[1..]| && rows[1..][k] == found.value && RowMatches(t, operand, rows[1..][k])
          && forall j | 0 <= j < k :: !RowMatches(t, operand, rows[1..][j]);
        assert rows[k + 1] == found.value;
        assert forall j | 0 < j < k + 1 :: rows[j] == rows[1..][j - 1];
      } else {
        assert rows == [rows[0]] + rows[1..];
      }
    }
  }

  lemma {:induction false} FirstMatchConcat(t: Table, operand: string, a: seq<Record>, b: seq<Record>)
    ensures FirstMatch(t, operand, a + b) ==
            if FirstMatch(t, operand, a).Some? then FirstMatch(t, operand, a) else FirstMatch(t, operand, b)
  {
    if a == [] {
      assert a + b == b;
    } else {
      assert (a + b)[1..] == a[1..] + b;
      FirstMatchConcat(t, operand, a[1..], b);
    }
  }

  // A line that does not match can be skipped.
  lemma FindSkips(t: Table, operand: string, lines: seq<string>)
    requires lines != [] && !LineMatches(t, operand, lines[0])
    ensures FirstMatch(t, operand, Rows(t, lines)) == FirstMatch(t, operand, Rows(t, lines[1..]))
  {
    var p := t.codec.parse(lines[0]);
    if p.Object? {
      assert Rows(t, lines)[1..] == Rows(t, lines[1..]);
    } else {
      assert Rows(t, lines) == Rows(t, lines[1..]);
    }
  }

  lemma {:induction false} FindAfterDelete(t: Table, operand: string, rows: seq<Record>)
    ensures FirstMatch(t, operand, RewriteRows(t, operand, Delete, rows)) == None
  {
    if rows != [] {
      FindAfterDelete(t, operand, rows[1..]);
      if !RowMatches(t, operand, rows[0]) {
        assert RewriteRows(t, operand, Delete, rows)[1..] == RewriteRows(t, operand, Delete, rows[1..]);
      } else {
        assert RewriteRows(t, operand, Delete, rows) == RewriteRows(t, operand, Delete, rows[1..]);
      }
    }
  }

  /**
   After a patch the lookup finds the first matching row with the body merged in, unless the
   body moves the key column off the operand; then it finds nothing.
   */
  lemma {:induction false} FindAfterPatch(t: Table, operand: string, body: Record, rows: seq<Record>)
    ensures var was := FirstMatch(t, operand, rows);
            FirstMatch(t, operand, RewriteRows(t, operand, Patch(body), rows)) ==
            if was.Some? && (t.pk in body ==> CellMatches(t.boolean, operand, Some(body[t.pk])))
            then Some(was.value + body) else None
  {
    if rows != [] {
      FindAfterPatch(t, operand, body, rows[1..]);
      assert RewriteRows(t, operand, Patch(body), rows)[1..] == RewriteRows(t, operand, Patch(body), rows[1..]);
    }
  }

  // ---------------------------------------------------------------------------
  // The store
  // ---------------------------------------------------------------------------

  class TableFiles {
    const table: Table
    var files: seq<string>
    var detached: string

    constructor (table: Table, files: seq<string>)
      ensures this.table == table && this.files == files && detached == ""
    {
      this.table := table;
      this.files := files;
      this.detached := "";
    }

    function State(): Disk
      reads this
    {
      Disk(files, detached)
    }

    method AppendRowsToTable(rows: seq<Record>) returns (inserted: nat)
      modifies this
      ensures State() == Exec(table, old(State()), Append(rows))
      ensures inserted == |rows|
    {
      var text := AppendedText(table, rows);
      if files != [] {
        var n := |files| - 1;
        files := files[n := files[n] + text];
      } else if DerivedResolves(table) {
        files := [text];
      } else {
        detached := detached + text;
      }
      inserted := |rows|;
    }

    // One file's share of a PATCH or DELETE.
    method RewriteFile(text: string, operand: string, m: Mutation) returns (rewritten: string, mutated: nat)
      ensures rewritten == RewriteText(table, operand, m, text)
      ensures mutated == CountMatching(table, operand, Lines(text))
    {
      var parts := Split(text);
      var out: seq<string> := [];
      mutated := 0;
      ghost var lines := Lines(text);
      ghost var rest := lines;
      for i := 0 to |parts|
        invariant rest == NonBlank(parts[i..])
        invariant out + RewriteLines(table, operand, m, rest) == RewriteLines(table, operand, m, lines)
        invariant mutated + CountMatching(table, operand, rest) == CountMatching(table, operand, lines)
      {
        var line := parts[i];
        assert parts[i..][1..] == parts[i + 1..];
        if Blank(line) {
          continue;
        }
        assert rest[1..] == NonBlank(parts[i + 1..]);
        rest := rest[1..];
        Assoc(out, RewriteLine(table, operand, m, line), RewriteLines(table, operand, m, rest));
        var parsed := table.codec.parse(line);
        if !parsed.Object? || !RowMatches(table, operand, parsed.row) {
          out := out + [line];
          continue;
        }
        if m.Patch? {
          out := out + [table.codec.stringify(parsed.row + m.body)];
        } else {
          assert out + [] == out;
        }
        mutated := mutated + 1;
      }
      assert out + [] == out;
      if out != [] { JoinUnlines(out); }
      rewritten := if |out| > 0 then Join(out) + "\n" else "";
    }

    method RewriteWithPredicate(operand: string, m: Mutation) returns (mutated: nat)
      requires Lawful(table.codec)
      modifies this
      ensures State() == Exec(table, old(State()), Mutate(operand, m))
      ensures mutated == CountRows(table, operand, View(table, old(State())))
    {
      mutated := 0;
      ghost var before := files;
      for i := 0 to |files|
        invariant |files| == |before| && detached == old(detached)
        invariant forall k | 0 <= k < i :: files[k] == RewriteText(table, operand, m, before[k])
        invariant forall k | i <= k < |files| :: files[k] == before[k]
        invariant mutated + CountMatching(table, operand, AllLines(before[i..])) ==
                  CountMatching(table, operand, AllLines(before))
      {
        var rewritten, n := RewriteFile(files[i], operand, m);
        assert before[i..][1..] == before[i + 1..];
        CountFirstFile(table, operand, before[i..]);
        files := files[i := rewritten];
        mutated := mutated + n;
      }
      MutateCount(table, old(State()), operand, m);
    }

    method PatchRowsByPk(operand: string, body: Record) returns (mutated: nat)
      requires Lawful(table.codec)
      modifies this
      ensures State() == Exec(table, old(State()), Mutate(operand, Patch(body)))
      ensures mutated == CountRows(table, operand, View(table, old(State())))
    {
      mutated := RewriteWithPredicate(operand, Patch(body));
    }

    method DeleteRowsByPk(operand: string) returns (mutated: nat)
      requires Lawful(table.codec)
      modifies this
      ensures State() == Exec(table, old(State()), Mutate(operand, Delete))
      ensures mutated == CountRows(table, operand, View(table, old(State())))
      ensures Lawful(table.codec) && Usable(table, old(State())) ==>
                |View(table, State())| + mutated == |View(table, old(State()))|
    {
      ghost var before := State();
      mutated := RewriteWithPredicate(operand, Delete);
      if Usable(table, before) {
        ExecRefines(table, before, Mutate(operand, Delete));
        DeleteCount(table, operand, View(table, before));
      }
    }

    // One file's share of a lookup.
    method FindInFile(text: string, operand: string) returns (found: Option<Record>)
      ensures found == FirstMatch(table, operand, Rows(table, Lines(text)))
    {
      var parts := Split(text);
      ghost var rest := Lines(text);
      for k := 0 to |parts|
        invariant rest == NonBlank(parts[k..])
        invariant FirstMatch(table, operand, Rows(table, Lines(text))) == FirstMatch(table, operand, Rows(table, rest))
      {
        var line := parts[k];
        assert parts[k..][1..] == parts[k + 1..];
        if Blank(line) {
          continue;
        }
        var parsed := table.codec.parse(line);
        if parsed.Object? && RowMatches(table, operand, parsed.row) {
          return Some(parsed.row);
        }
        FindSkips(table, operand, rest);
        assert rest[1..] == NonBlank(parts[k + 1..]);
        rest := rest[1..];
      }
      found := None;
    }

    method FindRowByPk(operand: string) returns (found: Option<Record>)
      ensures found == FirstMatch(table, operand, View(table, State()))
    {
      for i := 0 to |files|
        invariant FirstMatch(table, operand, View(table, State())) ==
                  FirstMatch(table, operand, Rows(table, AllLines(files[i..])))
      {
        found := FindInFile(files[i], operand);
        assert files[i..][1..] == files[i + 1..];
        RowsConcat(table, Lines(files[i]), AllLines(files[i + 1..]));
        FirstMatchConcat(table, operand, Rows(table, Lines(files[i])), Rows(table, AllLines(files[i + 1..])));
        if found.Some? {
          return;
        }
      }
      found := None;
    }
  }

  lemma CountFirstFile(t: Table, operand: string, files: seq<string>)
    requires files != []
    ensures CountMatching(t, operand, AllLines(files)) ==
            CountMatching(t, operand, Lines(files[0])) + CountMatching(t, operand, AllLines(files[1..]))
  {
    RewriteConcat(t, operand, Delete, Lines(files[0]), AllLines(files[1..]));
  }

  lemma MutateCount(t: Table, d: Disk, operand: string, m: Mutation)
    requires Lawful(t.codec)
    ensures CountMatching(t, operand, AllLines(d.files)) == CountRows(t, operand, View(t, d))
  {
    RewriteRefines(t, operand, m, AllLines(d.files));
  }

  lemma {:induction false} DeleteCount(t: Table, operand: string, rows: seq<Record>)
    ensures |RewriteRows(t, operand, Delete, rows)| + CountRows(t, operand, rows) == |rows|
  {
    if rows != [] {
      DeleteCount(t, operand, rows[1..]);
    }
  }
}
