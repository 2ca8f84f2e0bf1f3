/**
 The content-addressed vector cache: a binary entry format, a lookup that falls back to
 legacy JSON entries, and an in-place migration of those.

 The JSON codecs, the hash and the conversion to 32-bit floats are functions about which only
 the laws in `Lawful` are used.
 */
module EmbeddingCache {
  import opened Base

  type Byte = b: int | 0 <= b < 256

  const MAGIC: nat := 0x44424633
  const WORD: nat := 0x1_0000_0000

  datatype Num = Finite(x: real) | PositiveInfinity | NegativeInfinity | NaN

  // A JSON field: absent (or null), an integer, or anything else.
  datatype Dim = NoDim | Int(n: int) | NotInt

  datatype Header = Header(modelId: Option<string>, contentHash: Option<string>, dimensions: Dim, createdAt: Option<string>)

  datatype Legacy = Legacy(modelId: Option<string>, contentHash: Option<string>, dimensions: Dim, createdAt: Option<string>, vector: seq<Num>)

  datatype Codec = Codec(
    stringify: Header -> seq<Byte>,
    parse: seq<Byte> -> Option<Header>,
    parseLegacy: seq<Byte> -> Option<Legacy>,
    toWord: Num -> nat,
    fromWord: nat -> Num,
    sha: string -> string)

  /**
   Headers survive the JSON codec; the float codec yields 32-bit words and encodes a decoded
   word as itself; the hash is injective.
   */
  ghost predicate Lawful(c: Codec) {
    && (forall h :: c.parse(c.stringify(h)) == Some(h))
    && FloatsLawful(c)
    && (forall s, t :: c.sha(s) == c.sha(t) ==> s == t)
  }

  ghost predicate FloatsLawful(c: Codec) {
    forall x :: c.toWord(x) < WORD && c.toWord(c.fromWord(c.toWord(x))) == c.toWord(x)
  }

  // The header's length can be written in the length field.
  predicate Fits(c: Codec, h: Header) {
    |c.stringify(h)| < WORD
  }

  function Round(c: Codec, x: Num): Num {
    c.fromWord(c.toWord(x))
  }

  function RoundAll(c: Codec, v: seq<Num>): seq<Num> {
    seq(|v|, i requires 0 <= i < |v| => Round(c, v[i]))
  }

  // ---------------------------------------------------------------------------
  // The binary format
  // ---------------------------------------------------------------------------

  // writeUInt32LE
  function Le(n: nat): (b: seq<Byte>)
    requires n < WORD
    ensures |b| == 4
  {
    [n % 256, n / 256 % 256, n / 65536 % 256, n / 16777216]
  }

  // readUInt32LE
  function WordAt(b: seq<Byte>, i: nat): nat
    requires i + 4 <= |b|
  {
    (b[i] as int) + 256 * (b[i + 1] as int) + 65536 * (b[i + 2] as int) + 16777216 * (b[i + 3] as int)
  }

  lemma WordRoundTrip(n: nat)
    requires n < WORD
    ensures WordAt(Le(n), 0) == n
  {
    var a := n / 256;
    var b := a / 256;
    assert n == a * 256 + n % 256 && a == b * 256 + a % 256;
    assert b == n / 65536 && b / 256 == n / 16777216;
    assert b == b / 256 * 256 + b % 256;
  }

  function FloatBytes(c: Codec, v: seq<Num>): (b: seq<Byte>)
    requires forall x :: c.toWord(x) < WORD
    ensures |b| == 4 * |v|
  {
    if v == [] then [] else FloatBytes(c, v[..|v| - 1]) + Le(c.toWord(v[|v| - 1]))
  }

  function Encode(c: Codec, h: Header, v: seq<Num>): seq<Byte>
    requires forall x :: c.toWord(x) < WORD
    requires Fits(c, h)
  {
    Le(MAGIC) + Le(|c.stringify(h)|) + c.stringify(h) + FloatBytes(c, v)
  }

  // The header of an entry long enough to hold one.
  function HeaderOf(c: Codec, b: seq<Byte>): Option<Header> {
    if |b| < 8 || WordAt(b, 0) != MAGIC || 8 + WordAt(b, 4) + 4 > |b| then None
    else c.parse(b[8..8 + WordAt(b, 4)])
  }

  function ReadBin(c: Codec, b: seq<Byte>): Option<seq<Num>> {
    var header := HeaderOf(c, b);
    if header.None? then None
    else
      var start, d := 8 + WordAt(b, 4), header.value.dimensions;
      if !d.Int? || d.n <= 0 || start + d.n * 4 != |b| then None
      else Some(seq(d.n, i requires 0 <= i < d.n => c.fromWord(WordAt(b, start + i * 4))))
  }

  method WriteWord(buf: array<Byte>, value: nat, at: nat)
    requires at + 4 <= buf.Length && value < WORD
    modifies buf
    ensures buf[..at + 4] == old(buf[..at]) + Le(value)
  {
    buf[at] := value % 256;
    buf[at + 1] := value / 256 % 256;
    buf[at + 2] := value / 65536 % 256;
    buf[at + 3] := value / 16777216;
  }

  method CopyInto(buf: array<Byte>, src: seq<Byte>, at: nat)
    requires at + |src| <= buf.Length
    modifies buf
    ensures buf[..at + |src|] == old(buf[..at]) + src
  {
    for i := 0 to |src|
      invariant buf[..at] == old(buf[..at])
      invariant buf[at..at + i] == src[..i]
    {
      buf[at + i] := src[i];
    }
    assert buf[..at + |src|] == buf[..at] + buf[at..at + |src|];
  }

  method WriteFloats(c: Codec, buf: array<Byte>, v: seq<Num>, at: nat)
    requires forall x :: c.toWord(x) < WORD
    requires at + 4 * |v| <= buf.Length
    modifies buf
    ensures buf[..at + 4 * |v|] == old(buf[..at]) + FloatBytes(c, v)
  {
    ghost var head := buf[..at];
    for i := 0 to |v|
      invariant buf[..at + i * 4] == head + FloatBytes(c, v[..i])
    {
      assert v[..i + 1][..i] == v[..i];
      WriteWord(buf, c.toWord(v[i]), at + i * 4);
      Assoc(head, FloatBytes(c, v[..i]), Le(c.toWord(v[i])));
    }
    assert v[..|v|] == v;
  }

  method EncodeEntry(c: Codec, h: Header, v: seq<Num>) returns (entry: seq<Byte>)
    requires forall x :: c.toWord(x) < WORD
    requires Fits(c, h)
    ensures entry == Encode(c, h, v)
  {
    var headerBuf := c.stringify(h);
    var buf := new Byte[8 + |headerBuf| + |v| * 4](_ => 0);
    WriteWord(buf, MAGIC, 0);
    assert buf[..4] == Le(MAGIC);
    WriteWord(buf, |headerBuf|, 4);
    CopyInto(buf, headerBuf, 8);
    WriteFloats(c, buf, v, 8 + |headerBuf|);
    entry := buf[..];
  }

  lemma Assoc(x: seq<Byte>, y: seq<Byte>, z: seq<Byte>)
    ensures x + y + z == x + (y + z)
  {
  }

  method DecodeEntry(c: Codec, b: seq<Byte>) returns (v: Option<seq<Num>>)
    ensures v == ReadBin(c, b)
  {
    if |b| < 8 {
      return None;
    }
    if WordAt(b, 0) != MAGIC {
      return None;
    }
    var headerLen := WordAt(b, 4);
    if 8 + headerLen + 4 > |b| {
      return None;
    }
    var header := c.parse(b[8..8 + headerLen]);
    if header.None? {
      return None;
    }
    var d := header.value.dimensions;
    if !d.Int? || d.n <= 0 || 8 + headerLen + d.n * 4 != |b| {
      return None;
    }
    var out := new Num[d.n](_ => NaN);
    for i := 0 to d.n
      invariant forall k | 0 <= k < i :: out[k] == c.fromWord(WordAt(b, 8 + headerLen + k * 4))
    {
      out[i] := c.fromWord(WordAt(b, 8 + headerLen + i * 4));
    }
    assert out[..] == ReadBin(c, b).value;
    v := Some(out[..]);
  }

  // ---------------------------------------------------------------------------
  // Round trip and rejection
  // ---------------------------------------------------------------------------

  lemma WordShift(a: seq<Byte>, b: seq<Byte>, i: nat)
    requires i + 4 <= |b|
    ensures WordAt(a + b, |a| + i) == WordAt(b, i)
  {
    assert (a + b)[|a| + i] == b[i] && (a + b)[|a| + i + 1] == b[i + 1];
    assert (a + b)[|a| + i + 2] == b[i + 2] && (a + b)[|a| + i + 3] == b[i + 3];
  }

  lemma {:induction false} FloatAt(c: Codec, v: seq<Num>, i: nat)
    requires forall x :: c.toWord(x) < WORD
    requires i < |v|
    ensures WordAt(FloatBytes(c, v), i * 4) == c.toWord(v[i])
  {
    var n := |v| - 1;
    var front, last := FloatBytes(c, v[..n]), Le(c.toWord(v[n]));
    if i == n {
      WordRoundTrip(c.toWord(v[n]));
      WordShift(front, last, 0);
    } else {
      FloatAt(c, v[..n], i);
    }
  }

  lemma EncodeParts(c: Codec, h: Header, v: seq<Num>)
    requires Lawful(c) && Fits(c, h)
    ensures var b, start := Encode(c, h, v), 8 + |c.stringify(h)|;
            && |b| == start + 4 * |v|
            && WordAt(b, 0) == MAGIC && 8 + WordAt(b, 4) == start
            && b[8..start] == c.stringify(h) && b[start..] == FloatBytes(c, v)
  {
    WordRoundTrip(MAGIC);
    WordRoundTrip(|c.stringify(h)|);
  }

  /**
   What is written reads back rounded to 32-bit floats, exactly when the vector is not empty
   and the header records its length. The header reads back as written.
   */
  lemma EncodeReads(c: Codec, h: Header, v: seq<Num>)
    requires Lawful(c) && Fits(c, h)
    ensures ReadBin(c, Encode(c, h, v)) ==
            if v != [] && h.dimensions == Int(|v|) then Some(RoundAll(c, v)) else None
    ensures v != [] ==> HeaderOf(c, Encode(c, h, v)) == Some(h)
  {
    var b, start := Encode(c, h, v), 8 + |c.stringify(h)|;
    EncodeParts(c, h, v);
    if v != [] && h.dimensions == Int(|v|) {
      forall i | 0 <= i < |v| ensures c.fromWord(WordAt(b, start + i * 4)) == Round(c, v[i]) {
        FloatAt(c, v, i);
        assert b == b[..start] + b[start..];
        WordShift(b[..start], b[start..], i * 4);
      }
      assert ReadBin(c, b).value == RoundAll(c, v);
    }
  }

  /**
   The bytes of an entry: the magic, the header's length and each float in little-endian order,
   the header between them.
   */
  lemma EntryLayout(c: Codec, h: Header, v: seq<Num>)
    requires Lawful(c) && Fits(c, h)
    ensures var b, n := Encode(c, h, v), |c.stringify(h)|;
            && |b| == 8 + n + 4 * |v|
            && b[0] == 0x33 && b[1] == 0x46 && b[2] == 0x42 && b[3] == 0x44
            && n == b[4] as int + 0x100 * b[5] as int + 0x1_0000 * b[6] as int + 0x100_0000 * b[7] as int
            && b[8..8 + n] == c.stringify(h)
    ensures forall i | 0 <= i < |v| ::
              var b, k := Encode(c, h, v), 8 + |c.stringify(h)| + i * 4;
              c.toWord(v[i]) == b[k] as int + 0x100 * b[k + 1] as int + 0x1_0000 * b[k + 2] as int + 0x100_0000 * b[k + 3] as int
  {
    var b, start := Encode(c, h, v), 8 + |c.stringify(h)|;
    EncodeParts(c, h, v);
    assert b[..4] == Le(MAGIC) by { LayoutStart(c, h, v); }
    assert b[0] == b[..4][0] && b[1] == b[..4][1] && b[2] == b[..4][2] && b[3] == b[..4][3];
    forall i | 0 <= i < |v| ensures WordAt(b, start + i * 4) == c.toWord(v[i]) {
      FloatAt(c, v, i);
      assert b == b[..start] + b[start..];
      WordShift(b[..start], b[start..], i * 4);
    }
  }

  lemma LayoutStart(c: Codec, h: Header, v: seq<Num>)
    requires Lawful(c) && Fits(c, h)
    ensures Encode(c, h, v)[..4] == Le(MAGIC)
  {
  }

  /** What the reader accepts, byte by byte: nothing without the magic, nothing of another length. */
  lemma AcceptsIff(c: Codec, b: seq<Byte>)
    ensures ReadBin(c, b).Some? <==>
              && |b| >= 8 && b[0] == 0x33 && b[1] == 0x46 && b[2] == 0x42 && b[3] == 0x44
              && var n := b[4] as int + 0x100 * b[5] as int + 0x1_0000 * b[6] as int + 0x100_0000 * b[7] as int;
              && 8 + n <= |b| && c.parse(b[8..8 + n]).Some?
              && exists d :: d > 0 && c.parse(b[8..8 + n]).value.dimensions == Int(d) && |b| == 8 + n + 4 * d
  {
    if |b| >= 8 {
      MagicBytes(b);
      var n := WordAt(b, 4);
      if 8 + n <= |b| && c.parse(b[8..8 + n]).Some? {
        var dim := c.parse(b[8..8 + n]).value.dimensions;
        assert dim.Int? ==> dim == Int(dim.n);
      }
    }
  }

  lemma MagicBytes(b: seq<Byte>)
    requires |b| >= 4
    ensures WordAt(b, 0) == MAGIC <==> b[0] == 0x33 && b[1] == 0x46 && b[2] == 0x42 && b[3] == 0x44
  {
  }

  /** Truncated or extended, an entry is rejected. */
  lemma ResizedIsRejected(c: Codec, a: seq<Byte>, b: seq<Byte>)
    requires a < b
    ensures ReadBin(c, a).None? || ReadBin(c, b).None?
  {
    if |a| >= 8 {
      assert WordAt(a, 0) == WordAt(b, 0) && WordAt(a, 4) == WordAt(b, 4);
      var start := 8 + WordAt(a, 4);
      if start <= |a| { assert a[8..start] == b[8..start]; }
    }
  }

  // ---------------------------------------------------------------------------
  // Paths
  // ---------------------------------------------------------------------------

  datatype Ext = Bin | Json | OtherExt(name: string)

  datatype Path = Path(dir: seq<string>, base: string, ext: Ext)

  type Files = map<Path, seq<Byte>>

  function BinOf(p: Path): Path {
    p.(ext := Bin)
  }

  function JsonOf(p: Path): Path {
    p.(ext := Json)
  }

  predicate PathSafe(c: char) {
    'a' <= c <= 'z' || 'A' <= c <= 'Z' || '0' <= c <= '9' || c == '.' || c == '_' || c == '-'
  }

  function Sanitize(modelId: string): string {
    seq(|modelId|, i requires 0 <= i < |modelId| => if PathSafe(modelId[i]) then modelId[i] else '_')
  }

  function EntryKey(c: Codec, modelId: string, contentHash: string): string {
    c.sha(modelId + "\0" + contentHash)
  }

  function EntryPath(c: Codec, modelId: string, contentHash: string, ext: Ext): Path {
    var key := EntryKey(c, modelId, contentHash);
    Path([Sanitize(modelId), if |key| >= 2 then key[..2] else key], key, ext)
  }

  lemma LastZero(m: string, h: string)
    requires '\0' !in h
    ensures (m + "\0" + h)[|m|] == '\0'
    ensures forall i | |m| < i < |m + "\0" + h| :: (m + "\0" + h)[i] != '\0'
  {
    assert forall i | |m| < i < |m + "\0" + h| :: (m + "\0" + h)[i] == h[i - |m| - 1];
  }

  // Content hashes contain no zero character, so the key text determines its parts.
  lemma KeyTextInjective(m: string, h: string, m': string, h': string)
    requires '\0' !in h && '\0' !in h'
    requires m + "\0" + h == m' + "\0" + h'
    ensures m == m' && h == h'
  {
    var t := m + "\0" + h;
    LastZero(m, h);
    LastZero(m', h');
    assert m == t[..|m|] && m' == t[..|m'|];
    assert h == t[|m| + 1..] && h' == t[|m'| + 1..];
  }

  lemma EntryPathInjective(c: Codec, m: string, h: string, e: Ext, m': string, h': string, e': Ext)
    requires Lawful(c) && '\0' !in h && '\0' !in h'
    requires EntryPath(c, m, h, e) == EntryPath(c, m', h', e')
    ensures m == m' && h == h' && e == e'
  {
    KeyTextInjective(m, h, m', h');
  }

  // ---------------------------------------------------------------------------
  // Lookup
  // ---------------------------------------------------------------------------

  function ReadLegacy(c: Codec, b: seq<Byte>): Option<Legacy> {
    var entry := c.parseLegacy(b);
    if entry.Some? && entry.value.vector != [] then entry else None
  }

  function BinVector(c: Codec, files: Files, p: Path): Option<seq<Num>> {
    if p in files then ReadBin(c, files[p]) else None
  }

  function LegacyVector(c: Codec, files: Files, p: Path): Option<seq<Num>> {
    if p in files && ReadLegacy(c, files[p]).Some? then Some(ReadLegacy(c, files[p]).value.vector) else None
  }

  // The vector of the entry at a path without extension: binary first, then legacy.
  function Lookup(c: Codec, files: Files, p: Path): Option<seq<Num>> {
    var bin := BinVector(c, files, BinOf(p));
    if bin.Some? then bin else LegacyVector(c, files, JsonOf(p))
  }

  function Get(c: Codec, files: Files, modelId: string, contentHash: string): Option<seq<Num>> {
    Lookup(c, files, EntryPath(c, modelId, contentHash, Bin))
  }

  /** A legacy entry with a vector is found whenever no readable binary entry precedes it. */
  lemma LegacyFound(c: Codec, files: Files, m: string, h: string)
    ensures var key := c.sha(m + "\0" + h);
            var p := EntryPath(c, m, h, Json);
            && p.base == key && EntryPath(c, m, h, Bin) == p.(ext := Bin)
            && (|key| >= 2 ==> |p.dir| == 2 && p.dir[1] == key[..2] && |p.dir[0]| == |m|)
            && (BinVector(c, files, p.(ext := Bin)).None? ==>
                  Get(c, files, m, h) ==
                  if p in files && c.parseLegacy(files[p]).Some? && c.parseLegacy(files[p]).value.vector != []
                  then Some(c.parseLegacy(files[p]).value.vector) else None)
  {
  }

  // Model names are kept but for characters that are unsafe in a path.
  lemma SanitizeAt(c: Codec, m: string, h: string, i: nat)
    requires i < |m|
    ensures var dir := EntryPath(c, m, h, Bin).dir[0];
            |dir| == |m| && dir[i] ==
            if 'a' <= m[i] <= 'z' || 'A' <= m[i] <= 'Z' || '0' <= m[i] <= '9' || m[i] in "._-" then m[i] else '_'
  {
  }

  // ---------------------------------------------------------------------------
  // Storing
  // ---------------------------------------------------------------------------

  function SetHeader(modelId: string, contentHash: string, createdAt: string, v: seq<Num>): Header {
    Header(Some(modelId), Some(contentHash), Int(|v|), Some(createdAt))
  }

  function SetFiles(c: Codec, files: Files, modelId: string, contentHash: string, createdAt: string, v: seq<Num>): Files
    requires Lawful(c) && Fits(c, SetHeader(modelId, contentHash, createdAt, v))
  {
    files[EntryPath(c, modelId, contentHash, Bin) := Encode(c, SetHeader(modelId, contentHash, createdAt, v), v)]
  }

  /** What an entry's header says. */
  ghost predicate Records(c: Codec, b: seq<Byte>, modelId: Option<string>, contentHash: Option<string>, createdAt: Option<string>) {
    var h := HeaderOf(c, b);
    h.Some? && h.value.modelId == modelId && h.value.contentHash == contentHash && h.value.createdAt == createdAt
  }

  /**
   A stored vector is found, rounded, under its names; an empty one is not, and leaves the
   legacy entry to be found instead. No other lookup changes.
   */
  lemma SetThenGet(c: Codec, files: Files, m: string, h: string, createdAt: string, v: seq<Num>, m': string, h': string)
    requires Lawful(c) && Fits(c, SetHeader(m, h, createdAt, v)) && '\0' !in h && '\0' !in h'
    ensures var after, p := SetFiles(c, files, m, h, createdAt, v), EntryPath(c, m, h, Bin);
            && Get(c, after, m, h) == (if v != [] then Some(RoundAll(c, v)) else LegacyVector(c, files, JsonOf(p)))
            && (v != [] ==> Records(c, after[p], Some(m), Some(h), Some(createdAt)))
            && ((m', h') != (m, h) ==> Get(c, after, m', h') == Get(c, files, m', h'))
  {
    EncodeReads(c, SetHeader(m, h, createdAt, v), v);
    SetKeepsOthers(c, files, m, h, createdAt, v, m', h');
  }

  lemma SetKeepsOthers(c: Codec, files: Files, m: string, h: string, createdAt: string, v: seq<Num>, m': string, h': string)
    requires Lawful(c) && Fits(c, SetHeader(m, h, createdAt, v)) && '\0' !in h && '\0' !in h'
    ensures (m', h') != (m, h) ==> Get(c, SetFiles(c, files, m, h, createdAt, v), m', h') == Get(c, files, m', h')
  {
    if EntryPath(c, m, h, Bin) == EntryPath(c, m', h', Bin) {
      EntryPathInjective(c, m, h, Bin, m', h', Bin);
    }
  }

  // ---------------------------------------------------------------------------
  // Migration
  // ---------------------------------------------------------------------------

  function MigratedHeader(entry: Legacy): Header {
    Header(entry.modelId, entry.contentHash,
           if entry.dimensions.NoDim? then Int(|entry.vector|) else entry.dimensions, entry.createdAt)
  }

  // The legacy file at p is rewritten (and not skipped).
  predicate Converts(c: Codec, legacyOnly: bool, files: Files, p: Path) {
    && p.ext.Json? && p in files && ReadLegacy(c, files[p]).Some?
    && Fits(c, MigratedHeader(ReadLegacy(c, files[p]).value))
    && (legacyOnly ==> BinOf(p) !in files)
  }

  function MigratedEntry(c: Codec, files: Files, p: Path): seq<Byte>
    requires Lawful(c) && p in files && ReadLegacy(c, files[p]).Some?
    requires Fits(c, MigratedHeader(ReadLegacy(c, files[p]).value))
  {
    var entry := ReadLegacy(c, files[p]).value;
    Encode(c, MigratedHeader(entry), entry.vector)
  }

  function At(files: Files, p: Path): Option<seq<Byte>> {
    if p in files then Some(files[p]) else None
  }

  // The file at q once the legacy paths in `done` have been visited.
  function MigratedAt(c: Codec, legacyOnly: bool, files: Files, done: set<Path>, q: Path): Option<seq<Byte>>
    requires Lawful(c)
  {
    if q in done && Converts(c, legacyOnly, files, q) then None
    else if q.ext.Bin? && JsonOf(q) in done && Converts(c, legacyOnly, files, JsonOf(q)) then
      Some(MigratedEntry(c, files, JsonOf(q)))
    else At(files, q)
  }

  ghost predicate IsMigrated(c: Codec, legacyOnly: bool, files: Files, done: set<Path>, after: Files)
    requires Lawful(c)
  {
    forall q: Path :: At(after, q) == MigratedAt(c, legacyOnly, files, done, q)
  }

  function Converting(c: Codec, legacyOnly: bool, files: Files, paths: set<Path>): set<Path> {
    set p | p in paths && Converts(c, legacyOnly, files, p)
  }

  function JsonPaths(files: Files): set<Path> {
    set p | p in files && p.ext.Json?
  }

  // One file converted in place.
  function ConvertFile(c: Codec, legacyOnly: bool, files: Files, p: Path): Files
    requires Lawful(c)
  {
    if Converts(c, legacyOnly, files, p) then files[BinOf(p) := MigratedEntry(c, files, p)] - {p} else files
  }

  // An unvisited legacy file still looks as it did before the run.
  lemma Unvisited(c: Codec, legacyOnly: bool, files: Files, done: set<Path>, now: Files, p: Path)
    requires Lawful(c) && IsMigrated(c, legacyOnly, files, done, now)
    requires p in JsonPaths(files) - done
    ensures p in now && now[p] == files[p]
    ensures Converts(c, legacyOnly, now, p) == Converts(c, legacyOnly, files, p)
  {
    assert At(now, p) == At(files, p);
    assert JsonOf(BinOf(p)) == p;
    assert At(now, BinOf(p)) == At(files, BinOf(p));
  }

  lemma MigrateStep(c: Codec, legacyOnly: bool, files: Files, done: set<Path>, now: Files, p: Path)
    requires Lawful(c) && IsMigrated(c, legacyOnly, files, done, now)
    requires p in JsonPaths(files) - done
    ensures IsMigrated(c, legacyOnly, files, done + {p}, ConvertFile(c, legacyOnly, now, p))
  {
    Unvisited(c, legacyOnly, files, done, now, p);
    var next := ConvertFile(c, legacyOnly, now, p);
    forall q: Path ensures At(next, q) == MigratedAt(c, legacyOnly, files, done + {p}, q) {
      assert At(now, q) == MigratedAt(c, legacyOnly, files, done, q);
      assert q.ext.Bin? && JsonOf(q) == p ==> q == BinOf(p);
    }
  }

  lemma JsonPathsAre(files: Files)
    ensures JsonPaths(files) == set p | p in files && p.ext == Json
  {
  }

  lemma VisitCount(c: Codec, legacyOnly: bool, files: Files, done: set<Path>, p: Path)
    requires p !in done
    ensures |Converting(c, legacyOnly, files, done + {p})| ==
            |Converting(c, legacyOnly, files, done)| + if Converts(c, legacyOnly, files, p) then 1 else 0
  {
    var before := Converting(c, legacyOnly, files, done);
    assert Converting(c, legacyOnly, files, done + {p}) ==
           if Converts(c, legacyOnly, files, p) then before + {p} else before;
  }

  class Cache {
    const codec: Codec
    var files: Files

    constructor (codec: Codec, files: Files)
      ensures this.codec == codec && this.files == files
    {
      this.codec := codec;
      this.files := files;
    }

    // Fails, before any write, when the header is too long for its length field.
    method Set(modelId: string, contentHash: string, createdAt: string, v: seq<Num>) returns (ok: bool)
      requires Lawful(codec)
      modifies this
      ensures ok == Fits(codec, SetHeader(modelId, contentHash, createdAt, v))
      ensures files == if ok then SetFiles(codec, old(files), modelId, contentHash, createdAt, v) else old(files)
    {
      var h := SetHeader(modelId, contentHash, createdAt, v);
      ok := |codec.stringify(h)| < WORD;
      if ok {
        var entry := EncodeEntry(codec, h, v);
        files := files[EntryPath(codec, modelId, contentHash, Bin) := entry];
      }
    }

    method GetVector(modelId: string, contentHash: string) returns (v: Option<seq<Num>>)
      ensures v == Get(codec, files, modelId, contentHash)
    {
      var p := EntryPath(codec, modelId, contentHash, Bin);
      if p in files {
        v := DecodeEntry(codec, files[p]);
        if v.Some? {
          return;
        }
      }
      v := LegacyVector(codec, files, JsonOf(p));
    }

    // The body of the directory walk for one legacy file.
    method MigrateFile(legacyOnly: bool, full: Path) returns (converted: bool)
      requires Lawful(codec) && full in files && full.ext.Json?
      modifies this
      ensures files == ConvertFile(codec, legacyOnly, old(files), full)
      ensures converted == Converts(codec, legacyOnly, old(files), full)
    {
      var entry := ReadLegacy(codec, files[full]);
      if entry.None? {
        return false;
      }
      if legacyOnly && BinOf(full) in files {
        return false;
      }
      var h := MigratedHeader(entry.value);
      if |codec.stringify(h)| >= WORD {
        return false;
      }
      var bin := EncodeEntry(codec, h, entry.value.vector);
      files := files[BinOf(full) := bin] - {full};
      converted := true;
    }

    method Migrate(legacyOnly: bool) returns (converted: nat, skipped: nat)
      requires Lawful(codec)
      modifies this
      ensures IsMigrated(codec, legacyOnly, old(files), JsonPaths(old(files)), files)
      ensures converted == |Converting(codec, legacyOnly, old(files), JsonPaths(old(files)))|
      ensures converted + skipped == |set p | p in old(files) && p.ext == Json|
    {
      converted, skipped := 0, 0;
      ghost var before := files;
      var todo := JsonPaths(files);
      ghost var done: set<Path> := {};
      while todo != {}
        invariant done + todo == JsonPaths(before) && done !! todo
        invariant IsMigrated(codec, legacyOnly, before, done, files)
        invariant converted == |Converting(codec, legacyOnly, before, done)|
        invariant converted + skipped == |done|
        decreases todo
      {
        var full :| full in todo;
        Unvisited(codec, legacyOnly, before, done, files, full);
        MigrateStep(codec, legacyOnly, before, done, files, full);
        VisitCount(codec, legacyOnly, before, done, full);
        todo, done := todo - {full}, done + {full};
        var ok := MigrateFile(legacyOnly, full);
        if ok {
          converted := converted + 1;
        } else {
          skipped := skipped + 1;
        }
      }
      assert done == JsonPaths(before);
      JsonPathsAre(before);
    }
  }

  /**
   Which legacy files a run converts, and what becomes of every file: one whose text is an entry
   with a vector, whose header fits and, with `legacyOnly`, beside which there is no .bin, goes
   and leaves its .bin; every other file that is not such a .bin stays as it was.
   */
  lemma MigrateMoves(c: Codec, legacyOnly: bool, files: Files, after: Files, p: Path)
    requires Lawful(c) && IsMigrated(c, legacyOnly, files, JsonPaths(files), after)
    requires p in files && p.ext == Json
    ensures var e := c.parseLegacy(files[p]);
            if && e.Some? && e.value.vector != []
               && |c.stringify(Header(e.value.modelId, e.value.contentHash,
                                      if e.value.dimensions == NoDim then Int(|e.value.vector|) else e.value.dimensions,
                                      e.value.createdAt))| < 0x1_0000_0000
               && (legacyOnly ==> p.(ext := Bin) !in files)
            then p !in after && p.(ext := Bin) in after && p in Converting(c, legacyOnly, files, JsonPaths(files))
            else p in after && after[p] == files[p] && p !in Converting(c, legacyOnly, files, JsonPaths(files))
                 && (p.(ext := Bin) in after <==> p.(ext := Bin) in files)
                 && (p.(ext := Bin) in files ==> after[p.(ext := Bin)] == files[p.(ext := Bin)])
  {
    var bin := p.(ext := Bin);
    assert JsonOf(bin) == p;
    assert At(after, p) == MigratedAt(c, legacyOnly, files, JsonPaths(files), p);
    assert At(after, bin) == MigratedAt(c, legacyOnly, files, JsonPaths(files), bin);
  }

  // The files a run counts as converted.
  lemma ConvertingIs(c: Codec, legacyOnly: bool, files: Files)
    ensures Converting(c, legacyOnly, files, JsonPaths(files)) ==
            set p | p in files && p.ext == Json && c.parseLegacy(files[p]).Some? && c.parseLegacy(files[p]).value.vector != []
                    && |c.stringify(Header(c.parseLegacy(files[p]).value.modelId, c.parseLegacy(files[p]).value.contentHash,
                          if c.parseLegacy(files[p]).value.dimensions == NoDim then Int(|c.parseLegacy(files[p]).value.vector|)
                          else c.parseLegacy(files[p]).value.dimensions, c.parseLegacy(files[p]).value.createdAt))| < 0x1_0000_0000
                    && (legacyOnly ==> p.(ext := Bin) !in files)
  {
  }

  // Files that are neither legacy nor binary entries, and binary ones without a legacy file, stay.
  lemma MigrateLeaves(c: Codec, legacyOnly: bool, files: Files, after: Files, q: Path)
    requires Lawful(c) && IsMigrated(c, legacyOnly, files, JsonPaths(files), after)
    requires q.ext != Json && (q.ext == Bin ==> q.(ext := Json) !in files)
    ensures (q in after <==> q in files) && (q in files ==> after[q] == files[q])
  {
    assert At(after, q) == MigratedAt(c, legacyOnly, files, JsonPaths(files), q);
  }

  // The dimensions a legacy entry records, if any, are its vector's length.
  predicate DimensionsMatch(entry: Legacy) {
    entry.dimensions.NoDim? || entry.dimensions == Int(|entry.vector|)
  }

  ghost predicate SameRounded(c: Codec, a: Option<seq<Num>>, b: Option<seq<Num>>) {
    (a.Some? <==> b.Some?) && (a.Some? ==> RoundAll(c, a.value) == RoundAll(c, b.value))
  }

  // A readable binary entry that a conversion would overwrite holds the same vector.
  ghost predicate Overwritable(c: Codec, files: Files, bin: Path, entry: Legacy) {
    var v := BinVector(c, files, bin);
    v.Some? ==> RoundAll(c, v.value) == RoundAll(c, entry.vector)
  }

  /**
   Migration keeps every lookup, up to rounding, exactly for the entries it does not convert,
   or whose recorded dimensions are right and that overwrite no readable entry with another
   vector. With `legacyOnly` nothing is overwritten.
   */
  lemma MigrateKeepsIff(c: Codec, legacyOnly: bool, files: Files, after: Files, m: string, h: string)
    requires Lawful(c) && IsMigrated(c, legacyOnly, files, JsonPaths(files), after)
    ensures var p := EntryPath(c, m, h, Json);
            SameRounded(c, Get(c, files, m, h), Get(c, after, m, h)) <==>
              (Converts(c, legacyOnly, files, p) ==>
                var entry := ReadLegacy(c, files[p]).value;
                DimensionsMatch(entry) && Overwritable(c, files, BinOf(p), entry))
    ensures Converts(c, legacyOnly, files, EntryPath(c, m, h, Json)) ==>
              Get(c, files, m, h).Some? && (legacyOnly ==> BinVector(c, files, EntryPath(c, m, h, Bin)).None?)
  {
    var p, bin := EntryPath(c, m, h, Json), EntryPath(c, m, h, Bin);
    assert BinOf(p) == bin && JsonOf(bin) == p;
    assert At(after, p) == MigratedAt(c, legacyOnly, files, JsonPaths(files), p);
    assert At(after, bin) == MigratedAt(c, legacyOnly, files, JsonPaths(files), bin);
    if Converts(c, legacyOnly, files, p) {
      var entry := ReadLegacy(c, files[p]).value;
      EncodeReads(c, MigratedHeader(entry), entry.vector);
    }
  }

  /** A one-element legacy vector that records two dimensions is found before, not after. */
  lemma WrongDimensionsLose(c: Codec, b: seq<Byte>, after: Files, m: string, h: string, x: Num)
    requires Lawful(c) && c.parseLegacy(b) == Some(Legacy(Some(m), Some(h), Int(2), None, [x]))
    requires Fits(c, Header(Some(m), Some(h), Int(2), None))
    requires var files := map[EntryPath(c, m, h, Json) := b]; IsMigrated(c, true, files, JsonPaths(files), after)
    ensures Get(c, map[EntryPath(c, m, h, Json) := b], m, h) == Some([x]) && Get(c, after, m, h) == None
  {
    var p, bin := EntryPath(c, m, h, Json), EntryPath(c, m, h, Bin);
    var files := map[p := b];
    assert BinOf(p) == bin && JsonOf(bin) == p && Converts(c, true, files, p);
    assert At(after, p) == MigratedAt(c, true, files, JsonPaths(files), p) == None;
    assert At(after, bin) == MigratedAt(c, true, files, JsonPaths(files), bin) == Some(MigratedEntry(c, files, p));
    EncodeReads(c, Header(Some(m), Some(h), Int(2), None), [x]);
  }

  /** Without `legacyOnly` a readable entry gives way to a legacy one with another vector. */
  lemma MigrateOverwrites(c: Codec, b: seq<Byte>, files: Files, after: Files, m: string, h: string, x: Num, y: Num)
    requires Lawful(c) && c.parseLegacy(b) == Some(Legacy(Some(m), Some(h), NoDim, None, [x]))
    requires Fits(c, Header(Some(m), Some(h), Int(1), None))
    requires files == map[EntryPath(c, m, h, Json) := b,
                          EntryPath(c, m, h, Bin) := Encode(c, Header(Some(m), Some(h), Int(1), None), [y])]
    requires IsMigrated(c, false, files, JsonPaths(files), after)
    ensures Get(c, files, m, h) == Some([Round(c, y)]) && Get(c, after, m, h) == Some([Round(c, x)])
  {
    var hd := Header(Some(m), Some(h), Int(1), None);
    var p, bin := EntryPath(c, m, h, Json), EntryPath(c, m, h, Bin);
    assert BinOf(p) == bin && JsonOf(bin) == p && Converts(c, false, files, p);
    assert At(after, bin) == MigratedAt(c, false, files, JsonPaths(files), bin) == Some(MigratedEntry(c, files, p));
    EncodeReads(c, hd, [x]);
    EncodeReads(c, hd, [y]);
    assert RoundAll(c, [x]) == [Round(c, x)] && RoundAll(c, [y]) == [Round(c, y)];
  }

  /** A converted entry keeps the names and the date of the legacy one. */
  lemma MigrateKeepsNames(c: Codec, legacyOnly: bool, files: Files, after: Files, p: Path)
    requires Lawful(c) && IsMigrated(c, legacyOnly, files, JsonPaths(files), after)
    requires Converts(c, legacyOnly, files, p)
    ensures var entry := ReadLegacy(c, files[p]).value;
            && p !in after && BinOf(p) in after
            && Records(c, after[BinOf(p)], entry.modelId, entry.contentHash, entry.createdAt)
  {
    var entry := ReadLegacy(c, files[p]).value;
    assert JsonOf(BinOf(p)) == p;
    assert At(after, p) == MigratedAt(c, legacyOnly, files, JsonPaths(files), p);
    assert At(after, BinOf(p)) == MigratedAt(c, legacyOnly, files, JsonPaths(files), BinOf(p));
    EncodeReads(c, MigratedHeader(entry), entry.vector);
  }

  /** A second run converts nothing. */
  lemma SecondRunConvertsNothing(c: Codec, legacyOnly: bool, files: Files, after: Files)
    requires Lawful(c) && IsMigrated(c, legacyOnly, files, JsonPaths(files), after)
    ensures Converting(c, legacyOnly, after, JsonPaths(after)) == {}
  {
    forall p ensures !Converts(c, legacyOnly, after, p) {
      assert At(after, p) == MigratedAt(c, legacyOnly, files, JsonPaths(files), p);
      assert At(after, BinOf(p)) == MigratedAt(c, legacyOnly, files, JsonPaths(files), BinOf(p));
      assert p.ext.Json? ==> JsonOf(BinOf(p)) == p;
    }
  }
}
