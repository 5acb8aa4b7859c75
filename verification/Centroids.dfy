/** The classifier prototype file: the published layout, and the cursor that reads it. */
module Centroids {
  import opened Prelude
  import opened Bytes
  import Sorting
  import Utf8

  /** "VELVTC01" in ASCII. */
  const LEGACY_MAGIC: bytes := [0x56, 0x45, 0x4C, 0x56, 0x54, 0x43, 0x30, 0x31]

  /** "VELVTP02" in ASCII. */
  const PROTOTYPE_MAGIC: bytes := [0x56, 0x45, 0x4C, 0x56, 0x54, 0x50, 0x30, 0x32]

  const LEGACY_ARTIFACT_VERSION: string := "centroids-v1"

  /** An IEEE 754 single, as its four little-endian bytes. */
  type f32 = s: bytes | |s| == 4 witness [0, 0, 0, 0]

  /** Not an infinity and not a NaN: some bit of the exponent is clear. */
  predicate Finite(x: f32) { !(x[3] % 128 == 127 && x[2] >= 128) }

  // ----- The published layout -----------------------------------------------

  datatype Record = Record(category: string, vector: seq<f32>)

  datatype Artifact = Artifact(
    legacy: bool, taxonomyVersion: string, artifactVersion: string, dimensions: nat, records: seq<Record>)

  /** A number the file can hold in four bytes. */
  predicate Fits(n: nat) { n < Pow256(4) }

  predicate TextFits(s: string) { Fits(|Utf8.Encode(s)|) }

  predicate RecordOk(r: Record, dimensions: nat) {
    && r.category != [] && TextFits(r.category)
    && |r.vector| == dimensions && forall x :: x in r.vector ==> Finite(x)
  }

  predicate RecordsOk(records: seq<Record>, dimensions: nat) {
    forall i :: 0 <= i < |records| ==> RecordOk(records[i], dimensions)
  }

  predicate NoneRepeated(records: seq<Record>) {
    forall i, j :: 0 <= i < j < |records| ==> records[i].category != records[j].category
  }

  predicate WellFormed(a: Artifact) {
    && a.taxonomyVersion != [] && TextFits(a.taxonomyVersion)
    && a.artifactVersion != [] && TextFits(a.artifactVersion)
    && 0 < a.dimensions && Fits(a.dimensions)
    && 0 < |a.records| && Fits(|a.records|)
    && RecordsOk(a.records, a.dimensions)
    && (a.legacy ==> a.artifactVersion == LEGACY_ARTIFACT_VERSION && NoneRepeated(a.records))
  }

  function EncodeNumber(n: nat): bytes { LittleEndian(n, 4) }

  function EncodeText(s: string): bytes { EncodeNumber(|Utf8.Encode(s)|) + Utf8.Encode(s) }

  function EncodeVector(v: seq<f32>): bytes {
    if v == [] then [] else v[0] + EncodeVector(v[1..])
  }

  function EncodeRecord(r: Record): bytes { EncodeText(r.category) + EncodeVector(r.vector) }

  function EncodeRecords(records: seq<Record>): bytes {
    if records == [] then [] else EncodeRecord(records[0]) + EncodeRecords(records[1..])
  }

  function EncodeBody(a: Artifact): bytes {
    EncodeNumber(a.dimensions) + (EncodeNumber(|a.records|) + EncodeRecords(a.records))
  }

  function EncodeVersion(a: Artifact): bytes {
    if a.legacy then EncodeBody(a) else EncodeText(a.artifactVersion) + EncodeBody(a)
  }

  function EncodeVersions(a: Artifact): bytes { EncodeText(a.taxonomyVersion) + EncodeVersion(a) }

  function Magic(legacy: bool): bytes { if legacy then LEGACY_MAGIC else PROTOTYPE_MAGIC }

  function Encode(a: Artifact): bytes { Magic(a.legacy) + EncodeVersions(a) }

  /** A finite single is one whose eight exponent bits are not all set. */
  lemma FiniteMeans(x: f32)
    ensures Finite(x) <==> (x[3] % 128) * 2 + x[2] / 128 != 255
  {
  }

  /** The file, part by part: the magic; the taxonomy version by length and UTF-8; in a new file the artifact
      version likewise; the dimensions and the count; then the records. */
  lemma FileLayout(a: Artifact)
    ensures var taxonomy, version := Utf8.Encode(a.taxonomyVersion), Utf8.Encode(a.artifactVersion);
            var body := LittleEndian(a.dimensions, 4) + (LittleEndian(|a.records|, 4) + EncodeRecords(a.records));
      Encode(a) ==
      if a.legacy then Ascii("VELVTC01") + ((LittleEndian(|taxonomy|, 4) + taxonomy) + body)
      else Ascii("VELVTP02") +
           ((LittleEndian(|taxonomy|, 4) + taxonomy) + ((LittleEndian(|version|, 4) + version) + body))
  {
    MagicIsAscii();
  }

  lemma MagicIsAscii()
    ensures Magic(true) == Ascii("VELVTC01") && Magic(false) == Ascii("VELVTP02")
  {
    assert Ascii("VELVTC01") == [0x56, 0x45, 0x4C, 0x56, 0x54, 0x43, 0x30, 0x31];
    assert Ascii("VELVTP02") == [0x56, 0x45, 0x4C, 0x56, 0x54, 0x50, 0x30, 0x32];
  }

  /** A record is its category by length and UTF-8, then its floats in order, four bytes each. */
  lemma {:induction false} RecordLayout(records: seq<Record>)
    requires records != []
    ensures var r := records[0];
      EncodeRecords(records) == LittleEndian(|Utf8.Encode(r.category)|, 4) + Utf8.Encode(r.category)
                                + EncodeVector(r.vector) + EncodeRecords(records[1..])
  {
  }

  lemma {:induction false} VectorLayout(v: seq<f32>, i: nat)
    requires i < |v|
    ensures |EncodeVector(v)| == 4 * |v| && EncodeVector(v)[4 * i..4 * i + 4] == v[i]
  {
    if i > 0 {
      VectorLayout(v[1..], i - 1);
    } else if |v| > 1 {
      VectorLayout(v[1..], 0);
    }
  }

  // ----- Reading, as functions ----------------------------------------------

  /** A value, and the bytes after it. */
  datatype Parsed<T> = Parsed(value: T, rest: bytes)

  type Read<T> = Option<Parsed<T>>

  function ReadBytes(b: bytes, n: nat): Read<bytes> {
    if n <= |b| then Some(Parsed(b[..n], b[n..])) else None
  }

  function ReadNumber(b: bytes): Read<nat> {
    if 4 <= |b| then Some(Parsed(FromLittleEndian(b[..4]), b[4..])) else None
  }

  function ReadText(b: bytes): Read<string> {
    match ReadNumber(b)
    case None => None
    case Some(length) =>
      match ReadBytes(length.rest, length.value)
      case None => None
      case Some(text) =>
        match Utf8.Decode(text.value)
        case None => None
        case Some(s) => Some(Parsed(s, text.rest))
  }

  /** `k` more floats after those in `done`. */
  function ReadVector(done: seq<f32>, b: bytes, k: nat): Read<seq<f32>>
    decreases k
  {
    if k == 0 then Some(Parsed(done, b))
    else if |b| < 4 then None
    else ReadVector(done + [b[..4]], b[4..], k - 1)
  }

  function ReadRecord(b: bytes, dimensions: nat): Read<Record> {
    match ReadText(b)
    case None => None
    case Some(category) =>
      match ReadVector([], category.rest, dimensions)
      case None => None
      case Some(vector) =>
        if category.value == [] || exists x :: x in vector.value && !Finite(x) then None
        else Some(Parsed(Record(category.value, vector.value), vector.rest))
  }

  predicate Listed(records: seq<Record>, category: string) {
    exists i :: 0 <= i < |records| && records[i].category == category
  }

  /** `k` more records after those in `done`; a legacy file may not repeat a category. */
  function ReadRecords(legacy: bool, done: seq<Record>, b: bytes, dimensions: nat, k: nat): Read<seq<Record>>
    decreases k
  {
    if k == 0 then Some(Parsed(done, b))
    else match ReadRecord(b, dimensions)
      case None => None
      case Some(r) =>
        if legacy && Listed(done, r.value.category) then None
        else ReadRecords(legacy, done + [r.value], r.rest, dimensions, k - 1)
  }

  function ReadVersion(legacy: bool, b: bytes): Read<string> {
    if legacy then Some(Parsed(LEGACY_ARTIFACT_VERSION, b)) else ReadText(b)
  }

  /** What follows the versions. */
  function ParseBody(legacy: bool, taxonomy: string, version: string, b: bytes): Option<Artifact> {
    match ReadNumber(b)
    case None => None
    case Some(dimensions) =>
      match ReadNumber(dimensions.rest)
      case None => None
      case Some(count) =>
        if taxonomy == [] || version == [] || dimensions.value == 0 || count.value == 0 then None
        else match ReadRecords(legacy, [], count.rest, dimensions.value, count.value)
          case None => None
          case Some(records) =>
            if records.rest != [] then None
            else Some(Artifact(legacy, taxonomy, version, dimensions.value, records.value))
  }

  function ParseVersions(legacy: bool, b: bytes): Option<Artifact> {
    match ReadText(b)
    case None => None
    case Some(taxonomy) =>
      match ReadVersion(legacy, taxonomy.rest)
      case None => None
      case Some(version) => ParseBody(legacy, taxonomy.value, version.value, version.rest)
  }

  /** Whether the file opens with the legacy magic. */
  function ReadMagic(b: bytes): Read<bool> {
    if |b| < 8 then None
    else if b[..8] == LEGACY_MAGIC then Some(Parsed(true, b[8..]))
    else if b[..8] == PROTOTYPE_MAGIC then Some(Parsed(false, b[8..]))
    else None
  }

  function Parse(b: bytes): Option<Artifact> {
    match ReadMagic(b)
    case None => None
    case Some(magic) => ParseVersions(magic.value, magic.rest)
  }

  // ----- What is written is read back ---------------------------------------

  lemma NumberReads(n: nat, rest: bytes)
    requires Fits(n)
    ensures ReadNumber(EncodeNumber(n) + rest) == Some(Parsed(n, rest))
  {
    var b := EncodeNumber(n) + rest;
    assert b[..4] == EncodeNumber(n) && b[4..] == rest;
    LittleEndianRoundTrip(n, 4);
  }

  lemma Reassociate(x: bytes, y: bytes, z: bytes)
    ensures x + (y + z) == (x + y) + z
  {
  }

  lemma {:induction false} TextLayout(s: string, rest: bytes)
    ensures EncodeText(s) + rest == EncodeNumber(|Utf8.Encode(s)|) + (Utf8.Encode(s) + rest)
  {
    Reassociate(EncodeNumber(|Utf8.Encode(s)|), Utf8.Encode(s), rest);
  }

  lemma TextReads(s: string, rest: bytes)
    requires TextFits(s)
    ensures ReadText(EncodeText(s) + rest) == Some(Parsed(s, rest))
  {
    var text := Utf8.Encode(s);
    TextLayout(s, rest);
    NumberReads(|text|, text + rest);
    assert (text + rest)[..|text|] == text && (text + rest)[|text|..] == rest;
    Utf8.DecodeOfEncode(s);
  }

  lemma {:induction false} VectorReads(done: seq<f32>, v: seq<f32>, rest: bytes)
    ensures ReadVector(done, EncodeVector(v) + rest, |v|) == Some(Parsed(done + v, rest))
    decreases |v|
  {
    if v == [] {
      assert done + v == done && EncodeVector(v) + rest == rest;
    } else {
      var b := EncodeVector(v) + rest;
      assert b[..4] == v[0] && b[4..] == EncodeVector(v[1..]) + rest;
      VectorReads(done + [v[0]], v[1..], rest);
      assert done + [v[0]] + v[1..] == done + v;
    }
  }

  lemma RecordReads(r: Record, rest: bytes, dimensions: nat)
    requires RecordOk(r, dimensions)
    ensures ReadRecord(EncodeRecord(r) + rest, dimensions) == Some(Parsed(r, rest))
  {
    var v := EncodeVector(r.vector);
    assert EncodeRecord(r) + rest == EncodeText(r.category) + (v + rest);
    TextReads(r.category, v + rest);
    VectorReads([], r.vector, rest);
    assert [] + r.vector == r.vector;
  }

  lemma MoveAcross(done: seq<Record>, first: Record, others: seq<Record>)
    ensures (done + [first]) + others == done + ([first] + others)
  {
  }

  lemma ConsRecordsOk(first: Record, others: seq<Record>, dimensions: nat)
    requires RecordOk(first, dimensions) && RecordsOk(others, dimensions)
    ensures RecordsOk([first] + others, dimensions)
  {
  }

  lemma {:induction false} ConsEncodes(first: Record, others: seq<Record>, rest: bytes)
    ensures EncodeRecord(first) + (EncodeRecords(others) + rest) == EncodeRecords([first] + others) + rest
  {
    var records := [first] + others;
    assert records[0] == first && records[1..] == others;
    Reassociate(EncodeRecord(first), EncodeRecords(others), rest);
  }

  lemma NextIsNew(done: seq<Record>, records: seq<Record>)
    requires records != [] && NoneRepeated(done + records)
    ensures !Listed(done, records[0].category)
  {
    var all := done + records;
    assert all[|done|] == records[0];
    forall i | 0 <= i < |done| ensures done[i].category != records[0].category {
      assert all[i] == done[i];
    }
  }

  lemma {:induction false} RecordsRead(
    legacy: bool, done: seq<Record>, records: seq<Record>, rest: bytes, dimensions: nat)
    requires RecordsOk(records, dimensions) && (legacy ==> NoneRepeated(done + records))
    ensures ReadRecords(legacy, done, EncodeRecords(records) + rest, dimensions, |records|)
         == Some(Parsed(done + records, rest))
    decreases |records|
  {
    if records == [] {
      assert done + records == done && EncodeRecords(records) + rest == rest;
    } else {
      var first, others := records[0], records[1..];
      assert records == [first] + others;
      MoveAcross(done, first, others);
      ConsEncodes(first, others, rest);
      if legacy {
        NextIsNew(done, records);
      }
      RecordReads(first, EncodeRecords(others) + rest, dimensions);
      RecordsRead(legacy, done + [first], others, rest, dimensions);
    }
  }

  lemma BodyParses(a: Artifact)
    requires WellFormed(a)
    ensures ParseBody(a.legacy, a.taxonomyVersion, a.artifactVersion, EncodeBody(a)) == Some(a)
  {
    var records := EncodeRecords(a.records);
    NumberReads(a.dimensions, EncodeNumber(|a.records|) + records);
    NumberReads(|a.records|, records);
    assert [] + a.records == a.records && records + [] == records;
    RecordsRead(a.legacy, [], a.records, [], a.dimensions);
  }

  lemma VersionsParse(a: Artifact)
    requires WellFormed(a)
    ensures ParseVersions(a.legacy, EncodeVersions(a)) == Some(a)
  {
    TextReads(a.taxonomyVersion, EncodeVersion(a));
    TextReads(a.artifactVersion, EncodeBody(a));
    BodyParses(a);
  }

  lemma MagicReads(legacy: bool, rest: bytes)
    ensures ReadMagic(Magic(legacy) + rest) == Some(Parsed(legacy, rest))
  {
    var b := Magic(legacy) + rest;
    assert b[..8] == Magic(legacy) && b[8..] == rest;
    assert LEGACY_MAGIC[5] != PROTOTYPE_MAGIC[5];
  }

  /** Every well-formed artifact is read back from its encoding. */
  lemma ParseOfEncode(a: Artifact)
    requires WellFormed(a)
    ensures Parse(Encode(a)) == Some(a)
  {
    MagicReads(a.legacy, EncodeVersions(a));
    VersionsParse(a);
  }

  // ----- Only what is written is read ---------------------------------------

  lemma NumberWasWritten(b: bytes)
    requires ReadNumber(b).Some?
    ensures var p := ReadNumber(b).value; Fits(p.value) && b == EncodeNumber(p.value) + p.rest
  {
    FromLittleEndianFits(b[..4]);
    FromLittleEndianRoundTrip(b[..4]);
    assert b == b[..4] + b[4..];
  }

  lemma {:induction false} TextIsLaidOut(b: bytes, n: nat, text: bytes, rest: bytes, s: string)
    requires Fits(n) && b == EncodeNumber(n) + (text + rest) && |text| == n && Utf8.Encode(s) == text
    ensures TextFits(s) && b == EncodeText(s) + rest
  {
    TextLayout(s, rest);
  }

  lemma TextWasWritten(b: bytes)
    requires ReadText(b).Some?
    ensures var p := ReadText(b).value; TextFits(p.value) && b == EncodeText(p.value) + p.rest
  {
    NumberWasWritten(b);
    var length := ReadNumber(b).value;
    var text, rest := length.rest[..length.value], length.rest[length.value..];
    assert length.rest == text + rest;
    Utf8.DecodeIffEncoding(text, ReadText(b).value.value);
    TextIsLaidOut(b, length.value, text, rest, ReadText(b).value.value);
  }

  lemma {:induction false} VectorWasWritten(done: seq<f32>, b: bytes, k: nat) returns (v: seq<f32>)
    requires ReadVector(done, b, k).Some?
    ensures var p := ReadVector(done, b, k).value;
      p.value == done + v && |v| == k && b == EncodeVector(v) + p.rest
    decreases k
  {
    if k == 0 {
      v := [];
      assert done + v == done && EncodeVector(v) + b == b;
    } else {
      var x: f32 := b[..4];
      var others := VectorWasWritten(done + [x], b[4..], k - 1);
      v := [x] + others;
      assert done + [x] + others == done + v && v[1..] == others;
      Reassociate(x, EncodeVector(others), ReadVector(done, b, k).value.rest);
      assert b == x + b[4..];
    }
  }

  lemma RecordWasWritten(b: bytes, dimensions: nat)
    requires ReadRecord(b, dimensions).Some?
    ensures var p := ReadRecord(b, dimensions).value;
      RecordOk(p.value, dimensions) && b == EncodeRecord(p.value) + p.rest
  {
    TextWasWritten(b);
    var category := ReadText(b).value;
    var v := VectorWasWritten([], category.rest, dimensions);
    assert [] + v == v;
    Reassociate(EncodeText(category.value), EncodeVector(v), ReadRecord(b, dimensions).value.rest);
  }

  /** `b` opens with `k` written records, and `p` is `done` with those added, and what follows them. */
  predicate Written(
    p: Parsed<seq<Record>>, done: seq<Record>, b: bytes, dimensions: nat, k: nat, records: seq<Record>)
  {
    && p.value == done + records && |records| == k && RecordsOk(records, dimensions)
    && b == EncodeRecords(records) + p.rest
  }

  lemma WrittenStep(
    p: Parsed<seq<Record>>, done: seq<Record>, first: Parsed<Record>, dimensions: nat, k: nat, others: seq<Record>)
    requires RecordOk(first.value, dimensions)
    requires Written(p, done + [first.value], first.rest, dimensions, k, others)
    ensures Written(p, done, EncodeRecord(first.value) + first.rest, dimensions, k + 1, [first.value] + others)
  {
    MoveAcross(done, first.value, others);
    ConsRecordsOk(first.value, others, dimensions);
    ConsEncodes(first.value, others, p.rest);
  }

  lemma {:induction false} RecordsWereWritten(legacy: bool, done: seq<Record>, b: bytes, dimensions: nat, k: nat)
    returns (records: seq<Record>)
    requires ReadRecords(legacy, done, b, dimensions, k).Some?
    ensures Written(ReadRecords(legacy, done, b, dimensions, k).value, done, b, dimensions, k, records)
    decreases k
  {
    if k == 0 {
      records := [];
      assert done + records == done && EncodeRecords(records) + b == b;
    } else {
      RecordWasWritten(b, dimensions);
      var first := ReadRecord(b, dimensions).value;
      var others := RecordsWereWritten(legacy, done + [first.value], first.rest, dimensions, k - 1);
      WrittenStep(ReadRecords(legacy, done, b, dimensions, k).value, done, first, dimensions, k - 1, others);
      records := [first.value] + others;
    }
  }

  lemma {:induction false} LegacyNeverRepeats(done: seq<Record>, b: bytes, dimensions: nat, k: nat)
    requires ReadRecords(true, done, b, dimensions, k).Some? && NoneRepeated(done)
    ensures NoneRepeated(ReadRecords(true, done, b, dimensions, k).value.value)
    decreases k
  {
    if k > 0 {
      var first := ReadRecord(b, dimensions).value;
      LegacyNeverRepeats(done + [first.value], first.rest, dimensions, k - 1);
    }
  }

  lemma BodyWasWritten(legacy: bool, taxonomy: string, version: string, b: bytes)
    requires ParseBody(legacy, taxonomy, version, b).Some?
    requires TextFits(taxonomy) && TextFits(version) && (legacy ==> version == LEGACY_ARTIFACT_VERSION)
    ensures var a := ParseBody(legacy, taxonomy, version, b).value;
      && WellFormed(a) && a.legacy == legacy && a.taxonomyVersion == taxonomy && a.artifactVersion == version
      && b == EncodeBody(a)
  {
    NumberWasWritten(b);
    var dimensions := ReadNumber(b).value;
    NumberWasWritten(dimensions.rest);
    var count := ReadNumber(dimensions.rest).value;
    var records := RecordsWereWritten(legacy, [], count.rest, dimensions.value, count.value);
    assert [] + records == records && EncodeRecords(records) + [] == EncodeRecords(records);
    if legacy {
      LegacyNeverRepeats([], count.rest, dimensions.value, count.value);
    }
  }

  lemma LegacyVersionFits()
    ensures TextFits(LEGACY_ARTIFACT_VERSION)
  {
    AsciiTextIsShort(LEGACY_ARTIFACT_VERSION);
    assert Pow256(4) == 256 * (256 * (256 * (256 * Pow256(0))));
  }

  lemma {:induction false} AsciiTextIsShort(s: string)
    ensures |Utf8.Encode(s)| <= 4 * |s|
  {
    if s != [] {
      AsciiTextIsShort(s[1..]);
    }
  }

  lemma VersionsWereWritten(legacy: bool, b: bytes)
    requires ParseVersions(legacy, b).Some?
    ensures var a := ParseVersions(legacy, b).value;
      WellFormed(a) && a.legacy == legacy && b == EncodeVersions(a)
  {
    TextWasWritten(b);
    var taxonomy := ReadText(b).value;
    if legacy {
      LegacyVersionFits();
    } else {
      TextWasWritten(taxonomy.rest);
    }
    var version := ReadVersion(legacy, taxonomy.rest).value;
    BodyWasWritten(legacy, taxonomy.value, version.value, version.rest);
  }

  lemma MagicWasWritten(b: bytes)
    requires ReadMagic(b).Some?
    ensures var p := ReadMagic(b).value; b == Magic(p.value) + p.rest
  {
    assert b == b[..8] + b[8..];
  }

  /** Whatever is read is a well-formed artifact, and the bytes are its encoding. */
  lemma EncodeOfParse(b: bytes)
    requires Parse(b).Some?
    ensures WellFormed(Parse(b).value) && Encode(Parse(b).value) == b
  {
    MagicWasWritten(b);
    var magic := ReadMagic(b).value;
    VersionsWereWritten(magic.value, magic.rest);
  }

  /** The reader accepts exactly the encodings of well-formed artifacts, each for its own artifact. */
  lemma ParseIffEncoding(b: bytes, a: Artifact)
    ensures Parse(b) == Some(a) <==> WellFormed(a) && Encode(a) == b
  {
    if Parse(b) == Some(a) {
      EncodeOfParse(b);
    }
    if WellFormed(a) {
      ParseOfEncode(a);
    }
  }

  predicate IsFileOf(b: bytes, a: Artifact) { WellFormed(a) && Encode(a) == b }

  lemma FileIsParsed(b: bytes)
    ensures Parse(b).Some? <==> exists a :: IsFileOf(b, a)
    ensures forall a :: IsFileOf(b, a) ==> Parse(b) == Some(a)
  {
    if Parse(b).Some? {
      ParseIffEncoding(b, Parse(b).value);
      assert IsFileOf(b, Parse(b).value);
    }
    forall a | IsFileOf(b, a) ensures Parse(b) == Some(a) {
      ParseIffEncoding(b, a);
    }
  }

  /** No two well-formed artifacts share a file. */
  lemma EncodingIsInjective(a: Artifact, b: Artifact)
    requires WellFormed(a) && WellFormed(b)
    ensures Encode(a) == Encode(b) <==> a == b
  {
    ParseOfEncode(a);
    ParseOfEncode(b);
  }

  // ----- What is kept of an artifact ----------------------------------------

  type Prototypes = map<string, seq<seq<f32>>>

  datatype CategoryCentroids = CategoryCentroids(
    taxonomyVersion: string, artifactVersion: string, prototypes: Prototypes)

  /** The vectors of one category, in file order. */
  function VectorsOf(records: seq<Record>, category: string): seq<seq<f32>> {
    if records == [] then []
    else
      var last := records[|records| - 1];
      VectorsOf(records[..|records| - 1], category) + (if last.category == category then [last.vector] else [])
  }

  /** `m` groups the vectors of `records` by category. */
  ghost predicate Groups(m: Prototypes, records: seq<Record>) {
    forall c :: (c in m <==> Listed(records, c)) && (c in m ==> m[c] == VectorsOf(records, c))
  }

  ghost predicate Loads(loaded: CategoryCentroids, a: Artifact) {
    && loaded.taxonomyVersion == a.taxonomyVersion && loaded.artifactVersion == a.artifactVersion
    && Groups(loaded.prototypes, a.records)
  }

  /** The record's vector after those its category already has. */
  function Grouped(m: Prototypes, r: Record): Prototypes {
    m[r.category := (if r.category in m then m[r.category] else []) + [r.vector]]
  }

  lemma GroupsSnoc(m: Prototypes, records: seq<Record>, r: Record)
    requires Groups(m, records)
    ensures Groups(Grouped(m, r), records + [r])
  {
    var grown := records + [r];
    assert grown[..|records|] == records;
    forall c ensures Listed(grown, c) <==> Listed(records, c) || c == r.category {
      assert grown[|records|] == r;
      if Listed(records, c) {
        var i :| 0 <= i < |records| && records[i].category == c;
        assert grown[i].category == c;
      }
    }
    if r.category !in m {
      UnlistedHasNone(records, r.category);
    }
  }

  lemma {:induction false} UnlistedHasNone(records: seq<Record>, category: string)
    requires !Listed(records, category)
    ensures VectorsOf(records, category) == []
  {
    if records != [] {
      var init := records[..|records| - 1];
      assert records[|records| - 1].category != category;
      UnlistedHasNone(init, category);
    }
  }

  function InCategory(category: string): Record -> bool { (r: Record) => r.category == category }

  /** A category's vectors are those of its records, in file order. */
  lemma {:induction false} VectorsInFileOrder(records: seq<Record>, category: string)
    ensures var own := Sorting.Filter(records, InCategory(category));
      && |VectorsOf(records, category)| == |own|
      && forall k :: 0 <= k < |own| ==> VectorsOf(records, category)[k] == own[k].vector
  {
    if records != [] {
      VectorsInFileOrder(records[..|records| - 1], category);
    }
  }

  /** A legacy artifact keeps one vector a category. */
  lemma {:induction false} LegacyHasOneVector(records: seq<Record>, i: nat)
    requires NoneRepeated(records) && i < |records|
    ensures VectorsOf(records, records[i].category) == [records[i].vector]
  {
    var n := |records| - 1;
    var init := records[..n];
    if i == n {
      UnlistedHasNone(init, records[i].category);
    } else {
      LegacyHasOneVector(init, i);
      assert init[i] == records[i];
    }
  }

  // ----- The cursor ---------------------------------------------------------

  class Cursor {
    const content: bytes
    var position: nat

    /** Never past the end. */
    ghost predicate Valid() reads this { position <= |content| }

    function Remaining(): bytes
      requires Valid()
      reads this
    {
      content[position..]
    }

    constructor (input: bytes)
      ensures Valid() && content == input && position == 0
    {
      content := input;
      position := 0;
    }

    method Take(length: nat) returns (value: Option<bytes>)
      requires Valid()
      modifies this
      ensures Valid() && position >= old(position)
      ensures ReadBytes(old(Remaining()), length)
           == if value.Some? then Some(Parsed(value.value, Remaining())) else None
      ensures value.None? ==> position == old(position)
    {
      var end := position + length;
      if end > |content| {
        return None;
      }
      value := Some(content[position..end]);
      position := end;
      assert content[old(position)..][..length] == content[old(position)..end];
      assert content[old(position)..][length..] == content[end..];
    }

    method U32() returns (value: Option<nat>)
      requires Valid()
      modifies this
      ensures Valid() && position >= old(position)
      ensures ReadNumber(old(Remaining())) == if value.Some? then Some(Parsed(value.value, Remaining())) else None
    {
      var taken := Take(4);
      value := if taken.Some? then Some(FromLittleEndian(taken.value)) else None;
    }

    method String() returns (value: Option<string>)
      requires Valid()
      modifies this
      ensures Valid() && position >= old(position)
      ensures ReadText(old(Remaining())) == if value.Some? then Some(Parsed(value.value, Remaining())) else None
    {
      var length := U32();
      if length.None? {
        return None;
      }
      var text := Take(length.value);
      value := if text.Some? then Utf8.Decode(text.value) else None;
    }
  }

  method ReadFloats(cursor: Cursor, dimensions: nat) returns (vector: Option<seq<f32>>)
    requires cursor.Valid()
    modifies cursor
    ensures cursor.Valid() && cursor.position >= old(cursor.position)
    ensures ReadVector([], old(cursor.Remaining()), dimensions)
         == if vector.Some? then Some(Parsed(vector.value, cursor.Remaining())) else None
  {
    var values: seq<f32> := [];
    for i := 0 to dimensions
      invariant cursor.Valid() && cursor.position >= old(cursor.position)
      invariant ReadVector([], old(cursor.Remaining()), dimensions)
             == ReadVector(values, cursor.Remaining(), dimensions - i)
    {
      var taken := cursor.Take(4);
      if taken.None? {
        return None;
      }
      values := values + [taken.value];
    }
    vector := Some(values);
  }

  method LoadRecord(cursor: Cursor, dimensions: nat) returns (record: Option<Record>)
    requires cursor.Valid()
    modifies cursor
    ensures cursor.Valid() && cursor.position >= old(cursor.position)
    ensures ReadRecord(old(cursor.Remaining()), dimensions)
         == if record.Some? then Some(Parsed(record.value, cursor.Remaining())) else None
  {
    var category := cursor.String();
    if category.None? {
      return None;
    }
    var vector := ReadFloats(cursor, dimensions);
    if vector.None? || category.value == [] || exists x :: x in vector.value && !Finite(x) {
      return None;
    }
    record := Some(Record(category.value, vector.value));
  }

  method FromBytes(content: bytes) returns (loaded: Option<CategoryCentroids>)
    ensures loaded.Some? <==> exists a :: IsFileOf(content, a)
    ensures forall a :: IsFileOf(content, a) ==> loaded.Some? && Loads(loaded.value, a)
  {
    FileIsParsed(content);
    var cursor := new Cursor(content);
    assert cursor.Remaining() == content;
    var magic := cursor.Take(8);
    if magic.None? {
      return None;
    }
    var hasArtifactVersion;
    if magic.value == LEGACY_MAGIC {
      hasArtifactVersion := false;
    } else if magic.value == PROTOTYPE_MAGIC {
      hasArtifactVersion := true;
    } else {
      return None;
    }
    assert ReadMagic(content) == Some(Parsed(!hasArtifactVersion, cursor.Remaining()));
    loaded := LoadVersions(cursor, hasArtifactVersion);
  }

  method LoadVersions(cursor: Cursor, hasArtifactVersion: bool) returns (loaded: Option<CategoryCentroids>)
    requires cursor.Valid()
    modifies cursor
    ensures cursor.Valid()
    ensures var parsed := old(ParseVersions(!hasArtifactVersion, cursor.Remaining()));
      (loaded.Some? <==> parsed.Some?) && (loaded.Some? ==> Loads(loaded.value, parsed.value))
  {
    var taxonomy := cursor.String();
    if taxonomy.None? {
      return None;
    }
    var version := Some(LEGACY_ARTIFACT_VERSION);
    if hasArtifactVersion {
      version := cursor.String();
      if version.None? {
        return None;
      }
    }
    loaded := LoadBody(cursor, hasArtifactVersion, taxonomy.value, version.value);
  }

  /** One record more: a repeat ends a legacy file, and any other joins its category's vectors. */
  lemma LoadStep(legacy: bool, done: seq<Record>, b: bytes, dimensions: nat, k: nat, r: Parsed<Record>, m: Prototypes)
    requires 0 < k && ReadRecord(b, dimensions) == Some(r) && Groups(m, done)
    ensures ReadRecords(legacy, done, b, dimensions, k) ==
            if legacy && r.value.category in m then None
            else ReadRecords(legacy, done + [r.value], r.rest, dimensions, k - 1)
    ensures Groups(Grouped(m, r.value), done + [r.value])
  {
    assert r.value.category in m <==> Listed(done, r.value.category);
    GroupsSnoc(m, done, r.value);
  }

  /** With `done` read and grouped in `m`, and `k` records to read from `b`, the whole reading will be `all`. */
  ghost predicate IsLoading(
    all: Read<seq<Record>>, legacy: bool, done: seq<Record>, b: bytes, dimensions: nat, k: nat, m: Prototypes)
  {
    all == ReadRecords(legacy, done, b, dimensions, k) && Groups(m, done)
  }

  lemma {:induction false} NothingRead(legacy: bool, b: bytes, dimensions: nat, k: nat)
    ensures IsLoading(ReadRecords(legacy, [], b, dimensions, k), legacy, [], b, dimensions, k, map[])
  {
  }

  lemma AllRead(all: Read<seq<Record>>, legacy: bool, done: seq<Record>, b: bytes, dimensions: nat, m: Prototypes)
    requires IsLoading(all, legacy, done, b, dimensions, 0, m)
    ensures all == Some(Parsed(done, b)) && Groups(m, done)
  {
  }

  /** The body of the loop over records: reads one, and groups it unless it may not repeat. */
  method LoadNext(cursor: Cursor, legacy: bool, dimensions: nat, m: Prototypes,
                  ghost done: seq<Record>, ghost k: nat, ghost all: Read<seq<Record>>)
    returns (next: Option<Prototypes>, ghost grown: seq<Record>)
    requires cursor.Valid() && 0 < k && IsLoading(all, legacy, done, cursor.Remaining(), dimensions, k, m)
    modifies cursor
    ensures cursor.Valid()
    ensures next.None? ==> all.None?
    ensures next.Some? ==> IsLoading(all, legacy, grown, cursor.Remaining(), dimensions, k - 1, next.value)
  {
    ghost var before := cursor.Remaining();
    grown := done;
    var record := LoadRecord(cursor, dimensions);
    if record.None? {
      return None, done;
    }
    LoadStep(legacy, done, before, dimensions, k, Parsed(record.value, cursor.Remaining()), m);
    var category, vector := record.value.category, record.value.vector;
    if legacy && category in m {
      return None, done;
    }
    grown := done + [record.value];
    next := Some(m[category := (if category in m then m[category] else []) + [vector]]);
  }

  method LoadAll(cursor: Cursor, legacy: bool, dimensions: nat, count: nat, ghost all: Read<seq<Record>>)
    returns (loaded: Option<Prototypes>, ghost records: seq<Record>)
    requires cursor.Valid() && IsLoading(all, legacy, [], cursor.Remaining(), dimensions, count, map[])
    modifies cursor
    ensures cursor.Valid()
    ensures loaded.None? ==> all.None?
    ensures loaded.Some? ==> IsLoading(all, legacy, records, cursor.Remaining(), dimensions, 0, loaded.value)
  {
    var prototypes: Prototypes := map[];
    var left := count;
    records := [];
    while left > 0
      invariant cursor.Valid() && IsLoading(all, legacy, records, cursor.Remaining(), dimensions, left, prototypes)
    {
      var next, grown := LoadNext(cursor, legacy, dimensions, prototypes, records, left, all);
      if next.None? {
        return None, records;
      }
      left, prototypes, records := left - 1, next.value, grown;
    }
    loaded := Some(prototypes);
  }

  method LoadRecords(cursor: Cursor, hasArtifactVersion: bool, dimensions: nat, count: nat)
    returns (loaded: Option<Prototypes>)
    requires cursor.Valid()
    modifies cursor
    ensures cursor.Valid()
    ensures var all := old(ReadRecords(!hasArtifactVersion, [], cursor.Remaining(), dimensions, count));
      && (loaded.Some? <==> all.Some?)
      && (loaded.Some? ==> Groups(loaded.value, all.value.value) && cursor.Remaining() == all.value.rest)
  {
    ghost var all := ReadRecords(!hasArtifactVersion, [], cursor.Remaining(), dimensions, count);
    NothingRead(!hasArtifactVersion, cursor.Remaining(), dimensions, count);
    ghost var records: seq<Record>;
    loaded, records := LoadAll(cursor, !hasArtifactVersion, dimensions, count, all);
    if loaded.Some? {
      AllRead(all, !hasArtifactVersion, records, cursor.Remaining(), dimensions, loaded.value);
    }
  }

  method LoadBody(cursor: Cursor, hasArtifactVersion: bool, taxonomy: string, version: string)
    returns (loaded: Option<CategoryCentroids>)
    requires cursor.Valid()
    modifies cursor
    ensures cursor.Valid()
    ensures var parsed := old(ParseBody(!hasArtifactVersion, taxonomy, version, cursor.Remaining()));
      (loaded.Some? <==> parsed.Some?) && (loaded.Some? ==> Loads(loaded.value, parsed.value))
  {
    var dimensions := cursor.U32();
    if dimensions.None? {
      return None;
    }
    var count := cursor.U32();
    if count.None? || taxonomy == [] || version == [] || dimensions.value == 0 || count.value == 0 {
      return None;
    }
    var prototypes := LoadRecords(cursor, hasArtifactVersion, dimensions.value, count.value);
    if prototypes.None? || cursor.Remaining() != [] {
      return None;
    }
    loaded := Some(CategoryCentroids(taxonomy, version, prototypes.value));
  }
}
