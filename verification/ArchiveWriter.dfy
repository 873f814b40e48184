/**
 A ZIP writer, section 4.3 of PKWARE's APPNOTE: each part behind its local header, with or
 without a data descriptor, then the central directory, then the end record. On what it writes
 the checker is exact: an archive is accepted iff its sizes are within the limits, its data
 expand to their declared sizes and no header carries a ZIP64 record, with one exception that
 follows from looking for the last signature: a count and a length in the end record that
 together spell the record's own signature.
 */
module ArchiveWriter {
  import opened Text
  import opened Archive

  /** One record of an extra field. */
  datatype Field = Field(tag: nat, body: Bytes)

  /** A part; one that is `streamed` leaves its checksum and sizes to a descriptor behind the data. */
  datatype Part = Part(
    name: Bytes, method_: nat, streamed: bool, data: Bytes, size: nat, crc: nat,
    localExtra: seq<Field>, centralExtra: seq<Field>, remark: Bytes)

  // ------------------------------------------------------------ little-endian numbers

  function Le16(n: nat): (b: Bytes)
    ensures |b| == 2
  {
    [n % 0x100, n / 0x100 % 0x100]
  }

  function Le32(n: nat): (b: Bytes)
    ensures |b| == 4
  {
    Le16(n % 0x1_0000) + Le16(n / 0x1_0000)
  }

  /** The bytes `s` stand at position `i`. */
  ghost predicate At(b: Bytes, i: nat, s: Bytes) {
    i + |s| <= |b| && b[i..i + |s|] == s
  }

  lemma AtParts(b: Bytes, i: nat, s: Bytes, t: Bytes)
    requires At(b, i, s + t)
    ensures At(b, i, s) && At(b, i + |s|, t)
  {
    var all := b[i..i + |s + t|];
    assert b[i..i + |s|] == all[..|s|] && b[i + |s|..i + |s| + |t|] == all[|s|..];
  }

  lemma AtInside(b: Bytes, i: nat, s: Bytes, j: nat, t: Bytes)
    requires At(b, i, s) && At(s, j, t)
    ensures At(b, i + j, t)
  {
    var inner := b[i + j..i + j + |t|];
    forall k | 0 <= k < |t|
      ensures inner[k] == t[k]
    {
      assert b[i..i + |s|][j + k] == s[j + k] && s[j..j + |t|][k] == t[k];
    }
  }

  lemma ReadsU16(b: Bytes, at: nat, n: nat)
    requires At(b, at, Le16(n)) && n < 0x1_0000
    ensures at + 2 <= |b| && U16(b, at) == n
  {
    assert b[at] == b[at..at + 2][0] && b[at + 1] == b[at..at + 2][1];
  }

  lemma ReadsU32(b: Bytes, at: nat, n: nat)
    requires At(b, at, Le32(n)) && n < 0x1_0000_0000
    ensures at + 4 <= |b| && U32(b, at) == n
  {
    hide At, Le16, U16;
    AtParts(b, at, Le16(n % 0x1_0000), Le16(n / 0x1_0000));
    ReadsU16(b, at, n % 0x1_0000);
    ReadsU16(b, at + 2, n / 0x1_0000);
  }

  /** Reads one number off the front and goes on behind it. */
  lemma Next16(b: Bytes, at: nat, n: nat, rest: Bytes)
    requires At(b, at, Le16(n) + rest) && n < 0x1_0000
    ensures at + 2 <= |b| && U16(b, at) == n && At(b, at + 2, rest)
  {
    hide At, Le16, U16;
    AtParts(b, at, Le16(n), rest);
    ReadsU16(b, at, n);
  }

  lemma Next32(b: Bytes, at: nat, n: nat, rest: Bytes)
    requires At(b, at, Le32(n) + rest) && n < 0x1_0000_0000
    ensures at + 4 <= |b| && U32(b, at) == n && At(b, at + 4, rest)
  {
    hide At, Le32, U32;
    AtParts(b, at, Le32(n), rest);
    ReadsU32(b, at, n);
  }

  // ------------------------------------------------------------ the writer

  const LOCAL_MARK: Bytes := [0x50, 0x4b, 3, 4]
  const CENTRAL_MARK: Bytes := [0x50, 0x4b, 1, 2]
  const END_MARK: Bytes := [0x50, 0x4b, 5, 6]
  const DESCRIPTOR_MARK: Bytes := [0x50, 0x4b, 7, 8]

  lemma MarksAreSignatures()
    ensures LOCAL_MARK == Le32(LOCAL_SIGNATURE) && CENTRAL_MARK == Le32(CENTRAL_SIGNATURE) && END_MARK == Le32(END_SIGNATURE)
  {
  }

  function Fields(fields: seq<Field>): Bytes {
    if fields == [] then [] else
      Le16(fields[0].tag) + (Le16(|fields[0].body|) + (fields[0].body + Fields(fields[1..])))
  }

  /** The fields both headers share: method, time, date, checksum, sizes and the lengths of name and extra field. */
  function Described(method_: nat, crc: nat, compressed: nat, size: nat, name: nat, extra: nat): (h: Bytes)
    ensures |h| == 22
  {
    Le16(method_) + (Le16(0) + (Le16(0) + (Le32(crc) + (Le32(compressed) + (Le32(size) + (Le16(name) + Le16(extra)))))))
  }

  /** A number the local header of a streamed part leaves out. */
  function Held(p: Part, n: nat): nat { if p.streamed then 0 else n }

  function Flags(p: Part): nat { if p.streamed then 8 else 0 }

  function LocalHeader(p: Part): (h: Bytes)
    ensures |h| == 30
  {
    LOCAL_MARK + (Le16(20) + (Le16(Flags(p)) +
      Described(p.method_, Held(p, p.crc), Held(p, |p.data|), Held(p, p.size), |p.name|, |Fields(p.localExtra)|)))
  }

  function CentralHeader(p: Part, offset: nat): (h: Bytes)
    ensures |h| == 46
  {
    CENTRAL_MARK + (Le16(20) + (Le16(20) + (Le16(Flags(p)) +
      (Described(p.method_, p.crc, |p.data|, p.size, |p.name|, |Fields(p.centralExtra)|) +
        (Le16(|p.remark|) + (Le16(0) + (Le16(0) + (Le32(0) + Le32(offset)))))))))
  }

  function Descriptor(p: Part): Bytes {
    if p.streamed then DESCRIPTOR_MARK + (Le32(p.crc) + (Le32(|p.data|) + Le32(p.size))) else []
  }

  function EndRecord(count: nat, length: nat, offset: nat, note: Bytes): (h: Bytes)
    ensures |h| == 22 + |note|
  {
    END_MARK + (Le16(0) + (Le16(0) + (Le16(count) + (Le16(count) + (Le32(length) + (Le32(offset) + (Le16(|note|) + note)))))))
  }

  function LocalRecord(p: Part): Bytes {
    LocalHeader(p) + (p.name + (Fields(p.localExtra) + (p.data + Descriptor(p))))
  }

  function CentralRecord(p: Part, offset: nat): Bytes {
    CentralHeader(p, offset) + (p.name + (Fields(p.centralExtra) + p.remark))
  }

  function Body(parts: seq<Part>): Bytes {
    if parts == [] then [] else Body(parts[..|parts| - 1]) + LocalRecord(parts[|parts| - 1])
  }

  function Directory(parts: seq<Part>): Bytes {
    if parts == [] then [] else
      Directory(parts[..|parts| - 1]) + CentralRecord(parts[|parts| - 1], |Body(parts[..|parts| - 1])|)
  }

  function Zip(parts: seq<Part>, note: Bytes): Bytes {
    Body(parts) + (Directory(parts) + EndRecord(|parts|, |Directory(parts)|, |Body(parts)|, note))
  }

  // ------------------------------------------------------------ what lies where

  lemma AtAppended(s: Bytes, t: Bytes)
    ensures At(s + t, |s|, t)
  {
  }

  lemma AtFront(s: Bytes, t: Bytes, i: nat, u: Bytes)
    requires At(s, i, u)
    ensures At(s + t, i, u)
  {
    assert (s + t)[i..i + |u|] == s[i..i + |u|];
  }

  lemma {:induction false} PartsLie(parts: seq<Part>, i: nat)
    requires i < |parts|
    ensures At(Body(parts), |Body(parts[..i])|, LocalRecord(parts[i]))
    ensures At(Directory(parts), |Directory(parts[..i])|, CentralRecord(parts[i], |Body(parts[..i])|))
    decreases |parts|
  {
    hide LocalRecord, CentralRecord, At;
    var n := |parts| - 1;
    var front := parts[..n];
    var local, central := LocalRecord(parts[n]), CentralRecord(parts[n], |Body(front)|);
    if i < n {
      PartsLie(front, i);
      assert front[..i] == parts[..i];
      AtFront(Body(front), local, |Body(parts[..i])|, LocalRecord(parts[i]));
      AtFront(Directory(front), central, |Directory(parts[..i])|, CentralRecord(parts[i], |Body(parts[..i])|));
    } else {
      AtAppended(Body(front), local);
      AtAppended(Directory(front), central);
    }
  }

  lemma {:induction false} BodyGrows(parts: seq<Part>, i: nat, j: nat)
    requires i < j <= |parts|
    ensures |Body(parts[..i])| + |LocalRecord(parts[i])| <= |Body(parts[..j])|
    decreases j - i
  {
    hide LocalRecord;
    assert parts[..j][..j - 1] == parts[..j - 1];
    if i < j - 1 {
      BodyGrows(parts, i, j - 1);
    }
  }

  // ------------------------------------------------------------ one part read back

  ghost predicate FieldsFit(fields: seq<Field>) {
    |Fields(fields)| < 0x1_0000 && forall f | f in fields :: f.tag < 0x1_0000
  }

  /** Every number of the part fits the width its headers give it. */
  ghost predicate Fits(p: Part) {
    && |p.name| < 0x1_0000 && |p.remark| < 0x1_0000 && p.method_ < 0x1_0000
    && |p.data| < 0x1_0000_0000 && p.size < 0x1_0000_0000 && p.crc < 0x1_0000_0000
    && FieldsFit(p.localExtra) && FieldsFit(p.centralExtra)
  }

  ghost predicate Holds(fields: seq<Field>, tag: nat) {
    exists f :: f in fields && f.tag == tag
  }

  /** Walking an extra field meets exactly the tags written into it. */
  lemma {:induction false} TagsRead(b: Bytes, at: nat, fields: seq<Field>, tag: nat)
    requires FieldsFit(fields) && At(b, at, Fields(fields))
    ensures at + |Fields(fields)| <= |b|
    ensures tag in ExtraTags(b, at, at + |Fields(fields)|) <==> Holds(fields, tag)
    decreases |fields|
  {
    hide At, Le16, U16;
    if fields != [] {
      var f, rest := fields[0], fields[1..];
      var r := f.body + Fields(rest);
      AtInBounds(b, at, Fields(fields));
      Next16(b, at, f.tag, Le16(|f.body|) + r);
      Next16(b, at + 2, |f.body|, r);
      AtParts(b, at + 4, f.body, Fields(rest));
      TagsRead(b, at + 4 + |f.body|, rest, tag);
      HoldsFirst(fields, tag);
    } else {
      AtInBounds(b, at, []);
    }
  }

  lemma AtInBounds(b: Bytes, i: nat, s: Bytes)
    requires At(b, i, s)
    ensures i + |s| <= |b| && b[i..i + |s|] == s
  {
  }

  lemma HoldsFirst(fields: seq<Field>, tag: nat)
    requires fields != []
    ensures Holds(fields, tag) <==> fields[0].tag == tag || Holds(fields[1..], tag)
  {
    assert fields == [fields[0]] + fields[1..];
  }

  lemma DescribedFields(b: Bytes, at: nat, m: nat, crc: nat, compressed: nat, size: nat, name: nat, extra: nat, rest: Bytes)
    requires m < 0x1_0000 && crc < 0x1_0000_0000 && compressed < 0x1_0000_0000 && size < 0x1_0000_0000 && name < 0x1_0000 && extra < 0x1_0000
    requires At(b, at, Described(m, crc, compressed, size, name, extra) + rest)
    ensures at + 22 <= |b| && U16(b, at) == m && U32(b, at + 10) == compressed && U32(b, at + 14) == size
    ensures U16(b, at + 18) == name && U16(b, at + 20) == extra && At(b, at + 22, rest)
  {
    hide At, Le16, Le32, U16, U32;
    AtParts(b, at, Described(m, crc, compressed, size, name, extra), rest);
    var r8 := Le16(extra);
    var r7 := Le16(name) + r8;
    var r6 := Le32(size) + r7;
    var r5 := Le32(compressed) + r6;
    var r4 := Le32(crc) + r5;
    var r3 := Le16(0) + r4;
    var r2 := Le16(0) + r3;
    Next16(b, at, m, r2);
    Next16(b, at + 2, 0, r3);
    Next16(b, at + 4, 0, r4);
    Next32(b, at + 6, crc, r5);
    Next32(b, at + 10, compressed, r6);
    Next32(b, at + 14, size, r7);
    Next16(b, at + 18, name, r8);
    ReadsU16(b, at + 20, extra);
  }

  lemma {:induction false} LocalFields(b: Bytes, at: nat, p: Part)
    requires Fits(p) && At(b, at, LocalHeader(p))
    ensures at + 30 <= |b| && U32(b, at) == LOCAL_SIGNATURE && U16(b, at + 6) == Flags(p) && U16(b, at + 8) == p.method_
    ensures U32(b, at + 18) == Held(p, |p.data|) && U32(b, at + 22) == Held(p, p.size)
    ensures U16(b, at + 26) == |p.name| && U16(b, at + 28) == |Fields(p.localExtra)|
  {
    hide At, Le16, Le32, U16, U32, Described, Fields;
    MarksAreSignatures();
    var d := Described(p.method_, Held(p, p.crc), Held(p, |p.data|), Held(p, p.size), |p.name|, |Fields(p.localExtra)|);
    assert d == d + [];
    Next32(b, at, LOCAL_SIGNATURE, Le16(20) + (Le16(Flags(p)) + d));
    Next16(b, at + 4, 20, Le16(Flags(p)) + d);
    Next16(b, at + 6, Flags(p), d);
    DescribedFields(b, at + 8, p.method_, Held(p, p.crc), Held(p, |p.data|), Held(p, p.size), |p.name|, |Fields(p.localExtra)|, []);
  }

  lemma {:induction false} CentralFields(b: Bytes, at: nat, p: Part, offset: nat)
    requires Fits(p) && offset < 0x1_0000_0000 && At(b, at, CentralHeader(p, offset))
    ensures at + 46 <= |b| && U32(b, at) == CENTRAL_SIGNATURE && U16(b, at + 10) == p.method_
    ensures U32(b, at + 20) == |p.data| && U32(b, at + 24) == p.size && U32(b, at + 42) == offset
    ensures U16(b, at + 28) == |p.name| && U16(b, at + 30) == |Fields(p.centralExtra)| && U16(b, at + 32) == |p.remark|
  {
    hide At, Le16, Le32, U16, U32, Described, Fields;
    MarksAreSignatures();
    var r9 := Le32(offset);
    var r8 := Le32(0) + r9;
    var r7 := Le16(0) + r8;
    var r6 := Le16(0) + r7;
    var r5 := Le16(|p.remark|) + r6;
    var r4 := Described(p.method_, p.crc, |p.data|, p.size, |p.name|, |Fields(p.centralExtra)|) + r5;
    var r3 := Le16(Flags(p)) + r4;
    var r2 := Le16(20) + r3;
    Next32(b, at, CENTRAL_SIGNATURE, Le16(20) + r2);
    Next16(b, at + 4, 20, r2);
    Next16(b, at + 6, 20, r3);
    Next16(b, at + 8, Flags(p), r4);
    DescribedFields(b, at + 10, p.method_, p.crc, |p.data|, p.size, |p.name|, |Fields(p.centralExtra)|, r5);
    Next16(b, at + 32, |p.remark|, r6);
    Next16(b, at + 34, 0, r7);
    Next16(b, at + 36, 0, r8);
    Next32(b, at + 38, 0, r9);
    ReadsU32(b, at + 42, offset);
  }

  /** The part's central record at `at` and its local record at `offset`, as written. */
  ghost predicate Lies(b: Bytes, at: nat, offset: nat, p: Part) {
    offset < 0x1_0000_0000 && At(b, at, CentralRecord(p, offset)) && At(b, offset, LocalRecord(p))
  }

  /** What the checker must read of a part written at `offset`. */
  function Written(p: Part, offset: nat): Entry {
    Entry(offset, p.method_, offset + 30 + |p.name| + |Fields(p.localExtra)|, |p.data|, p.size)
  }

  function RecordSize(p: Part): nat { 46 + |p.name| + |Fields(p.centralExtra)| + |p.remark| }

  /** The headers' fields and what stands behind them. */
  lemma {:induction false} PartReads(b: Bytes, at: nat, offset: nat, p: Part)
    requires Fits(p) && Lies(b, at, offset, p)
    ensures offset < 0x1_0000_0000 && At(b, at, CentralHeader(p, offset)) && At(b, offset, LocalHeader(p))
    ensures At(b, at + 46, p.name) && At(b, offset + 30, p.name)
    ensures At(b, at + 46 + |p.name|, Fields(p.centralExtra)) && At(b, offset + 30 + |p.name|, Fields(p.localExtra))
    ensures At(b, Written(p, offset).start, p.data)
  {
    hide At, LocalHeader, CentralHeader, Fields, Descriptor;
    AtParts(b, at, CentralHeader(p, offset), p.name + (Fields(p.centralExtra) + p.remark));
    AtParts(b, at + 46, p.name, Fields(p.centralExtra) + p.remark);
    AtParts(b, at + 46 + |p.name|, Fields(p.centralExtra), p.remark);
    AtParts(b, offset, LocalHeader(p), p.name + (Fields(p.localExtra) + (p.data + Descriptor(p))));
    AtParts(b, offset + 30, p.name, Fields(p.localExtra) + (p.data + Descriptor(p)));
    AtParts(b, offset + 30 + |p.name|, Fields(p.localExtra), p.data + Descriptor(p));
    AtParts(b, offset + 30 + |p.name| + |Fields(p.localExtra)|, p.data, Descriptor(p));
  }

  /** The entry read of a part is the part. */
  lemma {:induction false} EntryRead(b: Bytes, at: nat, offset: nat, p: Part)
    requires Fits(p) && Lies(b, at, offset, p)
    ensures at + 46 <= |b| && RecordLength(b, at) == RecordSize(p) && EntryAt(b, at) == Written(p, offset)
    ensures Written(p, offset).End() <= |b| && b[Written(p, offset).start..Written(p, offset).End()] == p.data
  {
    hide At, U16, U32, LocalHeader, CentralHeader, Fields, Lies;
    PartReads(b, at, offset, p);
    CentralFields(b, at, p, offset);
    LocalFields(b, offset, p);
    AtInBounds(b, Written(p, offset).start, p.data);
  }

  /** Neither header carries a ZIP64 record, and the part is within its limit. */
  ghost predicate Allowed(p: Part) {
    p.size <= PART_LIMIT && !Holds(p.localExtra, 1) && !Holds(p.centralExtra, 1)
  }

  lemma {:induction false} NamesRead(b: Bytes, at: nat, offset: nat, p: Part)
    requires Fits(p) && Lies(b, at, offset, p)
    ensures at + 46 <= |b| && offset + 30 <= |b| && at + 46 + NameLength(b, at) <= |b| && SameName(b, at, offset)
  {
    hide At, U16, U32, LocalHeader, CentralHeader, Fields, Lies;
    PartReads(b, at, offset, p);
    CentralFields(b, at, p, offset);
    LocalFields(b, offset, p);
    AtInBounds(b, at + 46, p.name);
    AtInBounds(b, offset + 30, p.name);
  }

  lemma {:induction false} SizesRead(b: Bytes, at: nat, offset: nat, p: Part)
    requires Fits(p) && Lies(b, at, offset, p)
    ensures at + 46 <= |b| && offset + 30 <= |b| && SizesAgree(b, at, offset)
  {
    hide At, U16, U32, LocalHeader, CentralHeader, Fields, Lies;
    PartReads(b, at, offset, p);
    CentralFields(b, at, p, offset);
    LocalFields(b, offset, p);
  }

  lemma {:induction false} ExtrasRead(b: Bytes, at: nat, offset: nat, p: Part)
    requires Fits(p) && Lies(b, at, offset, p)
    ensures CarriesZip64(b, at + 46 + |p.name|, |Fields(p.centralExtra)|) <==> Holds(p.centralExtra, 1)
    ensures CarriesZip64(b, offset + 30 + |p.name|, |Fields(p.localExtra)|) <==> Holds(p.localExtra, 1)
  {
    hide At, LocalHeader, CentralHeader, Fields, Lies, ExtraTags, Holds, FieldsFit;
    PartReads(b, at, offset, p);
    TagsRead(b, at + 46 + |p.name|, p.centralExtra, 1);
    TagsRead(b, offset + 30 + |p.name|, p.localExtra, 1);
  }

  /** A central record and its local record, as written, are accepted iff the part is allowed. */
  lemma {:induction false} RecordAccepted(b: Bytes, at: nat, offset: nat, p: Part)
    requires Fits(p) && Lies(b, at, offset, p)
    ensures RecordOk(b, at) <==> Allowed(p)
  {
    hide At, U16, U32, LocalHeader, CentralHeader, Fields, CarriesZip64, SizesAgree, SameName, Lies, Holds, FieldsFit;
    PartReads(b, at, offset, p);
    CentralFields(b, at, p, offset);
    LocalFields(b, offset, p);
    NamesRead(b, at, offset, p);
    SizesRead(b, at, offset, p);
    ExtrasRead(b, at, offset, p);
    EntryRead(b, at, offset, p);
  }

  // ------------------------------------------------------------ the whole archive

  function TotalOf(parts: seq<Part>): nat {
    if parts == [] then 0 else TotalOf(parts[..|parts| - 1]) + parts[|parts| - 1].size
  }

  /** Parts and a note whose numbers fit the widths the format gives them. */
  ghost predicate Encodable(parts: seq<Part>, note: Bytes) {
    && |parts| < 0x1_0000 && |note| < 0x1_0000
    && |Body(parts)| < 0x1_0000_0000 && |Directory(parts)| < 0x1_0000_0000
    && forall i | 0 <= i < |parts| :: Fits(parts[i])
  }

  /** A stored part has its own size; a deflated one inflates, without failing, to exactly its declared size. */
  ghost predicate Expands(p: Part, inflate: Bytes -> Inflation) {
    if p.method_ == 0 then |p.data| == p.size
    else p.method_ == 8 && !inflate(p.data).failed && Sum(inflate(p.data).chunks) == p.size
  }

  /** What the checker demands of the parts. */
  ghost predicate Acceptable(parts: seq<Part>, inflate: Bytes -> Inflation) {
    && (forall i | 0 <= i < |parts| :: Allowed(parts[i]))
    && (forall i | 0 <= i < |parts| :: Expands(parts[i], inflate))
    && TotalOf(parts) <= EXPANDED_LIMIT
  }

  function EntryOf(parts: seq<Part>, i: nat): Entry
    requires i < |parts|
  {
    Written(parts[i], |Body(parts[..i])|)
  }

  lemma ZipLength(parts: seq<Part>, note: Bytes)
    ensures |Zip(parts, note)| == |Body(parts)| + |Directory(parts)| + 22 + |note|
  {
  }

  /** Where the i-th central record stands. */
  function RecordAt(parts: seq<Part>, i: nat): nat
    requires i <= |parts|
  {
    |Body(parts)| + |Directory(parts[..i])|
  }

  lemma {:induction false} PartLies(parts: seq<Part>, note: Bytes, i: nat)
    requires Encodable(parts, note) && i < |parts|
    ensures Lies(Zip(parts, note), RecordAt(parts, i), |Body(parts[..i])|, parts[i])
  {
    hide LocalRecord, CentralRecord, EndRecord, At, Body, Directory, Fits;
    var end := EndRecord(|parts|, |Directory(parts)|, |Body(parts)|, note);
    var body, tail := Body(parts), Directory(parts) + end;
    PartsLie(parts, i);
    AtFront(body, tail, |Body(parts[..i])|, LocalRecord(parts[i]));
    AtFront(Directory(parts), end, |Directory(parts[..i])|, CentralRecord(parts[i], |Body(parts[..i])|));
    AtAppended(body, tail);
    AtInside(body + tail, |body|, tail, |Directory(parts[..i])|, CentralRecord(parts[i], |Body(parts[..i])|));
    BodyGrows(parts, i, |parts|);
    assert parts[..|parts|] == parts;
  }

  lemma {:induction false} PartRead(parts: seq<Part>, note: Bytes, i: nat, inflate: Bytes -> Inflation)
    requires Encodable(parts, note) && i < |parts|
    ensures var b, at, e := Zip(parts, note), RecordAt(parts, i), EntryOf(parts, i);
      && at + 46 <= |b| && RecordLength(b, at) == RecordSize(parts[i]) && EntryAt(b, at) == e
      && (RecordOk(b, at) <==> Allowed(parts[i]))
      && e.End() <= |b| && (PayloadOk(b, e, inflate) <==> Expands(parts[i], inflate))
  {
    hide Zip, Body, Directory, RecordOk, RecordLength, EntryAt, Lies, Fits, RecordSize, Fields, Sum, Allowed, RecordAt;
    PartLies(parts, note, i);
    EntryRead(Zip(parts, note), RecordAt(parts, i), |Body(parts[..i])|, parts[i]);
    RecordAccepted(Zip(parts, note), RecordAt(parts, i), |Body(parts[..i])|, parts[i]);
  }

  lemma DirectoryGrows(parts: seq<Part>, i: nat)
    requires 0 < i <= |parts|
    ensures RecordAt(parts, i) == RecordAt(parts, i - 1) + RecordSize(parts[i - 1])
  {
    hide CentralHeader, Body, Fields;
    assert parts[..i][..i - 1] == parts[..i - 1];
  }

  lemma {:induction false} OffsetNext(parts: seq<Part>, note: Bytes, i: nat)
    requires Encodable(parts, note) && 0 < i <= |parts|
    requires Offset(Zip(parts, note), |Body(parts)|, i - 1) == RecordAt(parts, i - 1)
    ensures Offset(Zip(parts, note), |Body(parts)|, i) == RecordAt(parts, i)
  {
    hide Zip, Body, RecordOk, EntryAt, RecordLength, RecordSize, PayloadOk, Encodable, EntryOf, Allowed, Expands, RecordAt;
    PartRead(parts, note, i - 1, _ => Inflation([], false));
    DirectoryGrows(parts, i);
  }

  lemma {:induction false} OffsetIs(parts: seq<Part>, note: Bytes, i: nat)
    requires Encodable(parts, note) && i <= |parts|
    ensures Offset(Zip(parts, note), |Body(parts)|, i) == RecordAt(parts, i)
  {
    hide Zip, Body, Encodable, RecordLength;
    if i > 0 {
      OffsetIs(parts, note, i - 1);
      OffsetNext(parts, note, i);
    }
  }

  /** The entries read are the parts written, each accepted iff it is allowed. */
  lemma {:induction false} EntriesAre(parts: seq<Part>, note: Bytes)
    requires Encodable(parts, note)
    ensures var b, start := Zip(parts, note), |Body(parts)|;
      && (RecordsOk(b, start, |parts|) <==> forall i | 0 <= i < |parts| :: Allowed(parts[i]))
      && forall i | 0 <= i < |parts| :: Entries(b, start, |parts|)[i] == EntryOf(parts, i)
  {
    hide Zip, Body, RecordOk, EntryAt, PayloadOk, Encodable, Offset, EntryOf, Entries, RecordLength, RecordSize, RecordAt, Allowed, Expands;
    var b, start := Zip(parts, note), |Body(parts)|;
    forall i | 0 <= i < |parts|
      ensures (RecordOk(b, Offset(b, start, i)) <==> Allowed(parts[i])) && Entries(b, start, |parts|)[i] == EntryOf(parts, i)
    {
      OffsetIs(parts, note, i);
      PartRead(parts, note, i, _ => Inflation([], false));
    }
  }

  lemma {:induction false} TotalsAgree(parts: seq<Part>, es: seq<Entry>, n: nat)
    requires n <= |parts| == |es| && forall i | 0 <= i < |parts| :: es[i] == EntryOf(parts, i)
    ensures TotalSize(es[..n]) == TotalOf(parts[..n])
  {
    hide EntryOf;
    if n > 0 {
      TotalsAgree(parts, es, n - 1);
      assert es[..n][..n - 1] == es[..n - 1] && parts[..n][..n - 1] == parts[..n - 1];
      SizeOfEntry(parts, n - 1);
    }
  }

  lemma SizeOfEntry(parts: seq<Part>, i: nat)
    requires i < |parts|
    ensures EntryOf(parts, i).size == parts[i].size
  {
  }

  lemma EntriesApart(parts: seq<Part>, i: nat, j: nat)
    requires i < j < |parts|
    ensures Apart(EntryOf(parts, i), EntryOf(parts, j))
  {
    hide Body;
    BodyGrows(parts, i, j);
  }

  lemma {:induction false} EndFields(parts: seq<Part>, note: Bytes)
    requires Encodable(parts, note)
    ensures var b, end := Zip(parts, note), |Body(parts)| + |Directory(parts)|;
      && |b| == end + 22 + |note| && U32(b, end) == END_SIGNATURE && U16(b, end + 8) == |parts| && U16(b, end + 10) == |parts|
      && U32(b, end + 12) == |Directory(parts)| && U32(b, end + 16) == |Body(parts)| && U16(b, end + 20) == |note|
      && At(b, end, EndRecord(|parts|, |Directory(parts)|, |Body(parts)|, note))
  {
    hide At, Le16, Le32, U16, U32, Body, Directory, Fits;
    var b, body, dir := Zip(parts, note), Body(parts), Directory(parts);
    var end, count := |body| + |dir|, |parts|;
    var record := EndRecord(count, |dir|, |body|, note);
    assert b == body + dir + record;
    AtAppended(body + dir, record);
    MarksAreSignatures();
    var r7 := Le16(|note|) + note;
    var r6 := Le32(|body|) + r7;
    var r5 := Le32(|dir|) + r6;
    var r4 := Le16(count) + r5;
    var r3 := Le16(count) + r4;
    var r2 := Le16(0) + r3;
    Next32(b, end, END_SIGNATURE, Le16(0) + r2);
    Next16(b, end + 4, 0, r2);
    Next16(b, end + 6, 0, r3);
    Next16(b, end + 8, count, r4);
    Next16(b, end + 10, count, r5);
    Next32(b, end + 12, |dir|, r6);
    Next32(b, end + 16, |body|, r7);
    Next16(b, end + 20, |note|, note);
  }

  lemma {:induction false} PartsApart(parts: seq<Part>, es: seq<Entry>)
    requires |es| == |parts| && forall i | 0 <= i < |parts| :: es[i] == EntryOf(parts, i)
    ensures Disjoint(es)
  {
    hide EntryOf, Apart;
    forall i, j | 0 <= i < j < |es|
      ensures Apart(es[i], es[j])
    {
      EntriesApart(parts, i, j);
    }
  }

  lemma {:induction false} PayloadsDecide(parts: seq<Part>, note: Bytes, inflate: Bytes -> Inflation, es: seq<Entry>)
    requires Encodable(parts, note) && |es| == |parts| && forall i | 0 <= i < |parts| :: es[i] == EntryOf(parts, i)
    ensures forall e | e in es :: e.End() <= |Zip(parts, note)|
    ensures (forall e | e in es :: PayloadOk(Zip(parts, note), e, inflate)) <==> forall i | 0 <= i < |parts| :: Expands(parts[i], inflate)
  {
    hide Zip, Body, EntryOf, PayloadOk, Encodable, RecordOk, EntryAt, RecordLength, RecordSize, RecordAt, Allowed, Expands;
    var b := Zip(parts, note);
    forall i | 0 <= i < |parts|
      ensures es[i].End() <= |b| && (PayloadOk(b, es[i], inflate) <==> Expands(parts[i], inflate))
    {
      PartRead(parts, note, i, inflate);
    }
    assert forall i | 0 <= i < |es| :: es[i] in es;
  }

  lemma {:induction false} SizesAgreeInAll(parts: seq<Part>, es: seq<Entry>)
    requires |es| == |parts| && forall i | 0 <= i < |parts| :: es[i] == EntryOf(parts, i)
    ensures TotalSize(es) == TotalOf(parts)
  {
    hide EntryOf, TotalOf, TotalSize;
    TotalsAgree(parts, es, |es|);
    assert es[..|es|] == es && parts[..|es|] == parts;
  }

  /** Once the end record is found, the directory is accepted iff the parts are acceptable. */
  lemma {:induction false} DirectoryDecides(parts: seq<Part>, note: Bytes, inflate: Bytes -> Inflation)
    requires Encodable(parts, note)
    ensures var b, end := Zip(parts, note), |Body(parts)| + |Directory(parts)|;
      end + 22 <= |b| && (DirectoryOk(b, end, inflate) <==> Acceptable(parts, inflate))
  {
    hide Zip, Body, Directory, RecordsOk, Entries, Offset, U16, U32, EntryOf, PayloadOk, Encodable, TotalSize, EndRecord, At, Disjoint, Allowed, Expands, TotalOf;
    var b, start, n := Zip(parts, note), |Body(parts)|, |parts|;
    var es := Entries(b, start, n);
    EndFields(parts, note);
    EntriesAre(parts, note);
    OffsetIs(parts, note, n);
    assert parts[..n] == parts;
    SizesAgreeInAll(parts, es);
    PartsApart(parts, es);
    PayloadsDecide(parts, note, inflate, es);
  }

  // ------------------------------------------------------------ finding the end record

  lemma MarkedOutside(b: Bytes, end: nat, h: Bytes, j: nat)
    requires At(b, end, h) && |b| == end + |h| && j + 4 <= |h|
    ensures Marked(b, end + j) <==> Marked(h, j)
  {
    var t := b[end..end + |h|];
    assert t[j] == b[end + j] && t[j + 1] == b[end + (j + 1)] && t[j + 2] == b[end + (j + 2)] && t[j + 3] == b[end + (j + 3)];
    assert b[end + j] == h[j] && b[end + (j + 1)] == h[j + 1] && b[end + (j + 2)] == h[j + 2] && b[end + (j + 3)] == h[j + 3];
  }

  /** The end record with its note holds the signature a second time. */
  ghost predicate MarkedAgain(parts: seq<Part>, note: Bytes) {
    exists j: nat :: j >= 1 && Marked(EndRecord(|parts|, |Directory(parts)|, |Body(parts)|, note), j)
  }

  lemma {:induction false} EndIsLast(parts: seq<Part>, note: Bytes)
    requires Encodable(parts, note)
    ensures var b, end := Zip(parts, note), |Body(parts)| + |Directory(parts)|;
      && (LastSignature(b, end) <==> !MarkedAgain(parts, note))
      && (forall e | LastSignature(b, e) :: e >= end && (MarkedAgain(parts, note) ==> e > end))
  {
    hide Zip, Body, Directory, EndRecord, Encodable, U16, U32, At, SignatureAt, Marked;
    var b, end := Zip(parts, note), |Body(parts)| + |Directory(parts)|;
    var h := EndRecord(|parts|, |Directory(parts)|, |Body(parts)|, note);
    EndFields(parts, note);
    InWindow(parts, note);
    assert SignatureAt(b, end, END_SIGNATURE) by { IsSignature(b, end); }
    forall k | end < k <= |b| - 4
      ensures SignatureAt(b, k, END_SIGNATURE) <==> Marked(h, k - end)
    {
      MarkedOutside(b, end, h, k - end);
      MarkedIsSignature(b, k);
    }
    if MarkedAgain(parts, note) {
      var j: nat :| j >= 1 && Marked(h, j);
      MarkedInRange(h, j);
      assert SignatureAt(b, end + j, END_SIGNATURE);
    }
  }

  lemma MarkedInRange(h: Bytes, j: nat)
    requires Marked(h, j)
    ensures j + 4 <= |h|
  {
  }

  lemma IsSignature(b: Bytes, k: nat)
    requires k + 4 <= |b| && U32(b, k) == END_SIGNATURE
    ensures SignatureAt(b, k, END_SIGNATURE)
  {
  }

  lemma InWindow(parts: seq<Part>, note: Bytes)
    requires Encodable(parts, note)
    ensures WindowStart(Zip(parts, note)) <= |Body(parts)| + |Directory(parts)|
  {
    hide Body, Directory, EndRecord, Fits;
    ZipLength(parts, note);
  }

  /**
   Where the end record and its note do not hold the signature again, the checker accepts what
   was written iff the file is within the limit and its parts are acceptable.
   */
  lemma {:induction false} NotedIsAcceptedIff(parts: seq<Part>, note: Bytes, inflate: Bytes -> Inflation)
    requires Encodable(parts, note) && !MarkedAgain(parts, note)
    ensures ArchiveOk(Zip(parts, note), inflate) <==> |Zip(parts, note)| <= BYTES_LIMIT && Acceptable(parts, inflate)
  {
    hide Zip, Body, Directory, Encodable, DirectoryOk, MarkedAgain, Acceptable, LastSignature;
    EndIsLast(parts, note);
    DirectoryDecides(parts, note, inflate);
    var b, end := Zip(parts, note), |Body(parts)| + |Directory(parts)|;
    forall e | LastSignature(b, e)
      ensures e == end
    {
      OneLast(b, e, end);
    }
  }

  lemma OneLast(b: Bytes, e: int, f: int)
    requires LastSignature(b, e) && LastSignature(b, f)
    ensures e == f
  {
    hide SignatureAt;
    SignatureFits(b, e);
    SignatureFits(b, f);
  }

  lemma SignatureFits(b: Bytes, e: int)
    requires LastSignature(b, e)
    ensures 0 <= e <= |b| - 4
  {
  }

  // ------------------------------------------------------------ without a note, exactly when

  /** The counts and the directory's length, side by side in the end record, spell its signature. */
  predicate Ambiguous(count: nat, length: nat) {
    || (count == 0x4b50 && length % 0x1_0000 == 0x0605)
    || (count / 0x100 == 0x50 && length % 0x100_0000 == 0x06_054b)
  }

  /** Where each field of the end record stands. */
  lemma {:induction false} EndLayout(m: Bytes, z: Bytes, c: Bytes, l: Bytes, o: Bytes)
    requires |m| == 4 && |z| == 2 && |c| == 2 && |l| == 4 && |o| == 4
    ensures var h := m + (z + (z + (c + (c + (l + (o + (z + [])))))));
      && |h| == 22 && h[..4] == m && h[4..6] == z && h[6..8] == z && h[8..10] == c && h[10..12] == c
      && h[12..16] == l && h[16..20] == o && h[20..22] == z
  {
    var t := l + (o + (z + []));
    assert t[..4] == l && t[4..8] == o && t[8..10] == z;
    var u := z + (z + (c + (c + t)));
    assert u[..2] == z && u[2..4] == z && u[4..6] == c && u[6..8] == c && u[8..] == t;
    var h := m + u;
    assert h[4..] == u && h[12..] == t;
    assert h[4..6] == u[..2] && h[6..8] == u[2..4] && h[8..10] == u[4..6] && h[10..12] == u[6..8];
    assert h[12..16] == t[..4] && h[16..20] == t[4..8] && h[20..22] == t[8..10];
  }

  lemma {:induction false} PairAt(h: Bytes, i: nat, n: nat)
    requires i + 2 <= |h| && n < 0x1_0000 && h[i..i + 2] == Le16(n)
    ensures h[i] == n % 0x100 && h[i + 1] == n / 0x100
  {
    assert h[i] == h[i..i + 2][0] && h[i + 1] == h[i..i + 2][1];
  }

  lemma {:induction false} EndBytes(count: nat, length: nat, offset: nat)
    requires count < 0x1_0000
    ensures var h := EndRecord(count, length, offset, []);
      && h[0] == 0x50 && h[1] == 0x4b && h[2] == 5 && h[3] == 6 && h[4] == 0 && h[5] == 0 && h[6] == 0 && h[7] == 0
      && h[8] == h[10] == count % 0x100 && h[9] == h[11] == count / 0x100 && h[20] == 0 && h[21] == 0
      && h[12..16] == Le32(length) && h[16..20] == Le32(offset)
  {
    hide Le16, Le32;
    var h := EndRecord(count, length, offset, []);
    EndLayout(END_MARK, Le16(0), Le16(count), Le32(length), Le32(offset));
    assert h[0] == h[..4][0] && h[1] == h[..4][1] && h[2] == h[..4][2] && h[3] == h[..4][3];
    PairAt(h, 4, 0);
    PairAt(h, 6, 0);
    PairAt(h, 8, count);
    PairAt(h, 10, count);
    PairAt(h, 20, 0);
  }

  /** A number's low 16 bits are its two low digits. */
  lemma LowDigits(n: nat)
    ensures n % 0x1_0000 == n % 0x100 + 0x100 * (n / 0x100 % 0x100)
  {
    var q := n / 0x100;
    assert n == 0x1_0000 * (q / 0x100) + (n % 0x100 + 0x100 * (q % 0x100));
  }

  lemma HighDigits(n: nat)
    ensures n / 0x1_0000 / 0x100 == n / 0x100_0000
    ensures n % 0x100_0000 == n % 0x1_0000 + 0x1_0000 * (n / 0x1_0000 % 0x100)
  {
    var q := n / 0x1_0000;
    assert n == 0x100_0000 * (q / 0x100) + (n % 0x1_0000 + 0x1_0000 * (q % 0x100));
  }

  lemma {:induction false} Le32Bytes(n: nat)
    requires n < BYTES_LIMIT
    ensures Le32(n)[0] == n % 0x100 && Le32(n)[1] == n / 0x100 % 0x100 && Le32(n)[2] == n / 0x1_0000 % 0x100 && Le32(n)[3] == n / 0x100_0000 < 4
    ensures n % 0x1_0000 == n % 0x100 + 0x100 * (n / 0x100 % 0x100)
    ensures n % 0x100_0000 == n % 0x1_0000 + 0x1_0000 * (n / 0x1_0000 % 0x100)
  {
    LowDigits(n);
    HighDigits(n);
    var low, high := n % 0x1_0000, n / 0x1_0000;
    assert low % 0x100 == n % 0x100 && low / 0x100 == n / 0x100 % 0x100;
    assert high / 0x100 < 4;
  }

  /** Every position but four is ruled out by a byte too small, or by the fixed bytes. */
  lemma TailUnmarked(h: Bytes, length: nat, offset: nat)
    requires |h| == 22 && length < BYTES_LIMIT && offset < BYTES_LIMIT
    requires h[1] == 0x4b && h[2] == 5 && h[3] == 6 && h[4] == 0 && h[5] == 0 && h[6] == 0 && h[7] == 0
    requires h[13] == length / 0x100 % 0x100 && h[14] == length / 0x1_0000 % 0x100 && h[15] == length / 0x100_0000 < 4
    requires h[17] == offset / 0x100 % 0x100 && h[18] == offset / 0x1_0000 % 0x100 && h[19] == offset / 0x100_0000 < 4
    ensures forall j: nat | j >= 1 && !(8 <= j <= 11) :: !Marked(h, j)
  {
    assert !Marked(h, 12) && !Marked(h, 13) && !Marked(h, 14) && !Marked(h, 15);
    assert !Marked(h, 16) && !Marked(h, 17) && !Marked(h, 18);
  }

  /** Without a note, the end record holds its signature again exactly when the counts and the length spell it. */
  lemma MarkedAgainIff(count: nat, length: nat, offset: nat)
    requires count < 0x1_0000 && length < BYTES_LIMIT && offset < BYTES_LIMIT
    ensures (exists j: nat :: j >= 1 && Marked(EndRecord(count, length, offset, []), j)) <==> Ambiguous(count, length)
  {
    hide EndRecord, Le32;
    var h := EndRecord(count, length, offset, []);
    EndBytes(count, length, offset);
    Le32Bytes(length);
    Le32Bytes(offset);
    assert h[12] == h[12..16][0] && h[13] == h[12..16][1] && h[14] == h[12..16][2] && h[15] == h[12..16][3];
    assert h[16] == h[16..20][0] && h[17] == h[16..20][1] && h[18] == h[16..20][2] && h[19] == h[16..20][3];
    TailUnmarked(h, length, offset);
    assert Marked(h, 10) <==> count == 0x4b50 && length % 0x1_0000 == 0x0605;
    assert Marked(h, 11) <==> count / 0x100 == 0x50 && length % 0x100_0000 == 0x06_054b;
    assert !Marked(h, 8) && !Marked(h, 9);
  }

  /**
   An archive written without a note is accepted exactly when it is within the limits, its
   parts are acceptable and its end record does not spell its own signature a second time.
   */
  lemma {:induction false} WrittenIsAcceptedIff(parts: seq<Part>, inflate: Bytes -> Inflation)
    requires Encodable(parts, [])
    ensures ArchiveOk(Zip(parts, []), inflate) <==>
      |Zip(parts, [])| <= BYTES_LIMIT && Acceptable(parts, inflate) && !Ambiguous(|parts|, |Directory(parts)|)
  {
    hide Zip, Body, Directory, DirectoryOk, LastSignature, Ambiguous, EndRecord, Marked, Acceptable, Fits;
    ZipLength(parts, []);
    if |Zip(parts, [])| <= BYTES_LIMIT {
      EndIsLast(parts, []);
      MarkedAgainIff(|parts|, |Directory(parts)|, |Body(parts)|);
      if !Ambiguous(|parts|, |Directory(parts)|) {
        NotedIsAcceptedIff(parts, [], inflate);
      }
    }
  }

  lemma {:induction false} OnePart(p: Part)
    ensures |Body([p])| == |LocalRecord(p)| && |Directory([p])| == |CentralRecord(p, 0)| && TotalOf([p]) == p.size
  {
    hide LocalRecord, CentralRecord;
    assert [p][..0] == [];
  }

  lemma {:induction false} OneField(f: Field)
    ensures |Fields([f])| == 4 + |f.body|
  {
    assert [f][1..] == [];
  }

  /** A deflated part named "a" with a timestamp in its extra field. */
  function Sample(data: Bytes, size: nat, streamed: bool): Part {
    Part([0x61], 8, streamed, data, size, 0, [Field(0x5455, [3])], [], [])
  }

  lemma {:induction false} SampleFits(data: Bytes, size: nat, streamed: bool)
    requires |data| <= 0x1_0000 && size <= PART_LIMIT
    ensures var p := Sample(data, size, streamed);
      Fits(p) && Allowed(p) && |LocalRecord(p)| <= |data| + 0x100 && |CentralRecord(p, 0)| <= 0x100
  {
    hide LocalHeader, CentralHeader;
    OneField(Field(0x5455, [3]));
    assert Fields([]) == [];
  }

  /**
   A deflated part, with its sizes in the local header or in a descriptor, is accepted exactly
   when its data expand to the declared size, whatever its compressed size.
   */
  lemma {:induction false} DeflatedPartAcceptedIff(data: Bytes, size: nat, streamed: bool, inflate: Bytes -> Inflation)
    requires |data| <= 0x1_0000 && size <= PART_LIMIT
    ensures ArchiveOk(Zip([Sample(data, size, streamed)], []), inflate) <==> !inflate(data).failed && Sum(inflate(data).chunks) == size
  {
    hide LocalRecord, CentralRecord, Fits, Allowed, Body, Directory, Zip, ArchiveOk, Sum, TotalOf;
    var p := Sample(data, size, streamed);
    SampleFits(data, size, streamed);
    OnePart(p);
    ZipLength([p], []);
    assert [p][0] == p;
    WrittenIsAcceptedIff([p], inflate);
  }
}
