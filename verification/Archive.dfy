/**
 The pre-flight check an Office file passes before any converter opens it: find the
 end-of-central-directory record, walk the directory, hold every entry to its local header
 and to its own span of the file, and inflate each entry once while counting bytes.
 Record layouts follow sections 4.3.7, 4.3.12 and 4.3.16 of PKWARE's APPNOTE.
 */
module Archive {
  import opened Text
  import opened Sorting


  const BYTES_LIMIT := 50 * 1024 * 1024
  const EXPANDED_LIMIT := 250 * 1024 * 1024
  const PART_LIMIT := 32 * 1024 * 1024
  const END_SIGNATURE := 0x06054b50
  const CENTRAL_SIGNATURE := 0x02014b50
  const LOCAL_SIGNATURE := 0x04034b50

  datatype Verdict = Accepted | TooLarge | NotOffice | Damaged

  /** What decompressing a span yields: the sizes of the chunks read, and whether the stream then failed. */
  datatype Inflation = Inflation(chunks: seq<nat>, failed: bool)

  /** Little-endian reads. A read past the end throws in the source, so it is a precondition here. */
  function U16(b: Bytes, at: int): (n: nat)
    requires 0 <= at && at + 2 <= |b|
    ensures n < 0x1_0000
  {
    (b[at] as int) + 0x100 * (b[at + 1] as int)
  }

  function U32(b: Bytes, at: int): (n: nat)
    requires 0 <= at && at + 4 <= |b|
    ensures n < 0x1_0000_0000
  {
    U16(b, at) + 0x1_0000 * U16(b, at + 2)
  }

  // ------------------------------------------------------------ the end record

  predicate SignatureAt(b: Bytes, at: int, signature: nat) {
    0 <= at && at + 4 <= |b| && U32(b, at) == signature
  }

  function WindowStart(b: Bytes): nat {
    if |b| > 22 + 0xffff then |b| - 22 - 0xffff else 0
  }

  /** `e` is the signature nearest the end of the file, and it lies in the search window. */
  ghost predicate LastSignature(b: Bytes, e: int) {
    && WindowStart(b) <= e
    && SignatureAt(b, e, END_SIGNATURE)
    && forall k | e < k <= |b| - 4 :: !SignatureAt(b, k, END_SIGNATURE)
  }

  /** The four bytes of the end signature stand at `k`. */
  predicate Marked(b: Bytes, k: int) {
    0 <= k <= |b| - 4 && b[k] == 0x50 && b[k + 1] == 0x4b && b[k + 2] == 5 && b[k + 3] == 6
  }

  lemma MarkedIsSignature(b: Bytes, k: int)
    ensures SignatureAt(b, k, END_SIGNATURE) <==> Marked(b, k)
  {
  }

  /** There is no end to be found exactly when the signature's bytes stand nowhere in the last 65557 bytes. */
  lemma {:induction false} NoEndIff(b: Bytes)
    ensures (forall e :: !LastSignature(b, e)) <==> forall k | k >= |b| - 65557 :: !Marked(b, k)
  {
    hide SignatureAt;
    if k :| k >= |b| - 65557 && Marked(b, k) {
      MarkedIsSignature(b, k);
      var e := HighestFrom(b, k);
      assert LastSignature(b, e);
    } else {
      forall e
        ensures !LastSignature(b, e)
      {
        MarkedIsSignature(b, e);
      }
    }
  }

  lemma {:induction false} HighestFrom(b: Bytes, k: int) returns (e: int)
    requires SignatureAt(b, k, END_SIGNATURE)
    ensures k <= e && SignatureAt(b, e, END_SIGNATURE) && forall j | e < j <= |b| - 4 :: !SignatureAt(b, j, END_SIGNATURE)
    decreases |b| - k
  {
    hide U32;
    if j :| k < j <= |b| - 4 && SignatureAt(b, j, END_SIGNATURE) {
      e := HighestFrom(b, j);
    } else {
      e := k;
    }
  }

  method FindEnd(b: Bytes) returns (end: int)
    ensures end >= 0 ==> LastSignature(b, end)
    ensures end < 0 ==> forall e :: !LastSignature(b, e)
  {
    var at := |b| - 4;
    while at >= WindowStart(b)
      invariant at <= |b| - 4
      invariant forall k | at < k <= |b| - 4 :: !SignatureAt(b, k, END_SIGNATURE)
    {
      if U32(b, at) == END_SIGNATURE {
        return at;
      }
      at := at - 1;
    }
    end := -1;
  }

  // ------------------------------------------------------------ extra fields

  /** The tags of the extra-field records laid end to end in [at, stop). */
  function ExtraTags(b: Bytes, at: nat, stop: nat): seq<nat>
    requires stop <= |b|
    decreases stop - at
  {
    if at + 4 > stop then [] else [U16(b, at)] + ExtraTags(b, at + 4 + U16(b, at + 2), stop)
  }

  ghost predicate CarriesZip64(b: Bytes, start: nat, length: nat) {
    start + length > |b| || 1 in ExtraTags(b, start, start + length)
  }

  method HasZip64(b: Bytes, start: nat, length: nat) returns (found: bool)
    ensures found <==> CarriesZip64(b, start, length)
  {
    if start + length > |b| {
      return true;
    }
    var at := start;
    while at + 4 <= start + length
      invariant start <= at
      invariant 1 in ExtraTags(b, start, start + length) <==> 1 in ExtraTags(b, at, start + length)
      decreases start + length - at
    {
      if U16(b, at) == 0x0001 {
        return true;
      }
      at := at + 4 + U16(b, at + 2);
    }
    found := false;
  }

  // ------------------------------------------------------------ one directory record

  /** One entry: its local header, its data and its declared sizes. */
  datatype Entry = Entry(local: nat, method_: nat, start: nat, compressed: nat, size: nat) {
    /** Where the span [local, End()) the entry owns stops. */
    function End(): nat { start + compressed }
  }

  function NameLength(b: Bytes, at: nat): nat
    requires at + 46 <= |b|
  {
    U16(b, at + 28)
  }

  function RecordLength(b: Bytes, at: nat): nat
    requires at + 46 <= |b|
  {
    46 + U16(b, at + 28) + U16(b, at + 30) + U16(b, at + 32)
  }

  predicate Readable(b: Bytes, at: nat) {
    at + 46 <= |b| && U32(b, at + 42) + 30 <= |b|
  }

  /** The entry a central record describes; an empty entry where the headers cannot be read. */
  function EntryAt(b: Bytes, at: nat): (e: Entry)
    ensures e.local + 30 <= e.start
  {
    if !Readable(b, at) then Entry(0, 0, 30, 0, 0) else
      var local := U32(b, at + 42);
      Entry(local, U16(b, at + 10), local + 30 + U16(b, local + 26) + U16(b, local + 28), U32(b, at + 20), U32(b, at + 24))
  }

  /** The two headers name the same bytes; the local name is clipped to the file. */
  ghost predicate SameName(b: Bytes, at: nat, local: nat)
    requires at + 46 <= |b| && at + 46 + NameLength(b, at) <= |b| && local + 30 <= |b|
  {
    && local + 30 + NameLength(b, at) <= |b|
    && (U16(b, local + 26) == NameLength(b, at) || (local + 30 + NameLength(b, at) == |b| && U16(b, local + 26) > NameLength(b, at)))
    && b[local + 30..local + 30 + NameLength(b, at)] == b[at + 46..at + 46 + NameLength(b, at)]
  }

  /** Either both headers declare the same two sizes, or the local one sets bit 3 of its flags and leaves both at zero. */
  predicate SizesAgree(b: Bytes, at: nat, local: nat)
    requires at + 46 <= |b| && local + 30 <= |b|
  {
    || ((U16(b, local + 6) / 8) % 2 == 1 && U32(b, local + 18) == 0 && U32(b, local + 22) == 0)
    || (U32(b, local + 18) == U32(b, at + 20) && U32(b, local + 22) == U32(b, at + 24))
  }

  /** A central record and the local header it points at, in bounds and in agreement. */
  ghost predicate RecordOk(b: Bytes, at: nat) {
    && SignatureAt(b, at, CENTRAL_SIGNATURE)
    && Readable(b, at)
    && at + 46 + NameLength(b, at) <= |b|
    && U32(b, at + 24) <= PART_LIMIT
    && SignatureAt(b, U32(b, at + 42), LOCAL_SIGNATURE)
    && var e := EntryAt(b, at);
    && SameName(b, at, e.local)
    && U16(b, e.local + 8) == e.method_
    && SizesAgree(b, at, e.local)
    && !CarriesZip64(b, at + 46 + NameLength(b, at), U16(b, at + 30))
    && !CarriesZip64(b, e.local + 30 + U16(b, e.local + 26), U16(b, e.local + 28))
    && e.End() <= |b|
  }

  method CheckRecord(b: Bytes, at: nat, expanded: nat) returns (verdict: Verdict, entry: Entry)
    ensures verdict == Accepted <==> RecordOk(b, at) && expanded + EntryAt(b, at).size <= EXPANDED_LIMIT
    ensures verdict == Accepted ==> entry == EntryAt(b, at)
    ensures verdict != NotOffice
    ensures verdict == TooLarge ==>
      at + 46 <= |b| && (U32(b, at + 24) > PART_LIMIT || expanded + U32(b, at + 24) > EXPANDED_LIMIT)
  {
    hide U16, U32, CarriesZip64, SizesAgree;
    verdict, entry := Damaged, Entry(0, 0, 0, 0, 0);
    if at + 46 > |b| || U32(b, at) != CENTRAL_SIGNATURE {
      return;
    }
    var method_, compressed, size := U16(b, at + 10), U32(b, at + 20), U32(b, at + 24);
    var nameLength := U16(b, at + 28);
    if at + 46 + nameLength > |b| {
      return;
    }
    if size > PART_LIMIT || expanded + size > EXPANDED_LIMIT {
      verdict := TooLarge;
      return;
    }
    var local := U32(b, at + 42);
    if local + 30 > |b| || U32(b, local) != LOCAL_SIGNATURE {
      return;
    }
    var declared, room := U16(b, local + 26), |b| - local - 30;
    var localLength := if declared < room then declared else room;
    if localLength != nameLength || b[local + 30..local + 30 + localLength] != b[at + 46..at + 46 + nameLength] {
      return;
    }
    if U16(b, local + 8) != method_ || !SizesAgree(b, at, local) {
      return;
    }
    var central := HasZip64(b, at + 46 + nameLength, U16(b, at + 30));
    var localExtra := HasZip64(b, local + 30 + declared, U16(b, local + 28));
    if central || localExtra {
      return;
    }
    var start := local + 30 + declared + U16(b, local + 28);
    if start + compressed > |b| {
      return;
    }
    verdict, entry := Accepted, Entry(local, method_, start, compressed, size);
  }

  // ------------------------------------------------------------ the directory

  /** Where the i-th record starts when records are laid end to end from `start`. */
  function Offset(b: Bytes, start: nat, i: nat): nat {
    if i == 0 then start else
      var at := Offset(b, start, i - 1);
      if at + 46 <= |b| then at + RecordLength(b, at) else at
  }

  ghost predicate RecordsOk(b: Bytes, start: nat, count: nat) {
    forall i | 0 <= i < count :: RecordOk(b, Offset(b, start, i))
  }

  function Entries(b: Bytes, start: nat, count: nat): (es: seq<Entry>)
    ensures |es| == count
    ensures forall i | 0 <= i < count :: es[i] == EntryAt(b, Offset(b, start, i))
  {
    if count == 0 then [] else Entries(b, start, count - 1) + [EntryAt(b, Offset(b, start, count - 1))]
  }

  function TotalSize(es: seq<Entry>): nat {
    if es == [] then 0 else TotalSize(es[..|es| - 1]) + es[|es| - 1].size
  }

  /** The bytes a converter reads for these entries: each local header and its compressed data. */
  function TotalRead(es: seq<Entry>): nat {
    if es == [] then 0 else TotalRead(es[..|es| - 1]) + 30 + es[|es| - 1].compressed
  }

  predicate Apart(x: Entry, y: Entry) {
    x.End() <= y.local || y.End() <= x.local
  }

  ghost predicate Disjoint(es: seq<Entry>) {
    forall i, j | 0 <= i < j < |es| :: Apart(es[i], es[j])
  }

  function Sum(chunks: seq<nat>): nat {
    if chunks == [] then 0 else Sum(chunks[..|chunks| - 1]) + chunks[|chunks| - 1]
  }

  /** Stored data has its declared size; deflated data inflates, without failing, to exactly it. */
  ghost predicate PayloadOk(b: Bytes, e: Entry, inflate: Bytes -> Inflation)
    requires e.End() <= |b|
  {
    if e.method_ == 0 then e.compressed == e.size
    else
      var out := inflate(b[e.start..e.End()]);
      e.method_ == 8 && !out.failed && Sum(out.chunks) == e.size
  }

  ghost predicate DirectoryOk(b: Bytes, end: nat, inflate: Bytes -> Inflation)
    requires end + 22 <= |b|
  {
    var count, start := U16(b, end + 10), U32(b, end + 16);
    && end + 22 + U16(b, end + 20) == |b|
    && U16(b, end + 8) == count
    && start + U32(b, end + 12) == end
    && RecordsOk(b, start, count)
    && Offset(b, start, count) == end
    && TotalSize(Entries(b, start, count)) <= EXPANDED_LIMIT
    && Disjoint(Entries(b, start, count))
    && forall e | e in Entries(b, start, count) :: e.End() <= |b| && PayloadOk(b, e, inflate)
  }

  /** What an archive must be for a converter to open it. */
  ghost predicate ArchiveOk(b: Bytes, inflate: Bytes -> Inflation) {
    && |b| <= BYTES_LIMIT
    && exists end :: LastSignature(b, end) && end + 22 <= |b| && DirectoryOk(b, end, inflate)
  }

  lemma {:induction false} TotalSizeGrows(b: Bytes, start: nat, i: nat, count: nat)
    requires i <= count
    ensures TotalSize(Entries(b, start, i)) <= TotalSize(Entries(b, start, count))
  {
    hide EntryAt, Entries, TotalSize, Offset;
    if i < count {
      TotalSizeGrows(b, start, i, count - 1);
      OneMoreEntry(b, start, count - 1);
    }
  }

  lemma OneMoreEntry(b: Bytes, start: nat, i: nat)
    ensures Entries(b, start, i + 1) == Entries(b, start, i) + [EntryAt(b, Offset(b, start, i))]
    ensures TotalSize(Entries(b, start, i + 1)) == TotalSize(Entries(b, start, i)) + EntryAt(b, Offset(b, start, i)).size
  {
    hide EntryAt, Offset;
    var es := Entries(b, start, i + 1);
    assert es[..i] == Entries(b, start, i);
  }

  method WalkDirectory(b: Bytes, start: nat, count: nat) returns (verdict: Verdict, entries: seq<Entry>, at: nat)
    ensures verdict == Accepted ==>
      RecordsOk(b, start, count) && entries == Entries(b, start, count) && at == Offset(b, start, count)
      && TotalSize(entries) <= EXPANDED_LIMIT
    ensures verdict != Accepted ==> !(RecordsOk(b, start, count) && TotalSize(Entries(b, start, count)) <= EXPANDED_LIMIT)
    ensures verdict != NotOffice
  {
    hide RecordOk, U32, U16, EntryAt, CarriesZip64, TotalSize, Entries;
    assert Entries(b, start, 0) == [] && TotalSize([]) == 0 by { NoEntries(b, start); }
    entries, at := [], start;
    var expanded := 0;
    for i := 0 to count
      invariant RecordsOk(b, start, i) && entries == Entries(b, start, i) && at == Offset(b, start, i)
      invariant expanded == TotalSize(entries) <= EXPANDED_LIMIT
    {
      var entry;
      verdict, entry := CheckRecord(b, at, expanded);
      if verdict != Accepted {
        OneMoreEntry(b, start, i);
        TotalSizeGrows(b, start, i + 1, count);
        return;
      }
      OneMoreEntry(b, start, i);
      RecordReadable(b, at);
      expanded := expanded + entry.size;
      entries := entries + [entry];
      at := at + 46 + U16(b, at + 28) + U16(b, at + 30) + U16(b, at + 32);
    }
    verdict := Accepted;
  }

  lemma NoEntries(b: Bytes, start: nat)
    ensures Entries(b, start, 0) == [] && TotalSize([]) == 0
  {
  }

  lemma RecordReadable(b: Bytes, at: nat)
    requires RecordOk(b, at)
    ensures at + 46 <= |b|
  {
  }

  // ------------------------------------------------------------ entry spans

  predicate LocalLe(x: Entry, y: Entry) {
    x.local <= y.local
  }

  /** Every entry's span holds at least its 30-byte local header. */
  ghost predicate Headed(es: seq<Entry>) {
    forall e | e in es :: e.local + 30 <= e.start
  }

  ghost predicate AdjacentApart(es: seq<Entry>) {
    forall i | 1 <= i < |es| :: es[i - 1].End() <= es[i].local
  }

  lemma {:induction false} AdjacentChain(es: seq<Entry>, i: nat, j: nat)
    requires Headed(es) && AdjacentApart(es) && i < j < |es|
    ensures es[i].End() <= es[j].local
  {
    if i + 1 < j {
      AdjacentChain(es, i, j - 1);
      assert es[j - 1] in es;
    }
  }

  /** Being pairwise apart does not depend on the order entries are listed in. */
  lemma DisjointInAnyOrder(s: seq<Entry>, t: seq<Entry>)
    requires multiset(s) == multiset(t) && Headed(s) && Disjoint(s)
    ensures Disjoint(t)
  {
    SameMembers(s, t);
    forall i, j | 0 <= i < j < |s|
      ensures s[i] != s[j]
    {
      assert s[i] in s && Apart(s[i], s[j]);
    }
    forall i, j | 0 <= i < j < |t|
      ensures Apart(t[i], t[j])
    {
      assert t[i] in s && t[j] in s;
      if t[i] == t[j] {
        TwoCopies(t, i, j);
        OneCopy(s, t[i]);
      } else {
        var k :| 0 <= k < |s| && s[k] == t[i];
        var l :| 0 <= l < |s| && s[l] == t[j];
        assert k < l ==> Apart(s[k], s[l]);
        assert l < k ==> Apart(s[l], s[k]);
      }
    }
  }

  /** Comparing neighbours in offset order decides whether all spans are pairwise disjoint. */
  lemma AdjacentDecides(es: seq<Entry>)
    requires Headed(es)
    ensures AdjacentApart(Sort(LocalLe, es)) <==> Disjoint(es)
  {
    var spans := Sort(LocalLe, es);
    SortKeeps(LocalLe, es);
    SameMembers(spans, es);
    if AdjacentApart(spans) {
      forall i, j | 0 <= i < j < |spans|
        ensures Apart(spans[i], spans[j])
      {
        AdjacentChain(spans, i, j);
      }
      DisjointInAnyOrder(spans, es);
    }
    if Disjoint(es) {
      DisjointInAnyOrder(es, spans);
      forall i | 1 <= i < |spans|
        ensures spans[i - 1].End() <= spans[i].local
      {
        assert Apart(spans[i - 1], spans[i]);
        assert spans[i - 1] in spans && spans[i] in spans;
      }
    }
  }

  method SpansApart(es: seq<Entry>) returns (ok: bool)
    requires Headed(es)
    ensures ok <==> Disjoint(es)
  {
    AdjacentDecides(es);
    var spans := Sort(LocalLe, es);
    hide Sort, Disjoint;
    var i := 1;
    while i < |spans|
      invariant 1 <= i
      invariant forall k | 1 <= k < i && k < |spans| :: spans[k - 1].End() <= spans[k].local
    {
      if spans[i - 1].End() > spans[i].local {
        return false;
      }
      i := i + 1;
    }
    ok := true;
  }

  // ------------------------------------------------------------ payloads and the whole check

  lemma {:induction false} SumGrows(chunks: seq<nat>, i: nat)
    requires i <= |chunks|
    ensures Sum(chunks[..i]) <= Sum(chunks)
  {
    if i < |chunks| {
      SumGrows(chunks[..|chunks| - 1], i);
      assert chunks[..|chunks| - 1][..i] == chunks[..i];
    } else {
      assert chunks[..i] == chunks;
    }
  }

  /** Inflates one entry, stopping as soon as it passes its declared size. */
  method CheckPayload(b: Bytes, e: Entry, inflate: Bytes -> Inflation) returns (ok: bool)
    requires e.End() <= |b|
    ensures ok <==> PayloadOk(b, e, inflate)
  {
    if e.method_ == 0 {
      return e.compressed == e.size;
    }
    if e.method_ != 8 {
      return false;
    }
    var out := inflate(b[e.start..e.End()]);
    var produced := 0;
    for i := 0 to |out.chunks|
      invariant produced == Sum(out.chunks[..i]) <= e.size
    {
      assert out.chunks[..i + 1][..i] == out.chunks[..i];
      produced := produced + out.chunks[i];
      if produced > e.size {
        SumGrows(out.chunks, i + 1);
        return false;
      }
    }
    assert out.chunks[..|out.chunks|] == out.chunks;
    ok := !out.failed && produced == e.size;
  }

  method CheckDirectory(b: Bytes, end: nat, inflate: Bytes -> Inflation) returns (verdict: Verdict)
    requires end + 22 <= |b|
    ensures verdict == Accepted <==> DirectoryOk(b, end, inflate)
    ensures verdict != NotOffice
  {
    hide U16, U32, RecordsOk, Offset, TotalSize, Entries, Disjoint, PayloadOk;
    if end + 22 + U16(b, end + 20) != |b| {
      return Damaged;
    }
    var count, length, start := U16(b, end + 10), U32(b, end + 12), U32(b, end + 16);
    if U16(b, end + 8) != count || start + length != end {
      return Damaged;
    }
    var entries, at;
    verdict, entries, at := WalkDirectory(b, start, count);
    if verdict != Accepted {
      return;
    }
    if at != end {
      return Damaged;
    }
    EntriesInFile(b, start, count);
    var apart := SpansApart(entries);
    if !apart {
      return Damaged;
    }
    for i := 0 to |entries|
      invariant forall k | 0 <= k < i :: PayloadOk(b, entries[k], inflate)
    {
      assert entries[i] in entries;
      var ok := CheckPayload(b, entries[i], inflate);
      if !ok {
        return Damaged;
      }
    }
    verdict := Accepted;
  }

  lemma EntriesInFile(b: Bytes, start: nat, count: nat)
    requires RecordsOk(b, start, count)
    ensures Headed(Entries(b, start, count))
    ensures forall e | e in Entries(b, start, count) :: e.End() <= |b| && e.size <= PART_LIMIT
  {
    hide Offset, EntryAt, CarriesZip64, U16;
    forall e | e in Entries(b, start, count)
      ensures e.local + 30 <= e.start && e.End() <= |b| && e.size <= PART_LIMIT
    {
      var i :| 0 <= i < count && e == EntryAt(b, Offset(b, start, i));
      RecordFacts(b, Offset(b, start, i));
    }
  }

  lemma RecordFacts(b: Bytes, at: nat)
    requires RecordOk(b, at)
    ensures EntryAt(b, at).End() <= |b| && EntryAt(b, at).size <= PART_LIMIT
  {
  }

  /** Accepts exactly the archives `ArchiveOk` describes, for any byte sequence and any decompressor. */
  method CheckArchive(b: Bytes, inflate: Bytes -> Inflation) returns (verdict: Verdict)
    ensures verdict == Accepted <==> ArchiveOk(b, inflate)
    ensures |b| > BYTES_LIMIT ==> verdict == TooLarge
    ensures verdict == NotOffice <==> |b| <= BYTES_LIMIT && forall e :: !LastSignature(b, e)
  {
    hide DirectoryOk;
    if |b| > BYTES_LIMIT {
      return TooLarge;
    }
    var end := FindEnd(b);
    if end < 0 {
      return NotOffice;
    }
    assert forall e | LastSignature(b, e) :: e == end;
    if end + 22 > |b| {
      return Damaged;
    }
    verdict := CheckDirectory(b, end, inflate);
  }

  // ------------------------------------------------------------ what acceptance guarantees

  lemma {:induction false} ReadWithout(es: seq<Entry>, m: nat)
    requires m < |es|
    ensures TotalRead(es) == TotalRead(Without(es, m)) + 30 + es[m].compressed
  {
    var n := |es| - 1;
    var rest := es[..m] + es[m + 1..];
    if m == n {
      assert rest == es[..n];
    } else {
      ReadWithout(es[..n], m);
      assert es[..n][..m] + es[..n][m + 1..] == rest[..n - 1];
      assert rest[n - 1] == es[n];
    }
  }

  function Without(es: seq<Entry>, m: nat): (rest: seq<Entry>)
    requires m < |es|
    ensures |rest| == |es| - 1
    ensures forall k | 0 <= k < |rest| :: rest[k] == es[if k < m then k else k + 1]
  {
    es[..m] + es[m + 1..]
  }

  lemma BeforeLast(es: seq<Entry>, m: nat)
    requires Headed(es) && Disjoint(es) && m < |es| && forall e | e in es :: e.End() <= es[m].End()
    ensures Headed(Without(es, m)) && Disjoint(Without(es, m))
    ensures forall e | e in Without(es, m) :: e.End() <= es[m].local
  {
    var rest := Without(es, m);
    hide Without;
    forall e | e in rest
      ensures e.End() <= es[m].local && e.local + 30 <= e.start
    {
      var k :| 0 <= k < |rest| && rest[k] == e;
      var j := if k < m then k else k + 1;
      assert Apart(es[if j < m then j else m], es[if j < m then m else j]);
      assert es[j] in es && es[m] in es;
    }
    forall i, j | 0 <= i < j < |rest|
      ensures Apart(rest[i], rest[j])
    {
      assert Apart(es[if i < m then i else i + 1], es[if j < m then j else j + 1]);
    }
  }

  /** Disjoint spans below `bound` read at most `bound` bytes: take away the last span, the rest lie before it. */
  lemma {:induction false} ReadFits(es: seq<Entry>, bound: nat)
    requires Headed(es) && Disjoint(es) && forall e | e in es :: e.End() <= bound
    ensures TotalRead(es) <= bound
    decreases |es|
  {
    if es != [] {
      var m := LastSpan(es);
      BeforeLast(es, m);
      ReadWithout(es, m);
      hide TotalRead, Without, Disjoint;
      ReadFits(Without(es, m), es[m].local);
      assert es[m] in es;
    }
  }

  lemma {:induction false} LastSpan(es: seq<Entry>) returns (m: nat)
    requires es != []
    ensures m < |es| && forall e | e in es :: e.End() <= es[m].End()
  {
    var n := |es| - 1;
    m := n;
    if n > 0 {
      var k := LastSpan(es[..n]);
      assert forall e | e in es :: e in es[..n] || e == es[n];
      m := if es[k].End() > es[n].End() then k else n;
    }
  }

  /**
   For every accepted archive: the entries' spans are pairwise disjoint, reading them all
   takes no more than the file's length, and no part or total passes its cap.
   */
  lemma AcceptedWorkIsBounded(b: Bytes, end: nat, inflate: Bytes -> Inflation)
    requires LastSignature(b, end) && end + 22 <= |b| && DirectoryOk(b, end, inflate)
    ensures var es := Entries(b, U32(b, end + 16), U16(b, end + 10));
      && Disjoint(es)
      && TotalRead(es) <= |b|
      && TotalSize(es) <= EXPANDED_LIMIT
      && forall e | e in es :: e.size <= PART_LIMIT && e.local + 30 <= e.start && e.End() <= |b|
  {
    hide U16, U32, Entries, RecordsOk, Disjoint, TotalSize, TotalRead, LastSignature, PayloadOk;
    var es := Entries(b, U32(b, end + 16), U16(b, end + 10));
    EntriesInFile(b, U32(b, end + 16), U16(b, end + 10));
    ReadFits(es, |b|);
  }

  lemma {:induction false} OffsetsClimb(b: Bytes, start: nat, i: nat, count: nat)
    requires i <= count && forall k | 0 <= k < count :: Offset(b, start, k) + 46 <= |b|
    ensures Offset(b, start, i) + 46 * (count - i) <= Offset(b, start, count)
  {
    if i < count {
      OffsetsClimb(b, start, i, count - 1);
    }
  }

  /** The i-th record is readable and the next one starts where it stops, at or before `end`. */
  ghost predicate Follows(b: Bytes, start: nat, i: nat, end: nat) {
    var at := Offset(b, start, i);
    at + 46 <= |b| && Offset(b, start, i + 1) == at + RecordLength(b, at) <= end
  }

  /** The directory's records tile the range from its declared offset to the end record. */
  lemma AcceptedRecordsTile(b: Bytes, end: nat, inflate: Bytes -> Inflation)
    requires LastSignature(b, end) && end + 22 <= |b| && DirectoryOk(b, end, inflate)
    ensures var start, count := U32(b, end + 16), U16(b, end + 10);
      && Offset(b, start, 0) == start
      && Offset(b, start, count) == end == start + U32(b, end + 12)
      && (forall i | 0 <= i < count :: Follows(b, start, i, end))
      && 46 * count <= U32(b, end + 12)
      && end + 22 + U16(b, end + 20) == |b|
  {
    hide U16, U32, RecordOk, Entries, TotalSize, Disjoint, PayloadOk, LastSignature;
    var start, count := U32(b, end + 16), U16(b, end + 10);
    forall i | 0 <= i < count
      ensures Offset(b, start, i) + 46 <= |b|
    {
      RecordReadable(b, Offset(b, start, i));
    }
    OffsetsClimb(b, start, 0, count);
    forall i | 0 <= i < count
      ensures Follows(b, start, i, end)
    {
      OffsetsClimb(b, start, i + 1, count);
    }
  }

  // ------------------------------------------------------------ accepted headers, byte by byte

  lemma SameU16(b: Bytes, i: nat, j: nat)
    requires i + 2 <= |b| && j + 2 <= |b|
    ensures U16(b, i) == U16(b, j) <==> b[i..i + 2] == b[j..j + 2]
  {
    assert b[i..i + 2] == [b[i], b[i + 1]] && b[j..j + 2] == [b[j], b[j + 1]];
  }

  lemma SameU32(b: Bytes, i: nat, j: nat)
    requires i + 4 <= |b| && j + 4 <= |b|
    ensures U32(b, i) == U32(b, j) <==> b[i..i + 4] == b[j..j + 4]
  {
    SameU16(b, i, j);
    SameU16(b, i + 2, j + 2);
    hide U16;
    Halves(b, i, 2, 2);
    Halves(b, j, 2, 2);
  }

  /** A slice is its two halves, and its halves are its slices. */
  lemma Halves(b: Bytes, i: nat, m: nat, n: nat)
    requires i + m + n <= |b|
    ensures b[i..i + m + n] == b[i..i + m] + b[i + m..i + m + n]
    ensures b[i..i + m + n][..m] == b[i..i + m] && b[i..i + m + n][m..] == b[i + m..i + m + n]
  {
  }

  lemma ZeroU32(b: Bytes, i: nat)
    requires i + 4 <= |b|
    ensures U32(b, i) == 0 <==> b[i..i + 4] == [0, 0, 0, 0]
  {
    assert b[i..i + 4] == [b[i], b[i + 1], b[i + 2], b[i + 3]];
  }

  /** The local sizes are the central ones, byte for byte; or bit 3 of the flags is set and they are all zero. */
  ghost predicate SizeBytesAgree(b: Bytes, at: nat, local: nat)
    requires at + 46 <= |b| && local + 30 <= |b|
  {
    || b[local + 18..local + 26] == b[at + 20..at + 28]
    || ((b[local + 6] as int) / 8 % 2 == 1 && b[local + 18..local + 26] == [0, 0, 0, 0, 0, 0, 0, 0])
  }

  lemma SizesAreBytes(b: Bytes, at: nat, local: nat)
    requires at + 46 <= |b| && local + 30 <= |b|
    ensures SizesAgree(b, at, local) <==> SizeBytesAgree(b, at, local)
  {
    hide U32, U16;
    SameU32(b, local + 18, at + 20);
    SameU32(b, local + 22, at + 24);
    ZeroU32(b, local + 18);
    ZeroU32(b, local + 22);
    FlagBit(b, local + 6);
    Joined(b, local + 18, b[at + 20..at + 24], b[at + 24..at + 28]);
    Halves(b, at + 20, 4, 4);
    Joined(b, local + 18, [0, 0, 0, 0], [0, 0, 0, 0]);
    EightZeros();
  }

  lemma Joined(b: Bytes, i: nat, y: Bytes, z: Bytes)
    requires i + 8 <= |b| && |y| == |z| == 4
    ensures b[i..i + 8] == y + z <==> b[i..i + 4] == y && b[i + 4..i + 8] == z
  {
    Halves(b, i, 4, 4);
    assert (y + z)[..4] == y && (y + z)[4..] == z;
  }

  lemma EightZeros()
    ensures var z: Bytes := [0, 0, 0, 0]; z + z == [0, 0, 0, 0, 0, 0, 0, 0]
  {
  }

  lemma FlagBit(b: Bytes, i: nat)
    requires i + 2 <= |b|
    ensures U16(b, i) / 8 % 2 == (b[i] as int) / 8 % 2
  {
  }

  /** Where the central record's local header starts: four bytes, the lowest first. */
  function LocalOffset(b: Bytes, at: nat): int
    requires at + 46 <= |b|
  {
    (b[at + 42] as int) + 0x100 * (b[at + 43] as int) + 0x1_0000 * (b[at + 44] as int) + 0x100_0000 * (b[at + 45] as int)
  }

  /** What two headers of one part have in common, in bytes. */
  ghost predicate HeadersAgree(b: Bytes, at: nat) {
    && at + 46 <= |b| && LocalOffset(b, at) + 30 <= |b|
    && var local, length := LocalOffset(b, at), (b[at + 28] as int) + 0x100 * (b[at + 29] as int);
    && b[at..at + 4] == [0x50, 0x4b, 1, 2] && b[local..local + 4] == [0x50, 0x4b, 3, 4]
    && b[local + 8..local + 10] == b[at + 10..at + 12]
    && SizeBytesAgree(b, at, local)
    && at + 46 + length <= |b| && local + 30 + length <= |b|
    && b[local + 30..local + 30 + length] == b[at + 46..at + 46 + length]
    && (b[local + 26..local + 28] == b[at + 28..at + 30] || local + 30 + length == |b|)
  }

  lemma MarkBytes(b: Bytes, i: nat)
    requires i + 4 <= |b|
    ensures U32(b, i) == CENTRAL_SIGNATURE <==> b[i..i + 4] == [0x50, 0x4b, 1, 2]
    ensures U32(b, i) == LOCAL_SIGNATURE <==> b[i..i + 4] == [0x50, 0x4b, 3, 4]
  {
    assert b[i..i + 4] == [b[i], b[i + 1], b[i + 2], b[i + 3]];
  }

  lemma OffsetBytes(b: Bytes, at: nat)
    requires at + 46 <= |b|
    ensures U32(b, at + 42) == LocalOffset(b, at) && U16(b, at + 28) == (b[at + 28] as int) + 0x100 * (b[at + 29] as int)
  {
  }

  lemma RecordHeadersAgree(b: Bytes, at: nat)
    requires RecordOk(b, at)
    ensures HeadersAgree(b, at)
  {
    hide U16, U32, LocalOffset, CarriesZip64, SizesAgree, SizeBytesAgree;
    OffsetBytes(b, at);
    var local := LocalOffset(b, at);
    MarkBytes(b, at);
    MarkBytes(b, local);
    SameU16(b, local + 8, at + 10);
    SameU16(b, local + 26, at + 28);
    SizesAreBytes(b, at, local);
  }

  ghost predicate AllHeadersAgree(b: Bytes, start: nat, count: nat) {
    forall i | 0 <= i < count :: HeadersAgree(b, Offset(b, start, i))
  }

  lemma RecordsHeadersAgree(b: Bytes, start: nat, count: nat)
    requires RecordsOk(b, start, count)
    ensures AllHeadersAgree(b, start, count)
  {
    hide RecordOk, HeadersAgree, Offset;
    forall i | 0 <= i < count
      ensures HeadersAgree(b, Offset(b, start, i))
    {
      RecordHeadersAgree(b, Offset(b, start, i));
    }
  }

  /** In an accepted archive every central record and its local header say the same thing, in bytes. */
  lemma AcceptedHeadersAgree(b: Bytes, end: nat, inflate: Bytes -> Inflation)
    requires LastSignature(b, end) && end + 22 <= |b| && DirectoryOk(b, end, inflate)
    ensures AllHeadersAgree(b, U32(b, end + 16), U16(b, end + 10))
  {
    hide RecordsOk, AllHeadersAgree, U16, U32, Offset, LastSignature, Entries, TotalSize, Disjoint, PayloadOk;
    RecordsHeadersAgree(b, U32(b, end + 16), U16(b, end + 10));
  }
}
