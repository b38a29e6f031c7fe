/** The `.spm` snapshot-manifest container: canonical codec, builders, and delta-chain flattening. */
module Manifests {
  import opened Base

  const MAGIC: Bytes := [0x53, 0x50, 0x53, 0x4D, 0x41, 0x4E, 0x30, 0x31]  // "SPSMAN01"
  const VERSION: U16 := 1
  const HEADER_LEN: nat := 96
  const PAGE_SIZE: nat := 4096
  const ENTRY_SIZE: nat := 40
  const FOOTER_LEN: nat := 32

  datatype ManifestEntry = ManifestEntry(pageIndex: U64, pageHash: Digest)

  datatype DeviceBlob = DeviceBlob(format: U32, zstd: bool, bytes: Bytes, rawLen: U64)

  datatype Manifest = Manifest(
    version: U16,
    delta: bool,
    parent: Option<Digest>,
    guestRam: U64,
    entries: seq<ManifestEntry>,
    blob: DeviceBlob)

  /** zstd is a parameter too: `unzstd(b)` is the decompressed length, or `None` when decompression fails. */
  type Unzstd = Bytes -> Option<nat>

  datatype ManifestError =
    | BadMagic
    | UnsupportedVersion(v: U16)
    | UnknownFlags(bits: U16)
    | BadHeaderLen(headerLen: U32)
    | ReservedNonZero
    | BadPageSize(size: U64)
    | GuestRamNotAligned(ram: U64)
    | EntriesNotAscending
    | FullCountMismatch(count: nat, pages: nat)
    | FullNotContiguous
    | FullNonZeroParent
    | DeltaZeroParent
    | DeltaIndexOutOfRange(index: U64, pages: nat)
    | FooterMismatch
    | TrailingBytes
    | Truncated
    | ZstdRawLenMismatch(found: nat, expected: U64)
    | NonZstdRawLenMismatch(rawLen: U64, storedLen: nat)

  function Pages(guestRam: U64): nat { guestRam / PAGE_SIZE }

  // ── What a manifest may look like ──────────────────────────────────────

  ghost predicate Ascending(es: seq<ManifestEntry>) {
    forall i, j :: 0 <= i < j < |es| ==> es[i].pageIndex < es[j].pageIndex
  }

  ghost predicate InRange(es: seq<ManifestEntry>, pages: nat) {
    forall i :: 0 <= i < |es| ==> es[i].pageIndex < pages
  }

  ghost predicate Contiguous(es: seq<ManifestEntry>) {
    forall i :: 0 <= i < |es| ==> es[i].pageIndex == i
  }

  /** The invariant the builders establish. */
  ghost predicate Built(m: Manifest) {
    && m.version == VERSION
    && m.guestRam % PAGE_SIZE == 0
    && (m.delta ==> m.parent.Some? && Ascending(m.entries) && InRange(m.entries, Pages(m.guestRam)))
    && (!m.delta ==> m.parent.None? && |m.entries| == Pages(m.guestRam) && Contiguous(m.entries))
    && (!m.blob.zstd ==> m.blob.rawLen == |m.blob.bytes|)
  }

  /** What the builders leave unchecked and `decode` insists on. */
  predicate Complete(m: Manifest, unzstd: Unzstd) {
    && m.parent != Some(Zeros(32))
    && (m.blob.zstd ==> unzstd(m.blob.bytes) == Some(m.blob.rawLen))
  }

  /** The container is addressable on a 64-bit machine. */
  predicate Fits(m: Manifest) {
    HEADER_LEN + 40 * |m.entries| + |m.blob.bytes| < TWO64
  }

  // ── Header ─────────────────────────────────────────────────────────────

  datatype Header = Header(
    magic: Bytes, version: U16, flags: U16, headerLen: U32, parent: Digest, guestRam: U64, pageSize: U64,
    entryCount: U64, blobLen: U64, rawLen: U64, format: U32, reserved: U32)

  const FIELDS: nat := 12

  /** Where field `i` starts: magic, version, flags, header_len, parent, guest_ram, page_size, entry_count,
      blob_len, raw_len, format, reserved. */
  function Offset(i: nat): (o: nat)
    requires i <= FIELDS
  {
    [0, 8, 10, 12, 16, 48, 56, 64, 72, 80, 88, 92, 96][i]
  }

  function Field(h: Header, i: nat): (b: Bytes)
    requires i < FIELDS && |h.magic| == 8
    ensures |b| == Offset(i + 1) - Offset(i)
  {
    match i
    case 0 => h.magic
    case 1 => LE(h.version, 2)
    case 2 => LE(h.flags, 2)
    case 3 => LE(h.headerLen, 4)
    case 4 => h.parent
    case 5 => LE(h.guestRam, 8)
    case 6 => LE(h.pageSize, 8)
    case 7 => LE(h.entryCount, 8)
    case 8 => LE(h.blobLen, 8)
    case 9 => LE(h.rawLen, 8)
    case 10 => LE(h.format, 4)
    case 11 => LE(h.reserved, 4)
  }

  function WriteFields(h: Header, n: nat): (b: Bytes)
    requires n <= FIELDS && |h.magic| == 8
    ensures |b| == Offset(n)
  {
    if n == 0 then [] else WriteFields(h, n - 1) + Field(h, n - 1)
  }

  function WriteHeader(h: Header): (b: Bytes)
    requires |h.magic| == 8
    ensures |b| == HEADER_LEN
  {
    WriteFields(h, FIELDS)
  }

  function ReadHeader(b: Bytes): (h: Header)
    requires |b| >= HEADER_LEN
    ensures |h.magic| == 8
  {
    Header(b[0..8], U16At(b, 8), U16At(b, 10), U32At(b, 12), b[16..48], U64At(b, 48), U64At(b, 56),
           U64At(b, 64), U64At(b, 72), U64At(b, 80), U32At(b, 88), U32At(b, 92))
  }

  lemma {:induction false} FieldSlice(h: Header, n: nat, i: nat, rest: Bytes)
    requires i < n <= FIELDS && |h.magic| == 8
    ensures Offset(i + 1) <= Offset(n)
    ensures (WriteFields(h, n) + rest)[Offset(i)..Offset(i + 1)] == Field(h, i)
  {
    var front, last := WriteFields(h, n - 1), Field(h, n - 1);
    if i < n - 1 {
      FieldSlice(h, n - 1, i, last + rest);
      assert front + last + rest == front + (last + rest);
    }
  }

  lemma HeaderReadsBack(h: Header, rest: Bytes)
    requires |h.magic| == 8
    ensures ReadHeader(WriteHeader(h) + rest) == h
  {
    var b := WriteHeader(h) + rest;
    U32AtIsUnLE(b, 12); U32AtIsUnLE(b, 88); U32AtIsUnLE(b, 92);
    FieldSlice(h, FIELDS, 0, rest); FieldSlice(h, FIELDS, 4, rest);
    FieldSlice(h, FIELDS, 1, rest); RoundTrip16(h.version);
    FieldSlice(h, FIELDS, 2, rest); RoundTrip16(h.flags);
    FieldSlice(h, FIELDS, 3, rest); RoundTrip32(h.headerLen);
    FieldSlice(h, FIELDS, 5, rest); RoundTrip64(h.guestRam);
    FieldSlice(h, FIELDS, 6, rest); RoundTrip64(h.pageSize);
    FieldSlice(h, FIELDS, 7, rest); RoundTrip64(h.entryCount);
    FieldSlice(h, FIELDS, 8, rest); RoundTrip64(h.blobLen);
    FieldSlice(h, FIELDS, 9, rest); RoundTrip64(h.rawLen);
    FieldSlice(h, FIELDS, 10, rest); RoundTrip32(h.format);
    FieldSlice(h, FIELDS, 11, rest); RoundTrip32(h.reserved);
  }

  lemma FieldOfRead(b: Bytes, i: nat)
    requires |b| >= HEADER_LEN && i < FIELDS
    ensures Offset(i) <= Offset(i + 1) <= HEADER_LEN
    ensures Field(ReadHeader(b), i) == b[Offset(i)..Offset(i + 1)]
  {
    LEOfUnLE(b[Offset(i)..Offset(i + 1)]);
    U32AtIsUnLE(b, 12); U32AtIsUnLE(b, 88); U32AtIsUnLE(b, 92);
  }

  lemma SliceJoin(b: Bytes, i: nat, j: nat, k: nat)
    requires i <= j <= k <= |b|
    ensures b[i..j] + b[j..k] == b[i..k]
  {
  }

  ghost predicate FieldInPlace(h: Header, b: Bytes, i: nat)
    requires i < FIELDS && |h.magic| == 8
  {
    Offset(i) <= Offset(i + 1) <= |b| && Field(h, i) == b[Offset(i)..Offset(i + 1)]
  }

  lemma {:induction false} FieldsWriteBack(h: Header, b: Bytes, n: nat)
    requires n <= FIELDS && |h.magic| == 8
    requires forall i :: 0 <= i < n ==> FieldInPlace(h, b, i)
    ensures Offset(n) <= |b| && WriteFields(h, n) == b[0..Offset(n)]
  {
    if n > 0 {
      FieldsWriteBack(h, b, n - 1);
      assert FieldInPlace(h, b, n - 1);
      SliceJoin(b, 0, Offset(n - 1), Offset(n));
    }
  }

  lemma HeaderWritesBack(b: Bytes)
    requires |b| >= HEADER_LEN
    ensures WriteHeader(ReadHeader(b)) == b[..HEADER_LEN]
  {
    forall i | 0 <= i < FIELDS
      ensures FieldInPlace(ReadHeader(b), b, i)
    {
      FieldOfRead(b, i);
    }
    FieldsWriteBack(ReadHeader(b), b, FIELDS);
  }

  // ── Entry table ────────────────────────────────────────────────────────

  function EntryBytes(e: ManifestEntry): (b: Bytes)
    ensures |b| == ENTRY_SIZE
  {
    LE(e.pageIndex, 8) + e.pageHash
  }

  function TableBytes(es: seq<ManifestEntry>): (b: Bytes)
    ensures |b| == 40 * |es|
  {
    if es == [] then [] else TableBytes(es[..|es| - 1]) + EntryBytes(es[|es| - 1])
  }

  function EntryAt(b: Bytes, off: nat): (e: ManifestEntry)
    requires off + ENTRY_SIZE <= |b|
  {
    ManifestEntry(U64At(b, off), b[off + 8..off + 40])
  }

  function TableAt(b: Bytes, off: nat, count: nat): (es: seq<ManifestEntry>)
    requires off + 40 * count <= |b|
    ensures |es| == count
    ensures forall i :: 0 <= i < count ==> es[i] == EntryAt(b, off + 40 * i)
  {
    seq(count, i requires 0 <= i < count => EntryAt(b, off + 40 * i))
  }

  lemma EntryReadsBack(e: ManifestEntry, pre: Bytes, post: Bytes)
    ensures EntryAt(pre + EntryBytes(e) + post, |pre|) == e
  {
    var b := pre + EntryBytes(e) + post;
    assert b[|pre|..|pre| + 8] == LE(e.pageIndex, 8);
    assert b[|pre| + 8..|pre| + 40] == e.pageHash;
    RoundTrip64(e.pageIndex);
  }

  lemma {:induction false} EntryInTable(es: seq<ManifestEntry>, i: nat, pre: Bytes, post: Bytes)
    requires i < |es|
    ensures EntryAt(pre + TableBytes(es) + post, |pre| + 40 * i) == es[i]
  {
    var n := |es| - 1;
    var front, last := TableBytes(es[..n]), EntryBytes(es[n]);
    if i < n {
      EntryInTable(es[..n], i, pre, last + post);
      assert pre + (front + last) + post == pre + front + (last + post);
    } else {
      EntryReadsBack(es[n], pre + front, post);
      assert pre + (front + last) + post == pre + front + last + post;
    }
  }

  lemma TableReadsBack(es: seq<ManifestEntry>, pre: Bytes, post: Bytes)
    ensures TableAt(pre + TableBytes(es) + post, |pre|, |es|) == es
  {
    var t := TableAt(pre + TableBytes(es) + post, |pre|, |es|);
    forall i | 0 <= i < |es| ensures t[i] == es[i] {
      EntryInTable(es, i, pre, post);
    }
  }

  lemma EntryWritesBack(b: Bytes, off: nat)
    requires off + 40 <= |b|
    ensures EntryBytes(EntryAt(b, off)) == b[off..off + 40]
  {
    LEOfUnLE(b[off..off + 8]);
    SliceJoin(b, off, off + 8, off + 40);
  }

  lemma {:induction false} TableWritesBack(b: Bytes, off: nat, count: nat)
    requires off + 40 * count <= |b|
    ensures TableBytes(TableAt(b, off, count)) == b[off..off + 40 * count]
  {
    if count > 0 {
      var es, mid := TableAt(b, off, count), off + 40 * (count - 1);
      TableWritesBack(b, off, count - 1);
      assert es[..count - 1] == TableAt(b, off, count - 1);
      EntryWritesBack(b, mid);
      SliceJoin(b, off, mid, mid + 40);
    }
  }

  // ── Containers ─────────────────────────────────────────────────────────

  function HeaderOf(m: Manifest): (h: Header)
    ensures |h.magic| == 8
  {
    var flags := (if m.delta then 1 else 0) + (if m.blob.zstd then 2 else 0);
    var parent := match m.parent case Some(p) => p case None => Zeros(32);
    Header(MAGIC, VERSION, flags, HEADER_LEN, parent, m.guestRam, PAGE_SIZE,
           |m.entries| % TWO64, |m.blob.bytes| % TWO64, m.blob.rawLen, m.blob.format, 0)
  }

  function Body(m: Manifest): Bytes {
    WriteHeader(HeaderOf(m)) + TableBytes(m.entries) + m.blob.bytes
  }

  function Encoded(blake3: Blake3, m: Manifest): Bytes {
    Body(m) + blake3(Body(m))
  }

  method WriteTable(es: seq<ManifestEntry>) returns (buf: Bytes)
    ensures buf == TableBytes(es)
  {
    buf := [];
    for i := 0 to |es|
      invariant buf == TableBytes(es[..i])
    {
      assert es[..i + 1][..i] == es[..i];
      buf := buf + EntryBytes(es[i]);
    }
    assert es[..|es|] == es;
  }

  method Encode(blake3: Blake3, m: Manifest) returns (buf: Bytes)
    ensures buf == Encoded(blake3, m)
  {
    var table := WriteTable(m.entries);
    buf := WriteHeader(HeaderOf(m)) + table + m.blob.bytes;
    buf := buf + blake3(buf);
  }

  /** The first header field that fails, in the order the decoder looks at them. */
  function HeaderError(h: Header): Option<ManifestError> {
    if h.magic != MAGIC then Some(BadMagic)
    else if h.version != VERSION then Some(UnsupportedVersion(h.version))
    else if h.flags >= 4 then Some(UnknownFlags(h.flags - h.flags % 4))
    else if h.headerLen != HEADER_LEN then Some(BadHeaderLen(h.headerLen))
    else if h.reserved != 0 then Some(ReservedNonZero)
    else if h.pageSize != PAGE_SIZE then Some(BadPageSize(h.pageSize))
    else if h.guestRam % PAGE_SIZE != 0 then Some(GuestRamNotAligned(h.guestRam))
    else None
  }

  /** Size check, with the overflow guards of the 64-bit arithmetic. */
  function SizeError(h: Header, bodyLen: nat): Option<ManifestError> {
    var expected := HEADER_LEN + 40 * h.entryCount + h.blobLen;
    if expected >= TWO64 || bodyLen < expected then Some(Truncated)
    else if bodyLen > expected then Some(TrailingBytes)
    else None
  }

  /** The first entry at or past `pages`, if any. */
  function FirstOutOfRange(es: seq<ManifestEntry>, pages: nat): (r: Option<ManifestError>)
    ensures r.None? <==> InRange(es, pages)
  {
    if es == [] then None
    else if es[0].pageIndex >= pages then Some(DeltaIndexOutOfRange(es[0].pageIndex, pages))
    else
      assert forall i :: 0 < i < |es| ==> es[i] == es[1..][i - 1];
      FirstOutOfRange(es[1..], pages)
  }

  ghost function TableError(h: Header, es: seq<ManifestEntry>): Option<ManifestError> {
    var pages := Pages(h.guestRam);
    if !Ascending(es) then Some(EntriesNotAscending)
    else if h.flags % 2 == 1 then
      if h.parent == Zeros(32) then Some(DeltaZeroParent) else FirstOutOfRange(es, pages)
    else if h.parent != Zeros(32) then Some(FullNonZeroParent)
    else if h.entryCount != pages then Some(FullCountMismatch(h.entryCount, pages))
    else if !Contiguous(es) then Some(FullNotContiguous)
    else None
  }

  function BlobError(h: Header, bytes: Bytes, unzstd: Unzstd): Option<ManifestError> {
    if h.flags / 2 % 2 == 1 then
      match unzstd(bytes)
      case None => Some(ZstdRawLenMismatch(0, h.rawLen))
      case Some(n) => if n != h.rawLen then Some(ZstdRawLenMismatch(n, h.rawLen)) else None
    else if h.rawLen != h.blobLen then Some(NonZstdRawLenMismatch(h.rawLen, h.blobLen))
    else None
  }

  function ManifestOf(h: Header, es: seq<ManifestEntry>, bytes: Bytes): Manifest {
    Manifest(h.version, h.flags % 2 == 1, if h.flags % 2 == 1 then Some(h.parent) else None, h.guestRam, es,
             DeviceBlob(h.format, h.flags / 2 % 2 == 1, bytes, h.rawLen))
  }

  /** The verdict on a body whose footer matched: one error per failing check, in the decoder's order. */
  ghost function DecodedBody(unzstd: Unzstd, body: Bytes): Result<Manifest, ManifestError>
    requires |body| >= HEADER_LEN
  {
    var h := ReadHeader(body);
    if HeaderError(h).Some? then Err(HeaderError(h).value)
    else if SizeError(h, |body|).Some? then Err(SizeError(h, |body|).value) else
    var es, bytes := TableAt(body, HEADER_LEN, h.entryCount), body[HEADER_LEN + 40 * h.entryCount..];
    if TableError(h, es).Some? then Err(TableError(h, es).value)
    else if BlobError(h, bytes, unzstd).Some? then Err(BlobError(h, bytes, unzstd).value)
    else Ok(ManifestOf(h, es, bytes))
  }

  /** The decoder's verdict on any byte string: total, footer first. */
  ghost function Decoded(blake3: Blake3, unzstd: Unzstd, buf: Bytes): Result<Manifest, ManifestError> {
    if |buf| < HEADER_LEN + FOOTER_LEN then Err(Truncated) else
    var body := buf[..|buf| - FOOTER_LEN];
    if blake3(body) != buf[|body|..] then Err(FooterMismatch) else DecodedBody(unzstd, body)
  }

  // ── The format is canonical ────────────────────────────────────────────

  /** A header and table pass every check exactly when they describe a well-formed manifest. */
  lemma ChecksAreWellFormedness(h: Header, es: seq<ManifestEntry>, bytes: Bytes, unzstd: Unzstd)
    requires |h.magic| == 8 && |es| == h.entryCount && |bytes| == h.blobLen && HeaderError(h).None?
    ensures TableError(h, es).None? && BlobError(h, bytes, unzstd).None? <==>
            var m := ManifestOf(h, es, bytes); Built(m) && Complete(m, unzstd) && HeaderOf(m).parent == h.parent
  {
  }

  lemma HeaderOfManifestOf(h: Header, es: seq<ManifestEntry>, bytes: Bytes)
    requires |h.magic| == 8 && |es| == h.entryCount && |bytes| == h.blobLen && HeaderError(h).None?
    requires HeaderOf(ManifestOf(h, es, bytes)).parent == h.parent
    ensures HeaderOf(ManifestOf(h, es, bytes)) == h
  {
    assert h.flags == h.flags % 2 + 2 * (h.flags / 2 % 2);
  }

  /** Concatenating what was read at three consecutive places gives the body back. */
  lemma BodyWritesBack(body: Bytes, m: Manifest)
    requires |body| >= HEADER_LEN
    requires var h := ReadHeader(body);
             && SizeError(h, |body|).None? && HeaderOf(m) == h
             && m.entries == TableAt(body, HEADER_LEN, h.entryCount)
             && m.blob.bytes == body[HEADER_LEN + 40 * h.entryCount..]
    ensures Body(m) == body
  {
    var h := ReadHeader(body);
    var cut := HEADER_LEN + 40 * h.entryCount;
    HeaderWritesBack(body);
    TableWritesBack(body, HEADER_LEN, h.entryCount);
    Join(body, HEADER_LEN, cut);
  }

  lemma Join(b: Bytes, i: nat, j: nat)
    requires i <= j <= |b|
    ensures b[..i] + b[i..j] + b[j..] == b
  {
  }

  lemma BodyHeader(m: Manifest)
    ensures |Body(m)| >= HEADER_LEN && ReadHeader(Body(m)) == HeaderOf(m)
  {
    var w, t := WriteHeader(HeaderOf(m)), TableBytes(m.entries);
    assert w + t + m.blob.bytes == w + (t + m.blob.bytes);
    HeaderReadsBack(HeaderOf(m), t + m.blob.bytes);
  }

  lemma Sections(w: Bytes, es: seq<ManifestEntry>, blob: Bytes, count: nat)
    requires |w| == HEADER_LEN && count == |es|
    ensures var body := w + TableBytes(es) + blob;
            && |body| == HEADER_LEN + 40 * count + |blob|
            && TableAt(body, HEADER_LEN, count) == es
            && body[HEADER_LEN + 40 * count..] == blob
  {
    TableReadsBack(es, w, blob);
  }

  lemma BodySections(m: Manifest)
    requires Fits(m)
    ensures var body, h := Body(m), HeaderOf(m);
            && |body| == HEADER_LEN + 40 * h.entryCount + h.blobLen
            && TableAt(body, HEADER_LEN, h.entryCount) == m.entries
            && body[HEADER_LEN + 40 * h.entryCount..] == m.blob.bytes
  {
    var h := HeaderOf(m);
    Sections(WriteHeader(h), m.entries, m.blob.bytes, h.entryCount);
  }

  /** An accepted byte string is the encoding of the manifest it decodes to. */
  lemma AcceptedIsEncoding(blake3: Blake3, unzstd: Unzstd, buf: Bytes)
    requires Decoded(blake3, unzstd, buf).Ok?
    ensures var m := Decoded(blake3, unzstd, buf).value;
            Built(m) && Complete(m, unzstd) && Fits(m) && Encoded(blake3, m) == buf
  {
    var body := buf[..|buf| - FOOTER_LEN];
    var h := ReadHeader(body);
    var es, bytes := TableAt(body, HEADER_LEN, h.entryCount), body[HEADER_LEN + 40 * h.entryCount..];
    ChecksAreWellFormedness(h, es, bytes, unzstd);
    HeaderOfManifestOf(h, es, bytes);
    BodyWritesBack(body, ManifestOf(h, es, bytes));
    assert buf == body + buf[|body|..];
  }

  lemma HeaderOfComplete(m: Manifest, unzstd: Unzstd)
    requires Built(m) && Complete(m, unzstd) && Fits(m)
    ensures var h := HeaderOf(m);
            && HeaderError(h).None? && SizeError(h, |Body(m)|).None?
            && ManifestOf(h, m.entries, m.blob.bytes) == m
            && TableError(h, m.entries).None? && BlobError(h, m.blob.bytes, unzstd).None?
  {
    HeaderIsFaultless(m);
    HeaderGivesBack(m);
    ChecksAreWellFormedness(HeaderOf(m), m.entries, m.blob.bytes, unzstd);
  }

  lemma HeaderIsFaultless(m: Manifest)
    requires Built(m) && Fits(m)
    ensures HeaderError(HeaderOf(m)).None?
  {
  }

  lemma HeaderGivesBack(m: Manifest)
    requires Built(m) && Fits(m) && m.parent != Some(Zeros(32))
    ensures ManifestOf(HeaderOf(m), m.entries, m.blob.bytes) == m
  {
  }

  lemma AssembleOk(unzstd: Unzstd, body: Bytes, h: Header, m: Manifest)
    requires |body| >= HEADER_LEN && ReadHeader(body) == h && HeaderError(h).None? && SizeError(h, |body|).None?
    requires TableAt(body, HEADER_LEN, h.entryCount) == m.entries
    requires body[HEADER_LEN + 40 * h.entryCount..] == m.blob.bytes
    requires ManifestOf(h, m.entries, m.blob.bytes) == m
    requires TableError(h, m.entries).None? && BlobError(h, m.blob.bytes, unzstd).None?
    ensures DecodedBody(unzstd, body) == Ok(m)
  {
  }

  lemma BodyIsAccepted(unzstd: Unzstd, m: Manifest)
    requires Built(m) && Complete(m, unzstd) && Fits(m)
    ensures |Body(m)| >= HEADER_LEN && DecodedBody(unzstd, Body(m)) == Ok(m)
  {
    BodyHeader(m);
    BodySections(m);
    HeaderOfComplete(m, unzstd);
    AssembleOk(unzstd, Body(m), HeaderOf(m), m);
  }

  /** A complete manifest decodes from its encoding. */
  lemma EncodingIsAccepted(blake3: Blake3, unzstd: Unzstd, m: Manifest)
    requires Built(m) && Complete(m, unzstd) && Fits(m)
    ensures Decoded(blake3, unzstd, Encoded(blake3, m)) == Ok(m)
  {
    BodyIsAccepted(unzstd, m);
    var body := Body(m);
    var buf := body + blake3(body);
    assert buf[..|buf| - FOOTER_LEN] == body && buf[|body|..] == blake3(body);
  }

  /** Canonical both ways: `decode` accepts exactly the encodings of complete manifests, and inverts `encode` on them. */
  lemma DecodeInvertsEncode(blake3: Blake3, unzstd: Unzstd, buf: Bytes, m: Manifest)
    ensures Decoded(blake3, unzstd, buf) == Ok(m) <==>
            Built(m) && Complete(m, unzstd) && Fits(m) && Encoded(blake3, m) == buf
  {
    if Decoded(blake3, unzstd, buf) == Ok(m) {
      AcceptedIsEncoding(blake3, unzstd, buf);
    }
    if Built(m) && Complete(m, unzstd) && Fits(m) && Encoded(blake3, m) == buf {
      EncodingIsAccepted(blake3, unzstd, m);
    }
  }

  /** A builder-made manifest survives the round trip exactly when it carries a non-zero parent and a blob that
      decompresses to its recorded length. */
  lemma BuilderRoundTrip(blake3: Blake3, unzstd: Unzstd, m: Manifest)
    requires Built(m) && Fits(m)
    ensures Decoded(blake3, unzstd, Encoded(blake3, m)) == Ok(m) <==> Complete(m, unzstd)
  {
    DecodeInvertsEncode(blake3, unzstd, Encoded(blake3, m), m);
  }

  lemma FooterMatches(blake3: Blake3, unzstd: Unzstd, m: Manifest)
    ensures |Body(m)| >= HEADER_LEN && Decoded(blake3, unzstd, Encoded(blake3, m)) == DecodedBody(unzstd, Body(m))
  {
    BodyHeader(m);
    var body := Body(m);
    var buf := body + blake3(body);
    assert buf[..|buf| - FOOTER_LEN] == body && buf[|body|..] == blake3(body);
  }

  lemma SizeIsFaultless(m: Manifest)
    requires Fits(m)
    ensures SizeError(HeaderOf(m), |Body(m)|).None?
  {
    BodySections(m);
  }

  /** What decides about an encoded manifest once header and size pass. */
  lemma EncodedVerdict(blake3: Blake3, unzstd: Unzstd, m: Manifest)
    requires Built(m) && Fits(m)
    ensures var r, h := Decoded(blake3, unzstd, Encoded(blake3, m)), HeaderOf(m);
      if TableError(h, m.entries).Some? then r == Err(TableError(h, m.entries).value)
      else BlobError(h, m.blob.bytes, unzstd).Some? ==> r == Err(BlobError(h, m.blob.bytes, unzstd).value)
  {
    FooterMatches(blake3, unzstd, m);
    BodyHeader(m);
    BodySections(m);
    SizeIsFaultless(m);
    HeaderIsFaultless(m);
  }

  /** What the decoder says of a built delta with an all-zero parent. */
  lemma ZeroParentIsRefused(blake3: Blake3, unzstd: Unzstd, m: Manifest)
    requires Built(m) && Fits(m) && m.parent == Some(Zeros(32))
    ensures Decoded(blake3, unzstd, Encoded(blake3, m)) == Err(DeltaZeroParent)
  {
    EncodedVerdict(blake3, unzstd, m);
    ZeroParentFault(HeaderOf(m), m);
  }

  lemma ZeroParentFault(h: Header, m: Manifest)
    requires h == HeaderOf(m) && Built(m) && m.parent == Some(Zeros(32))
    ensures TableError(h, m.entries) == Some(DeltaZeroParent)
  {
  }

  /** ... and of one whose zstd blob does not decompress to its stated length. */
  lemma WrongLengthIsRefused(blake3: Blake3, unzstd: Unzstd, m: Manifest)
    requires Built(m) && Fits(m) && m.parent != Some(Zeros(32)) && m.blob.zstd && unzstd(m.blob.bytes) != Some(m.blob.rawLen)
    ensures var found := unzstd(m.blob.bytes);
      Decoded(blake3, unzstd, Encoded(blake3, m))
      == Err(ZstdRawLenMismatch(if found.Some? then found.value else 0, m.blob.rawLen))
  {
    EncodedVerdict(blake3, unzstd, m);
    TableIsFaultless(m);
    WrongLengthFault(HeaderOf(m), m, unzstd);
  }

  lemma WrongLengthFault(h: Header, m: Manifest, unzstd: Unzstd)
    requires h == HeaderOf(m) && m.blob.zstd && unzstd(m.blob.bytes) != Some(m.blob.rawLen)
    ensures var found := unzstd(m.blob.bytes);
      BlobError(h, m.blob.bytes, unzstd) == Some(ZstdRawLenMismatch(if found.Some? then found.value else 0, m.blob.rawLen))
  {
  }

  lemma TableIsFaultless(m: Manifest)
    requires Built(m) && Fits(m) && m.parent != Some(Zeros(32))
    ensures TableError(HeaderOf(m), m.entries).None?
  {
    assert Contiguous(m.entries) ==> Ascending(m.entries);
  }
}
