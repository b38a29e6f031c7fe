/** The pack file at byte level: header, records, footer, and what the scanners make of any prefix of it. */
module PackFormat {
  import opened Base

  const PACK_MAGIC: Bytes := [0x53, 0x50, 0x4B, 0x31]    // "SPK1"
  const FOOTER_MAGIC: Bytes := [0x53, 0x50, 0x4B, 0x46]  // "SPKF"
  const PAGE_SIZE: nat := 4096
  const HEADER_SIZE: nat := 20
  const RECORD_HEADER: nat := 37
  const RECORD_SIZE: nat := 4133
  const FOOTER_SIZE: nat := 44

  type Page = p: Bytes | |p| == PAGE_SIZE witness Zeros(PAGE_SIZE)

  datatype Record = Record(hash: Digest, page: Page)

  ghost predicate AllGenuine(blake3: Blake3, rs: seq<Record>) {
    forall i :: 0 <= i < |rs| ==> blake3(rs[i].page) == rs[i].hash
  }

  // ── What is written ────────────────────────────────────────────────────

  /** hash | flags = 1 (raw page) | len */
  function RecordHead(h: Digest): (b: Bytes)
    ensures |b| == RECORD_HEADER
  {
    h + [1] + LE(PAGE_SIZE, 4)
  }

  function RecordBytes(r: Record): (b: Bytes)
    ensures |b| == RECORD_SIZE
  {
    RecordHead(r.hash) + r.page
  }

  function BodyBytes(rs: seq<Record>): (b: Bytes)
    ensures |b| == 4133 * |rs|
  {
    if rs == [] then [] else BodyBytes(rs[..|rs| - 1]) + RecordBytes(rs[|rs| - 1])
  }

  function FooterBytes(blake3: Blake3, rs: seq<Record>): (b: Bytes)
    ensures |b| == FOOTER_SIZE
  {
    FOOTER_MAGIC + LE(|rs|, 8) + blake3(BodyBytes(rs))
  }

  /** magic | version = 1 | pack id | creation time */
  function HeaderBytes(id: nat, created: nat): (b: Bytes)
    ensures |b| == HEADER_SIZE && b[..4] == PACK_MAGIC
  {
    PACK_MAGIC + LE(1, 4) + LE(id, 4) + LE(created, 8)
  }

  function RecordOffset(i: nat): nat { HEADER_SIZE + 4133 * i }

  ghost predicate IsHeader(hdr: Bytes) { |hdr| == HEADER_SIZE && hdr[..4] == PACK_MAGIC }

  // ── Frames ─────────────────────────────────────────────────────────────

  /** The length field of the record header at `off`. */
  function LenAt(file: Bytes, off: nat): U32
    requires off + RECORD_HEADER <= |file|
  {
    U32At(file, off + 33)
  }

  /** A record header and its whole payload lie inside the file. */
  predicate Framed(file: Bytes, off: nat) {
    off + RECORD_HEADER <= |file| && off + RECORD_HEADER + LenAt(file, off) <= |file|
  }

  /** The scanners differ only in which frames they accept: counting takes any, resuming a writer bounds the length,
      verification also recomputes the page hash. */
  datatype Scanner = Counting | Resuming | Verifying(blake3: Blake3)

  predicate Accepts(s: Scanner, file: Bytes, off: nat)
    requires Framed(file, off)
  {
    var len := LenAt(file, off);
    match s
    case Counting => true
    case Resuming => len <= 2 * 4096
    case Verifying(blake3) =>
      && (file[off + 32] % 2 == 1 ==> len == PAGE_SIZE)
      && len <= 2 * 4096
      && blake3(file[off + RECORD_HEADER..off + RECORD_HEADER + len]) == file[off..off + 32]
  }

  /** Where a scan from `off` stops and how many frames it passes. */
  function Walk(s: Scanner, file: Bytes, off: nat): (r: (nat, nat))
    requires off <= |file|
    ensures off <= r.0 <= |file|
    decreases |file| - off
  {
    if Framed(file, off) && Accepts(s, file, off) then
      var (end, n) := Walk(s, file, off + RECORD_HEADER + LenAt(file, off));
      (end, n + 1)
    else (off, 0)
  }

  /** Where the scanners part: a frame that is whole is passed by counting; resuming also wants it no longer than two pages,
      and verification moreover wants a raw page to be one page long and the payload to have the hash before it. */
  lemma ScannersPart(blake3: Blake3, file: Bytes, off: nat)
    requires Framed(file, off)
    ensures var len, next := U32At(file, off + 33), off + 37 + U32At(file, off + 33);
      && Walk(Counting, file, off) == (Walk(Counting, file, next).0, Walk(Counting, file, next).1 + 1)
      && Walk(Resuming, file, off)
         == (if len <= 8192 then (Walk(Resuming, file, next).0, Walk(Resuming, file, next).1 + 1) else (off, 0))
      && Walk(Verifying(blake3), file, off)
         == (if len <= 8192 && (file[off + 32] % 2 == 1 ==> len == 4096) && blake3(file[off + 37..next]) == file[off..off + 32]
             then (Walk(Verifying(blake3), file, next).0, Walk(Verifying(blake3), file, next).1 + 1) else (off, 0))
  {
  }

  /** The listing of a body: record starts and hashes up to `end`. The last one need not be complete. */
  function Listing(file: Bytes, off: nat, end: nat): (l: seq<(nat, Digest)>)
    requires end <= |file|
    decreases if off <= end then end - off else 0
  {
    if off >= end || end - off < RECORD_HEADER then []
    else [(off, file[off..off + 32])] + Listing(file, off + RECORD_HEADER + LenAt(file, off), end)
  }

  /** Footer magic at the end of the file and a record count that agrees with the frames before it. */
  predicate IsSealed(file: Bytes) {
    && |file| >= HEADER_SIZE + FOOTER_SIZE
    && file[..4] == PACK_MAGIC
    && file[|file| - FOOTER_SIZE..|file| - 40] == FOOTER_MAGIC
    && U64At(file, |file| - 40) == Walk(Counting, file[..|file| - FOOTER_SIZE], HEADER_SIZE).1
  }

  // ── Records found where they were written ──────────────────────────────

  /** The header of a record of this hash starts at `off`. */
  predicate HeadAt(file: Bytes, off: nat, h: Digest) {
    off + RECORD_HEADER <= |file| && file[off..off + 32] == h && file[off + 32] == 1 && LenAt(file, off) == 4096
  }

  /** This record, header and page, lies at `off`. */
  predicate RecordAt(file: Bytes, off: nat, r: Record) {
    off + 4133 <= |file| && HeadAt(file, off, r.hash) && file[off + RECORD_HEADER..off + 4133] == r.page
  }

  /** The records sit one after another right behind the header. */
  ghost predicate Holds(file: Bytes, rs: seq<Record>) {
    && RecordOffset(|rs|) <= |file|
    && forall i :: 0 <= i < |rs| ==> RecordAt(file, RecordOffset(i), rs[i])
  }

  lemma HeadFields(file: Bytes, off: nat, h: Digest)
    requires off + RECORD_HEADER <= |file| && file[off..off + RECORD_HEADER] == RecordHead(h)
    ensures HeadAt(file, off, h)
  {
    var head := file[off..off + RECORD_HEADER];
    assert file[off..off + 32] == head[..32];
    assert forall i :: 0 <= i < RECORD_HEADER ==> file[off + i] == head[i];
    assert LE(PAGE_SIZE, 4) == [0x00, 0x10, 0x00, 0x00];
  }

  lemma RecordFields(file: Bytes, off: nat, r: Record)
    requires off + RECORD_SIZE <= |file| && file[off..off + RECORD_SIZE] == RecordBytes(r)
    ensures RecordAt(file, off, r)
  {
    var b := file[off..off + RECORD_SIZE];
    assert file[off..off + RECORD_HEADER] == b[..RECORD_HEADER] == RecordHead(r.hash);
    HeadFields(file, off, r.hash);
    assert file[off + RECORD_HEADER..off + RECORD_SIZE] == b[RECORD_HEADER..] == r.page;
  }

  lemma {:induction false} RecordInBody(pre: Bytes, rs: seq<Record>, i: nat, tail: Bytes)
    requires i < |rs|
    ensures var at := |pre| + 4133 * i;
            (pre + BodyBytes(rs) + tail)[at..at + RECORD_SIZE] == RecordBytes(rs[i])
  {
    var n := |rs| - 1;
    var front, last := BodyBytes(rs[..n]), RecordBytes(rs[n]);
    Regroup(pre, front, last, tail);
    if i < n {
      RecordInBody(pre, rs[..n], i, last + tail);
    } else {
      MiddlePart(pre + front, last, tail);
    }
  }

  lemma Regroup(a: Bytes, b: Bytes, c: Bytes, d: Bytes)
    ensures a + (b + c) + d == a + b + (c + d) == a + b + c + d
  {
  }

  lemma MiddlePart(a: Bytes, b: Bytes, c: Bytes)
    ensures (a + b + c)[|a|..|a| + |b|] == b
  {
  }

  /** What the writer puts behind the header is found there, whatever follows. */
  lemma FileHolds(hdr: Bytes, rs: seq<Record>, tail: Bytes)
    requires |hdr| == HEADER_SIZE
    ensures Holds(hdr + BodyBytes(rs) + tail, rs)
  {
    var file := hdr + BodyBytes(rs) + tail;
    forall i | 0 <= i < |rs| ensures RecordAt(file, RecordOffset(i), rs[i]) {
      RecordInBody(hdr, rs, i, tail);
      RecordFields(file, RecordOffset(i), rs[i]);
    }
  }

  lemma WalkOver(s: Scanner, file: Bytes, off: nat, r: Record)
    requires RecordAt(file, off, r)
    requires s.Verifying? ==> s.blake3(r.page) == r.hash
    ensures var rest := Walk(s, file, off + 4133); Walk(s, file, off) == (rest.0, rest.1 + 1)
  {
  }

  /** Every scanner passes over the records and goes on with whatever follows them. */
  lemma {:induction false} WalkRecords(s: Scanner, file: Bytes, rs: seq<Record>, k: nat)
    requires Holds(file, rs) && k <= |rs|
    requires s.Verifying? ==> AllGenuine(s.blake3, rs)
    ensures var all, rest := Walk(s, file, HEADER_SIZE), Walk(s, file, RecordOffset(k));
            all.0 == rest.0 && all.1 == rest.1 + k
  {
    if k > 0 {
      var at := RecordOffset(k - 1);
      WalkRecords(s, file, rs, k - 1);
      assert RecordAt(file, at, rs[k - 1]);
      WalkOver(s, file, at, rs[k - 1]);
      assert at + 4133 == RecordOffset(k);
    }
  }

  /** Verification stops exactly before the first record whose page does not have its hash; the scans that only count go
      past it. */
  lemma CorruptRecordStops(blake3: Blake3, file: Bytes, rs: seq<Record>, k: nat)
    requires Holds(file, rs) && k < |rs| && AllGenuine(blake3, rs[..k]) && blake3(rs[k].page) != rs[k].hash
    ensures Walk(Verifying(blake3), file, HEADER_SIZE) == (RecordOffset(k), k)
    ensures Walk(Counting, file, HEADER_SIZE).1 >= |rs| && Walk(Resuming, file, HEADER_SIZE).1 >= |rs|
  {
    assert Holds(file, rs[..k]);
    WalkRecords(Verifying(blake3), file, rs[..k], k);
    assert RecordAt(file, RecordOffset(k), rs[k]);
    WalkRecords(Counting, file, rs, |rs|);
    WalkRecords(Resuming, file, rs, |rs|);
  }

  /** Complete records, then the first `t` bytes of another one. */
  ghost predicate Torn(file: Bytes, rs: seq<Record>, h: Digest, t: nat) {
    && t < RECORD_SIZE && Holds(file, rs) && |file| == RecordOffset(|rs|) + t
    && (t >= RECORD_HEADER ==> HeadAt(file, RecordOffset(|rs|), h))
  }

  /** Complete records followed by a torn one: every scanner stops exactly after the complete ones, because the torn
      record's length field promises more bytes than there are. */
  lemma WalkTorn(s: Scanner, file: Bytes, rs: seq<Record>, h: Digest, t: nat)
    requires Torn(file, rs, h, t)
    requires s.Verifying? ==> AllGenuine(s.blake3, rs)
    ensures Walk(s, file, HEADER_SIZE) == (RecordOffset(|rs|), |rs|)
  {
    WalkRecords(s, file, rs, |rs|);
  }

  lemma ListOver(file: Bytes, off: nat, end: nat, h: Digest)
    requires off + RECORD_HEADER <= end <= |file| && HeadAt(file, off, h)
    ensures Listing(file, off, end) == [(off, h)] + Listing(file, off + 4133, end)
  {
  }

  /** The listing a recovery should produce: every complete record at its offset. */
  function Entries(rs: seq<Record>, k: nat): (l: seq<(nat, Digest)>)
    requires k <= |rs|
    ensures |l| == k && forall i :: 0 <= i < k ==> l[i] == (RecordOffset(i), rs[i].hash)
  {
    seq(k, i requires 0 <= i < k => (RecordOffset(i), rs[i].hash))
  }

  lemma {:induction false} ListRecords(file: Bytes, rs: seq<Record>, end: nat, k: nat)
    requires Holds(file, rs) && k <= |rs| && RecordOffset(k) <= end <= |file|
    ensures Listing(file, RecordOffset(0), end) == Entries(rs, k) + Listing(file, RecordOffset(k), end)
  {
    if k > 0 {
      ListRecords(file, rs, end, k - 1);
      ListOver(file, RecordOffset(k - 1), end, rs[k - 1].hash);
      EntriesSnoc(rs, k, Listing(file, RecordOffset(k), end));
    }
  }

  lemma ListComplete(file: Bytes, rs: seq<Record>, end: nat)
    requires Holds(file, rs) && end == RecordOffset(|rs|)
    ensures Listing(file, HEADER_SIZE, end) == Entries(rs, |rs|)
  {
    ListRecords(file, rs, end, |rs|);
  }

  lemma EntriesSnoc(rs: seq<Record>, k: nat, rest: seq<(nat, Digest)>)
    requires 0 < k <= |rs|
    ensures Entries(rs, k - 1) + ([(RecordOffset(k - 1), rs[k - 1].hash)] + rest) == Entries(rs, k) + rest
  {
  }

  // ── Interrupted packs ──────────────────────────────────────────────────

  lemma HoldsPrefix(file: Bytes, rs: seq<Record>, len: nat, k: nat)
    requires Holds(file, rs) && k <= |rs| && RecordOffset(k) <= len <= |file|
    ensures Holds(file[..len], rs[..k])
  {
    forall i | 0 <= i < k ensures RecordAt(file[..len], RecordOffset(i), rs[..k][i]) {
      RecordAtPrefix(file, RecordOffset(i), rs[i], len);
    }
  }

  lemma HeadAtPrefix(file: Bytes, off: nat, h: Digest, len: nat)
    requires HeadAt(file, off, h) && off + RECORD_HEADER <= len <= |file|
    ensures HeadAt(file[..len], off, h)
  {
    assert file[..len][off..off + 32] == file[off..off + 32];
  }

  lemma RecordAtPrefix(file: Bytes, off: nat, r: Record, len: nat)
    requires RecordAt(file, off, r) && off + 4133 <= len <= |file|
    ensures RecordAt(file[..len], off, r)
  {
    HeadAtPrefix(file, off, r.hash, len);
    assert file[..len][off + RECORD_HEADER..off + 4133] == file[off + RECORD_HEADER..off + 4133];
  }

  /** Cutting a file inside record `k` tears that record and leaves the ones before it complete. */
  lemma CutTears(file: Bytes, rs: seq<Record>, k: nat, t: nat)
    requires Holds(file, rs) && k < |rs| && t < RECORD_SIZE
    ensures Torn(file[..RecordOffset(k) + t], rs[..k], rs[k].hash, t)
  {
    HoldsPrefix(file, rs, RecordOffset(k) + t, k);
    if t >= RECORD_HEADER { HeadAtPrefix(file, RecordOffset(k), rs[k].hash, RecordOffset(k) + t); }
  }

  /** A kill at any byte of record `k`: verification keeps exactly the `k` complete records. */
  lemma KilledWriteKeepsComplete(blake3: Blake3, file: Bytes, rs: seq<Record>, k: nat, t: nat)
    requires Holds(file, rs) && AllGenuine(blake3, rs) && k < |rs| && t < RECORD_SIZE
    ensures Walk(Verifying(blake3), file[..RecordOffset(k) + t], HEADER_SIZE) == (RecordOffset(k), k)
  {
    CutTears(file, rs, k, t);
    WalkTorn(Verifying(blake3), file[..RecordOffset(k) + t], rs[..k], rs[k].hash, t);
  }

  /** The one way a torn footer can be taken for a record: at least 37 of its 44 bytes survive and the body digest
      inside it happens to spell an even flags byte, a length of at most seven and a hash equal to its own first bytes. */
  predicate FooterReadsAsRecord(blake3: Blake3, footer: Bytes, t: nat)
    requires t <= FOOTER_SIZE <= |footer|
  {
    && t >= RECORD_HEADER && footer[32] % 2 == 0
    && U32At(footer, 33) <= t - RECORD_HEADER
    && blake3(footer[RECORD_HEADER..RECORD_HEADER + U32At(footer, 33)]) == footer[..32]
  }

  lemma FooterFrame(blake3: Blake3, file: Bytes, at: nat, footer: Bytes, t: nat)
    requires |footer| == FOOTER_SIZE && t < FOOTER_SIZE && at + t == |file| && file[at..] == footer[..t]
    ensures Framed(file, at) && Accepts(Verifying(blake3), file, at) <==> FooterReadsAsRecord(blake3, footer, t)
  {
    if t >= RECORD_HEADER {
      assert forall i :: 0 <= i < t ==> file[at + i] == file[at..][i] == footer[i];
      assert file[at + 33..at + 37] == footer[33..37];
      var len := LenAt(file, at);
      if len <= t - RECORD_HEADER {
        assert file[at + RECORD_HEADER..at + RECORD_HEADER + len] == footer[RECORD_HEADER..RECORD_HEADER + len];
        assert file[at..at + 32] == footer[..32];
      }
    }
  }

  /** A kill while writing the footer: the records are kept exactly unless the torn footer reads as a record. */
  lemma KilledFooterKeepsComplete(blake3: Blake3, file: Bytes, rs: seq<Record>, t: nat)
    requires Holds(file, rs) && AllGenuine(blake3, rs) && t < FOOTER_SIZE && |file| == RecordOffset(|rs|) + t
    requires file[RecordOffset(|rs|)..] == FooterBytes(blake3, rs)[..t]
    ensures Walk(Verifying(blake3), file, HEADER_SIZE) == (RecordOffset(|rs|), |rs|)
            <==> !FooterReadsAsRecord(blake3, FooterBytes(blake3, rs), t)
  {
    WalkRecords(Verifying(blake3), file, rs, |rs|);
    FooterFrame(blake3, file, RecordOffset(|rs|), FooterBytes(blake3, rs), t);
  }

  // ── Sealed detection ───────────────────────────────────────────────────

  /** The last 44 bytes carry the footer magic and this record count. */
  predicate FooterShaped(file: Bytes, count: int) {
    && |file| >= HEADER_SIZE + FOOTER_SIZE
    && file[|file| - FOOTER_SIZE..|file| - 40] == FOOTER_MAGIC
    && U64At(file, |file| - 40) == count
  }

  /** A pack that was sealed is recognised as sealed, with the body ending where the footer starts. */
  lemma SealedIsRecognised(blake3: Blake3, file: Bytes, rs: seq<Record>)
    requires Holds(file, rs) && |rs| < TWO64 && file[..4] == PACK_MAGIC
    requires file[RecordOffset(|rs|)..] == FooterBytes(blake3, rs)
    ensures IsSealed(file)
  {
    var footer, end := FooterBytes(blake3, rs), RecordOffset(|rs|);
    HoldsPrefix(file, rs, end, |rs|);
    assert rs[..|rs|] == rs;
    WalkRecords(Counting, file[..end], rs, |rs|);
    FooterFields(file, end, footer, |rs|);
  }

  lemma FooterFields(file: Bytes, at: nat, footer: Bytes, n: U64)
    requires HEADER_SIZE <= at && at + FOOTER_SIZE == |file| && file[at..] == footer && |footer| == FOOTER_SIZE
    requires footer[..4] == FOOTER_MAGIC && footer[4..12] == LE(n, 8)
    ensures FooterShaped(file, n)
  {
    assert file[at..at + 4] == footer[..4];
    assert file[at + 4..at + 12] == footer[4..12];
    RoundTrip64(n);
  }

  /** How many whole records end before the last 44 bytes of an unsealed pack. */
  function BeforeTail(n: nat, t: nat): int { if t >= FOOTER_SIZE then n else n - 1 }

  lemma FramesBeforeTail(file: Bytes, rs: seq<Record>, h: Digest, t: nat)
    requires Torn(file, rs, h, t) && (t >= FOOTER_SIZE || rs != [])
    ensures |file| >= HEADER_SIZE + FOOTER_SIZE
    ensures Walk(Counting, file[..|file| - FOOTER_SIZE], HEADER_SIZE).1 == BeforeTail(|rs|, t)
  {
    var n, end := |rs|, |file| - FOOTER_SIZE;
    if t >= FOOTER_SIZE {
      HoldsPrefix(file, rs, end, n);
      assert rs[..n] == rs;
      if t - FOOTER_SIZE >= RECORD_HEADER { HeadAtPrefix(file, RecordOffset(n), h, end); }
      WalkTorn(Counting, file[..end], rs, h, t - FOOTER_SIZE);
    } else {
      CutTears(file, rs, n - 1, RECORD_SIZE + t - FOOTER_SIZE);
      WalkTorn(Counting, file[..end], rs[..n - 1], rs[n - 1].hash, RECORD_SIZE + t - FOOTER_SIZE);
    }
  }

  /** An unsealed pack is taken for a sealed one exactly when its last 44 bytes, which are page data, look like a footer
      for the records that end before them. */
  lemma UnsealedTakenForSealed(file: Bytes, rs: seq<Record>, h: Digest, t: nat)
    requires Torn(file, rs, h, t) && file[..4] == PACK_MAGIC
    ensures IsSealed(file) <==> FooterShaped(file, BeforeTail(|rs|, t))
  {
    if t >= FOOTER_SIZE || rs != [] { FramesBeforeTail(file, rs, h, t); }
  }

  // ── Recovery ───────────────────────────────────────────────────────────

  /** What a restart lists from a pack file: the body before the footer if it looks sealed, otherwise what verification
      kept. */
  ghost function Recovered(blake3: Blake3, file: Bytes): seq<(nat, Digest)>
    requires |file| >= HEADER_SIZE
  {
    if IsSealed(file) then Listing(file, HEADER_SIZE, |file| - FOOTER_SIZE)
    else
      var end := Walk(Verifying(blake3), file, HEADER_SIZE).0;
      Listing(file[..end], HEADER_SIZE, end)
  }

  /** A sealed pack lists all of its records. */
  lemma RecoveredSealed(blake3: Blake3, file: Bytes, rs: seq<Record>)
    requires Holds(file, rs) && |rs| < TWO64 && file[..4] == PACK_MAGIC
    requires file[RecordOffset(|rs|)..] == FooterBytes(blake3, rs)
    ensures Recovered(blake3, file) == Entries(rs, |rs|)
  {
    SealedIsRecognised(blake3, file, rs);
    RecoveredAsSealed(blake3, file);
    ListComplete(file, rs, |file| - FOOTER_SIZE);
  }

  lemma RecoveredAsSealed(blake3: Blake3, file: Bytes)
    requires IsSealed(file) && |file| >= HEADER_SIZE
    ensures |file| >= FOOTER_SIZE && Recovered(blake3, file) == Listing(file, HEADER_SIZE, |file| - FOOTER_SIZE)
  {
  }

  /** A pack killed while writing lists exactly its complete records, unless at least 81 bytes of the torn record made
      it to disk and the last 44 of them look like a footer counting the complete records. */
  lemma RecoveredTorn(blake3: Blake3, file: Bytes, rs: seq<Record>, h: Digest, t: nat)
    requires Torn(file, rs, h, t) && AllGenuine(blake3, rs) && file[..4] == PACK_MAGIC
    ensures Recovered(blake3, file) == Entries(rs, |rs|) <==>
            !(t >= RECORD_HEADER + FOOTER_SIZE && FooterShaped(file, |rs|))
  {
    UnsealedTakenForSealed(file, rs, h, t);
    if IsSealed(file) {
      ListFalselySealed(file, rs, h, t);
    } else {
      var end := RecordOffset(|rs|);
      WalkTorn(Verifying(blake3), file, rs, h, t);
      HoldsPrefix(file, rs, end, |rs|);
      assert rs[..|rs|] == rs;
      ListComplete(file[..end], rs, end);
    }
  }

  /** Complete records, then the first `t` bytes of their footer. */
  ghost predicate TornFooter(blake3: Blake3, file: Bytes, rs: seq<Record>, t: nat) {
    && t < FOOTER_SIZE && Holds(file, rs) && |file| == RecordOffset(|rs|) + t
    && file[RecordOffset(|rs|)..] == FooterBytes(blake3, rs)[..t]
  }

  /** With less than a footer behind them, the last 44 bytes reach into the last record. */
  lemma TornFooterTakenForSealed(blake3: Blake3, file: Bytes, rs: seq<Record>, t: nat)
    requires TornFooter(blake3, file, rs, t) && file[..4] == PACK_MAGIC
    ensures IsSealed(file) <==> rs != [] && FooterShaped(file, |rs| - 1)
  {
    if rs != [] {
      var n, cut := |rs|, RECORD_SIZE + t - FOOTER_SIZE;
      CutTears(file, rs, n - 1, cut);
      WalkTorn(Counting, file[..|file| - FOOTER_SIZE], rs[..n - 1], rs[n - 1].hash, cut);
    }
  }

  /** Taken for sealed, it still lists every record: the header of the last one lies before the supposed footer. */
  lemma ListTornFooter(file: Bytes, rs: seq<Record>, t: nat)
    requires Holds(file, rs) && rs != [] && t < FOOTER_SIZE && |file| == RecordOffset(|rs|) + t
    ensures Listing(file, HEADER_SIZE, |file| - FOOTER_SIZE) == Entries(rs, |rs|)
  {
    var n, end := |rs|, |file| - FOOTER_SIZE;
    ListRecords(file, rs, end, n - 1);
    assert RecordAt(file, RecordOffset(n - 1), rs[n - 1]);
    ListOver(file, RecordOffset(n - 1), end, rs[n - 1].hash);
    EntriesSnoc(rs, n, []);
  }

  /** Verification that went past the records lists one too many. */
  lemma ListPastRecords(file: Bytes, rs: seq<Record>, end: nat)
    requires Holds(file, rs) && RecordOffset(|rs|) + RECORD_HEADER <= end <= |file|
    ensures Listing(file[..end], HEADER_SIZE, end) != Entries(rs, |rs|)
  {
    HoldsPrefix(file, rs, end, |rs|);
    assert rs[..|rs|] == rs;
    ListRecords(file[..end], rs, end, |rs|);
    assert |Listing(file[..end], HEADER_SIZE, end)| > |rs|;
  }

  lemma VerifiedTornFooter(blake3: Blake3, file: Bytes, rs: seq<Record>, t: nat)
    requires TornFooter(blake3, file, rs, t) && AllGenuine(blake3, rs)
    ensures var end := Walk(Verifying(blake3), file, HEADER_SIZE).0;
      Listing(file[..end], HEADER_SIZE, end) == Entries(rs, |rs|) <==> !FooterReadsAsRecord(blake3, FooterBytes(blake3, rs), t)
  {
    var at, footer := RecordOffset(|rs|), FooterBytes(blake3, rs);
    WalkRecords(Verifying(blake3), file, rs, |rs|);
    FooterFrame(blake3, file, at, footer, t);
    if FooterReadsAsRecord(blake3, footer, t) {
      ListPastRecords(file, rs, Walk(Verifying(blake3), file, HEADER_SIZE).0);
    } else {
      HoldsPrefix(file, rs, at, |rs|);
      assert rs[..|rs|] == rs;
      ListComplete(file[..at], rs, at);
    }
  }

  /** A pack killed while its footer is written lists exactly its records if and only if it is taken for sealed all the
      same, or the torn footer does not read as a record. */
  lemma RecoveredTornFooter(blake3: Blake3, file: Bytes, rs: seq<Record>, t: nat)
    requires TornFooter(blake3, file, rs, t) && AllGenuine(blake3, rs) && file[..4] == PACK_MAGIC
    ensures Recovered(blake3, file) == Entries(rs, |rs|) <==>
      (rs != [] && FooterShaped(file, |rs| - 1)) || !FooterReadsAsRecord(blake3, FooterBytes(blake3, rs), t)
  {
    TornFooterTakenForSealed(blake3, file, rs, t);
    if IsSealed(file) {
      RecoveredAsSealed(blake3, file);
      ListTornFooter(file, rs, t);
    } else {
      RecoveredAsUnsealed(blake3, file);
      VerifiedTornFooter(blake3, file, rs, t);
    }
  }

  const ODD_DIGEST: Digest := Zeros(21) + [1] + Zeros(10)
  const ODD_HEAD: Digest := FOOTER_MAGIC + LE(0, 8) + Zeros(20)

  /** For some hash function it fails: the footer of an empty pack, torn one byte after what reads as a record header. */
  lemma TornFooterListed()
    ensures exists blake3: Blake3, file: Bytes :: TornFooter(blake3, file, [], 38) && Recovered(blake3, file) != Entries([], 0)
  {
    var blake3: Blake3 := (x: Bytes) => if x == [] then ODD_DIGEST else ODD_HEAD;
    var footer := FooterBytes(blake3, []);
    var file := HeaderBytes(0, 0) + footer[..38];
    OddFooter(blake3, footer);
    assert file[20..] == footer[..38];
    RecoveredTornFooter(blake3, file, [], 38);
  }

  lemma OddFooter(blake3: Blake3, footer: Bytes)
    requires blake3([]) == ODD_DIGEST && blake3([0]) == ODD_HEAD && footer == FooterBytes(blake3, [])
    ensures FooterReadsAsRecord(blake3, footer, 38)
  {
    assert footer == FOOTER_MAGIC + LE(0, 8) + ODD_DIGEST;
    assert footer[..32] == ODD_HEAD;
    assert footer[32..37] == [0, 1, 0, 0, 0];
    assert footer[37..38] == [0];
    assert footer[33] == footer[32..37][1] && footer[34] == footer[32..37][2];
    assert footer[35] == footer[32..37][3] && footer[36] == footer[32..37][4];
  }

  lemma RecoveredAsUnsealed(blake3: Blake3, file: Bytes)
    requires !IsSealed(file) && |file| >= HEADER_SIZE
    ensures var end := Walk(Verifying(blake3), file, HEADER_SIZE).0;
      Recovered(blake3, file) == Listing(file[..end], HEADER_SIZE, end)
  {
  }

  /** Listing an unsealed pack up to its last 44 bytes: the complete records, and one that is not complete if its header
      fits before those bytes. */
  lemma ListFalselySealed(file: Bytes, rs: seq<Record>, h: Digest, t: nat)
    requires Torn(file, rs, h, t) && (t >= FOOTER_SIZE || rs != [])
    ensures Listing(file, HEADER_SIZE, |file| - FOOTER_SIZE) == Entries(rs, |rs|) <==> t < RECORD_HEADER + FOOTER_SIZE
  {
    var n, end := |rs|, |file| - FOOTER_SIZE;
    if t >= RECORD_HEADER + FOOTER_SIZE {
      ListOneMore(file, rs, h, end);
    } else if t >= FOOTER_SIZE {
      ListRecords(file, rs, end, n);
    } else {
      ListTornFooter(file, rs, t);
    }
  }

  lemma ListOneMore(file: Bytes, rs: seq<Record>, h: Digest, end: nat)
    requires Holds(file, rs) && RecordOffset(|rs|) + RECORD_HEADER <= end <= |file| && HeadAt(file, RecordOffset(|rs|), h)
    ensures Listing(file, HEADER_SIZE, end) != Entries(rs, |rs|)
  {
    ListRecords(file, rs, end, |rs|);
    ListOver(file, RecordOffset(|rs|), end, h);
    assert |Listing(file, HEADER_SIZE, end)| > |rs|;
  }

  /** Such a file exists: 44 bytes into the first page of a pack whose page starts with an empty footer. */
  lemma TornPageListed(blake3: Blake3)
    ensures exists file: Bytes, h: Digest :: Torn(file, [], h, 81) && Recovered(blake3, file) != Entries([], 0)
  {
    var page: Page := FOOTER_MAGIC + Zeros(PAGE_SIZE - 4);
    var r := Record(blake3(page), page);
    var file := HeaderBytes(0, 0) + RecordBytes(r)[..81];
    TornPageBytes(file, r);
    RecoveredTorn(blake3, file, [], r.hash, 81);
  }

  lemma TornPageBytes(file: Bytes, r: Record)
    requires file == HeaderBytes(0, 0) + RecordBytes(r)[..81] && r.page == FOOTER_MAGIC + Zeros(PAGE_SIZE - 4)
    ensures Torn(file, [], r.hash, 81) && file[..4] == PACK_MAGIC && FooterShaped(file, 0)
  {
    CutPage(HeaderBytes(0, 0), RecordHead(r.hash), r.page, file);
    HeadFields(file, HEADER_SIZE, r.hash);
    EmptyFooter(r.page);
    FooterFields(file, 57, r.page[..44], 0);
  }

  lemma CutPage(hdr: Bytes, head: Bytes, page: Bytes, file: Bytes)
    requires |hdr| == 20 && |head| == 37 && |page| >= 44 && file == hdr + (head + page)[..81]
    ensures |file| == 101 && file[..4] == hdr[..4] && file[20..57] == head && file[57..] == page[..44]
  {
    assert (head + page)[..81] == head + page[..44];
  }

  lemma EmptyFooter(page: Page)
    requires page == FOOTER_MAGIC + Zeros(PAGE_SIZE - 4)
    ensures page[..44][..4] == FOOTER_MAGIC && page[..44][4..12] == LE(0, 8)
  {
    assert page[..44][4..12] == Zeros(8);
    ZerosAreZero(8);
  }

  lemma {:induction false} ZerosAreZero(w: nat)
    ensures LE(0, w) == Zeros(w)
  {
    if w > 0 { ZerosAreZero(w - 1); }
  }

  /** The body of a prefix of the records is a prefix of the body. */
  lemma {:induction false} BodyPrefix(rs: seq<Record>, k: nat)
    requires k <= |rs|
    ensures BodyBytes(rs)[..4133 * k] == BodyBytes(rs[..k])
  {
    if k < |rs| {
      var n := |rs| - 1;
      BodyPrefix(rs[..n], k);
      assert rs[..n][..k] == rs[..k];
      assert BodyBytes(rs)[..4133 * k] == BodyBytes(rs[..n])[..4133 * k];
    } else {
      assert rs[..k] == rs;
    }
  }
}
