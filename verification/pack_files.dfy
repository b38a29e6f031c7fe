/** The pack writer and the pack readers: loops and buffers over the byte format. */
module PackFiles {
  import opened Base
  import opened PackFormat

  const FLUSH_THRESHOLD: nat := 4 * 1024 * 1024
  const PACK_MAX_BYTES: nat := 1024 * 1024 * 1024

  datatype PackError =
    | Sealed
    | Full
    | BadMagic
    | BadFooterMagic
    | FooterMismatch(expected: U64, found: nat)
    | HashMismatch(at: nat)
    | TruncatedRecord(at: nat)

  // ── Writer ─────────────────────────────────────────────────────────────

  /** An unsealed or sealed pack being written. `hashed` is the input the BLAKE3 hasher has absorbed so far; `file` is
      what the operating system holds, `writeBuf` what a kill would lose. */
  class PackWriter {
    var file: Bytes
    var writeBuf: Bytes
    var hashed: Bytes
    var writeOffset: nat
    var recordCount: nat
    var isSealed: bool
    var maxBytes: nat
    const blake3: Blake3
    ghost var header: Bytes
    ghost var records: seq<Record>

    /** File plus buffer spell the header and the records; offset, count and hasher input agree with them. */
    ghost predicate Valid()
      reads this
    {
      && IsHeader(header)
      && writeOffset == RecordOffset(|records|)
      && recordCount == |records|
      && hashed == BodyBytes(records)
      && (!isSealed ==> file + writeBuf == header + BodyBytes(records))
      && (isSealed ==> file == header + BodyBytes(records) + FooterBytes(blake3, records))
    }

    constructor Create(blake3: Blake3, id: nat, created: nat, maxBytes: nat)
      ensures Valid() && records == [] && !isSealed && header == HeaderBytes(id, created)
      ensures file == header && writeBuf == [] && this.maxBytes == maxBytes && this.blake3 == blake3
    {
      this.blake3 := blake3;
      file := HeaderBytes(id, created);
      writeBuf, hashed := [], [];
      writeOffset, recordCount, isSealed := HEADER_SIZE, 0, false;
      this.maxBytes := maxBytes;
      header, records := HeaderBytes(id, created), [];
    }

    /** A writer over an existing clean file: the state an uninterrupted writer would have after the same records, with
        the default cap. */
    constructor Resume(blake3: Blake3, content: Bytes, offset: nat, count: nat, absorbed: Bytes, ghost rs: seq<Record>)
      requires |content| >= HEADER_SIZE && content[..4] == PACK_MAGIC && content[HEADER_SIZE..] == BodyBytes(rs)
      requires offset == RecordOffset(|rs|) && count == |rs| && absorbed == BodyBytes(rs)
      ensures Valid() && records == rs && !isSealed && header == content[..HEADER_SIZE]
      ensures file == content && writeBuf == [] && maxBytes == PACK_MAX_BYTES && this.blake3 == blake3
    {
      this.blake3 := blake3;
      file, writeBuf, hashed := content, [], absorbed;
      writeOffset, recordCount, isSealed, maxBytes := offset, count, false, PACK_MAX_BYTES;
      header, records := content[..HEADER_SIZE], rs;
      assert content == content[..HEADER_SIZE] + content[HEADER_SIZE..];
      assert content[..HEADER_SIZE][..4] == content[..4];
    }

    predicate WouldExceedCap()
      reads this
    {
      writeOffset + RECORD_SIZE > maxBytes
    }

    method FlushBuf()
      requires Valid() && !isSealed
      modifies `file, `writeBuf
      ensures Valid() && writeBuf == [] && file == header + BodyBytes(records)
    {
      file := file + writeBuf;
      writeBuf := [];
    }

    /** Encode one record into the buffer and account for it. */
    method Encode(rec: Record)
      requires Valid() && !isSealed
      modifies this
      ensures Valid() && header == old(header) && maxBytes == old(maxBytes) && !isSealed && file == old(file)
      ensures records == old(records) + [rec]
    {
      var bytes := RecordBytes(rec);
      BodySnoc(header, records, rec, file, writeBuf);
      writeBuf := writeBuf + bytes;
      hashed := hashed + bytes;
      writeOffset := writeOffset + RECORD_SIZE;
      recordCount := recordCount + 1;
      records := records + [rec];
    }

    /** Refuses when sealed or full and changes nothing; otherwise the record lands at the old end. Its bytes may still
        be in the buffer, but the file never holds anything except a prefix of what was appended. */
    method Append(hash: Digest, page: Page) returns (r: Result<nat, PackError>)
      requires Valid()
      modifies this
      ensures Valid() && header == old(header) && maxBytes == old(maxBytes) && isSealed == old(isSealed)
      ensures r == if old(isSealed) then Err(Sealed)
                   else if RecordOffset(|old(records)|) + RECORD_SIZE > maxBytes then Err(Full)
                   else Ok(RecordOffset(|old(records)|))
      ensures r.Ok? ==> records == old(records) + [Record(hash, page)] && |writeBuf| < FLUSH_THRESHOLD
      ensures r.Err? ==> records == old(records) && file == old(file) && writeBuf == old(writeBuf)
    {
      if isSealed { return Err(Sealed); }
      if WouldExceedCap() { return Err(Full); }
      var offset := writeOffset;
      Encode(Record(hash, page));
      if |writeBuf| >= FLUSH_THRESHOLD { FlushBuf(); }
      return Ok(offset);
    }

    /** Sealing, with or without the two fdatasync calls around the footer, leaves the same bytes. */
    method Seal() returns (r: Result<(), PackError>)
      requires Valid()
      modifies this
      ensures Valid() && header == old(header) && records == old(records) && maxBytes == old(maxBytes) && isSealed
      ensures old(isSealed) ==> r == Err(Sealed) && file == old(file)
      ensures !old(isSealed) ==> r == Ok(()) && writeBuf == []
    {
      if isSealed { return Err(Sealed); }
      FlushBuf();
      file := file + (FOOTER_MAGIC + LE(recordCount, 8) + blake3(hashed));
      isSealed := true;
      return Ok(());
    }
  }

  lemma BodySnoc(hdr: Bytes, rs: seq<Record>, r: Record, file: Bytes, buf: Bytes)
    requires file + buf == hdr + BodyBytes(rs)
    ensures BodyBytes(rs + [r]) == BodyBytes(rs) + RecordBytes(r)
    ensures file + (buf + RecordBytes(r)) == hdr + BodyBytes(rs + [r])
  {
    assert (rs + [r])[..|rs|] == rs;
    var b := RecordBytes(r);
    assert file + (buf + b) == (file + buf) + b;
    assert (hdr + BodyBytes(rs)) + b == hdr + (BodyBytes(rs) + b);
  }

  // ── Readers ────────────────────────────────────────────────────────────

  /** The forward scan the readers share: advance over accepted frames, count them, stop at the first that is not. */
  method ScanFrames(s: Scanner, file: Bytes) returns (end: nat, count: nat)
    requires |file| >= HEADER_SIZE
    ensures (end, count) == Walk(s, file, HEADER_SIZE)
  {
    end, count := HEADER_SIZE, 0;
    while Framed(file, end) && Accepts(s, file, end)
      invariant end <= |file|
      invariant Walk(s, file, HEADER_SIZE) == (Walk(s, file, end).0, Walk(s, file, end).1 + count)
      decreases |file| - end
    {
      end := end + RECORD_HEADER + LenAt(file, end);
      count := count + 1;
    }
  }

  /** `PackReader::open`: where the body ends, or why the file does not count as sealed. */
  method OpenSealed(file: Bytes) returns (r: Result<nat, PackError>)
    requires |file| >= HEADER_SIZE
    ensures r.Ok? <==> IsSealed(file)
    ensures r.Ok? ==> r.value == |file| - FOOTER_SIZE
    ensures r == Err(BadMagic) <==> file[..4] != PACK_MAGIC
    ensures r.Err? && r.error.FooterMismatch? ==> FooterShaped(file, r.error.expected) && r.error.expected != r.error.found
  {
    if file[..4] != PACK_MAGIC { return Err(BadMagic); }
    if |file| < HEADER_SIZE + FOOTER_SIZE { return Err(BadFooterMagic); }
    var end := |file| - FOOTER_SIZE;
    if file[end..end + 4] != FOOTER_MAGIC { return Err(BadFooterMagic); }
    var promised := U64At(file, end + 4);
    var _, found := ScanFrames(Counting, file[..end]);
    if found != promised { return Err(FooterMismatch(promised, found)); }
    return Ok(end);
  }

  /** `PackReader::open_unsealed`: verify record by record and truncate at the first bad one. */
  method OpenUnsealed(blake3: Blake3, file: Bytes) returns (r: Result<(Bytes, nat), PackError>)
    requires |file| >= HEADER_SIZE
    ensures r == if file[..4] != PACK_MAGIC then Err(BadMagic)
                 else var w := Walk(Verifying(blake3), file, HEADER_SIZE); Ok((file[..w.0], w.1))
  {
    if file[..4] != PACK_MAGIC { return Err(BadMagic); }
    var end, count := ScanFrames(Verifying(blake3), file);
    return Ok((file[..end], count));
  }

  /** `PackReader::scan`. */
  method Scan(file: Bytes, end: nat) returns (l: seq<(nat, Digest)>)
    requires end <= |file|
    ensures l == Listing(file, HEADER_SIZE, end)
  {
    l := [];
    var off := HEADER_SIZE;
    while off < end && end - off >= RECORD_HEADER
      invariant Listing(file, HEADER_SIZE, end) == l + Listing(file, off, end)
      decreases if off <= end then end - off else 0
    {
      var step := [(off, file[off..off + 32])];
      ghost var next := off + RECORD_HEADER + LenAt(file, off);
      assert l + (step + Listing(file, next, end)) == (l + step) + Listing(file, next, end);
      l := l + step;
      off := off + RECORD_HEADER + LenAt(file, off);
    }
  }

  /** `PackReader::read_at_from_file`: one record, checked against the requested hash and its own digest. */
  function ReadRecord(blake3: Blake3, file: Bytes, off: nat, expected: Digest): (r: Result<Page, PackError>)
    ensures r.Ok? ==> blake3(r.value) == expected
  {
    if off + RECORD_SIZE > |file| then Err(TruncatedRecord(off))
    else if LenAt(file, off) != PAGE_SIZE then Err(TruncatedRecord(off))
    else if file[off..off + 32] != expected then Err(HashMismatch(off))
    else if blake3(file[off + RECORD_HEADER..off + RECORD_SIZE]) != expected then Err(HashMismatch(off))
    else Ok(file[off + RECORD_HEADER..off + RECORD_SIZE])
  }

  /** Reading a record where it was written gives its page back, before and after sealing, if the hash asked for is the one
      stored and the page still has it; otherwise it is a mismatch. */
  lemma ReadWhatWasWritten(blake3: Blake3, file: Bytes, rs: seq<Record>, i: nat, h: Digest)
    requires Holds(file, rs) && i < |rs|
    ensures ReadRecord(blake3, file, RecordOffset(i), h) ==
            if h == rs[i].hash == blake3(rs[i].page) then Ok(rs[i].page) else Err(HashMismatch(RecordOffset(i)))
  {
    assert RecordAt(file, RecordOffset(i), rs[i]);
  }

  // ── Resuming and sealing an interrupted pack ───────────────────────────

  /** `PackWriter::reopen` on a file that verification has cleaned: the resumed writer holds exactly the records of the
      file, at the offset, count and hasher state of a writer that was never interrupted. */
  method Reopen(blake3: Blake3, content: Bytes, ghost rs: seq<Record>) returns (r: Result<PackWriter, PackError>)
    requires |content| >= HEADER_SIZE && content[HEADER_SIZE..] == BodyBytes(rs)
    ensures r.Err? <==> content[..4] != PACK_MAGIC
    ensures r.Err? ==> r.error == BadMagic
    ensures r.Ok? ==>
              var w := r.value;
              && fresh(w) && w.Valid() && w.blake3 == blake3 && w.header == content[..HEADER_SIZE] && w.records == rs
              && !w.isSealed && w.file == content && w.writeBuf == [] && w.maxBytes == PACK_MAX_BYTES
  {
    if content[..4] != PACK_MAGIC { return Err(BadMagic); }
    var hdr := content[..HEADER_SIZE];
    assert content == hdr + BodyBytes(rs) + [];
    FileHolds(hdr, rs, []);
    WalkRecords(Resuming, content, rs, |rs|);
    var end, count := ScanFrames(Resuming, content);
    assert content[HEADER_SIZE..end] == content[HEADER_SIZE..];
    var w := new PackWriter.Resume(blake3, content, end, count, content[HEADER_SIZE..end], rs);
    return Ok(w);
  }

  /** Re-reading every listed record rebuilds the bytes the writer hashed. */
  method RehashBody(content: Bytes, listing: seq<(nat, Digest)>, ghost rs: seq<Record>) returns (absorbed: Bytes)
    requires Holds(content, rs) && listing == Entries(rs, |rs|)
    ensures absorbed == BodyBytes(rs)
  {
    absorbed := [];
    for i := 0 to |listing|
      invariant absorbed == BodyBytes(rs[..i])
    {
      var (off, hash) := listing[i];
      assert RecordAt(content, RecordOffset(i), rs[i]);
      var page := content[off + RECORD_HEADER..off + RECORD_HEADER + LenAt(content, off)];
      assert rs[..i + 1][..i] == rs[..i];
      absorbed := absorbed + (hash + [1] + LE(|page|, 4) + page);
    }
    assert rs[..|rs|] == rs;
  }

  lemma CleanContent(hdr: Bytes, rs: seq<Record>)
    requires |hdr| == HEADER_SIZE
    ensures var content := hdr + BodyBytes(rs);
            Holds(content, rs) && Listing(content, HEADER_SIZE, |content|) == Entries(rs, |rs|)
  {
    var content := hdr + BodyBytes(rs);
    assert content + [] == content;
    FileHolds(hdr, rs, []);
    ListRecords(content, rs, |content|, |rs|);
  }

  /** `seal_existing_pack`: re-read what verification kept, rebuild the body digest and append the footer. The result is
      the file an uninterrupted writer would have sealed, and the list of its records. */
  method SealExisting(blake3: Blake3, file: Bytes, ghost rs: seq<Record>)
    returns (r: Result<(Bytes, seq<(nat, Digest)>), PackError>)
    requires |file| >= HEADER_SIZE && AllGenuine(blake3, rs)
    requires Walk(Verifying(blake3), file, HEADER_SIZE) == (RecordOffset(|rs|), |rs|)
    requires file[HEADER_SIZE..RecordOffset(|rs|)] == BodyBytes(rs)
    ensures r == if file[..4] != PACK_MAGIC then Err(BadMagic)
                 else Ok((file[..HEADER_SIZE] + BodyBytes(rs) + FooterBytes(blake3, rs), Entries(rs, |rs|)))
  {
    var clean := OpenUnsealed(blake3, file);
    if clean.Err? { return Err(clean.error); }
    var content := clean.value.0;
    CleanContent(file[..HEADER_SIZE], rs);
    assert content == file[..HEADER_SIZE] + file[HEADER_SIZE..RecordOffset(|rs|)];
    var listing := Scan(content, |content|);
    var absorbed := RehashBody(content, listing, rs);
    return Ok((content + (FOOTER_MAGIC + LE(|listing|, 8) + blake3(absorbed)), listing));
  }

  lemma SliceOfTake(file: Bytes, j: nat, i: nat, front: Bytes)
    requires HEADER_SIZE <= i <= j <= |file| && file[HEADER_SIZE..][..i - HEADER_SIZE] == front
    ensures file[..j][HEADER_SIZE..i] == front
  {
  }

  /** A pack killed `t` bytes into record `k` (where verification stops after the `k` complete records): what lies before
      that point is byte for byte what `Reopen` and `SealExisting` ask for. */
  lemma KilledPackIsClean(whole: Bytes, rs: seq<Record>, k: nat, t: nat)
    requires |whole| >= HEADER_SIZE && whole[HEADER_SIZE..] == BodyBytes(rs)
    requires k < |rs| && t < RECORD_SIZE
    ensures RecordOffset(k) + t <= |whole|
    ensures whole[..RecordOffset(k) + t][HEADER_SIZE..RecordOffset(k)] == BodyBytes(rs[..k])
  {
    var body := BodyBytes(rs);
    BodyPrefix(rs, k);
    SliceOfTake(whole, RecordOffset(k) + t, RecordOffset(k), BodyBytes(rs[..k]));
  }

  /** Append records `k` onwards; they all fit. */
  method AppendRest(w: PackWriter, rs: seq<Record>, k: nat)
    requires w.Valid() && !w.isSealed && k <= |rs| && w.records == rs[..k] && RecordOffset(|rs|) <= w.maxBytes
    modifies w
    ensures w.Valid() && !w.isSealed && w.records == rs && w.header == old(w.header)
  {
    for i := k to |rs|
      invariant w.Valid() && !w.isSealed && w.records == rs[..i]
      invariant w.header == old(w.header) && w.maxBytes == old(w.maxBytes)
    {
      var r := w.Append(rs[i].hash, rs[i].page);
      assert rs[..i + 1] == rs[..i] + [rs[i]];
    }
    assert rs[..|rs|] == rs;
  }

  lemma CutWalks(blake3: Blake3, whole: Bytes, rs: seq<Record>, k: nat, t: nat)
    requires Holds(whole, rs) && |whole| == RecordOffset(|rs|) && AllGenuine(blake3, rs)
    requires (k < |rs| && t < RECORD_SIZE) || (k == |rs| && t == 0)
    ensures RecordOffset(k) + t <= |whole|
    ensures Walk(Verifying(blake3), whole[..RecordOffset(k) + t], HEADER_SIZE) == (RecordOffset(k), k)
  {
    if k < |rs| {
      KilledWriteKeepsComplete(blake3, whole, rs, k, t);
    } else {
      assert whole[..RecordOffset(k) + t] == whole;
      WalkRecords(Verifying(blake3), whole, rs, |rs|);
    }
  }

  lemma CutParts(hdr: Bytes, body: Bytes, n: nat, t: nat)
    requires |hdr| == HEADER_SIZE && n + t <= |body|
    ensures var cut := (hdr + body)[..HEADER_SIZE + n + t];
      cut[..HEADER_SIZE] == hdr && cut[..HEADER_SIZE + n][HEADER_SIZE..] == body[..n] && cut[..HEADER_SIZE + n][..HEADER_SIZE] == hdr
  {
  }

  /** The writer over what a kill left of a pack. */
  method ResumeCut(blake3: Blake3, hdr: Bytes, rs: seq<Record>, k: nat, t: nat) returns (w: PackWriter)
    requires IsHeader(hdr) && AllGenuine(blake3, rs) && ((k < |rs| && t < RECORD_SIZE) || (k == |rs| && t == 0))
    ensures fresh(w) && w.Valid() && !w.isSealed && w.records == rs[..k] && w.header == hdr
    ensures w.maxBytes == PACK_MAX_BYTES && w.blake3 == blake3
  {
    ghost var body := BodyBytes(rs);
    FileHolds(hdr, rs, []);
    assert hdr + body + [] == hdr + body;
    CutWalks(blake3, hdr + body, rs, k, t);
    CutParts(hdr, body, 4133 * k, t);
    BodyPrefix(rs, k);
    var cut := (hdr + BodyBytes(rs))[..RecordOffset(k) + t];
    assert cut[..4] == cut[..HEADER_SIZE][..4];
    var clean := OpenUnsealed(blake3, cut);
    var content := clean.value.0;
    assert content[..4] == content[..HEADER_SIZE][..4];
    var resumed := Reopen(blake3, content, rs[..k]);
    w := resumed.value;
  }

  /** Append what is missing of a pack, and seal it. */
  method Finish(w: PackWriter, rs: seq<Record>, k: nat) returns (file: Bytes)
    requires w.Valid() && !w.isSealed && k <= |rs| && w.records == rs[..k] && RecordOffset(|rs|) <= w.maxBytes
    modifies w
    ensures file == old(w.header) + BodyBytes(rs) + FooterBytes(w.blake3, rs)
  {
    AppendRest(w, rs, k);
    var r := w.Seal();
    file := w.file;
  }

  /** Kill the writer of a pack `t` bytes into record `k`, open what is left, resume it, append the rest and seal: the file
      is, byte for byte, the one a writer leaves that was never interrupted. */
  method ResumeAndFinish(blake3: Blake3, id: nat, created: nat, cap: nat, rs: seq<Record>, k: nat, t: nat)
    returns (resumed: Bytes, straight: Bytes)
    requires AllGenuine(blake3, rs) && ((k < |rs| && t < RECORD_SIZE) || (k == |rs| && t == 0))
    requires RecordOffset(|rs|) <= PACK_MAX_BYTES && RecordOffset(|rs|) <= cap
    ensures resumed == straight == HeaderBytes(id, created) + BodyBytes(rs) + FooterBytes(blake3, rs)
  {
    var w := ResumeCut(blake3, HeaderBytes(id, created), rs, k, t);
    resumed := Finish(w, rs, k);
    var v := new PackWriter.Create(blake3, id, created, cap);
    straight := Finish(v, rs, 0);
  }
}
