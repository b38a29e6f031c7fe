/** The containers byte by byte: every field at its offset, and errors that say what is wrong with the bytes. */
module Formats {
  import opened Base
  import M = Manifests
  import L = InputLogs
  import P = PackFormat
  import S = Sidecar
  import I = Index

  // ── Manifests ──────────────────────────────────────────────────────────

  /** The fixed part of a manifest. */
  ghost predicate ManifestHeader(b: Bytes, m: M.Manifest) {
    && |b| >= 96
    && b[0..8] == [0x53, 0x50, 0x53, 0x4D, 0x41, 0x4E, 0x30, 0x31]  // SPSMAN01
    && U16At(b, 8) == 1 && U32At(b, 12) == 96 && U32At(b, 92) == 0
    && U16At(b, 10) == (if m.delta then 1 else 0) + (if m.blob.zstd then 2 else 0)
    && b[16..48] == (if m.parent.Some? then m.parent.value else Zeros(32))
    && U64At(b, 48) == m.guestRam && U64At(b, 56) == 4096
    && U64At(b, 64) == |m.entries| && U64At(b, 72) == |m.blob.bytes|
    && U64At(b, 80) == m.blob.rawLen && U32At(b, 88) == m.blob.format
  }

  ghost predicate ManifestEntryAt(b: Bytes, i: nat, e: M.ManifestEntry) {
    136 + 40 * i <= |b| && U64At(b, 96 + 40 * i) == e.pageIndex && b[104 + 40 * i..136 + 40 * i] == e.pageHash
  }

  /** Header, entries, device blob. */
  lemma BodyLayout(m: M.Manifest)
    requires M.Fits(m)
    ensures var b, n := M.Body(m), |m.entries|;
      && |b| == 96 + 40 * n + |m.blob.bytes| && ManifestHeader(b, m)
      && (forall i :: 0 <= i < n ==> ManifestEntryAt(b, i, m.entries[i]))
      && b[96 + 40 * n..] == m.blob.bytes
  {
    M.BodyHeader(m);
    M.BodySections(m);
    var b, n := M.Body(m), |m.entries|;
    HeaderFields(b, m);
    forall i | 0 <= i < n
      ensures ManifestEntryAt(b, i, m.entries[i])
    {
      assert M.TableAt(b, 96, n)[i] == M.EntryAt(b, 96 + 40 * i);
    }
  }

  lemma HeaderFields(b: Bytes, m: M.Manifest)
    requires M.Fits(m) && |b| >= 96 && M.ReadHeader(b) == M.HeaderOf(m)
    ensures ManifestHeader(b, m)
  {
  }

  /** A manifest is its body followed by the hash of all of it. */
  lemma ManifestLayout(blake3: Blake3, m: M.Manifest)
    requires M.Fits(m)
    ensures var b, n := M.Encoded(blake3, m), 96 + 40 * |m.entries| + |m.blob.bytes|;
      |b| == n + 32 && b[..n] == M.Body(m) && b[n..] == blake3(b[..n])
  {
    BodyLayout(m);
    var body := M.Body(m);
    assert (body + blake3(body))[..|body|] == body && (body + blake3(body))[|body|..] == blake3(body);
  }

  /** What an error claims about the bytes. */
  ghost predicate ManifestErrorHolds(blake3: Blake3, unzstd: M.Unzstd, buf: Bytes, e: M.ManifestError) {
    if |buf| < 128 then e.Truncated?
    else
      var b := buf[..|buf| - 32];
      match e
      case FooterMismatch => blake3(b) != buf[|buf| - 32..]
      case BadMagic => b[0..8] != [0x53, 0x50, 0x53, 0x4D, 0x41, 0x4E, 0x30, 0x31]
      case UnsupportedVersion(v) => v == U16At(b, 8) != 1
      case UnknownFlags(bits) => bits == U16At(b, 10) - U16At(b, 10) % 4 != 0
      case BadHeaderLen(n) => n == U32At(b, 12) != 96
      case ReservedNonZero => U32At(b, 92) != 0
      case BadPageSize(n) => n == U64At(b, 56) != 4096
      case GuestRamNotAligned(n) => n == U64At(b, 48) && n % 4096 != 0
      case Truncated => 96 + 40 * U64At(b, 64) + U64At(b, 72) > |b| || 96 + 40 * U64At(b, 64) + U64At(b, 72) >= TWO64
      case TrailingBytes => 96 + 40 * U64At(b, 64) + U64At(b, 72) < |b|
      case _ => 96 + 40 * U64At(b, 64) + U64At(b, 72) == |b| && ManifestContentError(unzstd, b, e)
  }

  predicate IsDelta(b: Bytes) requires |b| >= 96 { U16At(b, 10) % 2 == 1 }

  predicate IsZstd(b: Bytes) requires |b| >= 96 { U16At(b, 10) / 2 % 2 == 1 }

  ghost predicate ManifestContentError(unzstd: M.Unzstd, b: Bytes, e: M.ManifestError)
    requires |b| >= 96 && 96 + 40 * U64At(b, 64) + U64At(b, 72) == |b|
  {
    var n, pages := U64At(b, 64), U64At(b, 48) / 4096;
    match e
    case EntriesNotAscending => exists i, j :: 0 <= i < j < n && PageAt(b, i) >= PageAt(b, j)
    case DeltaZeroParent => IsDelta(b) && b[16..48] == Zeros(32)
    case DeltaIndexOutOfRange(page, limit) => IsDelta(b) && limit == pages <= page && exists i :: 0 <= i < n && PageAt(b, i) == page
    case FullNonZeroParent => !IsDelta(b) && b[16..48] != Zeros(32)
    case FullCountMismatch(count, expected) => !IsDelta(b) && count == n != expected == pages
    case FullNotContiguous => !IsDelta(b) && exists i :: 0 <= i < n && PageAt(b, i) != i
    case ZstdRawLenMismatch(found, expected) =>
      var blob := unzstd(b[96 + 40 * n..]);
      IsZstd(b) && expected == U64At(b, 80) && (if blob.Some? then found == blob.value != expected else found == 0)
    case NonZstdRawLenMismatch(raw, stored) => !IsZstd(b) && raw == U64At(b, 80) != stored == U64At(b, 72)
    case _ => false
  }

  function PageAt(b: Bytes, i: nat): U64
    requires 136 + 40 * i <= |b|
  {
    U64At(b, 96 + 40 * i)
  }

  lemma {:induction false} FirstOutOfRangeIs(es: seq<M.ManifestEntry>, pages: nat)
    requires M.FirstOutOfRange(es, pages).Some?
    ensures exists i ::
      && 0 <= i < |es| && es[i].pageIndex >= pages
      && M.FirstOutOfRange(es, pages) == Some(M.DeltaIndexOutOfRange(es[i].pageIndex, pages))
  {
    if es[0].pageIndex < pages {
      FirstOutOfRangeIs(es[1..], pages);
      var i :| 0 <= i < |es| - 1 && es[1..][i].pageIndex >= pages
        && M.FirstOutOfRange(es[1..], pages) == Some(M.DeltaIndexOutOfRange(es[1..][i].pageIndex, pages));
      assert es[i + 1] == es[1..][i];
    }
  }

  lemma TableErrorHolds(unzstd: M.Unzstd, b: Bytes, e: M.ManifestError)
    requires |b| >= 96 && 96 + 40 * U64At(b, 64) + U64At(b, 72) == |b|
    requires M.TableError(M.ReadHeader(b), M.TableAt(b, 96, U64At(b, 64))) == Some(e)
    ensures ManifestContentError(unzstd, b, e)
  {
    var n := U64At(b, 64);
    var es, h := M.TableAt(b, 96, n), M.ReadHeader(b);
    assert forall i :: 0 <= i < n ==> es[i].pageIndex == PageAt(b, i);
    if M.Ascending(es) && IsDelta(b) && h.parent != Zeros(32) {
      FirstOutOfRangeIs(es, M.Pages(h.guestRam));
    }
  }

  lemma BlobErrorHolds(unzstd: M.Unzstd, b: Bytes, e: M.ManifestError)
    requires |b| >= 96 && 96 + 40 * U64At(b, 64) + U64At(b, 72) == |b|
    requires M.BlobError(M.ReadHeader(b), b[96 + 40 * U64At(b, 64)..], unzstd) == Some(e)
    ensures ManifestContentError(unzstd, b, e)
  {
  }

  lemma BodyErrorHolds(blake3: Blake3, unzstd: M.Unzstd, buf: Bytes)
    requires |buf| >= 128 && M.DecodedBody(unzstd, buf[..|buf| - 32]).Err?
    ensures ManifestErrorHolds(blake3, unzstd, buf, M.DecodedBody(unzstd, buf[..|buf| - 32]).error)
  {
    var b := buf[..|buf| - 32];
    var h := M.ReadHeader(b);
    if M.HeaderError(h).None? && M.SizeError(h, |b|).None? {
      var e := M.DecodedBody(unzstd, b).error;
      if M.TableError(h, M.TableAt(b, 96, U64At(b, 64))).Some? {
        TableErrorHolds(unzstd, b, e);
      } else {
        BlobErrorHolds(unzstd, b, e);
      }
    }
  }

  /** Whatever the decoder finds wrong with a byte string is wrong with it. */
  lemma ManifestErrorsHold(blake3: Blake3, unzstd: M.Unzstd, buf: Bytes)
    requires M.Decoded(blake3, unzstd, buf).Err?
    ensures ManifestErrorHolds(blake3, unzstd, buf, M.Decoded(blake3, unzstd, buf).error)
  {
    if |buf| >= 128 && blake3(buf[..|buf| - 32]) == buf[|buf| - 32..] {
      BodyErrorHolds(blake3, unzstd, buf);
    }
  }

  /** The place of an error in the decoder's order of checks, once the file is long enough. */
  function Rank(e: M.ManifestError): nat {
    match e
    case FooterMismatch => 0
    case BadMagic => 1
    case UnsupportedVersion(_) => 2
    case UnknownFlags(_) => 3
    case BadHeaderLen(_) => 4
    case ReservedNonZero => 5
    case BadPageSize(_) => 6
    case GuestRamNotAligned(_) => 7
    case Truncated => 8
    case TrailingBytes => 8
    case EntriesNotAscending => 9
    case DeltaZeroParent => 10
    case FullNonZeroParent => 10
    case DeltaIndexOutOfRange(_, _) => 11
    case FullCountMismatch(_, _) => 11
    case FullNotContiguous => 12
    case ZstdRawLenMismatch(_, _) => 13
    case NonZstdRawLenMismatch(_, _) => 13
  }

  /** The checks before the `k`th are passed. */
  ghost predicate PassesBefore(blake3: Blake3, buf: Bytes, k: nat)
    requires |buf| >= 128
  {
    var b := buf[..|buf| - 32];
    var n, size := U64At(b, 64), 96 + 40 * U64At(b, 64) + U64At(b, 72);
    && (k > 0 ==> blake3(b) == buf[|buf| - 32..])
    && (k > 1 ==> b[0..8] == [0x53, 0x50, 0x53, 0x4D, 0x41, 0x4E, 0x30, 0x31])
    && (k > 2 ==> U16At(b, 8) == 1) && (k > 3 ==> U16At(b, 10) < 4) && (k > 4 ==> U32At(b, 12) == 96)
    && (k > 5 ==> U32At(b, 92) == 0) && (k > 6 ==> U64At(b, 56) == 4096) && (k > 7 ==> U64At(b, 48) % 4096 == 0)
    && (k > 8 ==> size == |b|)
    && (k > 9 ==> size == |b| && forall i, j :: 0 <= i < j < n ==> PageAt(b, i) < PageAt(b, j))
    && (k > 10 ==> (IsDelta(b) <==> b[16..48] != Zeros(32)))
  }

  lemma PassedTable(b: Bytes, n: nat)
    requires |b| >= 96 && n == U64At(b, 64) && 96 + 40 * n + U64At(b, 72) == |b| && M.Ascending(M.TableAt(b, 96, n))
    ensures forall i, j :: 0 <= i < j < n ==> PageAt(b, i) < PageAt(b, j)
  {
    var es := M.TableAt(b, 96, n);
    forall i, j | 0 <= i < j < n
      ensures PageAt(b, i) < PageAt(b, j)
    {
      assert es[i].pageIndex == PageAt(b, i) && es[j].pageIndex == PageAt(b, j);
    }
  }

  lemma TableErrorIsFirst(b: Bytes, h: M.Header, es: seq<M.ManifestEntry>, e: M.ManifestError)
    requires |b| >= 96 && h == M.ReadHeader(b) && M.TableError(h, es) == Some(e)
    ensures Rank(e) >= 9 && (Rank(e) > 9 ==> M.Ascending(es)) && (Rank(e) > 10 ==> (IsDelta(b) <==> b[16..48] != Zeros(32)))
  {
    if M.Ascending(es) && IsDelta(b) && h.parent != Zeros(32) {
      FirstOutOfRangeIs(es, M.Pages(h.guestRam));
    }
  }

  /** The decoder reports the first check that fails, the footer before all others. */
  lemma FirstErrorIsReported(blake3: Blake3, unzstd: M.Unzstd, buf: Bytes)
    requires |buf| >= 128 && M.Decoded(blake3, unzstd, buf).Err?
    ensures PassesBefore(blake3, buf, Rank(M.Decoded(blake3, unzstd, buf).error))
  {
    var b := buf[..|buf| - 32];
    var h, n := M.ReadHeader(b), U64At(b, 64);
    if blake3(b) == buf[|buf| - 32..] && M.HeaderError(h).None? && M.SizeError(h, |b|).None? {
      var es := M.TableAt(b, 96, n);
      if M.TableError(h, es).Some? {
        TableErrorIsFirst(b, h, es, M.TableError(h, es).value);
      }
      if M.Ascending(es) {
        PassedTable(b, n);
      }
    }
  }

  // ── Input logs ─────────────────────────────────────────────────────────

  lemma InputLogLayout(blake3: Blake3, c: L.Container)
    requires L.Fits(c)
    ensures var b, n := L.Encode(blake3, c), 24 + |c.payload|;
      && |b| == n + 32 && b[n..] == blake3(b[..n])
      && b[0..4] == [0x53, 0x49, 0x4C, 0x47]  // SILG
      && U16At(b[..n], 4) == 1 && U16At(b[..n], 6) == 0 && U32At(b[..n], 8) == c.innerVersion && U32At(b[..n], 12) == 0
      && U64At(b[..n], 16) == |c.payload| && b[24..n] == c.payload
  {
    var body := L.Header(c.innerVersion, |c.payload|) + c.payload;
    var b := body + blake3(body);
    assert b[..|body|] == body && b[|body|..] == blake3(body);
    L.HeaderSlices(c.innerVersion, |c.payload|, c.payload);
    assert b[0..4] == body[0..4] && b[24..|body|] == body[24..];
    U32AtIsUnLE(body, 8); U32AtIsUnLE(body, 12);
    RoundTrip16(1); RoundTrip16(0); RoundTrip32(c.innerVersion); RoundTrip32(0); RoundTrip64(|c.payload|);
  }

  ghost predicate InputLogErrorHolds(blake3: Blake3, buf: Bytes, e: L.InputLogError) {
    if |buf| < 56 then e.Truncated?
    else
      var b := buf[..|buf| - 32];
      match e
      case FooterMismatch => blake3(b) != buf[|buf| - 32..]
      case BadMagic => b[0..4] != [0x53, 0x49, 0x4C, 0x47]
      case UnsupportedVersion(v) => v == U16At(b, 4) != 1
      case NonZeroFlags(f) => f == U16At(b, 6) != 0
      case ReservedNonZero => U32At(b, 12) != 0
      case PayloadLenMismatch(n) => n == U64At(b, 16) > |b| - 24
      case TrailingBytes => U64At(b, 16) < |b| - 24
      case Truncated => 24 + U64At(b, 16) >= TWO64
  }

  lemma InputLogErrorsHold(blake3: Blake3, buf: Bytes)
    requires L.Decode(blake3, buf).Err?
    ensures InputLogErrorHolds(blake3, buf, L.Decode(blake3, buf).error)
  {
  }

  // ── Packs ──────────────────────────────────────────────────────────────

  ghost predicate PackHeader(b: Bytes, id: U32, created: U64) {
    |b| >= 20 && b[0..4] == [0x53, 0x50, 0x4B, 0x31] && U32At(b, 4) == 1 && U32At(b, 8) == id && U64At(b, 12) == created
  }

  ghost predicate PackRecordAt(b: Bytes, i: nat, r: P.Record) {
    var off := 20 + 4133 * i;
    && off + 4133 <= |b| && b[off..off + 32] == r.hash && b[off + 32] == 1 && U32At(b, off + 33) == 4096
    && b[off + 37..off + 4133] == r.page
  }

  ghost predicate PackFooter(blake3: Blake3, b: Bytes, n: nat) {
    var off := 20 + 4133 * n;
    && |b| == off + 44 && b[off..off + 4] == [0x53, 0x50, 0x4B, 0x46] && U64At(b, off + 4) == n
    && b[off + 12..] == blake3(b[20..off])
  }

  lemma HeaderLayout(id: U32, created: U64, rest: Bytes)
    ensures PackHeader(P.HeaderBytes(id, created) + rest, id, created)
  {
    var b := P.HeaderBytes(id, created) + rest;
    HeaderParts(P.PACK_MAGIC, LE(1, 4), LE(id, 4), LE(created, 8), rest);
    U32AtIsUnLE(b, 4); U32AtIsUnLE(b, 8);
    RoundTrip32(1); RoundTrip32(id); RoundTrip64(created);
  }

  lemma HeaderParts(p0: Bytes, p1: Bytes, p2: Bytes, p3: Bytes, rest: Bytes)
    requires |p0| == 4 && |p1| == 4 && |p2| == 4 && |p3| == 8
    ensures var b := p0 + p1 + p2 + p3 + rest; b[0..4] == p0 && b[4..8] == p1 && b[8..12] == p2 && b[12..20] == p3
  {
  }

  lemma FooterLayout(blake3: Blake3, front: Bytes, rs: seq<P.Record>)
    requires |front| == 20 + 4133 * |rs| && front[20..] == P.BodyBytes(rs) && |rs| < TWO64
    ensures PackFooter(blake3, front + P.FooterBytes(blake3, rs), |rs|)
  {
    var f := P.FooterBytes(blake3, rs);
    var b := front + f;
    FooterParts(front, P.FOOTER_MAGIC, LE(|rs|, 8), blake3(P.BodyBytes(rs)));
    assert f == P.FOOTER_MAGIC + LE(|rs|, 8) + blake3(P.BodyBytes(rs));
    assert b[20..|front|] == front[20..];
    RoundTrip64(|rs|);
  }

  lemma FooterParts(front: Bytes, p0: Bytes, p1: Bytes, p2: Bytes)
    requires |p0| == 4 && |p1| == 8 && |p2| == 32
    ensures var b, n := front + (p0 + p1 + p2), |front|;
      b[n..n + 4] == p0 && b[n + 4..n + 12] == p1 && b[n + 12..] == p2
  {
  }

  /** A sealed pack: header, records of 4133 bytes, and a footer that counts them and hashes them all. */
  lemma PackLayout(blake3: Blake3, id: U32, created: U64, rs: seq<P.Record>)
    requires |rs| < TWO64
    ensures var b := P.HeaderBytes(id, created) + P.BodyBytes(rs) + P.FooterBytes(blake3, rs);
      && PackHeader(b, id, created) && PackFooter(blake3, b, |rs|)
      && forall i :: 0 <= i < |rs| ==> PackRecordAt(b, i, rs[i])
  {
    var hdr, body, footer := P.HeaderBytes(id, created), P.BodyBytes(rs), P.FooterBytes(blake3, rs);
    Grouped(hdr, body, footer);
    HeaderLayout(id, created, body + footer);
    FooterLayout(blake3, hdr + body, rs);
    RecordsLayout(hdr, rs, footer);
  }

  lemma Grouped(a: Bytes, b: Bytes, c: Bytes)
    ensures a + b + c == a + (b + c) && (a + b)[|a|..] == b
  {
  }

  lemma RecordsLayout(hdr: Bytes, rs: seq<P.Record>, tail: Bytes)
    requires |hdr| == 20
    ensures forall i :: 0 <= i < |rs| ==> PackRecordAt(hdr + P.BodyBytes(rs) + tail, i, rs[i])
  {
    P.FileHolds(hdr, rs, tail);
    forall i | 0 <= i < |rs|
      ensures PackRecordAt(hdr + P.BodyBytes(rs) + tail, i, rs[i])
    {
      assert P.RecordAt(hdr + P.BodyBytes(rs) + tail, P.RecordOffset(i), rs[i]);
    }
  }

  // ── Sidecars ───────────────────────────────────────────────────────────

  ghost predicate SidecarEntryAt(b: Bytes, i: nat, e: I.Entry) {
    var off := 4 + 44 * i;
    off + 44 <= |b| && b[off..off + 32] == e.0.bytes && U32At(b, off + 32) == e.1.pack && U64At(b, off + 36) == e.1.offset
  }

  /** Count, entries of 44 bytes, and the checksum of all of it. */
  lemma SidecarLayout(crc: S.Crc, es: seq<I.Entry>)
    requires |es| < TWO32
    ensures var b, n := S.Sealed(crc, es), 4 + 44 * |es|;
      && |b| == n + 4 && U32At(b[..n], 0) == |es| && U32At(b, n) == crc(b[..n])
      && forall i :: 0 <= i < |es| ==> SidecarEntryAt(b[..n], i, es[i])
  {
    var p := S.Payload(es);
    S.ChecksumField(p, crc(p));
    S.CountField(es);
    SidecarEntries(es);
  }

  lemma SidecarEntries(es: seq<I.Entry>)
    ensures |S.Payload(es)| == 4 + 44 * |es| && forall i :: 0 <= i < |es| ==> SidecarEntryAt(S.Payload(es), i, es[i])
  {
    var p, n := S.Payload(es), |es|;
    S.TablePrefix(es, n);
    var t := S.TableAt(p, n);
    assert t == es;
    forall i | 0 <= i < n
      ensures SidecarEntryAt(p, i, es[i])
    {
      assert t[i] == S.EntryAt(p, 4 + 44 * i);
    }
  }

  /** A sidecar loads exactly if its checksum is right and the entries it counts are there; anything after them is ignored. */
  lemma SidecarVerdict(crc: S.Crc, data: Bytes)
    ensures var r, n := S.Parsed(crc, data), |data| - 4;
      if |data| < 8 then r == Err(S.Truncated)
      else if U32At(data, n) != crc(data[..n]) then r == Err(S.BadCrc)
      else if n < 4 + 44 * U32At(data[..n], 0) then r == Err(S.Truncated)
      else r.Ok? && |r.value| == U32At(data[..n], 0) && forall i :: 0 <= i < |r.value| ==> SidecarEntryAt(data[..n], i, r.value[i])
  {
    if |data| >= 8 && S.Parsed(crc, data).Ok? {
      var p := data[..|data| - 4];
      var es := S.Parsed(crc, data).value;
      forall i | 0 <= i < |es|
        ensures SidecarEntryAt(p, i, es[i])
      {
        assert S.TableAt(p, |es|)[i] == S.EntryAt(p, 4 + 44 * i);
      }
    }
  }
}
