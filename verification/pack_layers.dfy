/** The two views of a pack, bytes in a file and records in a store, agree on what a kill leaves. */
module PackLayers {
  import opened Base
  import opened Index
  import opened PackFormat
  import opened StoreModel
  import SidecarFiles = Sidecar

  /** The same hashes, record by record. */
  ghost predicate SameHashes(rs: seq<Record>, hs: seq<PageHash>) {
    |rs| == |hs| && forall i :: 0 <= i < |rs| ==> hs[i].bytes == rs[i].hash
  }

  /** What a scan should list of these records. */
  function Offsets(hs: seq<PageHash>): (l: seq<(nat, Digest)>)
    ensures |l| == |hs| && forall i :: 0 <= i < |hs| ==> l[i] == (RecordOffset(i), hs[i].bytes)
  {
    seq(|hs|, i requires 0 <= i < |hs| => (RecordOffset(i), hs[i].bytes))
  }

  lemma OffsetsAreEntries(rs: seq<Record>, hs: seq<PageHash>)
    requires SameHashes(rs, hs)
    ensures Offsets(hs) == Entries(rs, |rs|)
  {
  }

  // ── An unsealed pack ───────────────────────────────────────────────────

  /** The file of an unsealed pack: a prefix of header and records that covers at least what was flushed. */
  ghost predicate Stores(file: Bytes, hdr: Bytes, rs: seq<Record>, p: Pack) {
    && IsHeader(hdr) && SameHashes(rs, p.records) && !p.isSealed && p.flushed <= |rs|
    && RecordOffset(p.flushed) <= |file| && file <= hdr + BodyBytes(rs)
  }

  /** How many records fit into the file. */
  function Complete(file: Bytes): nat
    requires |file| >= HEADER_SIZE
  {
    (|file| - HEADER_SIZE) / 4133
  }

  lemma CutParts(file: Bytes, hdr: Bytes, rs: seq<Record>, p: Pack)
    requires Stores(file, hdr, rs, p)
    ensures p.flushed <= Complete(file) <= |rs| && RecordOffset(Complete(file)) <= |file| < RecordOffset(Complete(file)) + 4133
    ensures Complete(file) == |rs| ==> |file| == RecordOffset(|rs|)
  {
    assert |hdr + BodyBytes(rs)| == RecordOffset(|rs|);
  }

  /** Only the complete records and the start of the next one are left. */
  lemma CutIsTorn(file: Bytes, hdr: Bytes, rs: seq<Record>, p: Pack) returns (h: Digest)
    requires Stores(file, hdr, rs, p)
    ensures Complete(file) <= |rs| && RecordOffset(Complete(file)) <= |file| && file[..4] == PACK_MAGIC
    ensures Torn(file, rs[..Complete(file)], h, |file| - RecordOffset(Complete(file)))
  {
    CutParts(file, hdr, rs, p);
    var whole, k := hdr + BodyBytes(rs), Complete(file);
    FileHolds(hdr, rs, []);
    assert whole + [] == whole;
    assert file == whole[..|file|];
    var t := |file| - RecordOffset(k);
    if k < |rs| {
      CutTears(whole, rs, k, t);
      h := rs[k].hash;
    } else {
      assert file == whole && rs[..k] == rs;
      h := Zeros(32);
    }
    assert file[..4] == hdr[..4];
  }

  /** Whatever a kill leaves of the file, it is a cut the store allows, with the records that survive it complete in the
      file; and a restart lists exactly those, if and only if the torn end does not pass for a footer. */
  lemma CutIsSurvivor(blake3: Blake3, file: Bytes, hdr: Bytes, rs: seq<Record>, p: Pack)
    requires Stores(file, hdr, rs, p) && AllGenuine(blake3, rs)
    ensures var k := Complete(file);
      && p.flushed <= k <= |p.records| && RecordOffset(k) <= |file|
      && Stores(file[..RecordOffset(k)], hdr, rs[..k], Survivor(p, k))
      && (Recovered(blake3, file) == Offsets(Survivor(p, k).records) <==>
            !(|file| - RecordOffset(k) >= RECORD_HEADER + FOOTER_SIZE && FooterShaped(file, k)))
  {
    CutParts(file, hdr, rs, p);
    var h := CutIsTorn(file, hdr, rs, p);
    var k := Complete(file);
    var t := |file| - RecordOffset(k);
    RecoveredTorn(blake3, file, rs[..k], h, t);
    OffsetsAreEntries(rs[..k], Survivor(p, k).records);
    CutStores(file, hdr, rs, p, k);
  }

  lemma CutStores(file: Bytes, hdr: Bytes, rs: seq<Record>, p: Pack, k: nat)
    requires Stores(file, hdr, rs, p) && k <= |rs| && RecordOffset(k) <= |file|
    ensures Stores(file[..RecordOffset(k)], hdr, rs[..k], Survivor(p, k))
  {
    BodyPrefix(rs, k);
    var whole := hdr + BodyBytes(rs);
    assert file[..RecordOffset(k)] == whole[..RecordOffset(k)];
    assert whole[..RecordOffset(k)] == hdr + BodyBytes(rs)[..4133 * k];
  }

  /** And every cut the store allows is one a kill can leave, listed exactly. */
  lemma SurvivorIsCut(blake3: Blake3, file: Bytes, hdr: Bytes, rs: seq<Record>, p: Pack, cut: nat)
    requires Stores(file, hdr, rs, p) && AllGenuine(blake3, rs) && p.flushed <= cut <= |p.records|
    ensures var left := hdr + BodyBytes(rs[..cut]);
      && Stores(left, hdr, rs, p) && Complete(left) == cut
      && Recovered(blake3, left) == Offsets(Survivor(p, cut).records)
  {
    var whole, left := hdr + BodyBytes(rs), hdr + BodyBytes(rs[..cut]);
    BodyPrefix(rs, cut);
    assert left == whole[..RecordOffset(cut)];
    CutIsSurvivor(blake3, left, hdr, rs, p);
  }

  // ── A sealed pack ──────────────────────────────────────────────────────

  lemma ThreeParts(a: Bytes, b: Bytes, c: Bytes)
    requires |a| >= 4
    ensures (a + b + c)[..4] == a[..4] && (a + b + c)[|a| + |b|..] == c
  {
  }

  /** A kill leaves a sealed pack alone, and a restart lists all of it. */
  lemma SealedSurvives(blake3: Blake3, hdr: Bytes, rs: seq<Record>, p: Pack, cut: nat)
    requires IsHeader(hdr) && SameHashes(rs, p.records) && p.isSealed && |rs| < TWO64
    ensures Recovered(blake3, hdr + BodyBytes(rs) + FooterBytes(blake3, rs)) == Offsets(Survivor(p, cut).records)
  {
    var file := hdr + BodyBytes(rs) + FooterBytes(blake3, rs);
    FileHolds(hdr, rs, FooterBytes(blake3, rs));
    ThreeParts(hdr, BodyBytes(rs), FooterBytes(blake3, rs));
    RecoveredSealed(blake3, file, rs);
    OffsetsAreEntries(rs, p.records);
  }

  // ── What a scan puts into the index ────────────────────────────────────

  function Located(pack: U32, hs: seq<PageHash>): (es: seq<Entry>)
    requires RecordOffset(|hs|) < TWO64
    ensures |es| == |hs| && forall i :: 0 <= i < |hs| ==> es[i] == (hs[i], PageLoc(pack, RecordOffset(i)))
  {
    seq(|hs|, i requires 0 <= i < |hs| => (hs[i], PageLoc(pack, RecordOffset(i))))
  }

  ghost function SlotLoc(pack: U32, hs: seq<PageHash>, h: PageHash): Option<PageLoc>
    requires RecordOffset(|hs|) < TWO64
  {
    if h in AllOf(hs) then Some(PageLoc(pack, RecordOffset(AllOf(hs)[h]))) else None
  }

  /** The first location a scan lists for a hash is its first slot. */
  lemma ScanGivesAllOf(pack: U32, hs: seq<PageHash>, h: PageHash)
    requires RecordOffset(|hs|) < TWO64
    ensures FirstLoc(Located(pack, hs), h) == SlotLoc(pack, hs, h)
  {
    if h in hs {
      FirstLocAt(Located(pack, hs), h, FirstSlot(hs, h));
    } else {
      FirstLocFound(Located(pack, hs), h);
    }
  }

  lemma LoadsAll(crc: SidecarFiles.Crc, es: seq<Entry>)
    requires |es| < TWO32
    ensures SidecarFiles.Parsed(crc, SidecarFiles.Sealed(crc, es)) == Ok(es)
  {
    SidecarFiles.WrittenParses(crc, es);
    assert es[..|es|] == es;
  }

  /** A sidecar written from a scan, once loaded, gives every hash of the pack its first slot and nothing else. */
  lemma SidecarGivesAllOf(crc: SidecarFiles.Crc, pack: U32, hs: seq<PageHash>, written: seq<Entry>, h: PageHash)
    requires RecordOffset(|hs|) < TWO64 && |written| < TWO32
    requires InsertAll(map[], written) == InsertAll(map[], Located(pack, hs))
    ensures var loaded := SidecarFiles.Parsed(crc, SidecarFiles.Sealed(crc, written));
      loaded.Ok? && Get(InsertAll(map[], loaded.value), h) == SlotLoc(pack, hs, h)
  {
    LoadsAll(crc, written);
    InsertAllGet(map[], Located(pack, hs), h);
    ScanGivesAllOf(pack, hs, h);
  }
}
