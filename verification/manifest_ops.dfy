/** The manifest operations that run loops: decoding, the builders and the two flattens. */
module ManifestOps {
  import opened Base
  import opened Sorting
  import opened Manifests

  // ── Decode ─────────────────────────────────────────────────────────────

  method ReadTable(body: Bytes, count: nat) returns (es: seq<ManifestEntry>)
    requires HEADER_LEN + 40 * count <= |body|
    ensures es == TableAt(body, HEADER_LEN, count)
  {
    es := [];
    for i := 0 to count
      invariant |es| == i
      invariant forall j :: 0 <= j < i ==> es[j] == EntryAt(body, HEADER_LEN + 40 * j)
    {
      es := es + [EntryAt(body, HEADER_LEN + 40 * i)];
    }
  }

  /** Comparing neighbours decides whether the whole table ascends. */
  method IsAscending(es: seq<ManifestEntry>) returns (ok: bool)
    ensures ok <==> Ascending(es)
  {
    for i := 0 to |es|
      invariant Ascending(es[..i])
    {
      if i > 0 && es[i - 1].pageIndex >= es[i].pageIndex { return false; }
      assert forall j :: 0 <= j < i ==> es[..i][j].pageIndex <= es[i - 1].pageIndex;
    }
    assert es[..|es|] == es;
    return true;
  }

  method IsContiguous(es: seq<ManifestEntry>) returns (ok: bool)
    ensures ok <==> Contiguous(es)
  {
    for i := 0 to |es|
      invariant forall j :: 0 <= j < i ==> es[j].pageIndex == j
    {
      if es[i].pageIndex != i { return false; }
    }
    return true;
  }

  method CheckTable(h: Header, es: seq<ManifestEntry>) returns (e: Option<ManifestError>)
    ensures e == TableError(h, es)
  {
    var pages := Pages(h.guestRam);
    var ascending := IsAscending(es);
    if !ascending { return Some(EntriesNotAscending); }
    if h.flags % 2 == 1 {
      if h.parent == Zeros(32) { return Some(DeltaZeroParent); }
      for i := 0 to |es|
        invariant FirstOutOfRange(es, pages) == FirstOutOfRange(es[i..], pages)
      {
        if es[i].pageIndex >= pages { return Some(DeltaIndexOutOfRange(es[i].pageIndex, pages)); }
        assert es[i..][1..] == es[i + 1..];
      }
      return None;
    }
    if h.parent != Zeros(32) { return Some(FullNonZeroParent); }
    if h.entryCount != pages { return Some(FullCountMismatch(h.entryCount, pages)); }
    var contiguous := IsContiguous(es);
    return if contiguous then None else Some(FullNotContiguous);
  }

  method Decode(blake3: Blake3, unzstd: Unzstd, buf: Bytes) returns (r: Result<Manifest, ManifestError>)
    ensures r == Decoded(blake3, unzstd, buf)
  {
    if |buf| < HEADER_LEN + FOOTER_LEN { return Err(Truncated); }
    var body := buf[..|buf| - FOOTER_LEN];
    if blake3(body) != buf[|body|..] { return Err(FooterMismatch); }
    var h := ReadHeader(body);
    var e := HeaderError(h);
    if e.Some? { return Err(e.value); }
    e := SizeError(h, |body|);
    if e.Some? { return Err(e.value); }
    var es := ReadTable(body, h.entryCount);
    e := CheckTable(h, es);
    if e.Some? { return Err(e.value); }
    var bytes := body[HEADER_LEN + 40 * h.entryCount..];
    e := BlobError(h, bytes, unzstd);
    if e.Some? { return Err(e.value); }
    return Ok(ManifestOf(h, es, bytes));
  }

  // ── Builders ───────────────────────────────────────────────────────────

  function Index(e: ManifestEntry): int { e.pageIndex }

  ghost predicate NoDuplicateIndex(es: seq<ManifestEntry>) {
    forall i, j :: 0 <= i < j < |es| ==> es[i].pageIndex != es[j].pageIndex
  }

  predicate BlobOk(b: DeviceBlob) { b.zstd || b.rawLen == |b.bytes| }

  lemma NoDuplicatePermutation(a: seq<ManifestEntry>, b: seq<ManifestEntry>)
    requires multiset(a) == multiset(b) && NoDuplicateIndex(a)
    ensures NoDuplicateIndex(b)
  {
    assert Distinct(a);
    DistinctPermutation(a, b);
    SameElements(a, b);
    forall i, j | 0 <= i < j < |b| ensures b[i].pageIndex != b[j].pageIndex {
      assert b[i] in a && b[j] in a && b[i] != b[j];
    }
  }

  /** The sort turns absence of duplicates into strict order, and only that. */
  lemma SortedIsAscending(es: seq<ManifestEntry>, s: seq<ManifestEntry>)
    requires multiset(es) == multiset(s) && SortedBy(s, Index)
    ensures Ascending(s) <==> NoDuplicateIndex(es)
  {
    if NoDuplicateIndex(es) {
      NoDuplicatePermutation(es, s);
      forall i, j | 0 <= i < j < |s| ensures s[i].pageIndex < s[j].pageIndex {
        assert Index(s[i]) <= Index(s[j]);
      }
    }
    if Ascending(s) { NoDuplicatePermutation(s, es); }
  }

  lemma InRangePermutation(a: seq<ManifestEntry>, b: seq<ManifestEntry>, pages: nat)
    requires multiset(a) == multiset(b)
    ensures InRange(a, pages) <==> InRange(b, pages)
  {
    SameElements(a, b);
    assert forall i :: 0 <= i < |a| ==> a[i] in b;
    assert forall i :: 0 <= i < |b| ==> b[i] in a;
  }

  lemma {:induction false} AscendingAtLeast(s: seq<ManifestEntry>, i: nat)
    requires Ascending(s) && i < |s|
    ensures s[i].pageIndex >= i
  {
    if i > 0 { AscendingAtLeast(s, i - 1); }
  }

  lemma {:induction false} AscendingAtMost(s: seq<ManifestEntry>, i: nat)
    requires Ascending(s) && InRange(s, |s|) && i < |s|
    ensures s[i].pageIndex <= i
    decreases |s| - i
  {
    if i + 1 < |s| { AscendingAtMost(s, i + 1); }
  }

  /** n strictly ascending indices below n are 0, 1, ..., n-1. */
  lemma ContiguousByCounting(s: seq<ManifestEntry>)
    ensures Contiguous(s) <==> Ascending(s) && InRange(s, |s|)
  {
    if Ascending(s) && InRange(s, |s|) {
      forall i | 0 <= i < |s| ensures s[i].pageIndex == i {
        AscendingAtLeast(s, i);
        AscendingAtMost(s, i);
      }
    }
  }

  /** FULL: accepted exactly when the entries name every page once, whatever order they come in. */
  method NewFull(guestRam: U64, entries: seq<ManifestEntry>, blob: DeviceBlob)
    returns (r: Result<Manifest, ManifestError>)
    ensures guestRam % PAGE_SIZE != 0 ==> r == Err(GuestRamNotAligned(guestRam))
    ensures guestRam % PAGE_SIZE == 0 ==>
              var pages := Pages(guestRam);
              if |entries| != pages then r == Err(FullCountMismatch(|entries|, pages))
              else if !NoDuplicateIndex(entries) || !InRange(entries, pages) then r == Err(FullNotContiguous)
              else if !BlobOk(blob) then r == Err(NonZstdRawLenMismatch(blob.rawLen, |blob.bytes|))
              else r.Ok? && Built(r.value) && !r.value.delta && r.value.guestRam == guestRam && r.value.blob == blob
                   && multiset(r.value.entries) == multiset(entries)
  {
    if guestRam % PAGE_SIZE != 0 { return Err(GuestRamNotAligned(guestRam)); }
    var pages := Pages(guestRam);
    var s := SortBy(entries, Index);
    SameElements(entries, s);
    if |s| != pages { return Err(FullCountMismatch(|s|, pages)); }
    SortedIsAscending(entries, s);
    InRangePermutation(entries, s, pages);
    ContiguousByCounting(s);
    var contiguous := IsContiguous(s);
    if !contiguous { return Err(FullNotContiguous); }
    if !BlobOk(blob) { return Err(NonZstdRawLenMismatch(blob.rawLen, |blob.bytes|)); }
    return Ok(Manifest(VERSION, false, None, guestRam, s, blob));
  }

  /** The least page index at or past the end of guest RAM. */
  ghost predicate LeastOutOfRange(es: seq<ManifestEntry>, pages: nat, x: U64) {
    && (exists i :: 0 <= i < |es| && es[i].pageIndex == x) && x >= pages
    && forall i :: 0 <= i < |es| && es[i].pageIndex >= pages ==> x <= es[i].pageIndex
  }

  /** DELTA: accepted exactly when no page is named twice and every page is inside guest RAM. */
  method NewDelta(parent: Digest, guestRam: U64, entries: seq<ManifestEntry>, blob: DeviceBlob)
    returns (r: Result<Manifest, ManifestError>)
    ensures guestRam % PAGE_SIZE != 0 ==> r == Err(GuestRamNotAligned(guestRam))
    ensures guestRam % PAGE_SIZE == 0 ==>
              var pages := Pages(guestRam);
              if !NoDuplicateIndex(entries) then r == Err(EntriesNotAscending)
              else if !InRange(entries, pages) then
                r.Err? && r.error.DeltaIndexOutOfRange? && r.error.pages == pages
                && LeastOutOfRange(entries, pages, r.error.index)
              else if !BlobOk(blob) then r == Err(NonZstdRawLenMismatch(blob.rawLen, |blob.bytes|))
              else r.Ok? && Built(r.value) && r.value.delta && r.value.parent == Some(parent)
                   && r.value.guestRam == guestRam && r.value.blob == blob
                   && multiset(r.value.entries) == multiset(entries)
  {
    if guestRam % PAGE_SIZE != 0 { return Err(GuestRamNotAligned(guestRam)); }
    var pages := Pages(guestRam);
    var s := SortBy(entries, Index);
    SortedIsAscending(entries, s);
    InRangePermutation(entries, s, pages);
    var ascending := IsAscending(s);
    if !ascending { return Err(EntriesNotAscending); }
    for i := 0 to |s|
      invariant InRange(s[..i], pages)
    {
      if s[i].pageIndex >= pages {
        LeastOfSorted(entries, s, i, pages);
        return Err(DeltaIndexOutOfRange(s[i].pageIndex, pages));
      }
    }
    assert s[..|s|] == s;
    if !BlobOk(blob) { return Err(NonZstdRawLenMismatch(blob.rawLen, |blob.bytes|)); }
    return Ok(Manifest(VERSION, true, Some(parent), guestRam, s, blob));
  }

  lemma LeastOfSorted(es: seq<ManifestEntry>, s: seq<ManifestEntry>, i: nat, pages: nat)
    requires multiset(es) == multiset(s) && Ascending(s) && i < |s| && s[i].pageIndex >= pages
    requires InRange(s[..i], pages)
    ensures LeastOutOfRange(es, pages, s[i].pageIndex)
  {
    SameElements(es, s);
    assert s[i] in es;
    assert forall j :: 0 <= j < i ==> s[j] == s[..i][j];
    forall k | 0 <= k < |es| && es[k].pageIndex >= pages ensures s[i].pageIndex <= es[k].pageIndex {
      assert es[k] in s;
      var j :| 0 <= j < |s| && s[j] == es[k];
      assert s[j].pageIndex >= pages;
    }
  }

  // ── Flatten ────────────────────────────────────────────────────────────

  datatype FlattenError = EmptyChain | RootNotFull | RootNotDelta | RamMismatch | Coverage

  /** The entry a manifest holds for a page, if it mentions the page. */
  ghost function Lookup(es: seq<ManifestEntry>, page: nat): (r: Option<ManifestEntry>)
    ensures r.Some? ==> r.value in es && r.value.pageIndex == page
    ensures r.None? ==> forall i :: 0 <= i < |es| ==> es[i].pageIndex != page
  {
    if es == [] then None
    else if es[0].pageIndex == page then Some(es[0])
    else
      assert forall i :: 0 < i < |es| ==> es[i] == es[1..][i - 1];
      Lookup(es[1..], page)
  }

  /** The layered-overlay semantics: the first manifest of the child-first chain that mentions the page decides. */
  ghost function Layered(chain: seq<Manifest>, page: nat): (r: Option<ManifestEntry>)
    ensures r.Some? ==> r.value.pageIndex == page
  {
    if chain == [] then None
    else if Lookup(chain[0].entries, page).Some? then Lookup(chain[0].entries, page)
    else Layered(chain[1..], page)
  }

  ghost predicate SameRam(chain: seq<Manifest>) {
    forall i :: 0 <= i < |chain| ==> chain[i].guestRam == chain[0].guestRam
  }

  ghost predicate AllBuilt(chain: seq<Manifest>) {
    forall i :: 0 <= i < |chain| ==> Built(chain[i])
  }

  ghost function Prepend(e: Option<ManifestEntry>, rest: seq<ManifestEntry>): seq<ManifestEntry> {
    if e.Some? then [e.value] + rest else rest
  }

  /** Reading the chain page by page: what a flattened delta table contains, in page order. */
  ghost function LayeredTable(chain: seq<Manifest>, from: nat, pages: nat): (t: seq<ManifestEntry>)
    requires from <= pages
    ensures forall i :: 0 <= i < |t| ==> from <= t[i].pageIndex < pages && Layered(chain, t[i].pageIndex) == Some(t[i])
    ensures Ascending(t)
    decreases pages - from
  {
    if from == pages then []
    else
      Prepend(Layered(chain, from), LayeredTable(chain, from + 1, pages))
  }

  lemma {:induction false} LookupLayeredTable(chain: seq<Manifest>, from: nat, pages: nat, page: nat)
    requires from <= page < pages
    ensures Lookup(LayeredTable(chain, from, pages), page) == Layered(chain, page)
    decreases pages - from
  {
    var rest := LayeredTable(chain, from + 1, pages);
    LookupPrepend(Layered(chain, from), rest, page);
    if from < page {
      LookupLayeredTable(chain, from + 1, pages, page);
    } else {
      assert Lookup(rest, page).None?;
    }
  }

  lemma LookupPrepend(e: Option<ManifestEntry>, rest: seq<ManifestEntry>, page: nat)
    ensures Lookup(Prepend(e, rest), page) ==
            if e.Some? && e.value.pageIndex == page then e else Lookup(rest, page)
  {
    if e.Some? { assert ([e.value] + rest)[1..] == rest; }
  }

  /** A full-rooted chain of equal RAM covers every page. */
  lemma {:induction false} FullRootCovers(chain: seq<Manifest>, page: nat)
    requires chain != [] && AllBuilt(chain) && SameRam(chain) && !chain[|chain| - 1].delta
    requires page < Pages(chain[0].guestRam)
    ensures Layered(chain, page).Some?
  {
    if |chain| == 1 {
      assert chain[0].entries[page].pageIndex == page;
    } else {
      var rest := chain[1..];
      assert forall i :: 0 <= i < |rest| ==> rest[i] == chain[i + 1];
      FullRootCovers(rest, page);
    }
  }

  lemma {:induction false} LayeredAppend(a: seq<Manifest>, b: seq<Manifest>, page: nat)
    ensures Layered(a + b, page) == if Layered(a, page).Some? then Layered(a, page) else Layered(b, page)
  {
    if a == [] {
      assert a + b == b;
    } else {
      assert (a + b)[1..] == a[1..] + b;
      LayeredAppend(a[1..], b, page);
    }
  }

  /** The verdict of `flatten`: shape errors in source order, otherwise one entry per page, decided by the overlay. */
  ghost function Flattened(chain: seq<Manifest>): Result<seq<ManifestEntry>, FlattenError>
    requires AllBuilt(chain)
  {
    if chain == [] then Err(EmptyChain)
    else if chain[|chain| - 1].delta then Err(RootNotFull)
    else if !SameRam(chain) then Err(RamMismatch)
    else Ok(LayeredTable(chain, 0, Pages(chain[0].guestRam)))
  }

  ghost function FlattenedDelta(chain: seq<Manifest>): Result<seq<ManifestEntry>, FlattenError>
    requires AllBuilt(chain)
  {
    if chain == [] then Err(EmptyChain)
    else if !chain[|chain| - 1].delta then Err(RootNotDelta)
    else if !SameRam(chain) then Err(RamMismatch)
    else Ok(LayeredTable(chain, 0, Pages(chain[0].guestRam)))
  }

  ghost predicate FullRooted(chain: seq<Manifest>) { chain != [] && !chain[|chain| - 1].delta && SameRam(chain) }

  ghost predicate DeltaRooted(chain: seq<Manifest>) { chain != [] && chain[|chain| - 1].delta && SameRam(chain) }

  /** Why a chain is refused. */
  ghost predicate Refuses(chain: seq<Manifest>, asDelta: bool, e: FlattenError) {
    match e
    case EmptyChain => chain == []
    case RootNotFull => !asDelta && chain != [] && chain[|chain| - 1].delta
    case RootNotDelta => asDelta && chain != [] && !chain[|chain| - 1].delta
    case RamMismatch => chain != [] && chain[|chain| - 1].delta == asDelta && !SameRam(chain)
    case Coverage => false
  }

  ghost predicate MentionsPage(m: Manifest, page: nat) { exists e :: e in m.entries && e.pageIndex == page }

  /** `e` is what the first manifest to mention its page says of it. */
  ghost predicate Decides(chain: seq<Manifest>, e: ManifestEntry) {
    exists k :: 0 <= k < |chain| && e in chain[k].entries && forall j :: 0 <= j < k ==> !MentionsPage(chain[j], e.pageIndex)
  }

  lemma BuiltIsUnique(m: Manifest, page: nat, e: ManifestEntry)
    requires Built(m)
    ensures Lookup(m.entries, page) == Some(e) <==> e in m.entries && e.pageIndex == page
    ensures Lookup(m.entries, page).Some? <==> MentionsPage(m, page)
  {
    assert NoDuplicateIndex(m.entries);
    if e in m.entries && e.pageIndex == page {
      LookupUnique(m.entries, e);
    }
  }

  lemma {:induction false} LayeredDecides(chain: seq<Manifest>, e: ManifestEntry)
    requires AllBuilt(chain)
    ensures Layered(chain, e.pageIndex) == Some(e) <==> Decides(chain, e)
  {
    if chain != [] {
      var rest := chain[1..];
      assert forall i :: 0 <= i < |rest| ==> rest[i] == chain[i + 1];
      LayeredDecides(rest, e);
      BuiltIsUnique(chain[0], e.pageIndex, e);
      DecidesNext(chain, e);
    }
  }

  lemma DecidesNext(chain: seq<Manifest>, e: ManifestEntry)
    requires chain != []
    ensures Decides(chain, e) <==> e in chain[0].entries || (!MentionsPage(chain[0], e.pageIndex) && Decides(chain[1..], e))
  {
    var rest := chain[1..];
    if e !in chain[0].entries && !MentionsPage(chain[0], e.pageIndex) && Decides(rest, e) {
      var k :| 0 <= k < |rest| && e in rest[k].entries && forall j :: 0 <= j < k ==> !MentionsPage(rest[j], e.pageIndex);
      assert forall j :: 0 <= j < k + 1 ==> !MentionsPage(chain[j], e.pageIndex) by {
        assert forall j :: 0 < j < k + 1 ==> chain[j] == rest[j - 1];
      }
      assert e in chain[k + 1].entries;
    }
    if e !in chain[0].entries && Decides(chain, e) {
      var k :| 0 <= k < |chain| && e in chain[k].entries && forall j :: 0 <= j < k ==> !MentionsPage(chain[j], e.pageIndex);
      assert e in rest[k - 1].entries && !MentionsPage(chain[0], e.pageIndex);
      assert forall j :: 0 <= j < k - 1 ==> rest[j] == chain[j + 1];
    }
  }

  /** Flattening a full-rooted chain gives exactly one entry per page, in page order. */
  lemma FlattenedIsTotal(chain: seq<Manifest>)
    requires AllBuilt(chain) && FullRooted(chain)
    ensures Flattened(chain).Ok?
    ensures var t := Flattened(chain).value;
            && |t| == Pages(chain[0].guestRam) && Contiguous(t)
            && forall p :: 0 <= p < |t| ==> Layered(chain, p) == Some(t[p])
  {
    TotalTable(chain, 0, Pages(chain[0].guestRam));
  }

  lemma {:induction false} TotalTable(chain: seq<Manifest>, from: nat, pages: nat)
    requires AllBuilt(chain) && FullRooted(chain) && from <= pages == Pages(chain[0].guestRam)
    ensures var t := LayeredTable(chain, from, pages);
            |t| == pages - from && forall i :: 0 <= i < |t| ==> t[i].pageIndex == from + i
    decreases pages - from
  {
    if from < pages {
      FullRootCovers(chain, from);
      TotalTable(chain, from + 1, pages);
      assert LayeredTable(chain, from, pages) == [Layered(chain, from).value] + LayeredTable(chain, from + 1, pages);
    }
  }

  /** Flattening deltas stacked on a full-rooted chain is the overlay of the flattened deltas on the flattened chain. */
  lemma FlattenComposes(deltas: seq<Manifest>, chain: seq<Manifest>)
    requires AllBuilt(deltas) && AllBuilt(chain)
    requires DeltaRooted(deltas) && FullRooted(chain) && deltas[0].guestRam == chain[0].guestRam
    ensures AllBuilt(deltas + chain) && Flattened(deltas + chain).Ok? && FlattenedDelta(deltas).Ok? && Flattened(chain).Ok?
    ensures var whole, top, base := Flattened(deltas + chain).value, FlattenedDelta(deltas).value, Flattened(chain).value;
            && |whole| == |base|
            && forall p :: 0 <= p < |base| ==>
                 whole[p] == if Lookup(top, p).Some? then Lookup(top, p).value else base[p]
  {
    var both := deltas + chain;
    assert forall i :: 0 <= i < |both| ==> both[i] == if i < |deltas| then deltas[i] else chain[i - |deltas|];
    FlattenedIsTotal(both);
    FlattenedIsTotal(chain);
    forall p | 0 <= p < |Flattened(chain).value|
      ensures Flattened(both).value[p] ==
              var top := FlattenedDelta(deltas).value;
              if Lookup(top, p).Some? then Lookup(top, p).value else Flattened(chain).value[p]
    {
      LayeredAppend(deltas, chain, p);
      LookupLayeredTable(deltas, 0, Pages(deltas[0].guestRam), p);
    }
  }

  method RamAgrees(chain: seq<Manifest>) returns (ok: bool)
    ensures ok <==> SameRam(chain)
  {
    for i := 0 to |chain|
      invariant forall j :: 0 <= j < i ==> chain[j].guestRam == chain[0].guestRam
    {
      if chain[i].guestRam != chain[0].guestRam { return false; }
    }
    return true;
  }

  lemma LayeredSnoc(chain: seq<Manifest>, k: nat, page: nat)
    requires k < |chain|
    ensures Layered(chain[..k + 1], page) ==
            if Layered(chain[..k], page).Some? then Layered(chain[..k], page) else Lookup(chain[k].entries, page)
  {
    assert chain[..k + 1] == chain[..k] + [chain[k]];
    LayeredAppend(chain[..k], [chain[k]], page);
    assert [chain[k]][1..] == [];
  }

  lemma {:induction false} LookupSnoc(es: seq<ManifestEntry>, i: nat, page: nat)
    requires i < |es|
    ensures Lookup(es[..i + 1], page) ==
            if Lookup(es[..i], page).Some? then Lookup(es[..i], page)
            else if es[i].pageIndex == page then Some(es[i]) else None
  {
    if i > 0 {
      LookupSnoc(es[1..], i - 1, page);
      assert es[1..][..i] == es[..i + 1][1..] && es[1..][..i - 1] == es[..i][1..];
    }
  }

  /** One slot per page, filled by the first manifest that mentions it. */
  ghost predicate SlotsFilled(slots: seq<Option<ManifestEntry>>, above: seq<Manifest>, done: seq<ManifestEntry>) {
    forall p :: 0 <= p < |slots| ==>
      slots[p] == if Layered(above, p).Some? then Layered(above, p) else Lookup(done, p)
  }

  /** Laying one more manifest under the ones already in `slots`, keeping what is there. */
  method LayUnder(slots: array<Option<ManifestEntry>>, ghost above: seq<Manifest>, m: Manifest)
    requires InRange(m.entries, slots.Length) && SlotsFilled(slots[..], above, [])
    modifies slots
    ensures SlotsFilled(slots[..], above, m.entries)
  {
    for i := 0 to |m.entries|
      invariant SlotsFilled(slots[..], above, m.entries[..i])
    {
      var e := m.entries[i];
      forall p: nat ensures Lookup(m.entries[..i + 1], p) ==
                  if Lookup(m.entries[..i], p).Some? then Lookup(m.entries[..i], p)
                  else if e.pageIndex == p then Some(e) else None { LookupSnoc(m.entries, i, p); }
      assert slots[..][e.pageIndex] == slots[e.pageIndex];
      if slots[e.pageIndex].None? {
        slots[e.pageIndex] := Some(e);
      }
    }
    assert m.entries[..|m.entries|] == m.entries;
  }

  /** Flattening never leaves a gap and never indexes outside guest RAM: the slots start empty, one manifest after
      another fills what is still open, and the full root closes the rest. */
  method Flatten(chain: seq<Manifest>) returns (r: Result<seq<ManifestEntry>, FlattenError>)
    requires AllBuilt(chain)
    ensures r == Flattened(chain)
    ensures r.Ok? <==> FullRooted(chain)
    ensures r.Err? ==> Refuses(chain, false, r.error)
    ensures r.Ok? ==> |r.value| == Pages(chain[0].guestRam) && Contiguous(r.value)
    ensures r.Ok? ==> forall p :: 0 <= p < |r.value| ==> Decides(chain, r.value[p])
  {
    if chain == [] { return Err(EmptyChain); }
    if chain[|chain| - 1].delta { return Err(RootNotFull); }
    var agrees := RamAgrees(chain);
    if !agrees { return Err(RamMismatch); }
    var pages := Pages(chain[0].guestRam);
    var slots := new Option<ManifestEntry>[pages](_ => None);
    for k := 0 to |chain|
      invariant SlotsFilled(slots[..], chain[..k], [])
    {
      LayUnder(slots, chain[..k], chain[k]);
      SlotsSnoc(slots[..], chain, k);
    }
    assert chain[..|chain|] == chain;
    FlattenedIsTotal(chain);
    var out := [];
    for p := 0 to pages
      invariant out == Flattened(chain).value[..p]
    {
      assert slots[..][p] == slots[p];
      if slots[p].None? {
        assert false;  // the coverage error cannot happen
      } else {
        out := out + [slots[p].value];
      }
    }
    assert out == Flattened(chain).value;
    forall p | 0 <= p < |out| ensures Decides(chain, out[p]) { LayeredDecides(chain, out[p]); }
    return Ok(out);
  }

  lemma SlotsSnoc(slots: seq<Option<ManifestEntry>>, chain: seq<Manifest>, k: nat)
    requires k < |chain| && SlotsFilled(slots, chain[..k], chain[k].entries)
    ensures SlotsFilled(slots, chain[..k + 1], [])
  {
    forall p | 0 <= p < |slots|
      ensures slots[p] == if Layered(chain[..k + 1], p).Some? then Layered(chain[..k + 1], p) else Lookup([], p)
    {
      LayeredSnoc(chain, k, p);
    }
  }

  // ── Flattening a chain of deltas ───────────────────────────────────────

  /** What has been emitted so far: one entry per marked page, the one the overlay picks. */
  ghost predicate Emitted(out: seq<ManifestEntry>, seen: seq<bool>, above: seq<Manifest>, done: seq<ManifestEntry>) {
    && NoDuplicateIndex(out)
    && InRange(out, |seen|)
    && forall p :: 0 <= p < |seen| ==>
         var e := if Layered(above, p).Some? then Layered(above, p) else Lookup(done, p);
         Lookup(out, p) == e && seen[p] == e.Some?
  }

  lemma LookupUnique(es: seq<ManifestEntry>, e: ManifestEntry)
    requires NoDuplicateIndex(es) && e in es
    ensures Lookup(es, e.pageIndex) == Some(e)
  {
    var i :| 0 <= i < |es| && es[i] == e;
  }

  lemma {:induction false} LookupAppend(out: seq<ManifestEntry>, e: ManifestEntry, page: nat)
    ensures Lookup(out + [e], page) ==
            if Lookup(out, page).Some? then Lookup(out, page) else if e.pageIndex == page then Some(e) else None
  {
    LookupSnoc(out + [e], |out|, page);
    assert (out + [e])[..|out| + 1] == out + [e] && (out + [e])[..|out|] == out;
  }

  /** A permutation without duplicate pages answers every lookup the same way. */
  lemma LookupPermutation(a: seq<ManifestEntry>, b: seq<ManifestEntry>, page: nat)
    requires multiset(a) == multiset(b) && NoDuplicateIndex(a)
    ensures Lookup(a, page) == Lookup(b, page)
  {
    SameElements(a, b);
    NoDuplicatePermutation(a, b);
    if Lookup(a, page).Some? { LookupUnique(b, Lookup(a, page).value); }
    if Lookup(b, page).Some? { LookupUnique(a, Lookup(b, page).value); }
  }

  /** A strictly ascending table is determined by its lookups. */
  lemma {:induction false} AscendingByLookup(a: seq<ManifestEntry>, b: seq<ManifestEntry>)
    requires Ascending(a) && Ascending(b)
    requires forall p: nat :: Lookup(a, p) == Lookup(b, p)
    ensures a == b
  {
    assert b == [] || Lookup(b, b[0].pageIndex) == Some(b[0]);
    if a != [] {
      var p := a[0].pageIndex;
      assert Lookup(b, p) == Lookup(a, p) == Some(a[0]);
      assert b != [];
      var q := b[0].pageIndex;
      assert Lookup(a, q) == Lookup(b, q) == Some(b[0]);
      assert p == q;
      forall r: nat ensures Lookup(a[1..], r) == Lookup(b[1..], r) {
        assert Lookup(a, r) == Lookup(b, r);
      }
      AscendingByLookup(a[1..], b[1..]);
      assert a == [a[0]] + a[1..] && b == [b[0]] + b[1..];
    }
  }

  /** One entry of the chain: emit it unless its page was already decided. */
  lemma EmitOne(out: seq<ManifestEntry>, seen: seq<bool>, above: seq<Manifest>, es: seq<ManifestEntry>, i: nat)
    requires i < |es| && es[i].pageIndex < |seen| && Emitted(out, seen, above, es[..i])
    ensures var e := es[i];
            if seen[e.pageIndex] then Emitted(out, seen, above, es[..i + 1])
            else Emitted(out + [e], seen[e.pageIndex := true], above, es[..i + 1])
  {
    var e := es[i];
    forall p | 0 <= p < |seen| ensures
      && Lookup(es[..i + 1], p) == (if Lookup(es[..i], p).Some? then Lookup(es[..i], p) else if e.pageIndex == p then Some(e) else None)
      && Lookup(out + [e], p) == (if Lookup(out, p).Some? then Lookup(out, p) else if e.pageIndex == p then Some(e) else None)
    {
      LookupSnoc(es, i, p);
      LookupAppend(out, e, p);
    }
  }

  method EmitUnder(seen: array<bool>, out: seq<ManifestEntry>, ghost above: seq<Manifest>, m: Manifest)
    returns (out': seq<ManifestEntry>)
    requires InRange(m.entries, seen.Length) && Emitted(out, seen[..], above, [])
    modifies seen
    ensures Emitted(out', seen[..], above, m.entries)
  {
    out' := out;
    for i := 0 to |m.entries|
      invariant Emitted(out', seen[..], above, m.entries[..i])
    {
      var e := m.entries[i];
      EmitOne(out', seen[..], above, m.entries, i);
      ghost var before := seen[..];
      if !seen[e.pageIndex] {
        seen[e.pageIndex] := true;
        assert seen[..] == before[e.pageIndex := true];
        out' := out' + [e];
      }
    }
    assert m.entries[..|m.entries|] == m.entries;
  }

  lemma EmittedSnoc(out: seq<ManifestEntry>, seen: seq<bool>, chain: seq<Manifest>, k: nat)
    requires k < |chain| && Emitted(out, seen, chain[..k], chain[k].entries)
    ensures Emitted(out, seen, chain[..k + 1], [])
  {
    forall p: nat ensures Layered(chain[..k + 1], p) ==
              if Layered(chain[..k], p).Some? then Layered(chain[..k], p) else Lookup(chain[k].entries, p)
    { LayeredSnoc(chain, k, p); }
  }

  lemma SortedEmission(out: seq<ManifestEntry>, seen: seq<bool>, chain: seq<Manifest>, s: seq<ManifestEntry>)
    requires Emitted(out, seen, chain, []) && multiset(out) == multiset(s) && SortedBy(s, Index)
    ensures s == LayeredTable(chain, 0, |seen|)
  {
    SortedIsAscending(out, s);
    forall p: nat ensures Lookup(s, p) == Lookup(LayeredTable(chain, 0, |seen|), p) {
      LookupPermutation(out, s, p);
      if p < |seen| { LookupLayeredTable(chain, 0, |seen|, p); }
    }
    AscendingByLookup(s, LayeredTable(chain, 0, |seen|));
  }

  lemma TableDecides(chain: seq<Manifest>, pages: nat)
    requires AllBuilt(chain) && DeltaRooted(chain) && pages == Pages(chain[0].guestRam)
    ensures forall e :: e in LayeredTable(chain, 0, pages) <==> Decides(chain, e)
  {
    forall e: ManifestEntry
      ensures e in LayeredTable(chain, 0, pages) <==> Decides(chain, e)
    {
      LayeredDecides(chain, e);
      if Decides(chain, e) {
        DecidedInRange(chain, e);
        LookupLayeredTable(chain, 0, pages, e.pageIndex);
      }
    }
  }

  lemma DecidedInRange(chain: seq<Manifest>, e: ManifestEntry)
    requires AllBuilt(chain) && SameRam(chain) && Decides(chain, e)
    ensures e.pageIndex < Pages(chain[0].guestRam)
  {
    var k :| 0 <= k < |chain| && e in chain[k].entries && forall j :: 0 <= j < k ==> !MentionsPage(chain[j], e.pageIndex);
    assert Built(chain[k]) && chain[k].guestRam == chain[0].guestRam;
  }

  /** Marking pages as they come and sorting at the end gives the page-by-page reading of the chain. */
  method FlattenDelta(chain: seq<Manifest>) returns (r: Result<seq<ManifestEntry>, FlattenError>)
    requires AllBuilt(chain)
    ensures r == FlattenedDelta(chain)
    ensures r.Ok? <==> DeltaRooted(chain)
    ensures r.Err? ==> Refuses(chain, true, r.error)
    ensures r.Ok? ==> Ascending(r.value) && forall e :: e in r.value <==> Decides(chain, e)
  {
    if chain == [] { return Err(EmptyChain); }
    if !chain[|chain| - 1].delta { return Err(RootNotDelta); }
    var agrees := RamAgrees(chain);
    if !agrees { return Err(RamMismatch); }
    var pages := Pages(chain[0].guestRam);
    var seen := new bool[pages](_ => false);
    var out := [];
    for k := 0 to |chain|
      invariant Emitted(out, seen[..], chain[..k], [])
    {
      out := EmitUnder(seen, out, chain[..k], chain[k]);
      EmittedSnoc(out, seen[..], chain, k);
    }
    assert chain[..|chain|] == chain;
    var s := SortBy(out, Index);
    SortedEmission(out, seen[..], chain, s);
    TableDecides(chain, pages);
    return Ok(s);
  }

  /** The builder, the encoder and the decoder at work on a delta with an all-zero parent: built, encoded, refused. */
  method ZeroParentDelta(blake3: Blake3, unzstd: Unzstd) returns (r: Result<Manifest, ManifestError>)
    ensures r == Err(DeltaZeroParent)
  {
    var m := NewDelta(Zeros(32), 4096, [], DeviceBlob(0, false, [], 0));
    SameElements(m.value.entries, []);
    var buf := Encode(blake3, m.value);
    ZeroParentIsRefused(blake3, unzstd, m.value);
    r := Decode(blake3, unzstd, buf);
  }

  /** ... and on one whose blob claims a length it does not decompress to. */
  method WrongLengthDelta(blake3: Blake3, unzstd: Unzstd) returns (r: Result<Manifest, ManifestError>)
    ensures r.Err? && r.error.ZstdRawLenMismatch?
  {
    var rawLen := if unzstd([]) == Some(0) then 1 else 0;
    var parent: Digest := seq(32, _ => 1);
    assert parent[0] == 1;
    var m := NewDelta(parent, 4096, [], DeviceBlob(0, true, [], rawLen));
    SameElements(m.value.entries, []);
    var buf := Encode(blake3, m.value);
    WrongLengthIsRefused(blake3, unzstd, m.value);
    r := Decode(blake3, unzstd, buf);
  }
}
