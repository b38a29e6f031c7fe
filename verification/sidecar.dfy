/** Sidecar `.idx` files: a checksummed table of (hash, pack, offset). */
module Sidecar {
  import opened Base
  import opened Sorting
  import opened Index

  const ENTRY_SIZE: nat := 44

  /** CRC-32 is a parameter: the results hold for every checksum. */
  type Crc = Bytes -> U32

  datatype SidecarError = BadCrc | Truncated

  function EntryBytes(e: Entry): (b: Bytes)
    ensures |b| == ENTRY_SIZE
  {
    e.0.bytes + LE(e.1.pack, 4) + LE(e.1.offset, 8)
  }

  function TableBytes(es: seq<Entry>): (b: Bytes)
    ensures |b| == 44 * |es|
  {
    if es == [] then [] else TableBytes(es[..|es| - 1]) + EntryBytes(es[|es| - 1])
  }

  /** The count field is 32 bits wide: a longer table keeps only the low bits of its length. */
  function Payload(es: seq<Entry>): Bytes { LE(|es|, 4) + TableBytes(es) }

  function Sealed(crc: Crc, es: seq<Entry>): Bytes { Payload(es) + LE(crc(Payload(es)), 4) }

  function EntryAt(b: Bytes, off: nat): Entry
    requires off + ENTRY_SIZE <= |b|
  {
    (PageHash(b[off..off + 32]), PageLoc(U32At(b, off + 32), U64At(b, off + 36)))
  }

  function TableAt(b: Bytes, count: nat): (es: seq<Entry>)
    requires 4 + 44 * count <= |b|
    ensures |es| == count && forall i :: 0 <= i < count ==> es[i] == EntryAt(b, 4 + 44 * i)
  {
    seq(count, i requires 0 <= i < count => EntryAt(b, 4 + 44 * i))
  }

  /** The loader's verdict on any file. */
  function Parsed(crc: Crc, data: Bytes): Result<seq<Entry>, SidecarError> {
    if |data| < 8 then Err(Truncated) else
    var payload := data[..|data| - 4];
    if U32At(data, |data| - 4) != crc(payload) then Err(BadCrc)
    else if |payload| < 4 + 44 * U32At(payload, 0) then Err(Truncated)
    else Ok(TableAt(payload, U32At(payload, 0)))
  }

  lemma EntryReadsBack(e: Entry, pre: Bytes, post: Bytes)
    ensures EntryAt(pre + EntryBytes(e) + post, |pre|) == e
  {
    var b, n := pre + EntryBytes(e) + post, |pre|;
    assert b[n..n + 32] == e.0.bytes;
    assert b[n + 32..n + 36] == LE(e.1.pack, 4);
    assert b[n + 36..n + 44] == LE(e.1.offset, 8);
    U32AtIsUnLE(b, n + 32);
    RoundTrip32(e.1.pack);
    RoundTrip64(e.1.offset);
  }

  lemma {:induction false} EntryInTable(es: seq<Entry>, i: nat, pre: Bytes, post: Bytes)
    requires i < |es|
    ensures EntryAt(pre + TableBytes(es) + post, |pre| + 44 * i) == es[i]
  {
    var n := |es| - 1;
    var front, last := TableBytes(es[..n]), EntryBytes(es[n]);
    if i < n {
      EntryInTable(es[..n], i, pre, last + post);
      assert pre + (front + last) + post == pre + front + (last + post);
    } else {
      EntryReadsBack(es[n], pre + front, post);
      assert pre + (front + last) + post == pre + front + last + post;
    }
  }

  /** The count field of a payload. */
  lemma CountField(es: seq<Entry>)
    ensures U32At(Payload(es), 0) == |es| % TWO32
  {
    var p := Payload(es);
    assert p[0..4] == LE(|es|, 4);
    U32AtIsUnLE(p, 0);
    PowerValues();
    UnLEOfLE(|es|, 4);
  }

  lemma ChecksumField(payload: Bytes, c: U32)
    ensures var data := payload + LE(c, 4); data[..|data| - 4] == payload && U32At(data, |data| - 4) == c
  {
    var data := payload + LE(c, 4);
    assert data[|payload|..|payload| + 4] == LE(c, 4);
    U32AtIsUnLE(data, |payload|);
    RoundTrip32(c);
  }

  /** Loading a written sidecar gives back its first `n mod 2^32` entries. */
  lemma WrittenParses(crc: Crc, es: seq<Entry>)
    ensures Parsed(crc, Sealed(crc, es)) == Ok(es[..|es| % TWO32])
  {
    var p, k := Payload(es), |es| % TWO32;
    ChecksumField(p, crc(p));
    CountField(es);
    TablePrefix(es, k);
  }

  lemma TablePrefix(es: seq<Entry>, k: nat)
    requires k <= |es|
    ensures 4 + 44 * k <= |Payload(es)| && TableAt(Payload(es), k) == es[..k]
  {
    var head := LE(|es|, 4);
    assert Payload(es) == head + TableBytes(es) + [];
    forall i | 0 <= i < k ensures EntryAt(Payload(es), 4 + 44 * i) == es[i] {
      EntryInTable(es, i, head, []);
    }
    assert TableAt(Payload(es), k) == es[..k];
  }

  // ── Writing and loading ────────────────────────────────────────────────

  /** Big-endian value: comparing it is comparing bytes lexicographically. */
  function Rank(b: Bytes): nat {
    if b == [] then 0 else 256 * Rank(b[..|b| - 1]) + b[|b| - 1]
  }

  predicate LexLess(a: Bytes, b: Bytes)
    requires |a| == |b|
  {
    a != [] && var n := |a| - 1; LexLess(a[..n], b[..n]) || (a[..n] == b[..n] && a[n] < b[n])
  }

  lemma {:induction false} RankIsLexicographic(a: Bytes, b: Bytes)
    requires |a| == |b|
    ensures Rank(a) < Rank(b) <==> LexLess(a, b)
    ensures Rank(a) == Rank(b) <==> a == b
  {
    if a != [] {
      var n := |a| - 1;
      RankIsLexicographic(a[..n], b[..n]);
      assert a == a[..n] + [a[n]] && b == b[..n] + [b[n]];
    }
  }

  function ByHash(e: Entry): int { Rank(e.0.bytes) }

  method WriteTable(es: seq<Entry>) returns (buf: Bytes)
    ensures buf == TableBytes(es)
  {
    buf := [];
    for i := 0 to |es|
      invariant buf == TableBytes(es[..i])
    {
      assert es[..i + 1][..i] == es[..i];
      buf := buf + EntryBytes(es[i]);
    }
    assert es[..|es|] == es;
  }

  lemma {:induction false} FirstLocWithKey(es: seq<Entry>, h: PageHash)
    ensures FirstLoc(es, h) == FirstLoc(WithKey(es, ByHash, Rank(h.bytes)), h)
  {
    if es != [] {
      var n := |es| - 1;
      FirstLocWithKey(es[..n], h);
      RankIsLexicographic(es[n].0.bytes, h.bytes);
      var w := WithKey(es[..n], ByHash, Rank(h.bytes));
      FirstLocSnoc(w, es[n], h);
      assert w + [] == w;
      assert ByHash(es[n]) == Rank(h.bytes) <==> es[n].0 == h;
    }
  }

  /** A stable sort by hash leaves the first location listed for every hash, and so what an index makes of the list. */
  lemma SortedInsertsAlike(es: seq<Entry>, sorted: seq<Entry>, m: View)
    requires SameOrder(sorted, es, ByHash)
    ensures InsertAll(m, sorted) == InsertAll(m, es)
  {
    forall h
      ensures Get(InsertAll(m, sorted), h) == Get(InsertAll(m, es), h)
    {
      assert WithKey(sorted, ByHash, Rank(h.bytes)) == WithKey(es, ByHash, Rank(h.bytes));
      FirstLocWithKey(sorted, h);
      FirstLocWithKey(es, h);
      InsertAllGet(m, sorted, h);
      InsertAllGet(m, es, h);
    }
    ViewsAgree(InsertAll(m, sorted), InsertAll(m, es));
  }

  method WriteEntries(crc: Crc, es: seq<Entry>) returns (data: Bytes, sorted: seq<Entry>)
    ensures data == Sealed(crc, sorted) && multiset(sorted) == multiset(es) && SortedBy(sorted, ByHash)
    ensures forall m :: InsertAll(m, sorted) == InsertAll(m, es)
  {
    sorted := SortBy(es, ByHash);
    forall m
      ensures InsertAll(m, sorted) == InsertAll(m, es)
    {
      SortedInsertsAlike(es, sorted, m);
    }
    var table := WriteTable(sorted);
    var payload := LE(|sorted|, 4) + table;
    data := payload + LE(crc(payload), 4);
  }

  method WriteForPack(index: ShardedIndex, crc: Crc, pack: U32) returns (data: Bytes, sorted: seq<Entry>)
    requires index.Valid()
    ensures data == Sealed(crc, sorted) && IsListing(sorted, InPack(index.view, pack)) && SortedBy(sorted, ByHash)
  {
    var es := index.EntriesForPack(pack);
    data, sorted := WriteEntries(crc, es);
    ListingPermutation(es, sorted, InPack(index.view, pack));
  }

  /** All or nothing: a file that does not check out leaves the index alone. */
  method Load(index: ShardedIndex, crc: Crc, data: Bytes) returns (r: Result<nat, SidecarError>)
    requires index.Valid()
    modifies index
    ensures index.Valid()
    ensures match Parsed(crc, data)
            case Ok(es) => r == Ok(|es|) && index.view == InsertAll(old(index.view), es)
            case Err(e) => r == Err(e) && index.view == old(index.view)
  {
    if |data| < 8 { return Err(Truncated); }
    var payload := data[..|data| - 4];
    if U32At(data, |data| - 4) != crc(payload) { return Err(BadCrc); }
    var count: nat := U32At(payload, 0);
    if |payload| < 4 + 44 * count { return Err(Truncated); }
    var batch := [];
    for i := 0 to count
      invariant |batch| == i && forall j :: 0 <= j < i ==> batch[j] == EntryAt(payload, 4 + 44 * j)
    {
      batch := batch + [EntryAt(payload, 4 + 44 * i)];
    }
    assert batch == TableAt(payload, count);
    index.InsertBatch(batch);
    return Ok(count);
  }

  // ── A sidecar restores its pack ────────────────────────────────────────

  lemma ListingPermutation(a: seq<Entry>, b: seq<Entry>, m: View)
    requires IsListing(a, m) && multiset(a) == multiset(b)
    ensures IsListing(b, m)
  {
    SameElements(a, b);
    assert Distinct(a);
    DistinctPermutation(a, b);
    forall i | 0 <= i < |b| ensures Get(m, b[i].0) == Some(b[i].1) { assert b[i] in a; }
    forall h | h in m ensures exists i :: 0 <= i < |b| && b[i].0 == h {
      var j :| 0 <= j < |a| && a[j].0 == h;
      assert a[j] in b;
    }
    forall i, j | 0 <= i < j < |b| ensures b[i].0 != b[j].0 {
      assert b[i] in a && b[j] in a && b[i] != b[j];
    }
  }

  lemma ListingInserts(es: seq<Entry>, m: View, k: nat, h: PageHash)
    requires IsListing(es, m) && k <= |es|
    ensures Get(InsertAll(map[], es[..k]), h) ==
            if exists i :: 0 <= i < k && es[i].0 == h then Get(m, h) else None
  {
    InsertAllGet(map[], es[..k], h);
    FirstLocFound(es[..k], h);
    if FirstLoc(es[..k], h).Some? {
      var e := (h, FirstLoc(es[..k], h).value);
      var i :| 0 <= i < k && es[..k][i] == e;
      assert es[i] == e;
    } else {
      assert forall i :: 0 <= i < k ==> es[i] == es[..k][i];
    }
  }

  /** Writing a listing of a pack's entries and loading it into an empty index restores exactly those entries, if and only
      if there are fewer than 2^32 of them. */
  lemma SidecarRestores(crc: Crc, es: seq<Entry>, m: View)
    requires IsListing(es, m)
    ensures Parsed(crc, Sealed(crc, es)).Ok?
    ensures InsertAll(map[], Parsed(crc, Sealed(crc, es)).value) == m <==> |es| < TWO32
  {
    WrittenParses(crc, es);
    PrefixRestores(es, m, Parsed(crc, Sealed(crc, es)).value);
  }

  lemma PrefixRestores(es: seq<Entry>, m: View, loaded: seq<Entry>)
    requires IsListing(es, m) && loaded == es[..|es| % TWO32]
    ensures InsertAll(map[], loaded) == m <==> |es| < TWO32
  {
    if |es| < TWO32 {
      assert loaded == es;
      WholeListing(es, m);
    } else {
      CutListing(es, m, |es| % TWO32);
    }
  }

  lemma WholeListing(es: seq<Entry>, m: View)
    requires IsListing(es, m)
    ensures InsertAll(map[], es) == m
  {
    assert es[..|es|] == es;
    forall h ensures Get(InsertAll(map[], es), h) == Get(m, h) {
      ListingInserts(es, m, |es|, h);
    }
    ViewsAgree(InsertAll(map[], es), m);
  }

  lemma CutListing(es: seq<Entry>, m: View, k: nat)
    requires IsListing(es, m) && k < |es|
    ensures InsertAll(map[], es[..k]) != m
  {
    var h := es[k].0;
    ListingInserts(es, m, k, h);
    assert Get(m, h) == Some(es[k].1) && Get(InsertAll(map[], es[..k]), h) == None;
  }
}
