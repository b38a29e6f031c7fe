/** The 256-shard page index and its sidecar files. */
module Index {
  import opened Base

  datatype PageHash = PageHash(bytes: Digest)
  datatype PageLoc = PageLoc(pack: U32, offset: U64)

  type Entry = (PageHash, PageLoc)
  type View = map<PageHash, PageLoc>

  const SHARD_COUNT: nat := 256

  function Shard(h: PageHash): (s: nat)
    ensures s < SHARD_COUNT
  {
    h.bytes[0]
  }

  // ── One first-writer-wins map ──────────────────────────────────────────

  function InsertFirst(m: View, e: Entry): View {
    if e.0 in m then m else m[e.0 := e.1]
  }

  function InsertAll(m: View, es: seq<Entry>): View {
    if es == [] then m else InsertFirst(InsertAll(m, es[..|es| - 1]), es[|es| - 1])
  }

  /** The first location a list gives for a hash. */
  function FirstLoc(es: seq<Entry>, h: PageHash): Option<PageLoc> {
    if es == [] then None
    else
      var before := FirstLoc(es[..|es| - 1], h);
      if before.Some? then before else if es[|es| - 1].0 == h then Some(es[|es| - 1].1) else None
  }

  function Get(m: View, h: PageHash): Option<PageLoc> {
    if h in m then Some(m[h]) else None
  }

  /** What inserting a batch means for each hash: entries already there win, then the first one listed. */
  lemma {:induction false} InsertAllGet(m: View, es: seq<Entry>, h: PageHash)
    ensures Get(InsertAll(m, es), h) == if h in m then Some(m[h]) else FirstLoc(es, h)
  {
    if es != [] { InsertAllGet(m, es[..|es| - 1], h); }
  }

  lemma {:induction false} FirstLocFound(es: seq<Entry>, h: PageHash)
    ensures FirstLoc(es, h).Some? <==> exists i :: 0 <= i < |es| && es[i].0 == h
    ensures FirstLoc(es, h).Some? ==> (h, FirstLoc(es, h).value) in es
  {
    if es != [] {
      FirstLocFound(es[..|es| - 1], h);
    }
  }

  lemma {:induction false} FirstLocAt(es: seq<Entry>, h: PageHash, i: nat)
    requires i < |es| && es[i].0 == h && forall j :: 0 <= j < i ==> es[j].0 != h
    ensures FirstLoc(es, h) == Some(es[i].1)
  {
    var n := |es| - 1;
    if i < n {
      FirstLocAt(es[..n], h, i);
    } else {
      FirstLocFound(es[..n], h);
    }
  }

  lemma ViewsAgree(a: View, b: View)
    requires forall h :: Get(a, h) == Get(b, h)
    ensures a == b
  {
    forall h ensures (h in a <==> h in b) && (h in a ==> a[h] == b[h]) {
      assert Get(a, h) == Get(b, h);
    }
  }

  lemma FirstLocSnoc(es: seq<Entry>, e: Entry, h: PageHash)
    ensures FirstLoc(es + [e], h) ==
            if FirstLoc(es, h).Some? then FirstLoc(es, h) else if e.0 == h then Some(e.1) else None
  {
    assert (es + [e])[..|es|] == es;
  }

  // ── The sharded index ──────────────────────────────────────────────────

  class ShardedIndex {
    var shards: seq<View>
    ghost var view: View

    /** Every shard holds only its own hashes; together the shards are the view. */
    ghost predicate Valid()
      reads this
    {
      && |shards| == SHARD_COUNT
      && (forall h :: Get(view, h) == Get(shards[Shard(h)], h))
      && (forall i, h :: 0 <= i < SHARD_COUNT && h in shards[i] ==> Shard(h) == i)
    }

    constructor ()
      ensures Valid() && view == map[]
    {
      shards := seq(SHARD_COUNT, _ => map[]);
      view := map[];
    }

    method Lookup(h: PageHash) returns (r: Option<PageLoc>)
      requires Valid()
      ensures r == Get(view, h)
    {
      r := Get(shards[Shard(h)], h);
    }

    method Insert(h: PageHash, loc: PageLoc)
      requires Valid()
      modifies this
      ensures Valid() && view == InsertFirst(old(view), (h, loc))
    {
      var s := Shard(h);
      shards := shards[s := InsertFirst(shards[s], (h, loc))];
      view := InsertFirst(view, (h, loc));
    }

    /** Moves the entry only while it still points into the expected pack. */
    method RepointIfInPack(h: PageHash, expected: U32, to: PageLoc) returns (moved: bool)
      requires Valid()
      modifies this
      ensures Valid() && moved == (h in old(view) && old(view)[h].pack == expected)
      ensures view == if moved then old(view)[h := to] else old(view)
    {
      var s := Shard(h);
      moved := h in shards[s] && shards[s][h].pack == expected;
      assert Get(view, h) == Get(shards[s], h);
      if moved {
        shards := shards[s := shards[s][h := to]];
        view := view[h := to];
      }
    }

    /** Drops the entry only while it still points into the expected pack. */
    method RemoveIfInPack(h: PageHash, expected: U32) returns (removed: bool)
      requires Valid()
      modifies this
      ensures Valid() && removed == (h in old(view) && old(view)[h].pack == expected)
      ensures view == if removed then old(view) - {h} else old(view)
    {
      var s := Shard(h);
      removed := h in shards[s] && shards[s][h].pack == expected;
      assert Get(view, h) == Get(shards[s], h);
      if removed {
        shards := shards[s := shards[s] - {h}];
        view := view - {h};
      }
    }

    /** Grouping by shard and filling shard after shard is the same as inserting one entry after another. */
    method InsertBatch(es: seq<Entry>)
      requires Valid()
      modifies this
      ensures Valid() && view == InsertAll(old(view), es)
    {
      var buckets := Group(es);
      ghost var before := shards;
      for i := 0 to SHARD_COUNT
        invariant |shards| == SHARD_COUNT && view == old(view)
        invariant forall j :: 0 <= j < i ==> shards[j] == InsertAll(before[j], buckets[j])
        invariant forall j :: i <= j < SHARD_COUNT ==> shards[j] == before[j]
      {
        var shard := FillShard(shards[i], buckets[i]);
        shards := shards[i := shard];
      }
      FilledIsInsertAll(before, shards, buckets, view, es);
      view := InsertAll(view, es);
    }

    method ListShard(i: nat, pack: U32, out: seq<Entry>) returns (more: seq<Entry>)
      requires Valid() && i < SHARD_COUNT && IsListing(out, InPack(BelowShard(view, i), pack))
      ensures IsListing(more, InPack(BelowShard(view, i + 1), pack))
    {
      var part := ListPack(shards[i], pack);
      forall h | Shard(h) == i ensures Get(view, h) == Get(shards[i], h) { }
      JoinListings(view, shards[i], i, pack, out, part);
      more := out + part;
    }

    /** The entries pointing into a pack, each once, in whatever order the maps yield them. */
    method EntriesForPack(pack: U32) returns (out: seq<Entry>)
      requires Valid()
      ensures IsListing(out, InPack(view, pack))
    {
      out := [];
      for i := 0 to SHARD_COUNT
        invariant IsListing(out, InPack(BelowShard(view, i), pack))
      {
        out := ListShard(i, pack, out);
      }
      assert BelowShard(view, SHARD_COUNT) == view;
    }
  }

  method FillShard(shard: View, bucket: seq<Entry>) returns (r: View)
    ensures r == InsertAll(shard, bucket)
  {
    r := shard;
    for i := 0 to |bucket|
      invariant r == InsertAll(shard, bucket[..i])
    {
      assert bucket[..i + 1][..i] == bucket[..i];
      r := InsertFirst(r, bucket[i]);
    }
    assert bucket[..|bucket|] == bucket;
  }

  /** Bucket `i` keeps the entries of shard `i` in order. */
  ghost predicate Grouped(buckets: seq<seq<Entry>>, es: seq<Entry>) {
    && |buckets| == SHARD_COUNT
    && (forall h :: FirstLoc(buckets[Shard(h)], h) == FirstLoc(es, h))
    && (forall i, h :: 0 <= i < SHARD_COUNT && FirstLoc(buckets[i], h).Some? ==> Shard(h) == i)
  }

  method Group(es: seq<Entry>) returns (buckets: seq<seq<Entry>>)
    ensures Grouped(buckets, es)
  {
    buckets := seq(SHARD_COUNT, _ => []);
    for n := 0 to |es|
      invariant Grouped(buckets, es[..n])
    {
      GroupOne(buckets, es[..n], es[n]);
      assert es[..n + 1] == es[..n] + [es[n]];
      var s := Shard(es[n].0);
      buckets := buckets[s := buckets[s] + [es[n]]];
    }
    assert es[..|es|] == es;
  }

  lemma GroupOne(buckets: seq<seq<Entry>>, es: seq<Entry>, e: Entry)
    requires Grouped(buckets, es)
    ensures var s := Shard(e.0); Grouped(buckets[s := buckets[s] + [e]], es + [e])
  {
    var s := Shard(e.0);
    var b := buckets[s := buckets[s] + [e]];
    forall h ensures FirstLoc(b[Shard(h)], h) == FirstLoc(es + [e], h) {
      GroupOneFirst(buckets, es, e, h);
    }
    forall i, h | 0 <= i < SHARD_COUNT && FirstLoc(b[i], h).Some? ensures Shard(h) == i {
      GroupOneShard(buckets, es, e, i, h);
    }
  }

  lemma GroupOneFirst(buckets: seq<seq<Entry>>, es: seq<Entry>, e: Entry, h: PageHash)
    requires Grouped(buckets, es)
    ensures FirstLoc(buckets[Shard(e.0) := buckets[Shard(e.0)] + [e]][Shard(h)], h) == FirstLoc(es + [e], h)
  {
    assert FirstLoc(buckets[Shard(h)], h) == FirstLoc(es, h);
    FirstLocSnoc(es, e, h);
    FirstLocSnoc(buckets[Shard(e.0)], e, h);
  }

  lemma GroupOneShard(buckets: seq<seq<Entry>>, es: seq<Entry>, e: Entry, i: nat, h: PageHash)
    requires Grouped(buckets, es) && i < SHARD_COUNT
    requires FirstLoc(buckets[Shard(e.0) := buckets[Shard(e.0)] + [e]][i], h).Some?
    ensures Shard(h) == i
  {
    FirstLocSnoc(buckets[Shard(e.0)], e, h);
  }

  lemma FilledIsInsertAll(shards: seq<View>, filled: seq<View>, buckets: seq<seq<Entry>>, view: View, es: seq<Entry>)
    requires |shards| == |filled| == SHARD_COUNT && Grouped(buckets, es)
    requires forall h :: Get(view, h) == Get(shards[Shard(h)], h)
    requires forall i, h :: 0 <= i < SHARD_COUNT && h in shards[i] ==> Shard(h) == i
    requires forall j :: 0 <= j < SHARD_COUNT ==> filled[j] == InsertAll(shards[j], buckets[j])
    ensures forall h :: Get(InsertAll(view, es), h) == Get(filled[Shard(h)], h)
    ensures forall i, h :: 0 <= i < SHARD_COUNT && h in filled[i] ==> Shard(h) == i
  {
    forall h ensures Get(InsertAll(view, es), h) == Get(filled[Shard(h)], h) {
      InsertAllGet(view, es, h);
      InsertAllGet(shards[Shard(h)], buckets[Shard(h)], h);
      assert Get(view, h) == Get(shards[Shard(h)], h);
    }
    forall i, h | 0 <= i < SHARD_COUNT && h in filled[i] ensures Shard(h) == i {
      InsertAllGet(shards[i], buckets[i], h);
    }
  }

  // ── Listings of a pack ─────────────────────────────────────────────────

  function InPack(m: View, pack: U32): View {
    map h | h in m && m[h].pack == pack :: m[h]
  }

  ghost function BelowShard(m: View, i: nat): View {
    map h | h in m && Shard(h) < i :: m[h]
  }

  /** Every mapping of `m` once and nothing else. */
  ghost predicate IsListing(es: seq<Entry>, m: View) {
    && (forall i :: 0 <= i < |es| ==> Get(m, es[i].0) == Some(es[i].1))
    && (forall h :: h in m ==> exists i :: 0 <= i < |es| && es[i].0 == h)
    && (forall i, j :: 0 <= i < j < |es| ==> es[i].0 != es[j].0)
  }

  method ListPack(shard: View, pack: U32) returns (out: seq<Entry>)
    ensures IsListing(out, InPack(shard, pack))
  {
    out := [];
    var todo := InPack(shard, pack);
    while todo != map[]
      invariant forall i :: 0 <= i < |out| ==> out[i].0 !in todo && Get(InPack(shard, pack), out[i].0) == Some(out[i].1)
      invariant forall h :: h in InPack(shard, pack) ==> h in todo || exists i :: 0 <= i < |out| && out[i].0 == h
      invariant forall h :: h in todo ==> Get(InPack(shard, pack), h) == Some(todo[h])
      invariant forall i, j :: 0 <= i < j < |out| ==> out[i].0 != out[j].0
      decreases |todo|
    {
      var h :| h in todo;
      ghost var before := out;
      out := out + [(h, todo[h])];
      assert out[|before|].0 == h && forall i :: 0 <= i < |before| ==> out[i] == before[i];
      var rest := todo - {h};
      assert rest.Keys == todo.Keys - {h};
      todo := rest;
    }
  }

  lemma JoinListings(view: View, shard: View, i: nat, pack: U32, out: seq<Entry>, part: seq<Entry>)
    requires forall h :: Shard(h) == i ==> Get(view, h) == Get(shard, h)
    requires forall h :: h in shard ==> Shard(h) == i
    requires IsListing(out, InPack(BelowShard(view, i), pack)) && IsListing(part, InPack(shard, pack))
    ensures IsListing(out + part, InPack(BelowShard(view, i + 1), pack))
  {
    var a, b, m := InPack(BelowShard(view, i), pack), InPack(shard, pack), InPack(BelowShard(view, i + 1), pack);
    forall h ensures Get(m, h) == if h in a then Some(a[h]) else Get(b, h) {
      assert Shard(h) == i ==> Get(view, h) == Get(shard, h);
    }
    assert a.Keys !! b.Keys;
    JoinTwo(a, b, m, out, part);
  }

  lemma JoinTwo(a: View, b: View, m: View, out: seq<Entry>, part: seq<Entry>)
    requires IsListing(out, a) && IsListing(part, b) && a.Keys !! b.Keys
    requires forall h :: Get(m, h) == if h in a then Some(a[h]) else Get(b, h)
    ensures IsListing(out + part, m)
  {
    var both := out + part;
    forall h | h in m ensures exists k :: 0 <= k < |both| && both[k].0 == h {
      assert Get(m, h).Some?;
      if h in a {
        var k :| 0 <= k < |out| && out[k].0 == h;
        assert both[k].0 == h;
      } else {
        var k :| 0 <= k < |part| && part[k].0 == h;
        assert both[|out| + k].0 == h;
      }
    }
    forall k | 0 <= k < |both| ensures Get(m, both[k].0) == Some(both[k].1) {
      if k < |out| { assert Get(a, out[k].0) == Some(out[k].1); }
      else { assert Get(b, part[k - |out|].0) == Some(part[k - |out|].1); }
    }
    forall k, l | 0 <= k < l < |both| ensures both[k].0 != both[l].0 {
      if k < |out| <= l {
        assert Get(a, out[k].0) == Some(out[k].1) && Get(b, part[l - |out|].0) == Some(part[l - |out|].1);
      }
    }
  }
}
