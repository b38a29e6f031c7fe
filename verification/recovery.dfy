/** Opening a store: repair what a kill left behind and rebuild the index. */
module Recovery {
  import opened Base
  import opened Index
  import opened StoreModel

  const DEFAULT_CAP: nat := 1073741824

  ghost predicate Ascending(ids: seq<PackId>) {
    forall i, j :: 0 <= i < j < |ids| ==> ids[i] < ids[j]
  }

  lemma AscendingAppend(xs: seq<PackId>, x: PackId)
    requires Ascending(xs) && forall y :: y in xs ==> y < x
    ensures Ascending(xs + [x])
  {
    assert forall i :: 0 <= i < |xs| ==> xs[i] in xs;
  }

  /** Where loading or scanning a pack finds a hash: the slot its sidecar lists, or the first record of it. */
  ghost function SlotIn(d: Disk, p: PackId, h: PageHash): Option<nat>
    requires p in d.packs
  {
    if !Contributes(d, p, h) then None
    else Some(if p in d.sidecars then d.sidecars[p][h] else FirstSlot(d.packs[p].records, h))
  }

  /** A repaired disk: the same packs and records, each contributing the same pages at the same slots. */
  ghost predicate Repaired(d: Disk, e: Disk) {
    && DiskInv(e)
    && e.packs.Keys == d.packs.Keys
    && (forall p :: p in d.packs ==> e.packs[p].records == d.packs[p].records)
    && (forall p :: p in d.packs && d.packs[p].isSealed ==> e.packs[p].isSealed)
    && (forall p, h :: p in d.packs ==> (Contributes(e, p, h) <==> Contributes(d, p, h)))
    && (forall p, h :: p in d.packs ==> SlotIn(e, p, h) == SlotIn(d, p, h))
  }

  /** The location a hash gets when packs are loaded in this order and the first writer wins. */
  ghost function Placed(d: Disk, order: seq<PackId>, h: PageHash): Option<Loc> {
    if order == [] then None
    else
      var before, p := Placed(d, order[..|order| - 1], h), order[|order| - 1];
      if before.Some? then before
      else if p in d.packs && SlotIn(d, p, h).Some? then Some(Loc(p, SlotIn(d, p, h).value))
      else None
  }

  ghost function EntryOf(index: map<PageHash, Loc>, h: PageHash): Option<Loc> { if h in index then Some(index[h]) else None }

  /** The index built by loading packs in this order. */
  ghost predicate LoadedFrom(d: Disk, index: map<PageHash, Loc>, order: seq<PackId>) {
    forall h :: EntryOf(index, h) == Placed(d, order, h)
  }

  /** Nothing that was indexed has moved. */
  ghost predicate Keeps(index: map<PageHash, Loc>, index': map<PageHash, Loc>) {
    forall h :: h in index ==> h in index' && index'[h] == index[h]
  }

  /** First writer wins. */
  function InsertMissing(index: map<PageHash, Loc>, listed: Sidecar, p: PackId): map<PageHash, Loc> {
    (map h | h in listed :: Loc(p, listed[h])) + index
  }

  ghost predicate Lists(d: Disk, p: PackId, listed: Sidecar)
    requires p in d.packs
  {
    forall h :: SlotIn(d, p, h) == if h in listed then Some(listed[h]) else None
  }

  lemma InsertLoads(d: Disk, index: map<PageHash, Loc>, order: seq<PackId>, listed: Sidecar, p: PackId)
    requires LoadedFrom(d, index, order) && p in d.packs && Lists(d, p, listed)
    ensures LoadedFrom(d, InsertMissing(index, listed, p), order + [p]) && Keeps(index, InsertMissing(index, listed, p))
  {
    assert (order + [p])[..|order|] == order;
    var more := InsertMissing(index, listed, p);
    forall h
      ensures EntryOf(more, h) == Placed(d, order + [p], h)
    {
      assert EntryOf(index, h) == Placed(d, order, h);
    }
  }

  lemma {:induction false} PlacedFirst(d: Disk, order: seq<PackId>, h: PageHash) returns (i: nat)
    requires Placed(d, order, h).Some?
    ensures i < |order| && order[i] in d.packs && SlotIn(d, order[i], h).Some?
    ensures Placed(d, order, h) == Some(Loc(order[i], SlotIn(d, order[i], h).value))
    ensures forall j :: 0 <= j < i && order[j] in d.packs ==> SlotIn(d, order[j], h).None?
  {
    var n := |order| - 1;
    if Placed(d, order[..n], h).Some? {
      i := PlacedFirst(d, order[..n], h);
      assert forall j :: 0 <= j < i ==> order[..n][j] == order[j];
    } else {
      i := n;
      forall j | 0 <= j < i && order[j] in d.packs
        ensures SlotIn(d, order[j], h).None?
      {
        NotPlaced(d, order[..n], h, j);
      }
    }
  }

  lemma {:induction false} NotPlaced(d: Disk, order: seq<PackId>, h: PageHash, j: nat)
    requires j < |order| && order[j] in d.packs && Placed(d, order, h).None?
    ensures SlotIn(d, order[j], h).None?
  {
    if j < |order| - 1 {
      NotPlaced(d, order[..|order| - 1], h, j);
    }
  }

  lemma ListKeepsRepaired(d: Disk, e: Disk, p: PackId)
    requires Repaired(d, e) && p in d.packs && e.packs[p].isSealed && p !in e.sidecars
    ensures Repaired(d, Listed(e, p))
  {
    ListKeepsDisk(e, p);
  }

  lemma SealKeepsRepaired(d: Disk, e: Disk, p: PackId)
    requires Repaired(d, e) && p in d.packs && !e.packs[p].isSealed
    ensures Repaired(d, WithPack(e, p, Closing(e.packs[p]))) && p !in e.sidecars
  {
    ExtendKeepsDisk(e, p, Closing(e.packs[p]));
  }

  lemma SidecarLists(d: Disk, e: Disk, p: PackId)
    requires Repaired(d, e) && p in e.sidecars
    ensures p in d.packs && Lists(d, p, e.sidecars[p])
  {
    forall h
      ensures SlotIn(d, p, h) == if h in e.sidecars[p] then Some(e.sidecars[p][h]) else None
    {
      assert SlotIn(e, p, h) == SlotIn(d, p, h);
    }
  }

  /** Seal an unsealed pack that will not be the active one; its sidecar lists what the scan found. */
  method SealOldPack(ghost d: Disk, e: Disk, index: map<PageHash, Loc>, ghost done: seq<PackId>, p: PackId)
    returns (f: Disk, index': map<PageHash, Loc>)
    requires Repaired(d, e) && LoadedFrom(d, index, done) && p in d.packs && !e.packs[p].isSealed
    ensures Repaired(d, f) && LoadedFrom(d, index', done + [p]) && Keeps(index, index')
    ensures f.packs == e.packs[p := Closing(e.packs[p])] && f.runts == e.runts && f.sidecars.Keys == e.sidecars.Keys + {p}
  {
    SealKeepsRepaired(d, e, p);
    f := WithPack(e, p, Closing(e.packs[p]));
    ListKeepsRepaired(d, f, p);
    f := Listed(f, p);
    index' := InsertMissing(index, f.sidecars[p], p);
    SidecarLists(d, f, p);
    InsertLoads(d, index, done, f.sidecars[p], p);
  }

  /** Load a sealed pack from its sidecar, or scan it and write the sidecar from what the scan found. */
  method LoadPack(ghost d: Disk, e: Disk, index: map<PageHash, Loc>, ghost done: seq<PackId>, p: PackId)
    returns (f: Disk, index': map<PageHash, Loc>)
    requires Repaired(d, e) && LoadedFrom(d, index, done) && p in d.packs && e.packs[p].isSealed
    ensures Repaired(d, f) && LoadedFrom(d, index', done + [p]) && Keeps(index, index')
    ensures f.packs == e.packs && f.runts == e.runts && f.sidecars.Keys == e.sidecars.Keys + {p}
  {
    f := e;
    if p !in e.sidecars {
      ListKeepsRepaired(d, e, p);
      f := Listed(e, p);
    }
    index' := InsertMissing(index, f.sidecars[p], p);
    SidecarLists(d, f, p);
    InsertLoads(d, index, done, f.sidecars[p], p);
  }

  /** Pack files long enough to hold their header; the others are removed. */
  method DropRunts(d: Disk, ids: seq<PackId>) returns (kept: seq<PackId>)
    requires Ascending(ids) && forall p :: p in ids <==> p in d.packs || p in d.runts
    ensures Ascending(kept) && forall p :: p in kept <==> p in d.packs
  {
    kept := [];
    for i := 0 to |ids|
      invariant Ascending(kept)
      invariant forall p :: p in kept <==> p in ids[..i] && p in d.packs
    {
      assert ids[..i + 1] == ids[..i] + [ids[i]];
      assert forall p :: p in kept ==> p in ids[..i] && p < ids[i];
      if ids[i] in d.packs {
        AscendingAppend(kept, ids[i]);
        kept := kept + [ids[i]];
      }
    }
    assert ids[..|ids|] == ids;
  }

  method Classify(d: Disk, ids: seq<PackId>) returns (closed: seq<PackId>, unsealed: seq<PackId>)
    requires Ascending(ids) && forall p :: p in ids <==> p in d.packs
    ensures Ascending(closed) && forall p :: p in closed <==> p in d.packs && d.packs[p].isSealed
    ensures Ascending(unsealed) && forall p :: p in unsealed <==> p in d.packs && !d.packs[p].isSealed
  {
    closed, unsealed := [], [];
    for i := 0 to |ids|
      invariant Ascending(closed) && Ascending(unsealed)
      invariant forall p :: p in closed <==> p in ids[..i] && d.packs[p].isSealed
      invariant forall p :: p in unsealed <==> p in ids[..i] && !d.packs[p].isSealed
    {
      assert ids[..i + 1] == ids[..i] + [ids[i]];
      assert forall p :: p in closed || p in unsealed ==> p in ids[..i] && p < ids[i];
      if d.packs[ids[i]].isSealed {
        AscendingAppend(closed, ids[i]);
        closed := closed + [ids[i]];
      } else {
        AscendingAppend(unsealed, ids[i]);
        unsealed := unsealed + [ids[i]];
      }
    }
    assert ids[..|ids|] == ids;
  }

  lemma PrefixStep(xs: seq<PackId>, i: nat)
    requires i < |xs|
    ensures xs[..i + 1] == xs[..i] + [xs[i]]
    ensures forall p :: p in xs[..i + 1] <==> p in xs[..i] || p == xs[i]
  {
  }

  method SealAll(d: Disk, olds: seq<PackId>) returns (e: Disk, index: map<PageHash, Loc>)
    requires Repaired(d, d) && Ascending(olds) && forall p :: p in olds ==> p in d.packs && !d.packs[p].isSealed
    ensures Repaired(d, e) && LoadedFrom(d, index, olds) && e.runts == d.runts
    ensures forall p :: p in d.packs ==> (e.packs[p].isSealed <==> d.packs[p].isSealed || p in olds)
  {
    e, index := d, map[];
    for i := 0 to |olds|
      invariant Repaired(d, e) && LoadedFrom(d, index, olds[..i]) && e.runts == d.runts
      invariant forall p :: p in d.packs ==> (e.packs[p].isSealed <==> d.packs[p].isSealed || p in olds[..i])
    {
      e, index := SealOldPack(d, e, index, olds[..i], olds[i]);
      PrefixStep(olds, i);
    }
    assert olds[..|olds|] == olds;
  }

  method LoadAll(ghost d: Disk, e0: Disk, index0: map<PageHash, Loc>, ghost done: seq<PackId>, ids: seq<PackId>)
    returns (e: Disk, index: map<PageHash, Loc>)
    requires Repaired(d, e0) && LoadedFrom(d, index0, done) && forall p :: p in ids ==> p in d.packs && e0.packs[p].isSealed
    ensures Repaired(d, e) && LoadedFrom(d, index, done + ids) && e.packs == e0.packs && e.runts == e0.runts
    ensures forall p :: p in ids ==> p in e.sidecars
  {
    e, index := e0, index0;
    assert done + ids[..0] == done;
    for i := 0 to |ids|
      invariant Repaired(d, e) && LoadedFrom(d, index, done + ids[..i]) && e.packs == e0.packs && e.runts == e0.runts
      invariant forall p :: p in ids[..i] ==> p in e.sidecars
    {
      e, index := LoadPack(d, e, index, done + ids[..i], ids[i]);
      PrefixStep(ids, i);
      assert done + ids[..i + 1] == done + ids[..i] + [ids[i]];
    }
    assert ids[..|ids|] == ids;
  }

  lemma AllLoaded(d: Disk, e: Disk, index: map<PageHash, Loc>, order: seq<PackId>)
    requires DiskInv(d) && Repaired(d, e) && LoadedFrom(d, index, order) && forall p :: p in d.packs ==> p in order
    ensures Loaded(e, index)
    ensures forall h :: Recoverable(e, h) <==> Recoverable(d, h)
  {
    forall h
      ensures h in index <==> Recoverable(d, h)
      ensures Recoverable(e, h) <==> Recoverable(d, h)
      ensures h in index ==> StoredAt(e.packs, index[h], h) && Contributes(e, index[h].pack, h)
    {
      assert EntryOf(index, h) == Placed(d, order, h);
      LoadedOne(d, order, h);
      SameRecoverable(d, e, h);
    }
  }

  lemma LoadedOne(d: Disk, order: seq<PackId>, h: PageHash)
    requires DiskInv(d) && forall p :: p in d.packs ==> p in order
    ensures Placed(d, order, h).Some? <==> Recoverable(d, h)
    ensures Placed(d, order, h).Some? ==>
      var loc := Placed(d, order, h).value; StoredAt(d.packs, loc, h) && Contributes(d, loc.pack, h)
  {
    if Placed(d, order, h).Some? {
      var i := PlacedFirst(d, order, h);
      var p := order[i];
      if p in d.sidecars {
        assert SidecarSound(d, p);
      }
      assert Contributes(d, p, h);
    } else if Recoverable(d, h) {
      var p :| p in d.packs && Contributes(d, p, h);
      var j :| 0 <= j < |order| && order[j] == p;
      NotPlaced(d, order, h, j);
    }
  }

  lemma SameRecoverable(d: Disk, e: Disk, h: PageHash)
    requires Repaired(d, e)
    ensures Recoverable(e, h) <==> Recoverable(d, h)
  {
    if Recoverable(e, h) {
      var p :| p in e.packs && Contributes(e, p, h);
      assert Contributes(d, p, h);
    }
  }

  // ── Which pack wins ────────────────────────────────────────────────────

  /** Older unsealed packs are indexed first, then sealed ones, then the pack that goes on as the active one. */
  ghost function Class(d: Disk, active: PackId, p: PackId): nat
    requires p in d.packs
  {
    if p == active then 2 else if d.packs[p].isSealed then 1 else 0
  }

  ghost predicate Before(d: Disk, active: PackId, p: PackId, q: PackId)
    requires p in d.packs && q in d.packs
  {
    Class(d, active, p) < Class(d, active, q) || (Class(d, active, p) == Class(d, active, q) && p < q)
  }

  /** Every entry is in the first pack, in that order and then by id, that has the page, at the slot found there. */
  ghost predicate FirstWins(d: Disk, active: PackId, index: map<PageHash, Loc>) {
    forall h :: h in index ==> WinsFor(d, active, h, index[h])
  }

  ghost predicate WinsFor(d: Disk, active: PackId, h: PageHash, loc: Loc) {
    && loc.pack in d.packs && SlotIn(d, loc.pack, h) == Some(loc.slot)
    && forall q :: q in d.packs && Contributes(d, q, h) ==> q == loc.pack || Before(d, active, loc.pack, q)
  }

  /** Loading `olds`, the sealed packs, `olds` once more and the active pack. */
  lemma OrderWins(d: Disk, active: PackId, olds: seq<PackId>, closed: seq<PackId>, last: seq<PackId>, index: map<PageHash, Loc>)
    requires ByClass(d, active, olds, closed, last) && LoadedFrom(d, index, olds + (closed + olds) + last)
    ensures FirstWins(d, active, index)
  {
    forall h | h in index
      ensures WinsFor(d, active, h, index[h])
    {
      assert EntryOf(index, h) == Placed(d, olds + (closed + olds) + last, h);
      OrderWinsFor(d, active, olds, closed, last, h, index[h]);
    }
  }

  /** Position `j` of the order lists the page, so the winner is at `j` or before. */
  lemma NoLater(d: Disk, order: seq<PackId>, h: PageHash, i: nat, j: nat)
    requires i < |order| && j < |order| && order[j] in d.packs && Contributes(d, order[j], h)
    requires forall k :: 0 <= k < i && order[k] in d.packs ==> SlotIn(d, order[k], h).None?
    ensures i <= j
  {
    assert SlotIn(d, order[j], h).Some?;
  }

  /** The packs are listed by class and, within one, by id. */
  ghost predicate ByClass(d: Disk, active: PackId, olds: seq<PackId>, closed: seq<PackId>, last: seq<PackId>) {
    && Ascending(olds) && Ascending(closed)
    && (forall p :: p in olds <==> p in d.packs && Class(d, active, p) == 0)
    && (forall p :: p in closed <==> p in d.packs && Class(d, active, p) == 1)
    && (forall p :: p in last <==> p in d.packs && p == active)
  }

  lemma OrderWinsFor(d: Disk, active: PackId, olds: seq<PackId>, closed: seq<PackId>, last: seq<PackId>, h: PageHash, loc: Loc)
    requires ByClass(d, active, olds, closed, last) && Placed(d, olds + (closed + olds) + last, h) == Some(loc)
    ensures WinsFor(d, active, h, loc)
  {
    var order := olds + (closed + olds) + last;
    var i := PlacedFirst(d, order, h);
    forall q | q in d.packs && Contributes(d, q, h)
      ensures q == order[i] || Before(d, active, order[i], q)
    {
      var j := FirstPlace(d, active, olds, closed, last, q);
      NoLater(d, order, h, i, j);
      EarlierIsBefore(d, active, olds, closed, last, i, j);
    }
  }

  /** Where a pack comes first in the order. */
  lemma FirstPlace(d: Disk, active: PackId, olds: seq<PackId>, closed: seq<PackId>, last: seq<PackId>, q: PackId)
    returns (j: nat)
    requires ByClass(d, active, olds, closed, last) && q in d.packs
    ensures j < |olds + (closed + olds) + last| && (olds + (closed + olds) + last)[j] == q
    ensures j < |olds| + |closed| || (q == active && j >= 2 * |olds| + |closed|)
  {
    if q in olds {
      j :| 0 <= j < |olds| && olds[j] == q;
    } else if q in closed {
      var k: nat :| k < |closed| && closed[k] == q;
      j := |olds| + k;
    } else {
      assert q in last;
      var k: nat :| k < |last| && last[k] == q;
      j := 2 * |olds| + |closed| + k;
    }
  }

  lemma EarlierIsBefore(d: Disk, active: PackId, olds: seq<PackId>, closed: seq<PackId>, last: seq<PackId>, i: nat, j: nat)
    requires ByClass(d, active, olds, closed, last) && i <= j < |olds + (closed + olds) + last|
    requires (olds + (closed + olds) + last)[i] in d.packs && (olds + (closed + olds) + last)[j] in d.packs
    requires j < |olds| + |closed| || ((olds + (closed + olds) + last)[j] == active && j >= 2 * |olds| + |closed|)
    ensures var order := olds + (closed + olds) + last; order[i] == order[j] || Before(d, active, order[i], order[j])
  {
    var order, a := olds + (closed + olds) + last, |olds|;
    if i < a {
      assert order[i] == olds[i] && olds[i] in olds;
    } else if i < a + |closed| {
      assert order[i] == closed[i - a] && closed[i - a] in closed;
    }
    if j < a {
      assert order[j] == olds[j];
    } else if j < a + |closed| {
      assert order[j] == closed[j - a] && closed[j - a] in closed;
    }
  }

  lemma SameWithoutRunts(d: Disk, h: PageHash)
    ensures Recoverable(d.(runts := {}), h) <==> Recoverable(d, h)
  {
    var e := d.(runts := {});
    assert forall p :: p in d.packs ==> (Contributes(e, p, h) <==> Contributes(d, p, h));
  }

  ghost predicate SamePages(d: Disk, e: Disk) {
    && (forall p :: p in d.packs ==> p in e.packs && e.packs[p].records == d.packs[p].records)
    && (forall h :: Recoverable(e, h) <==> Recoverable(d, h))
  }

  ghost predicate Unsealed(d: Disk, p: PackId) { p in d.packs && !d.packs[p].isSealed }

  lemma LastIsHighest(ids: seq<PackId>)
    requires Ascending(ids) && ids != []
    ensures forall p :: p in ids ==> p <= ids[|ids| - 1]
  {
  }

  /** Seal the older unsealed packs, then load every sealed one. */
  method LoadSealed(d: Disk, closed: seq<PackId>, olds: seq<PackId>, ghost active: PackId)
    returns (e: Disk, index: map<PageHash, Loc>)
    requires Repaired(d, d) && Ascending(olds) && Unsealed(d, active) && active !in olds
    requires forall p :: p in closed <==> p in d.packs && d.packs[p].isSealed
    requires forall p: PackId :: Unsealed(d, p) <==> p in olds || p == active
    ensures Repaired(d, e) && LoadedFrom(d, index, olds + (closed + olds)) && e.runts == d.runts
    ensures forall p :: p in d.packs ==> e.packs[p].isSealed == (p != active) && (p != active ==> p in e.sidecars)
  {
    assert forall p :: p in olds ==> Unsealed(d, p);
    e, index := SealAll(d, olds);
    e, index := LoadAll(d, e, index, olds, closed + olds);
    assert forall p :: p in d.packs && p != active ==> p in closed + olds;
  }

  lemma ActiveLoads(d: Disk, e: Disk, index: map<PageHash, Loc>, order: seq<PackId>, active: PackId)
    requires Repaired(d, e) && LoadedFrom(d, index, order) && active in d.packs && !e.packs[active].isSealed
    ensures LoadedFrom(d, InsertMissing(index, AllOf(e.packs[active].records), active), order + [active])
  {
    var found := AllOf(e.packs[active].records);
    assert active !in e.sidecars;
    forall h
      ensures SlotIn(d, active, h) == if h in found then Some(found[h]) else None
    {
      assert SlotIn(e, active, h) == SlotIn(d, active, h);
    }
    InsertLoads(d, index, order, found, active);
  }

  lemma OldsAreUnsealed(d: Disk, unsealed: seq<PackId>)
    requires Ascending(unsealed) && unsealed != [] && forall p :: p in unsealed <==> Unsealed(d, p)
    ensures var n := |unsealed| - 1;
      forall p :: p in unsealed[..n] <==> p in d.packs && Class(d, unsealed[n], p) == 0
  {
    var n := |unsealed| - 1;
    assert unsealed == unsealed[..n] + [unsealed[n]];
    assert unsealed[n] !in unsealed[..n];
    forall p: PackId
      ensures p in unsealed[..n] <==> p in d.packs && Class(d, unsealed[n], p) == 0
    {
      assert p in unsealed <==> Unsealed(d, p);
    }
  }

  lemma LoadedInOrder(d: Disk, e: Disk, index: map<PageHash, Loc>, closed: seq<PackId>, unsealed: seq<PackId>)
    requires DiskInv(d) && Repaired(d, e) && Ascending(unsealed) && unsealed != [] && forall p :: p in unsealed <==> Unsealed(d, p)
    requires Ascending(closed) && forall p :: p in closed <==> p in d.packs && d.packs[p].isSealed
    requires var n := |unsealed| - 1;
      LoadedFrom(d, index, unsealed[..n] + (closed + unsealed[..n]) + [unsealed[n]])
    ensures Loaded(e, index) && FirstWins(d, unsealed[|unsealed| - 1], index) && SamePages(d, e)
  {
    var n := |unsealed| - 1;
    var olds, active := unsealed[..n], unsealed[n];
    assert Unsealed(d, active);
    OldsAreUnsealed(d, unsealed);
    forall p | p in d.packs
      ensures p in olds + (closed + olds) + [active]
    {
      assert p in unsealed <==> Unsealed(d, p);
      assert unsealed == olds + [active];
    }
    AllLoaded(d, e, index, olds + (closed + olds) + [active]);
    OrderWins(d, active, olds, closed, [active], index);
  }

  lemma ReadyToOpen(d: Disk, e: Disk, index: map<PageHash, Loc>, ids: seq<PackId>, active: PackId)
    requires Repaired(d, e) && e.runts == {} && Ascending(ids) && (forall p :: p in ids <==> p in d.packs) && active in d.packs
    requires Loaded(e, index)
    requires forall p :: p in d.packs ==> e.packs[p].isSealed == (p != active) && (p != active ==> p in e.sidecars)
    ensures ids != [] && Enabled(Down(e), Open(index, active, ids[|ids| - 1] + 1))
  {
    assert active in ids;
    LastIsHighest(ids);
    assert ids[|ids| - 1] in ids;
  }

  /** The highest unsealed pack goes on as the active one; its records join the index last. */
  method ReopenLast(d: Disk, ids: seq<PackId>, closed: seq<PackId>, unsealed: seq<PackId>)
    returns (e: Disk, index: map<PageHash, Loc>, active: PackId, nextId: PackId)
    requires Repaired(d, d) && d.runts == {} && Ascending(ids) && forall p :: p in ids <==> p in d.packs
    requires Ascending(closed) && forall p :: p in closed <==> p in d.packs && d.packs[p].isSealed
    requires Ascending(unsealed) && unsealed != [] && forall p :: p in unsealed <==> Unsealed(d, p)
    ensures DiskInv(e) && Enabled(Down(e), Open(index, active, nextId)) && SamePages(d, e)
    ensures Unsealed(d, active) && forall p: PackId :: Unsealed(d, p) ==> p <= active
    ensures FirstWins(d, active, index)
  {
    var last := |unsealed| - 1;
    active := unsealed[last];
    LastIsHighest(unsealed);
    assert unsealed == unsealed[..last] + [active];
    var olds := unsealed[..last];
    e, index := LoadSealed(d, closed, olds, active);
    ActiveLoads(d, e, index, olds + (closed + olds), active);
    index := InsertMissing(index, AllOf(e.packs[active].records), active);
    LoadedInOrder(d, e, index, closed, unsealed);
    nextId := ids[|ids| - 1] + 1;
    ReadyToOpen(d, e, index, ids, active);
  }

  lemma FreshPack(e: Disk, index: map<PageHash, Loc>, id: PackId)
    requires DiskInv(e) && e.runts == {} && id !in e.packs && Loaded(e, index)
    ensures DiskInv(Headed(e, id)) && Loaded(Headed(e, id), index)
    ensures forall h :: Recoverable(Headed(e, id), h) <==> Recoverable(e, h)
  {
    var f := Headed(e, id);
    assert id !in e.sidecars;
    forall h
      ensures Recoverable(f, h) <==> Recoverable(e, h)
    {
      FreshAddsNothing(e, id, h);
    }
    forall h | h in index
      ensures StoredAt(f.packs, index[h], h) && Contributes(f, index[h].pack, h)
    {
      assert StoredAt(e.packs, index[h], h) && Contributes(e, index[h].pack, h);
    }
  }

  lemma FreshOpens(d: Disk, e: Disk, index: map<PageHash, Loc>, active: PackId)
    requires Repaired(d, e) && e.runts == {} && Loaded(e, index) && (forall h :: Recoverable(e, h) <==> Recoverable(d, h))
    requires forall p :: p in d.packs ==> p < active && e.packs[p].isSealed && p in e.sidecars
    ensures var f := Headed(e, active);
      DiskInv(f) && Enabled(Down(f), Open(index, active, active + 1)) && SamePages(d, f)
  {
    FreshPack(e, index, active);
    assert active in Headed(e, active).packs.Keys;
  }

  lemma FreshAddsNothing(e: Disk, id: PackId, h: PageHash)
    requires id !in e.packs && id !in e.sidecars
    ensures Recoverable(Headed(e, id), h) <==> Recoverable(e, h)
  {
    var f := Headed(e, id);
    assert !Contributes(f, id, h);
    assert forall p :: p in e.packs ==> (Contributes(f, p, h) <==> Contributes(e, p, h));
    if Recoverable(e, h) {
      var p :| p in e.packs && Contributes(e, p, h);
      assert p in f.packs && Contributes(f, p, h);
    }
  }

  lemma SealedByClass(d: Disk, active: PackId, ids: seq<PackId>, index: map<PageHash, Loc>)
    requires Ascending(ids) && (forall p :: p in ids <==> p in d.packs) && active !in d.packs && LoadedFrom(d, index, ids)
    requires forall p :: p in d.packs ==> d.packs[p].isSealed
    ensures FirstWins(d, active, index)
  {
    assert [] + (ids + []) + [] == ids;
    OrderWins(d, active, [], ids, [], index);
  }

  method LoadClosed(d: Disk, ids: seq<PackId>) returns (e: Disk, index: map<PageHash, Loc>)
    requires DiskInv(d) && d.runts == {} && forall p :: p in ids <==> p in d.packs
    requires forall p :: p in d.packs ==> d.packs[p].isSealed
    ensures Repaired(d, e) && e.runts == {} && LoadedFrom(d, index, ids) && Loaded(e, index)
    ensures forall h :: Recoverable(e, h) <==> Recoverable(d, h)
    ensures forall p :: p in d.packs ==> e.packs[p].isSealed && p in e.sidecars
  {
    e, index := LoadAll(d, d, map[], [], ids);
    assert [] + ids == ids;
    AllLoaded(d, e, index, ids);
  }

  method Above(ids: seq<PackId>) returns (id: PackId)
    requires Ascending(ids)
    ensures (forall p :: p in ids ==> p < id) && (id == 0 || id - 1 in ids)
  {
    id := 0;
    if ids != [] {
      LastIsHighest(ids);
      id := ids[|ids| - 1] + 1;
    }
  }

  /** Every pack is sealed: the active pack is a new one, above them all. */
  method StartFresh(d: Disk, ids: seq<PackId>)
    returns (e: Disk, index: map<PageHash, Loc>, active: PackId, nextId: PackId)
    requires DiskInv(d) && d.runts == {} && Ascending(ids) && forall p :: p in ids <==> p in d.packs
    requires forall p :: p in d.packs ==> d.packs[p].isSealed
    ensures DiskInv(e) && Enabled(Down(e), Open(index, active, nextId)) && SamePages(d, e)
    ensures active !in d.packs && e.packs[active] == Pack([], 0, false) && FirstWins(d, active, index)
    ensures active == 0 || active - 1 in d.packs
  {
    var loaded: Disk;
    loaded, index := LoadClosed(d, ids);
    active := Above(ids);
    e, nextId := Headed(loaded, active), active + 1;
    SealedByClass(d, active, ids, index);
    FreshOpens(d, loaded, index, active);
  }

  ghost predicate Recovered(d: Disk, e: Disk, index: map<PageHash, Loc>, active: PackId, nextId: PackId) {
    && DiskInv(e) && Enabled(Down(e), Open(index, active, nextId)) && SamePages(d, e)
    && (active in d.packs <==> exists p: PackId :: Unsealed(d, p))
    && (forall p: PackId :: Unsealed(d, p) ==> p <= active)
    && (active in d.packs || active == 0 || active - 1 in d.packs)
    && FirstWins(d, active, index)
  }

  method RecoverKept(d: Disk, ids: seq<PackId>, maxBytes: nat)
    returns (e: Disk, index: map<PageHash, Loc>, active: PackId, nextId: PackId, cap: nat)
    requires DiskInv(d) && d.runts == {} && Ascending(ids) && forall p :: p in ids <==> p in d.packs
    ensures Recovered(d, e, index, active, nextId)
    ensures cap == if active in d.packs then DEFAULT_CAP else maxBytes
  {
    var closed, unsealed := Classify(d, ids);
    if unsealed == [] {
      assert forall p :: p in d.packs ==> p !in unsealed;
      e, index, active, nextId := StartFresh(d, ids);
      cap := maxBytes;
    } else {
      e, index, active, nextId := ReopenLast(d, ids, closed, unsealed);
      cap := DEFAULT_CAP;
      assert Unsealed(d, active);
    }
  }

  lemma WinsAlike(c: Disk, d: Disk, active: PackId, index: map<PageHash, Loc>)
    requires c.packs == d.packs && c.sidecars == d.sidecars && FirstWins(c, active, index)
    ensures FirstWins(d, active, index)
  {
    forall h | h in index
      ensures WinsFor(d, active, h, index[h])
    {
      assert WinsFor(c, active, h, index[h]);
      assert forall q :: q in d.packs ==> (Contributes(c, q, h) <==> Contributes(d, q, h));
    }
  }

  lemma RuntsDoNotMatter(d: Disk, e: Disk, index: map<PageHash, Loc>, active: PackId, nextId: PackId)
    requires Recovered(d.(runts := {}), e, index, active, nextId)
    ensures Recovered(d, e, index, active, nextId)
  {
    var clean := d.(runts := {});
    forall h
      ensures Recoverable(clean, h) <==> Recoverable(d, h)
    {
      SameWithoutRunts(d, h);
    }
    assert forall p: PackId :: Unsealed(clean, p) <==> Unsealed(d, p);
    WinsAlike(clean, d, active, index);
  }

  /** From any disk a kill can leave: the repaired disk and an index of exactly the pages it still held, ready to open;
      where several packs hold a page, the entry is in the first by the order of loading. A resumed pack gets the default
      cap whatever the configured one is. */
  method Recover(d: Disk, ids: seq<PackId>, maxBytes: nat)
    returns (e: Disk, index: map<PageHash, Loc>, active: PackId, nextId: PackId, cap: nat)
    requires DiskInv(d) && Ascending(ids) && forall p :: p in ids <==> p in d.packs || p in d.runts
    ensures Recovered(d, e, index, active, nextId)
    ensures cap == if active in d.packs then DEFAULT_CAP else maxBytes
  {
    var kept := DropRunts(d, ids);
    e, index, active, nextId, cap := RecoverKept(d.(runts := {}), kept, maxBytes);
    RuntsDoNotMatter(d, e, index, active, nextId);
  }
}
