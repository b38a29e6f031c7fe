/** The experiment trees: what every command keeps, and what prune and reap mean. */
module MetaTree {
  import opened Base
  import opened MetaTables

  /** Id 0 is the only parentless id; every other row hangs one level below an existing row of its experiment. */
  ghost predicate RowInv(nodes: map<Key, Row>, k: Key)
    requires k in nodes
  {
    && (k.1 == 0 <==> nodes[k].parent.None?)
    && (nodes[k].parent.None? ==> nodes[k].depth == 0)
    && (nodes[k].parent.Some? ==>
          var up := (k.0, nodes[k].parent.value); up in nodes && nodes[k].depth == nodes[up].depth + 1)
  }

  ghost predicate TreeInv(nodes: map<Key, Row>) {
    forall k {:trigger RowInv(nodes, k)} :: k in nodes ==> RowInv(nodes, k)
  }

  ghost predicate LogsPresent(t: Tables) {
    forall k :: k in t.nodes && t.nodes[k].log.Some? ==> t.nodes[k].log.value in t.logs
  }

  /** Stamps lie below the counter, and no two rows were created at the same one. */
  ghost predicate StampInv(nodes: map<Key, Row>, counter: nat) {
    && (forall k :: k in nodes ==> nodes[k].createdAt < counter && nodes[k].updatedAt < counter)
    && (forall j, k :: j in nodes && k in nodes && nodes[j].createdAt == nodes[k].createdAt ==> j == k)
  }

  ghost predicate TablesInv(t: Tables, counter: nat) {
    TreeInv(t.nodes) && LogsPresent(t) && StampInv(t.nodes, counter)
  }

  // ── Subtrees are least closures ────────────────────────────────────────

  ghost predicate ClosedUnderChildren(nodes: map<Key, Row>, s: set<Key>) {
    forall k, j :: j in s && ChildOf(nodes, k, j) ==> k in s
  }

  lemma SubtreeIsClosed(nodes: map<Key, Row>, top: Key)
    requires TreeInv(nodes)
    ensures ClosedUnderChildren(nodes, Subtree(nodes, top))
  {
    forall k, j | j in Subtree(nodes, top) && ChildOf(nodes, k, j)
      ensures k in Subtree(nodes, top)
    {
      assert RowInv(nodes, k);
      assert j == (k.0, nodes[k].parent.value);
    }
  }

  lemma {:induction false} UnderIsLeast(nodes: map<Key, Row>, k: Key, top: Key, s: set<Key>)
    requires Under(nodes, k, top) && top in s && ClosedUnderChildren(nodes, s)
    ensures k in s
    decreases nodes[k].depth
  {
    if k != top {
      var up := (k.0, nodes[k].parent.value);
      UnderIsLeast(nodes, up, top, s);
      assert ChildOf(nodes, k, up);
    }
  }

  /** The recursive query's result: the least set holding `top` and closed under children. */
  lemma SubtreeIsLeastClosure(nodes: map<Key, Row>, top: Key, s: set<Key>)
    requires TreeInv(nodes) && top in nodes
    ensures top in Subtree(nodes, top) && ClosedUnderChildren(nodes, Subtree(nodes, top))
    ensures top in s && ClosedUnderChildren(nodes, s) ==> Subtree(nodes, top) <= s
  {
    SubtreeIsClosed(nodes, top);
    if top in s && ClosedUnderChildren(nodes, s) {
      forall k | k in Subtree(nodes, top)
        ensures k in s
      {
        UnderIsLeast(nodes, k, top, s);
      }
    }
  }

  /** Ancestry looks only at parents and depths. */
  ghost predicate SameShape(a: map<Key, Row>, b: map<Key, Row>) {
    a.Keys == b.Keys && forall k :: k in a ==> a[k].parent == b[k].parent && a[k].depth == b[k].depth
  }

  lemma {:induction false} SameUnder(a: map<Key, Row>, b: map<Key, Row>, k: Key, top: Key)
    requires SameShape(a, b)
    ensures Under(a, k, top) <==> Under(b, k, top)
    decreases if k in a then a[k].depth else 0
  {
    if k in a && a[k].parent.Some? {
      var up := (k.0, a[k].parent.value);
      if up in a && a[up].depth < a[k].depth {
        SameUnder(a, b, up, top);
      }
    }
  }

  lemma SameSubtree(a: map<Key, Row>, b: map<Key, Row>, top: Key)
    requires SameShape(a, b)
    ensures Subtree(a, top) == Subtree(b, top)
  {
    forall k | k in a
      ensures Under(a, k, top) <==> Under(b, k, top)
    {
      SameUnder(a, b, k, top);
    }
  }

  // ── Every command keeps the tables sound ───────────────────────────────

  lemma SameShapeTree(a: map<Key, Row>, b: map<Key, Row>)
    requires SameShape(a, b) && TreeInv(a)
    ensures TreeInv(b)
  {
    forall k | k in b
      ensures RowInv(b, k)
    {
      assert RowInv(a, k);
    }
  }

  lemma CreateKeeps(config: Config, t: Tables, p: NewNode, counter: nat)
    requires TablesInv(t, counter)
    ensures TablesInv(After(config, t, CreateNode(p), counter), counter + 1)
  {
    var u := After(config, t, CreateNode(p), counter);
    forall k | k in u.nodes
      ensures RowInv(u.nodes, k)
    {
      if k in t.nodes {
        assert RowInv(t.nodes, k);
      }
    }
  }

  lemma {:induction false} UpdateShape(nodes: map<Key, Row>, exp: Experiment, updates: seq<NodeUpdate>, counter: nat)
    ensures var b := AllUpdated(nodes, exp, updates, counter);
      && SameShape(nodes, b)
      && (forall k :: k in b ==> b[k].createdAt == nodes[k].createdAt && b[k].log == nodes[k].log)
      && (forall k :: k in b ==> b[k].updatedAt == nodes[k].updatedAt || b[k].updatedAt == counter)
  {
    if updates != [] {
      UpdateShape(nodes, exp, updates[..|updates| - 1], counter);
    }
  }

  lemma UpdateKeeps(config: Config, t: Tables, exp: Experiment, updates: seq<NodeUpdate>, counter: nat)
    requires TablesInv(t, counter)
    ensures TablesInv(After(config, t, UpdateNodes(exp, updates), counter), counter + 1)
  {
    UpdateShape(t.nodes, exp, updates, counter);
    SameShapeTree(t.nodes, AllUpdated(t.nodes, exp, updates, counter));
  }

  lemma MarkKeeps(nodes: map<Key, Row>, ks: set<Key>, counter: nat)
    requires TreeInv(nodes) && StampInv(nodes, counter)
    ensures TreeInv(MarkPruned(nodes, ks, counter)) && StampInv(MarkPruned(nodes, ks, counter), counter + 1)
    ensures SameShape(nodes, MarkPruned(nodes, ks, counter))
  {
    SameShapeTree(nodes, MarkPruned(nodes, ks, counter));
  }

  lemma PruneKeeps(t: Tables, top: Key, counter: nat)
    requires TablesInv(t, counter)
    ensures TablesInv(t.(nodes := MarkPruned(t.nodes, Subtree(t.nodes, top), counter)), counter + 1)
  {
    MarkKeeps(t.nodes, Subtree(t.nodes, top), counter);
  }

  /** What is left after a whole subtree goes is still a forest. */
  lemma RestIsTree(nodes: map<Key, Row>, top: Key)
    requires TreeInv(nodes)
    ensures TreeInv(nodes - Subtree(nodes, top))
  {
    var left := nodes - Subtree(nodes, top);
    SubtreeIsClosed(nodes, top);
    forall k | k in left
      ensures RowInv(left, k)
    {
      assert RowInv(nodes, k);
      if nodes[k].parent.Some? {
        assert ChildOf(nodes, k, (k.0, nodes[k].parent.value));
      }
    }
  }

  lemma ReapKeeps(config: Config, t: Tables, exp: Experiment, id: NodeId, counter: nat)
    requires TablesInv(t, counter)
    ensures TablesInv(After(config, t, ReapTombstone(exp, id), counter), counter + 1)
  {
    RestIsTree(t.nodes, (exp, id));
  }

  lemma MoreLogsKeep(t: Tables, u: Tables, counter: nat)
    requires TablesInv(t, counter) && u.nodes == t.nodes && t.logs.Keys <= u.logs.Keys
    ensures TablesInv(u, counter + 1)
  {
  }

  lemma OtherCommands(config: Config, t: Tables, c: Command, counter: nat)
    requires !c.CreateNode? && !c.UpdateNodes? && !c.PruneSubtree? && !c.ReapTombstone?
    ensures After(config, t, c, counter).nodes == t.nodes && t.logs.Keys <= After(config, t, c, counter).logs.Keys
  {
  }

  lemma PruneCommandKeeps(config: Config, t: Tables, exp: Experiment, id: NodeId, allowRoot: bool, counter: nat)
    requires TablesInv(t, counter)
    ensures TablesInv(After(config, t, PruneSubtree(exp, id, allowRoot), counter), counter + 1)
  {
    if PrunedSubtree(t, (exp, id), allowRoot, counter).Ok? {
      PruneKeeps(t, (exp, id), counter);
    } else {
      MoreLogsKeep(t, t, counter);
    }
  }

  lemma CommandKeeps(config: Config, t: Tables, c: Command, counter: nat)
    requires TablesInv(t, counter)
    ensures TablesInv(After(config, t, c, counter), counter + 1)
  {
    match c {
      case CreateNode(p) => CreateKeeps(config, t, p, counter);
      case UpdateNodes(exp, updates) => UpdateKeeps(config, t, exp, updates, counter);
      case PruneSubtree(exp, id, allowRoot) => PruneCommandKeeps(config, t, exp, id, allowRoot, counter);
      case ReapTombstone(exp, id) => ReapKeeps(config, t, exp, id, counter);
      case _ =>
        OtherCommands(config, t, c, counter);
        MoreLogsKeep(t, After(config, t, c, counter), counter);
    }
  }

  // ── Create and update ──────────────────────────────────────────────────

  /** The row a create made, or found: same parent, snapshot and log. */
  ghost predicate MadeBy(nodes: map<Key, Row>, p: NewNode, createdAt: nat) {
    && (p.exp, p.id) in nodes
    && var row := nodes[(p.exp, p.id)];
       row.parent == p.parent && row.snapshot == p.snapshot && row.log == p.log && row.createdAt == createdAt
  }

  ghost predicate ParentPruned(nodes: map<Key, Row>, p: NewNode) {
    p.parent.Some? && (p.exp, p.parent.value) in nodes && nodes[(p.exp, p.parent.value)].status == Pruned
  }

  /** No change and the row as it is, unless its parent has been pruned. */
  ghost function Unchanged(u: Tables, p: NewNode): Outcome
    requires (p.exp, p.id) in u.nodes
  {
    if ParentPruned(u.nodes, p) then Err(ParentNotFound) else Ok((u, Node(u.nodes[(p.exp, p.id)])))
  }

  lemma CreateMakes(config: Config, t: Tables, p: NewNode, counter: nat)
    requires Created(config, t, p, counter).Ok?
    ensures var (u, reply) := Created(config, t, p, counter).value;
      (p.exp, p.id) in u.nodes && reply == Node(u.nodes[(p.exp, p.id)]) && MadeBy(u.nodes, p, reply.row.createdAt)
    ensures (p.id == 0 <==> p.parent.None?)
  {
  }

  /** While the row is there, creating it again changes nothing and returns it, unless its parent has been pruned. */
  lemma RepeatIsExact(config: Config, u: Tables, p: NewNode, createdAt: nat, counter: nat)
    requires TablesInv(u, counter) && MadeBy(u.nodes, p, createdAt)
    ensures Created(config, u, p, counter) == Unchanged(u, p)
  {
    assert RowInv(u.nodes, (p.exp, p.id));
  }

  /** A row keeps what a create compares and its creation stamp, until a reap deletes it. */
  lemma CommandKeepsMade(config: Config, t: Tables, c: Command, counter: nat, p: NewNode, createdAt: nat)
    requires MadeBy(t.nodes, p, createdAt)
    ensures var u := After(config, t, c, counter);
      MadeBy(u.nodes, p, createdAt) || (c.ReapTombstone? && (p.exp, p.id) !in u.nodes)
  {
    match c {
      case UpdateNodes(exp, updates) => UpdateKeepsMade(t.nodes, exp, updates, counter, p, createdAt);
      case _ =>
    }
  }

  lemma {:induction false} UpdateKeepsMade(nodes: map<Key, Row>, exp: Experiment, updates: seq<NodeUpdate>, counter: nat,
                                           p: NewNode, createdAt: nat)
    requires MadeBy(nodes, p, createdAt)
    ensures MadeBy(AllUpdated(nodes, exp, updates, counter), p, createdAt)
  {
    if updates != [] {
      UpdateKeepsMade(nodes, exp, updates[..|updates| - 1], counter, p, createdAt);
    }
  }

  /** The last value an update list sets for a node in one of its fields. */
  function Last<T>(updates: seq<NodeUpdate>, id: NodeId, field: NodeUpdate -> Option<T>): Option<T> {
    if updates == [] then None
    else
      var u := updates[|updates| - 1];
      if u.id == id && field(u).Some? then field(u) else Last(updates[..|updates| - 1], id, field)
  }

  function VisitSum(updates: seq<NodeUpdate>, id: NodeId): int {
    if updates == [] then 0
    else
      var u := updates[|updates| - 1];
      VisitSum(updates[..|updates| - 1], id) + if u.id == id then u.visitDelta else 0
  }

  predicate Touched(updates: seq<NodeUpdate>, id: NodeId) {
    exists i :: 0 <= i < |updates| && updates[i].id == id && updates[i].touch
  }

  predicate Mentions(updates: seq<NodeUpdate>, id: NodeId) {
    exists i :: 0 <= i < |updates| && updates[i].id == id
  }

  function Or<T>(o: Option<T>, otherwise: T): T { if o.Some? then o.value else otherwise }

  /** Later updates win field by field, visit deltas add up, and any touch counts. */
  ghost predicate Sums(row: Row, was: Row, updates: seq<NodeUpdate>, id: NodeId, counter: nat) {
    && row.updatedAt == counter
    && row.visits == was.visits + VisitSum(updates, id)
    && row.visitedAt == (if Touched(updates, id) then counter else was.visitedAt)
    && row.status == Or(Last(updates, id, (u: NodeUpdate) => u.status), was.status)
    && row.score == (var l := Last(updates, id, (u: NodeUpdate) => u.score); if l.Some? then l else was.score)
    && row.attrs == (var l := Last(updates, id, (u: NodeUpdate) => u.attrs); if l.Some? then l else was.attrs)
    && row.icount == Or(Last(updates, id, (u: NodeUpdate) => u.icount), was.icount)
    && row.virtualNs == Or(Last(updates, id, (u: NodeUpdate) => u.virtualNs), was.virtualNs)
    && row.parent == was.parent && row.depth == was.depth && row.snapshot == was.snapshot && row.log == was.log
    && row.createdAt == was.createdAt
  }

  lemma {:induction false} UnnamedIsUnset<T>(updates: seq<NodeUpdate>, id: NodeId, field: NodeUpdate -> Option<T>)
    requires !Mentions(updates, id)
    ensures Last(updates, id, field) == None && VisitSum(updates, id) == 0 && !Touched(updates, id)
  {
    if updates != [] {
      var n := |updates| - 1;
      assert updates[n].id != id;
      UnnamedIsUnset(updates[..n], id, field);
    }
  }

  lemma OneMoreSums(row: Row, was: Row, updates: seq<NodeUpdate>, counter: nat)
    requires updates != []
    requires var n := |updates| - 1; var u := updates[n];
      if Mentions(updates[..n], u.id) then Sums(row, was, updates[..n], u.id, counter) else row == was
    ensures Sums(Updated(row, updates[|updates| - 1], counter), was, updates, updates[|updates| - 1].id, counter)
  {
    var n := |updates| - 1;
    var u, front := updates[n], updates[..n];
    if !Mentions(front, u.id) {
      UnnamedIsUnset(front, u.id, (v: NodeUpdate) => v.status);
      UnnamedIsUnset(front, u.id, (v: NodeUpdate) => v.score);
      UnnamedIsUnset(front, u.id, (v: NodeUpdate) => v.attrs);
      UnnamedIsUnset(front, u.id, (v: NodeUpdate) => v.icount);
      UnnamedIsUnset(front, u.id, (v: NodeUpdate) => v.virtualNs);
    }
    assert Touched(updates, u.id) <==> u.touch || Touched(front, u.id);
  }

  lemma SkippedSums(row: Row, was: Row, updates: seq<NodeUpdate>, id: NodeId, counter: nat)
    requires updates != [] && updates[|updates| - 1].id != id && Sums(row, was, updates[..|updates| - 1], id, counter)
    ensures Sums(row, was, updates, id, counter)
  {
    assert Touched(updates, id) <==> Touched(updates[..|updates| - 1], id);
  }

  /** Within one command later updates win, visit deltas add up, and rows it does not name are untouched. */
  lemma {:induction false} UpdatesAddUp(nodes: map<Key, Row>, exp: Experiment, updates: seq<NodeUpdate>, counter: nat, k: Key)
    requires k in nodes
    ensures k in AllUpdated(nodes, exp, updates, counter)
    ensures var row := AllUpdated(nodes, exp, updates, counter)[k];
      if k.0 == exp && Mentions(updates, k.1) then Sums(row, nodes[k], updates, k.1, counter) else row == nodes[k]
  {
    if updates != [] {
      var n := |updates| - 1;
      var front := updates[..n];
      UpdatesAddUp(nodes, exp, front, counter, k);
      var row := AllUpdated(nodes, exp, front, counter)[k];
      assert Mentions(updates, k.1) <==> updates[n].id == k.1 || Mentions(front, k.1);
      if k.0 == exp && updates[n].id == k.1 {
        OneMoreSums(row, nodes[k], updates, counter);
      } else if k.0 == exp && Mentions(front, k.1) {
        SkippedSums(row, nodes[k], updates, k.1, counter);
      }
    }
  }

  /** An update command is granted exactly if every id it names exists; the refusal lists those that do not, in the order
      given, and the reply is the stamp of the change. */
  lemma UpdateIsExact(t: Tables, exp: Experiment, updates: seq<NodeUpdate>, counter: nat)
    ensures UpdatedAll(t, exp, updates, counter).Ok? <==> forall i :: 0 <= i < |updates| ==> (exp, updates[i].id) in t.nodes
    ensures UpdatedAll(t, exp, updates, counter).Ok? ==>
      var (u, reply) := UpdatedAll(t, exp, updates, counter).value;
      && reply == Count(counter) && u == t.(nodes := u.nodes) && u.nodes.Keys == t.nodes.Keys
      && forall k :: k in t.nodes ==>
           if k.0 == exp && Mentions(updates, k.1) then Sums(u.nodes[k], t.nodes[k], updates, k.1, counter)
           else u.nodes[k] == t.nodes[k]
    ensures UpdatedAll(t, exp, updates, counter).Err? ==>
      UpdatedAll(t, exp, updates, counter).error.MissingNodes?
      && AreMissing(t.nodes, exp, updates, UpdatedAll(t, exp, updates, counter).error.ids)
  {
    MissingAreMissing(t.nodes, exp, updates);
    UpdateShape(t.nodes, exp, updates, counter);
    forall k | k in t.nodes
      ensures var row := AllUpdated(t.nodes, exp, updates, counter)[k];
        if k.0 == exp && Mentions(updates, k.1) then Sums(row, t.nodes[k], updates, k.1, counter) else row == t.nodes[k]
    {
      UpdatesAddUp(t.nodes, exp, updates, counter, k);
    }
  }

  /** `ids` are the ids named that do not exist, in order: `at[j]` is the position of the `j`th. */
  ghost predicate IsListOfMissing(nodes: map<Key, Row>, exp: Experiment, updates: seq<NodeUpdate>, ids: seq<NodeId>, at: seq<nat>) {
    && |at| == |ids|
    && (forall j :: 0 <= j < |at| ==> at[j] < |updates| && updates[at[j]].id == ids[j] && (exp, ids[j]) !in nodes)
    && (forall i, j :: 0 <= i < j < |at| ==> at[i] < at[j])
    && (forall i: nat :: i < |updates| && (exp, updates[i].id) !in nodes ==> i in at)
  }

  ghost predicate AreMissing(nodes: map<Key, Row>, exp: Experiment, updates: seq<NodeUpdate>, ids: seq<NodeId>) {
    exists at :: IsListOfMissing(nodes, exp, updates, ids, at)
  }

  lemma MissingAreMissing(nodes: map<Key, Row>, exp: Experiment, updates: seq<NodeUpdate>)
    ensures AreMissing(nodes, exp, updates, Missing(nodes, exp, updates))
    ensures Missing(nodes, exp, updates) == [] <==> forall i :: 0 <= i < |updates| ==> (exp, updates[i].id) in nodes
  {
    var at := MissingAt(nodes, exp, updates);
    assert forall i: nat :: i < |updates| && (exp, updates[i].id) !in nodes ==> i in at;
  }

  lemma {:induction false} MissingAt(nodes: map<Key, Row>, exp: Experiment, updates: seq<NodeUpdate>) returns (at: seq<nat>)
    ensures IsListOfMissing(nodes, exp, updates, Missing(nodes, exp, updates), at)
  {
    if updates == [] {
      at := [];
    } else {
      var n := |updates| - 1;
      at := MissingAt(nodes, exp, updates[..n]);
      OneMoreMissing(nodes, exp, updates[..n], updates[n], Missing(nodes, exp, updates[..n]), at);
      assert updates[..n] + [updates[n]] == updates;
      at := if (exp, updates[n].id) in nodes then at else at + [n];
    }
  }

  lemma OneMoreMissing(nodes: map<Key, Row>, exp: Experiment, updates: seq<NodeUpdate>, u: NodeUpdate, ids: seq<NodeId>,
                       at: seq<nat>)
    requires IsListOfMissing(nodes, exp, updates, ids, at)
    ensures if (exp, u.id) in nodes then IsListOfMissing(nodes, exp, updates + [u], ids, at)
            else IsListOfMissing(nodes, exp, updates + [u], ids + [u.id], at + [|updates|])
  {
    var more := updates + [u];
    forall i: nat | i < |more| && (exp, more[i].id) !in nodes
      ensures i in at + [|updates|] && (i < |updates| ==> i in at)
    {
      if i == |updates| {
        assert (at + [|updates|])[|at|] == i;
      } else {
        assert more[i] == updates[i];
        assert i in at;
      }
    }
  }

  // ── Prune and reap ─────────────────────────────────────────────────────

  /** A prune marks the least closure of its root and nothing else, returns its size and leaves one tombstone, dated by the
      first prune. Without leave, a root is refused first; then a missing row. */
  lemma PruneIsExact(t: Tables, top: Key, allowRoot: bool, counter: nat)
    requires TablesInv(t, counter)
    ensures PrunedSubtree(t, top, allowRoot, counter).Ok? <==> top in t.nodes && (top.1 != 0 || allowRoot)
    ensures PrunedSubtree(t, top, allowRoot, counter).Err? ==>
      PrunedSubtree(t, top, allowRoot, counter).error == if top.1 == 0 && !allowRoot then PruneRootDenied else MissingNodes([top.1])
    ensures PrunedSubtree(t, top, allowRoot, counter).Ok? ==>
      var (u, reply) := PrunedSubtree(t, top, allowRoot, counter).value;
      && reply == Count(|Subtree(t.nodes, top)|)
      && u.nodes.Keys == t.nodes.Keys && u.logs == t.logs && u.kv == t.kv && u.pins == t.pins
      && (forall k :: k in t.nodes && k !in Subtree(t.nodes, top) ==> u.nodes[k] == t.nodes[k])
      && (forall k :: k in Subtree(t.nodes, top) ==> u.nodes[k] == t.nodes[k].(status := Pruned, updatedAt := counter))
      && Subtree(u.nodes, top) == Subtree(t.nodes, top)
      && u.tombstones.Keys == t.tombstones.Keys + {top}
      && (forall k :: k in u.tombstones ==> u.tombstones[k] == if k in t.tombstones then t.tombstones[k] else counter)
  {
    if PrunedSubtree(t, top, allowRoot, counter).Ok? {
      var b := MarkPruned(t.nodes, Subtree(t.nodes, top), counter);
      SameSubtree(t.nodes, b, top);
    }
  }

  /** A reap deletes the whole closure if all of it is pruned, with its tombstone and exactly the logs no remaining row
      names; otherwise it is refused and changes nothing. A row that is not there is no error. */
  lemma ReapIsExact(config: Config, t: Tables, top: Key, counter: nat)
    requires TablesInv(t, counter)
    ensures top !in t.nodes ==> Reaped(t, top) == Ok((t, Count(0)))
    ensures Reaped(t, top).Ok? <==> top !in t.nodes || forall k :: k in Subtree(t.nodes, top) ==> t.nodes[k].status == Pruned
    ensures Reaped(t, top).Err? ==>
      Reaped(t, top).error == InvalidArgument && After(config, t, ReapTombstone(top.0, top.1), counter) == t
    ensures top in t.nodes && Reaped(t, top).Ok? ==>
      var (u, reply) := Reaped(t, top).value;
      && reply == Count(|Subtree(t.nodes, top)|)
      && u.nodes == t.nodes - Subtree(t.nodes, top) && u.kv == t.kv && u.pins == t.pins
      && (forall l :: l in u.logs <==> Referenced(u.nodes, l))
      && (forall l :: l in u.logs ==> l in t.logs && u.logs[l] == t.logs[l])
      && u.tombstones == t.tombstones - {top}
  {
    if top in t.nodes && Reaped(t, top).Ok? {
      var u := Reaped(t, top).value.0;
      forall l
        ensures l in u.logs <==> Referenced(u.nodes, l)
      {
        if Referenced(u.nodes, l) {
          var k :| k in u.nodes && u.nodes[k].log == Some(l);
          assert t.nodes[k].log == Some(l);
        }
      }
    }
  }

  // ── After a prune ──────────────────────────────────────────────────────

  /** While `top` is there, its subtree lies within `s` and is pruned throughout. */
  ghost predicate Condemned(nodes: map<Key, Row>, top: Key, s: set<Key>) {
    top in nodes ==> Subtree(nodes, top) <= s && forall k :: k in Subtree(nodes, top) ==> nodes[k].status == Pruned
  }

  /** The command does not create `top` anew and moves no row of `s` out of the pruned status. */
  ghost predicate Spares(c: Command, top: Key, s: set<Key>) {
    && (c.CreateNode? ==> (c.node.exp, c.node.id) != top)
    && (c.UpdateNodes? ==> forall i :: 0 <= i < |c.updates| && (c.exp, c.updates[i].id) in s ==>
          c.updates[i].status.None? || c.updates[i].status.value == Pruned)
  }

  lemma {:induction false} LeafUnder(nodes: map<Key, Row>, key: Key, row: Row, k: Key, top: Key)
    requires TreeInv(nodes) && key !in nodes && k in nodes
    ensures Under(nodes[key := row], k, top) <==> Under(nodes, k, top)
    decreases nodes[k].depth
  {
    assert RowInv(nodes, k);
    if nodes[k].parent.Some? {
      LeafUnder(nodes, key, row, (k.0, nodes[k].parent.value), top);
    }
  }

  /** A new node never lands in a pruned subtree: its parent must be live. */
  lemma LeafKeepsCondemned(nodes: map<Key, Row>, key: Key, row: Row, top: Key, s: set<Key>)
    requires TreeInv(nodes) && Condemned(nodes, top, s) && key !in nodes && key != top
    requires row.parent.Some? ==> (key.0, row.parent.value) in nodes && nodes[(key.0, row.parent.value)].status != Pruned
    ensures Condemned(nodes[key := row], top, s)
  {
    var more := nodes[key := row];
    if top in more {
      forall k | k in Subtree(more, top)
        ensures k in Subtree(nodes, top)
      {
        if k in nodes {
          LeafUnder(nodes, key, row, k, top);
        } else {
          LeafUnder(nodes, key, row, (key.0, row.parent.value), top);
        }
      }
    }
  }

  lemma ShapeKeepsCondemned(a: map<Key, Row>, b: map<Key, Row>, top: Key, s: set<Key>)
    requires SameShape(a, b) && Condemned(a, top, s)
    requires forall k :: k in a && k in s && a[k].status == Pruned ==> b[k].status == Pruned
    ensures Condemned(b, top, s)
  {
    SameSubtree(a, b, top);
  }

  lemma {:induction false} UpdateKeepsPruned(nodes: map<Key, Row>, exp: Experiment, updates: seq<NodeUpdate>, counter: nat, k: Key)
    requires k in nodes && nodes[k].status == Pruned
    requires forall i :: 0 <= i < |updates| && (exp, updates[i].id) == k ==>
      updates[i].status.None? || updates[i].status.value == Pruned
    ensures k in AllUpdated(nodes, exp, updates, counter) && AllUpdated(nodes, exp, updates, counter)[k].status == Pruned
  {
    if updates != [] {
      UpdateKeepsPruned(nodes, exp, updates[..|updates| - 1], counter, k);
    }
  }

  lemma {:induction false} SubmapUnder(nodes: map<Key, Row>, gone: set<Key>, k: Key, top: Key)
    requires Under(nodes - gone, k, top)
    ensures Under(nodes, k, top)
    decreases nodes[k].depth
  {
    if k != top {
      SubmapUnder(nodes, gone, (k.0, nodes[k].parent.value), top);
    }
  }

  lemma SubmapKeepsCondemned(nodes: map<Key, Row>, gone: set<Key>, top: Key, s: set<Key>)
    requires Condemned(nodes, top, s)
    ensures Condemned(nodes - gone, top, s)
  {
    forall k | k in Subtree(nodes - gone, top)
      ensures k in Subtree(nodes, top)
    {
      SubmapUnder(nodes, gone, k, top);
    }
  }

  lemma UpdateKeepsCondemned(nodes: map<Key, Row>, c: Command, counter: nat, top: Key, s: set<Key>)
    requires c.UpdateNodes? && Condemned(nodes, top, s) && Spares(c, top, s)
    ensures Condemned(AllUpdated(nodes, c.exp, c.updates, counter), top, s)
  {
    var b := AllUpdated(nodes, c.exp, c.updates, counter);
    UpdateShape(nodes, c.exp, c.updates, counter);
    forall k | k in nodes && k in s && nodes[k].status == Pruned
      ensures b[k].status == Pruned
    {
      UpdateKeepsPruned(nodes, c.exp, c.updates, counter, k);
    }
    ShapeKeepsCondemned(nodes, b, top, s);
  }

  lemma CreateKeepsCondemned(config: Config, t: Tables, p: NewNode, counter: nat, top: Key, s: set<Key>)
    requires TablesInv(t, counter) && Condemned(t.nodes, top, s) && (p.exp, p.id) != top
    ensures Condemned(After(config, t, CreateNode(p), counter).nodes, top, s)
  {
    var key := (p.exp, p.id);
    if CreateError(config, t, p).None? && key !in t.nodes {
      LeafKeepsCondemned(t.nodes, key, FreshRow(t, p, counter), top, s);
    }
  }

  lemma CommandKeepsCondemned(config: Config, t: Tables, c: Command, counter: nat, top: Key, s: set<Key>)
    requires TablesInv(t, counter) && Condemned(t.nodes, top, s) && Spares(c, top, s)
    ensures Condemned(After(config, t, c, counter).nodes, top, s)
  {
    match c {
      case CreateNode(p) => CreateKeepsCondemned(config, t, p, counter, top, s);
      case UpdateNodes(exp, updates) => UpdateKeepsCondemned(t.nodes, c, counter, top, s);
      case PruneSubtree(exp, id, allowRoot) =>
        ShapeKeepsCondemned(t.nodes, MarkPruned(t.nodes, Subtree(t.nodes, (exp, id)), counter), top, s);
      case ReapTombstone(exp, id) => SubmapKeepsCondemned(t.nodes, Subtree(t.nodes, (exp, id)), top, s);
      case _ =>
    }
  }
}
