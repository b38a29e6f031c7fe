/** Startup reconciliation: every node whose snapshot is not a stored manifest is marked pruned. */
module Reconcile {
  import opened Base
  import opened Sorting
  import opened MetaTables
  import opened MetaRuns
  import opened MetaQueries
  import opened MetaPaging
  import opened WriterActors

  const PAGE: U32 := 512

  /** What becomes of a row: one that is pruned or resolves is untouched, any other is marked pruned. */
  ghost predicate Settled(stored: set<Digest>, before: Row, after: Row) {
    if before.status == Pruned || before.snapshot in stored then after == before
    else after == before.(status := Pruned, updatedAt := after.updatedAt)
  }

  /** The rows in `seen` are settled, the others as they were. */
  ghost predicate Partly(start: map<Key, Row>, nodes: map<Key, Row>, stored: set<Digest>, seen: set<Key>) {
    && nodes.Keys == start.Keys
    && forall k :: k in start ==> if k in seen then Settled(stored, start[k], nodes[k]) else nodes[k] == start[k]
  }

  function Mark(id: NodeId): NodeUpdate { NodeUpdate(id, Some(Pruned), None, None, 0, false, None, None) }

  lemma MarkOne(f: Exec, config: Config, t: Tables, counter: nat, k: Key)
    requires Runs(f, config) && k in t.nodes
    ensures Replay(f, t, counter, [UpdateNodes(k.0, [Mark(k.1)])])
      == t.(nodes := t.nodes[k := t.nodes[k].(status := Pruned, updatedAt := counter)])
  {
    var u := Mark(k.1);
    var c := UpdateNodes(k.0, [u]);
    assert [u][..0] == [] && [c][..0] == [];
    assert Missing(t.nodes, k.0, [u]) == [];
    assert AllUpdated(t.nodes, k.0, [u], counter) == t.nodes[k := Updated(t.nodes[k], u, counter)];
    assert f(t, c, counter) == Applied(config, t, c, counter);
    assert Replay(f, t, counter, [c]) == Stepped(f, t, c, counter);
  }

  /** Look at one node of a page and mark it if its snapshot is missing. */
  method ReconcileOne(actor: WriterActor, k: Key, row: Row, stored: set<Digest>, ghost start: map<Key, Row>, ghost seen: set<Key>)
    requires actor.Valid() && Partly(start, actor.tables.nodes, stored, seen)
    requires k in start && k !in seen && row == start[k]
    modifies actor
    ensures actor.Valid() && Partly(start, actor.tables.nodes, stored, seen + {k})
  {
    if row.status == Pruned || row.snapshot in stored {
      return;
    }
    MarkOne(actor.exec, actor.config, actor.tables, actor.counter, k);
    var replies := actor.ExecuteBatch([UpdateNodes(k.0, [Mark(k.1)])]);
  }

  ghost function Keys(xs: seq<Key>): set<Key> { set k | k in xs }

  /** The rows of `exp` past the cursor. */
  ghost function Rest(nodes: map<Key, Row>, exp: Experiment, cursor: Option<nat>): set<Key> {
    set k | k in nodes && Past(nodes, exp, cursor, k)
  }

  ghost function RowsOf(nodes: map<Key, Row>, exp: Experiment): set<Key> { Rest(nodes, exp, None) }

  /** Marking rows moves no page boundary. */
  lemma SamePage(start: map<Key, Row>, nodes: map<Key, Row>, stored: set<Digest>, seen: set<Key>, exp: Experiment,
                 cursor: Option<nat>, limit: nat, page: seq<Key>)
    requires Partly(start, nodes, stored, seen) && IsPage(nodes, exp, cursor, limit, page)
    ensures IsPage(start, exp, cursor, limit, page)
  {
    assert forall k :: k in start ==> nodes[k].createdAt == start[k].createdAt;
    assert forall k :: Past(start, exp, cursor, k) <==> Past(nodes, exp, cursor, k);
    assert forall i :: 0 <= i < |page| ==> Past(nodes, exp, cursor, page[i]);
  }

  lemma LastPage(start: map<Key, Row>, exp: Experiment, cursor: Option<nat>, limit: nat, page: seq<Key>)
    requires IsPage(start, exp, cursor, limit, page) && |page| < limit
    ensures Rest(start, exp, cursor) == Keys(page)
  {
    forall k
      ensures k in Rest(start, exp, cursor) <==> k in page
    {
      if k in page {
        var i :| 0 <= i < |page| && page[i] == k;
        assert Past(start, exp, cursor, page[i]);
      }
    }
  }

  lemma FullPage(start: map<Key, Row>, exp: Experiment, cursor: Option<nat>, limit: nat, page: seq<Key>)
    requires DistinctStamps(start) && IsPage(start, exp, cursor, limit, page) && page != []
    ensures page[|page| - 1] in start
    ensures Rest(start, exp, Some(start[page[|page| - 1]].createdAt)) == Rest(start, exp, cursor) - Keys(page)
    ensures Keys(page) <= Rest(start, exp, cursor)
  {
    var last := page[|page| - 1];
    var next := Some(start[last].createdAt);
    InPage(start, exp, cursor, limit, page, |page| - 1);
    forall k | k in page
      ensures Past(start, exp, cursor, k) && start[k].createdAt <= next.value
    {
      var i :| 0 <= i < |page| && page[i] == k;
      InPage(start, exp, cursor, limit, page, i);
    }
    forall k
      ensures Past(start, exp, next, k) <==> Past(start, exp, cursor, k) && k !in page
    {
      if Past(start, exp, cursor, k) && start[k].createdAt <= next.value {
        BoundaryIsExact(start, exp, cursor, limit, page, k);
      }
    }
  }

  lemma NextKey(page: seq<Key>, i: nat, seen: set<Key>)
    requires Distinct(page) && Keys(page) !! seen && i < |page|
    ensures page[i] !in seen + Keys(page[..i])
    ensures seen + Keys(page[..i + 1]) == seen + Keys(page[..i]) + {page[i]}
  {
    assert page[i] in Keys(page);
    assert page[..i + 1] == page[..i] + [page[i]];
  }

  method ReconcilePage(actor: WriterActor, page: seq<Key>, stored: set<Digest>, ghost start: map<Key, Row>, ghost seen: set<Key>)
    requires actor.Valid() && Partly(start, actor.tables.nodes, stored, seen)
    requires Distinct(page) && Keys(page) <= start.Keys && Keys(page) !! seen
    modifies actor
    ensures actor.Valid() && Partly(start, actor.tables.nodes, stored, seen + Keys(page))
  {
    var rows := actor.tables.nodes;
    assert seen + Keys(page[..0]) == seen;
    assert forall i :: 0 <= i < |page| ==> page[i] in Keys(page);
    assert forall i :: 0 <= i < |page| ==> rows[page[i]] == start[page[i]];
    for i := 0 to |page|
      invariant actor.Valid() && Partly(start, actor.tables.nodes, stored, seen + Keys(page[..i]))
    {
      NextKey(page, i, seen);
      ReconcileOne(actor, page[i], rows[page[i]], stored, start, seen + Keys(page[..i]));
    }
    assert page[..|page|] == page;
  }

  /** The rows of `exp` up to the cursor have been visited, each once; all of them once there is no more to do. */
  ghost predicate Visiting(start: map<Key, Row>, exp: Experiment, cursor: Option<nat>, visited: seq<Key>, more: bool) {
    && Distinct(visited)
    && Keys(visited) == if more then RowsOf(start, exp) - Rest(start, exp, cursor) else RowsOf(start, exp)
  }

  lemma JoinVisited(visited: seq<Key>, page: seq<Key>)
    requires Distinct(visited) && Distinct(page) && Keys(visited) !! Keys(page)
    ensures Distinct(visited + page) && Keys(visited + page) == Keys(visited) + Keys(page)
  {
    var all := visited + page;
    forall i, j | 0 <= i < j < |all|
      ensures all[i] != all[j]
    {
      assert i < |visited| ==> all[i] in Keys(visited);
      assert j >= |visited| ==> all[j] in Keys(page);
    }
  }

  /** A page holds rows not visited before. */
  lemma PageIsNew(start: map<Key, Row>, exp: Experiment, cursor: Option<nat>, page: seq<Key>, visited: seq<Key>, seen: set<Key>)
    requires DistinctStamps(start) && IsPage(start, exp, cursor, 512, page) && page != []
    requires Visiting(start, exp, cursor, visited, true) && seen !! RowsOf(start, exp)
    ensures Distinct(page) && Keys(page) <= start.Keys && Keys(page) !! seen + Keys(visited)
    ensures seen + Keys(visited) + Keys(page) == seen + Keys(visited + page)
  {
    FullPage(start, exp, cursor, 512, page);
    JoinVisited(visited, page);
    assert Rest(start, exp, cursor) <= RowsOf(start, exp);
  }

  /** What follows from the length of a page just visited. */
  lemma PageVisited(start: map<Key, Row>, exp: Experiment, cursor: Option<nat>, page: seq<Key>, visited: seq<Key>)
    requires DistinctStamps(start) && IsPage(start, exp, cursor, 512, page) && page != []
    requires Visiting(start, exp, cursor, visited, true)
    ensures page[|page| - 1] in start
    ensures |page| < 512 ==> Visiting(start, exp, cursor, visited + page, false)
    ensures var next := Some(start[page[|page| - 1]].createdAt);
      Visiting(start, exp, next, visited + page, true) && Rest(start, exp, next) < Rest(start, exp, cursor)
  {
    FullPage(start, exp, cursor, 512, page);
    JoinVisited(visited, page);
    assert page[0] in Keys(page);
    if |page| < 512 {
      LastPage(start, exp, cursor, 512, page);
    }
  }

  method FetchPage(nodes: map<Key, Row>, exp: Experiment, cursor: Option<nat>, ghost stored: set<Digest>,
                   ghost start: map<Key, Row>, ghost seen: set<Key>)
    returns (page: seq<Key>, lastAt: nat)
    requires Partly(start, nodes, stored, seen)
    ensures IsPage(start, exp, cursor, 512, page)
    ensures page != [] ==> page[|page| - 1] in start && lastAt == start[page[|page| - 1]].createdAt
  {
    page := QueryNodes(nodes, ByStamp(exp, cursor, Some(PAGE)));
    StampAnswerIsPage(nodes, exp, cursor, Some(PAGE), page);
    SamePage(start, nodes, stored, seen, exp, cursor, 512, page);
    lastAt := 0;
    if page != [] {
      InPage(nodes, exp, cursor, 512, page, |page| - 1);
      lastAt := nodes[page[|page| - 1]].createdAt;
    }
  }

  method ReconcileFetched(actor: WriterActor, exp: Experiment, page: seq<Key>, visited: seq<Key>, stored: set<Digest>,
                          ghost cursor: Option<nat>, ghost start: map<Key, Row>, ghost seen: set<Key>)
    requires actor.Valid() && DistinctStamps(start) && seen !! RowsOf(start, exp)
    requires Partly(start, actor.tables.nodes, stored, seen + Keys(visited)) && Visiting(start, exp, cursor, visited, true)
    requires IsPage(start, exp, cursor, 512, page) && page != []
    modifies actor
    ensures actor.Valid() && Partly(start, actor.tables.nodes, stored, seen + Keys(visited + page))
  {
    PageIsNew(start, exp, cursor, page, visited, seen);
    ReconcilePage(actor, page, stored, start, seen + Keys(visited));
  }

  /** Read and reconcile the next page of an experiment. */
  method ReconcileNext(actor: WriterActor, exp: Experiment, cursor: Option<nat>, visited: seq<Key>, stored: set<Digest>,
                       ghost start: map<Key, Row>, ghost seen: set<Key>)
    returns (next: Option<nat>, all: seq<Key>, more: bool)
    requires actor.Valid() && DistinctStamps(start) && seen !! RowsOf(start, exp)
    requires Partly(start, actor.tables.nodes, stored, seen + Keys(visited)) && Visiting(start, exp, cursor, visited, true)
    modifies actor
    ensures actor.Valid() && Partly(start, actor.tables.nodes, stored, seen + Keys(all)) && Visiting(start, exp, next, all, more)
    ensures more ==> Rest(start, exp, next) < Rest(start, exp, cursor)
  {
    var page, lastAt := FetchPage(actor.tables.nodes, exp, cursor, stored, start, seen + Keys(visited));
    if page == [] {
      LastPage(start, exp, cursor, 512, page);
      return cursor, visited, false;
    }
    PageVisited(start, exp, cursor, page, visited);
    ReconcileFetched(actor, exp, page, visited, stored, cursor, start, seen);
    if |page| < 512 {
      return cursor, visited + page, false;
    }
    return Some(lastAt), visited + page, true;
  }

  method ReconcileExperiment(actor: WriterActor, exp: Experiment, stored: set<Digest>, ghost start: map<Key, Row>,
                             ghost seen: set<Key>)
    returns (visited: seq<Key>)
    requires actor.Valid() && DistinctStamps(start) && seen !! RowsOf(start, exp)
    requires Partly(start, actor.tables.nodes, stored, seen)
    modifies actor
    ensures actor.Valid() && Partly(start, actor.tables.nodes, stored, seen + RowsOf(start, exp))
    ensures Distinct(visited) && Keys(visited) == RowsOf(start, exp)
  {
    visited := [];
    var cursor: Option<nat> := None;
    var more := true;
    assert Keys(visited) == {} && seen + {} == seen;
    while more
      invariant actor.Valid() && Partly(start, actor.tables.nodes, stored, seen + Keys(visited))
      invariant Visiting(start, exp, cursor, visited, more)
      decreases more, Rest(start, exp, cursor)
    {
      cursor, visited, more := ReconcileNext(actor, exp, cursor, visited, stored, start, seen);
    }
  }

  /** Experiments present, each once. */
  ghost predicate IsExperiments(nodes: map<Key, Row>, exps: seq<Experiment>) {
    Distinct(exps) && forall e :: e in exps <==> RowsOf(nodes, e) != {}
  }

  ghost function RowsOfAll(nodes: map<Key, Row>, exps: seq<Experiment>): set<Key> {
    set k | k in nodes && k.0 in exps
  }

  /** From any sound database: every row of every experiment is visited exactly once; afterwards a row that is not pruned
      resolves, and a row that was pruned already or resolved is as it was. */
  method ReconcileSnapshotRefs(actor: WriterActor, exps: seq<Experiment>, stored: set<Digest>) returns (visited: seq<Key>)
    requires actor.Valid() && IsExperiments(actor.tables.nodes, exps)
    modifies actor
    ensures actor.Valid() && actor.tables.nodes.Keys == old(actor.tables.nodes.Keys)
    ensures Distinct(visited) && Keys(visited) == old(actor.tables.nodes.Keys)
    ensures forall k :: k in actor.tables.nodes ==>
      actor.tables.nodes[k].status == Pruned || actor.tables.nodes[k].snapshot in stored
    ensures forall k :: k in actor.tables.nodes ==> Settled(stored, old(actor.tables.nodes)[k], actor.tables.nodes[k])
  {
    ghost var start := actor.tables.nodes;
    visited := [];
    assert RowsOfAll(start, exps[..0]) == {};
    for i := 0 to |exps|
      invariant actor.Valid() && Partly(start, actor.tables.nodes, stored, RowsOfAll(start, exps[..i]))
      invariant Distinct(visited) && Keys(visited) == RowsOfAll(start, exps[..i])
    {
      NextExperiment(start, exps, i);
      var more := ReconcileExperiment(actor, exps[i], stored, start, RowsOfAll(start, exps[..i]));
      JoinVisited(visited, more);
      visited := visited + more;
    }
    AllExperiments(start, exps);
  }

  lemma NextExperiment(nodes: map<Key, Row>, exps: seq<Experiment>, i: nat)
    requires Distinct(exps) && i < |exps|
    ensures RowsOfAll(nodes, exps[..i]) !! RowsOf(nodes, exps[i])
    ensures RowsOfAll(nodes, exps[..i + 1]) == RowsOfAll(nodes, exps[..i]) + RowsOf(nodes, exps[i])
  {
    assert exps[..i + 1] == exps[..i] + [exps[i]];
    assert exps[i] !in exps[..i];
  }

  lemma AllExperiments(nodes: map<Key, Row>, exps: seq<Experiment>)
    requires IsExperiments(nodes, exps)
    ensures RowsOfAll(nodes, exps[..|exps|]) == nodes.Keys
  {
    assert exps[..|exps|] == exps;
    forall k | k in nodes
      ensures k.0 in exps
    {
      assert k in RowsOf(nodes, k.0);
    }
  }
}
