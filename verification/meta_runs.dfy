/** Streams of commands: batches, kills and restarts. */
module MetaRuns {
  import opened Base
  import opened MetaTables
  import opened MetaTree

  // ── One command per transaction ────────────────────────────────────────

  /** A way to execute commands; the statements below that do not ask for `Runs` hold for every one. */
  type Exec = (Tables, Command, nat) -> Outcome

  /** `f` executes commands as the writer does. */
  ghost predicate Runs(f: Exec, config: Config) {
    forall t, c, n: nat {:trigger Applied(config, t, c, n)} :: f(t, c, n) == Applied(config, t, c, n)
  }

  function Executor(config: Config): Exec { (t: Tables, c: Command, n: nat) => Applied(config, t, c, n) }

  /** One command, all or nothing. */
  function Stepped(f: Exec, t: Tables, c: Command, counter: nat): Tables {
    var r := f(t, c, counter);
    if r.Ok? then r.value.0 else t
  }

  function Answer(f: Exec, t: Tables, c: Command, counter: nat): Result<Reply, MetaError> {
    var r := f(t, c, counter);
    if r.Ok? then Ok(r.value.1) else Err(r.error)
  }

  /** The tables after commands run one by one, each with the next counter value. */
  function Replay(f: Exec, t: Tables, counter: nat, cs: seq<Command>): Tables {
    if cs == [] then t
    else
      var n := |cs| - 1;
      Stepped(f, Replay(f, t, counter, cs[..n]), cs[n], counter + n)
  }

  function Replies(f: Exec, t: Tables, counter: nat, cs: seq<Command>): seq<Result<Reply, MetaError>> {
    if cs == [] then []
    else
      var n := |cs| - 1;
      Replies(f, t, counter, cs[..n]) + [Answer(f, Replay(f, t, counter, cs[..n]), cs[n], counter + n)]
  }

  lemma ReplayNext(f: Exec, t: Tables, counter: nat, cs: seq<Command>, i: nat)
    requires i < |cs|
    ensures var before := Replay(f, t, counter, cs[..i]);
      && Replay(f, t, counter, cs[..i + 1]) == Stepped(f, before, cs[i], counter + i)
      && Replies(f, t, counter, cs[..i + 1]) == Replies(f, t, counter, cs[..i]) + [Answer(f, before, cs[i], counter + i)]
  {
    assert cs[..i + 1][..i] == cs[..i];
  }

  lemma StepKeeps(f: Exec, config: Config, t: Tables, c: Command, counter: nat)
    requires Runs(f, config) && TablesInv(t, counter)
    ensures TablesInv(Stepped(f, t, c, counter), counter + 1)
  {
    CommandKeeps(config, t, c, counter);
    assert f(t, c, counter) == Applied(config, t, c, counter);
  }

  lemma {:induction false} ReplayKeeps(f: Exec, config: Config, t: Tables, counter: nat, cs: seq<Command>)
    requires Runs(f, config) && TablesInv(t, counter)
    ensures TablesInv(Replay(f, t, counter, cs), counter + |cs|)
  {
    if cs != [] {
      var n := |cs| - 1;
      ReplayKeeps(f, config, t, counter, cs[..n]);
      StepKeeps(f, config, Replay(f, t, counter, cs[..n]), cs[n], counter + n);
    }
  }

  lemma {:induction false} ReplaySplit(f: Exec, t: Tables, counter: nat, a: seq<Command>, b: seq<Command>)
    ensures Replay(f, t, counter, a + b) == Replay(f, Replay(f, t, counter, a), counter + |a|, b)
    ensures Replies(f, t, counter, a + b)
      == Replies(f, t, counter, a) + Replies(f, Replay(f, t, counter, a), counter + |a|, b)
    decreases |b|
  {
    if b == [] {
      assert a + b == a;
    } else {
      var n := |b| - 1;
      ReplaySplit(f, t, counter, a, b[..n]);
      assert (a + b)[..|a + b| - 1] == a + b[..n];
    }
  }

  // ── Batches ────────────────────────────────────────────────────────────

  function Joined<T>(batches: seq<seq<T>>): seq<T> {
    if batches == [] then [] else Joined(batches[..|batches| - 1]) + batches[|batches| - 1]
  }

  /** The tables after whole batches, each one transaction. */
  function BatchTables(f: Exec, t: Tables, counter: nat, batches: seq<seq<Command>>): Tables {
    if batches == [] then t
    else
      var n := |batches| - 1;
      Replay(f, BatchTables(f, t, counter, batches[..n]), counter + |Joined(batches[..n])|, batches[n])
  }

  function BatchReplies(f: Exec, t: Tables, counter: nat, batches: seq<seq<Command>>): seq<Result<Reply, MetaError>> {
    if batches == [] then []
    else
      var n := |batches| - 1;
      var before := BatchTables(f, t, counter, batches[..n]);
      BatchReplies(f, t, counter, batches[..n])
        + Replies(f, before, counter + |Joined(batches[..n])|, batches[n])
  }

  /** Replaying batch after batch is replaying their concatenation. */
  lemma {:induction false} BatchesJoin(f: Exec, t: Tables, counter: nat, batches: seq<seq<Command>>)
    ensures BatchTables(f, t, counter, batches) == Replay(f, t, counter, Joined(batches))
    ensures BatchReplies(f, t, counter, batches) == Replies(f, t, counter, Joined(batches))
  {
    if batches != [] {
      var n := |batches| - 1;
      BatchesJoin(f, t, counter, batches[..n]);
      ReplaySplit(f, t, counter, Joined(batches[..n]), batches[n]);
    }
  }

  lemma BatchesNext(f: Exec, t: Tables, counter: nat, batches: seq<seq<Command>>, i: nat)
    requires i < |batches|
    ensures var before, n := BatchTables(f, t, counter, batches[..i]), counter + |Joined(batches[..i])|;
      && BatchTables(f, t, counter, batches[..i + 1]) == Replay(f, before, n, batches[i])
      && BatchReplies(f, t, counter, batches[..i + 1])
         == BatchReplies(f, t, counter, batches[..i]) + Replies(f, before, n, batches[i])
      && counter + |Joined(batches[..i + 1])| == n + |batches[i]|
  {
    assert batches[..i + 1][..i] == batches[..i];
  }

  /** Two executors of the same configuration replay alike. */
  lemma {:induction false} SameExecutor(f: Exec, g: Exec, config: Config, t: Tables, counter: nat, cs: seq<Command>)
    requires Runs(f, config) && Runs(g, config)
    ensures Replay(f, t, counter, cs) == Replay(g, t, counter, cs) && Replies(f, t, counter, cs) == Replies(g, t, counter, cs)
  {
    if cs != [] {
      var n := |cs| - 1;
      SameExecutor(f, g, config, t, counter, cs[..n]);
      SameStep(f, g, config, Replay(f, t, counter, cs[..n]), cs[n], counter + n);
    }
  }

  lemma SameStep(f: Exec, g: Exec, config: Config, t: Tables, c: Command, counter: nat)
    requires Runs(f, config) && Runs(g, config)
    ensures f(t, c, counter) == g(t, c, counter)
  {
    assert f(t, c, counter) == Applied(config, t, c, counter);
  }

  // ── Creating again ─────────────────────────────────────────────────────

  /** Command `i` of the run is a reap that deletes the row. */
  ghost predicate DropsAt(f: Exec, t: Tables, counter: nat, cs: seq<Command>, i: nat, k: Key) {
    && i < |cs| && cs[i].ReapTombstone?
    && k in Replay(f, t, counter, cs[..i]).nodes && k !in Replay(f, t, counter, cs[..i + 1]).nodes
  }

  ghost predicate Drops(f: Exec, t: Tables, counter: nat, cs: seq<Command>, k: Key) {
    exists i :: DropsAt(f, t, counter, cs, i, k)
  }

  lemma StepKeepsMade(f: Exec, config: Config, t: Tables, c: Command, counter: nat, p: NewNode, createdAt: nat)
    requires Runs(f, config) && MadeBy(t.nodes, p, createdAt)
    ensures var u := Stepped(f, t, c, counter);
      MadeBy(u.nodes, p, createdAt) || (c.ReapTombstone? && (p.exp, p.id) !in u.nodes)
  {
    CommandKeepsMade(config, t, c, counter, p, createdAt);
    assert f(t, c, counter) == Applied(config, t, c, counter);
  }

  lemma {:induction false} PrefixKeepsMade(f: Exec, config: Config, t: Tables, counter: nat, cs: seq<Command>, n: nat,
                                           p: NewNode, createdAt: nat)
    requires Runs(f, config) && MadeBy(t.nodes, p, createdAt) && n <= |cs| && !Drops(f, t, counter, cs, (p.exp, p.id))
    ensures MadeBy(Replay(f, t, counter, cs[..n]).nodes, p, createdAt)
  {
    if n > 0 {
      PrefixKeepsMade(f, config, t, counter, cs, n - 1, p, createdAt);
      ReplayNext(f, t, counter, cs, n - 1);
      assert !DropsAt(f, t, counter, cs, n - 1, (p.exp, p.id));
      StepKeepsMade(f, config, Replay(f, t, counter, cs[..n - 1]), cs[n - 1], counter + n - 1, p, createdAt);
    }
  }

  lemma StepRepeats(f: Exec, config: Config, u: Tables, p: NewNode, createdAt: nat, counter: nat)
    requires Runs(f, config) && TablesInv(u, counter) && MadeBy(u.nodes, p, createdAt)
    ensures f(u, CreateNode(p), counter) == Unchanged(u, p)
  {
    RepeatIsExact(config, u, p, createdAt, counter);
    assert f(u, CreateNode(p), counter) == Applied(config, u, CreateNode(p), counter);
  }

  lemma MadeIsRepeatable(f: Exec, config: Config, t: Tables, counter: nat, p: NewNode, createdAt: nat, cs: seq<Command>)
    requires Runs(f, config) && TablesInv(t, counter) && MadeBy(t.nodes, p, createdAt)
    requires !Drops(f, t, counter, cs, (p.exp, p.id))
    ensures var u := Replay(f, t, counter, cs);
      MadeBy(u.nodes, p, createdAt) && f(u, CreateNode(p), counter + |cs|) == Unchanged(u, p)
  {
    PrefixKeepsMade(f, config, t, counter, cs, |cs|, p, createdAt);
    assert cs[..|cs|] == cs;
    ReplayKeeps(f, config, t, counter, cs);
    StepRepeats(f, config, Replay(f, t, counter, cs), p, createdAt, counter + |cs|);
  }

  lemma StepCreates(f: Exec, config: Config, t: Tables, p: NewNode, counter: nat)
    requires Runs(f, config) && TablesInv(t, counter) && Answer(f, t, CreateNode(p), counter).Ok?
    ensures var reply := Answer(f, t, CreateNode(p), counter).value;
      reply.Node? && MadeBy(Stepped(f, t, CreateNode(p), counter).nodes, p, reply.row.createdAt)
    ensures TablesInv(Stepped(f, t, CreateNode(p), counter), counter + 1)
  {
    assert f(t, CreateNode(p), counter) == Applied(config, t, CreateNode(p), counter);
    CreateMakes(config, t, p, counter);
    StepKeeps(f, config, t, CreateNode(p), counter);
  }

  /** After the commands, unless one of them was a reap that deleted the row, the row is still the one first made, and
      creating it again is answered as `Unchanged` says. */
  ghost predicate Repeatable(f: Exec, t: Tables, counter: nat, p: NewNode, createdAt: nat, cs: seq<Command>) {
    var u := Replay(f, t, counter, cs);
    Drops(f, t, counter, cs, (p.exp, p.id)) ||
      (MadeBy(u.nodes, p, createdAt) && f(u, CreateNode(p), counter + |cs|) == Unchanged(u, p))
  }

  lemma MadeOrDropped(f: Exec, config: Config, t: Tables, counter: nat, p: NewNode, createdAt: nat, cs: seq<Command>)
    requires Runs(f, config) && TablesInv(t, counter) && MadeBy(t.nodes, p, createdAt)
    ensures Repeatable(f, t, counter, p, createdAt, cs)
  {
    if !Drops(f, t, counter, cs, (p.exp, p.id)) {
      MadeIsRepeatable(f, config, t, counter, p, createdAt, cs);
    }
  }

  /** A create that was granted can be repeated after any commands, unless one of them was a reap that deleted its row: it
      is granted if and only if the parent is not pruned by then, and returns the row first made without a change. */
  lemma CreateIsRepeatable(f: Exec, config: Config, t: Tables, counter: nat, p: NewNode, cs: seq<Command>)
    requires Runs(f, config) && TablesInv(t, counter) && Answer(f, t, CreateNode(p), counter).Ok?
    ensures Answer(f, t, CreateNode(p), counter).value.Node?
    ensures Repeatable(f, Stepped(f, t, CreateNode(p), counter), counter + 1, p,
                       Answer(f, t, CreateNode(p), counter).value.row.createdAt, cs)
  {
    StepCreates(f, config, t, p, counter);
    MadeOrDropped(f, config, Stepped(f, t, CreateNode(p), counter), counter + 1, p,
                  Answer(f, t, CreateNode(p), counter).value.row.createdAt, cs);
  }

  lemma PruneMarksTop(f: Exec, config: Config, t: Tables, counter: nat, top: Key)
    requires Runs(f, config) && top in t.nodes
    ensures var u := Stepped(f, t, PruneSubtree(top.0, top.1, true), counter);
      top in u.nodes && u.nodes[top].status == Pruned
  {
    var c := PruneSubtree(top.0, top.1, true);
    assert f(t, c, counter) == Applied(config, t, c, counter);
    assert Under(t.nodes, top, top);
  }

  /** The refusal does occur: after any granted create of a node with a parent and a prune of that parent. */
  lemma PruneRefusesRepeat(f: Exec, config: Config, t: Tables, counter: nat, p: NewNode)
    requires Runs(f, config) && TablesInv(t, counter) && p.parent.Some? && Answer(f, t, CreateNode(p), counter).Ok?
    ensures var t1 := Stepped(f, t, CreateNode(p), counter);
      var u := Replay(f, t1, counter + 1, [PruneSubtree(p.exp, p.parent.value, true)]);
      f(u, CreateNode(p), counter + 2) == Err(ParentNotFound)
  {
    var t1, c := Stepped(f, t, CreateNode(p), counter), PruneSubtree(p.exp, p.parent.value, true);
    StepCreates(f, config, t, p, counter);
    assert RowInv(t1.nodes, (p.exp, p.id));
    PruneMarksTop(f, config, t1, counter + 1, (p.exp, p.parent.value));
    assert [c][..0] == [];
    assert Replay(f, t1, counter + 1, [c]) == Stepped(f, t1, c, counter + 1);
    CreateIsRepeatable(f, config, t, counter, p, [c]);
    assert !Drops(f, t1, counter + 1, [c], (p.exp, p.id));
  }

  // ── Reaping after a prune ──────────────────────────────────────────────

  lemma {:induction false} ReplayKeepsCondemned(f: Exec, config: Config, t: Tables, counter: nat, cs: seq<Command>, top: Key,
                                                s: set<Key>)
    requires Runs(f, config) && TablesInv(t, counter) && Condemned(t.nodes, top, s)
    requires forall i :: 0 <= i < |cs| ==> Spares(cs[i], top, s)
    ensures Condemned(Replay(f, t, counter, cs).nodes, top, s)
  {
    if cs != [] {
      var n := |cs| - 1;
      ReplayKeepsCondemned(f, config, t, counter, cs[..n], top, s);
      ReplayKeeps(f, config, t, counter, cs[..n]);
      StepKeepsCondemned(f, config, Replay(f, t, counter, cs[..n]), cs[n], counter + n, top, s);
    }
  }

  lemma StepKeepsCondemned(f: Exec, config: Config, t: Tables, c: Command, counter: nat, top: Key, s: set<Key>)
    requires Runs(f, config) && TablesInv(t, counter) && Condemned(t.nodes, top, s) && Spares(c, top, s)
    ensures Condemned(Stepped(f, t, c, counter).nodes, top, s)
  {
    CommandKeepsCondemned(config, t, c, counter, top, s);
    assert f(t, c, counter) == Applied(config, t, c, counter);
  }

  lemma PruneCondemns(t: Tables, top: Key, allowRoot: bool, counter: nat)
    requires TablesInv(t, counter) && PrunedSubtree(t, top, allowRoot, counter).Ok?
    ensures TablesInv(PrunedSubtree(t, top, allowRoot, counter).value.0, counter + 1)
    ensures Condemned(PrunedSubtree(t, top, allowRoot, counter).value.0.nodes, top, Subtree(t.nodes, top))
  {
    PruneIsExact(t, top, allowRoot, counter);
    PruneKeeps(t, top, counter);
  }

  lemma CondemnedIsReaped(t: Tables, top: Key, s: set<Key>)
    requires Condemned(t.nodes, top, s)
    ensures Reaped(t, top).Ok? && t.nodes.Keys - Reaped(t, top).value.0.nodes.Keys <= s
  {
  }

  /** Prune a subtree, then run any commands that neither bring one of its rows back to life nor create its root again:
      a reap of it is granted, and deletes only rows that were in the subtree when it was pruned. */
  lemma ReapDeletesOnlyPruned(f: Exec, config: Config, t: Tables, counter: nat, top: Key, allowRoot: bool, cs: seq<Command>)
    requires Runs(f, config) && TablesInv(t, counter) && PrunedSubtree(t, top, allowRoot, counter).Ok?
    requires forall i :: 0 <= i < |cs| ==> Spares(cs[i], top, Subtree(t.nodes, top))
    ensures var u := Replay(f, PrunedSubtree(t, top, allowRoot, counter).value.0, counter + 1, cs);
      && Reaped(u, top).Ok?
      && u.nodes.Keys - Reaped(u, top).value.0.nodes.Keys <= Subtree(t.nodes, top)
  {
    PruneCondemns(t, top, allowRoot, counter);
    var v := PrunedSubtree(t, top, allowRoot, counter).value.0;
    ReplayKeepsCondemned(f, config, v, counter + 1, cs, top, Subtree(t.nodes, top));
    CondemnedIsReaped(Replay(f, v, counter + 1, cs), top, Subtree(t.nodes, top));
  }

  // ── Kills and restarts ─────────────────────────────────────────────────

  /** `persisted` is the counter as last committed. */
  datatype Database = Database(tables: Tables, counter: nat, persisted: nat)

  /** A batch that commits, or a kill while `lost` was in flight followed by a restart. */
  datatype Event = Commit(batch: seq<Command>) | Crash(lost: seq<Command>)

  /** One more than the persisted counter and every node stamp, and no more than that. */
  ghost predicate IsRederived(nodes: map<Key, Row>, persisted: nat, counter: nat) {
    && counter > persisted
    && (forall k :: k in nodes ==> nodes[k].createdAt < counter && nodes[k].updatedAt < counter)
    && (counter - 1 == persisted
        || exists k :: k in nodes && (nodes[k].createdAt == counter - 1 || nodes[k].updatedAt == counter - 1))
  }

  ghost predicate Next(f: Exec, a: Database, e: Event, b: Database) {
    match e
    case Commit(batch) =>
      && b.tables == Replay(f, a.tables, a.counter, batch)
      && b.counter == a.counter + |batch|
      && b.persisted == if batch == [] then a.persisted else b.counter
    case Crash(lost) =>
      b.tables == a.tables && b.persisted == a.persisted && IsRederived(a.tables.nodes, a.persisted, b.counter)
  }

  ghost predicate DatabaseInv(d: Database) {
    TablesInv(d.tables, d.persisted) && d.persisted <= d.counter
  }

  lemma LaterCounter(t: Tables, a: nat, b: nat)
    requires TablesInv(t, a) && a <= b
    ensures TablesInv(t, b)
  {
  }

  lemma EventKeeps(f: Exec, config: Config, a: Database, e: Event, b: Database)
    requires Runs(f, config) && DatabaseInv(a) && Next(f, a, e, b)
    ensures DatabaseInv(b)
    ensures e.Crash? ==> b.counter == a.persisted + 1
  {
    if e.Commit? && e.batch != [] {
      LaterCounter(a.tables, a.persisted, a.counter);
      ReplayKeeps(f, config, a.tables, a.counter, e.batch);
    }
  }

  ghost predicate IsHistory(f: Exec, states: seq<Database>, events: seq<Event>) {
    |states| == |events| + 1 && forall i :: 0 <= i < |events| ==> Next(f, states[i], events[i], states[i + 1])
  }

  /** Over every history of commits, kills and restarts: the tables form trees, logs are present, every stamp lies below
      the counter in use, and no two rows share a creation stamp. */
  lemma {:induction false} HistoryKeeps(f: Exec, config: Config, states: seq<Database>, events: seq<Event>, i: nat)
    requires Runs(f, config) && IsHistory(f, states, events) && DatabaseInv(states[0]) && i < |states|
    ensures DatabaseInv(states[i]) && TablesInv(states[i].tables, states[i].counter)
  {
    if i > 0 {
      HistoryKeeps(f, config, states, events, i - 1);
      EventKeeps(f, config, states[i - 1], events[i - 1], states[i]);
    }
    LaterCounter(states[i].tables, states[i].persisted, states[i].counter);
  }
}
