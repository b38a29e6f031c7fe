/** The single writer: commands change the open transaction's tables in place, each inside its own savepoint. */
module WriterActors {
  import opened Base
  import opened MetaTables
  import opened MetaTree
  import opened MetaRuns

  /** The recursive query: rows below `top`, level by level. */
  method CollectSubtree(nodes: map<Key, Row>, top: Key) returns (ks: set<Key>)
    requires TreeInv(nodes) && top in nodes
    ensures ks == Subtree(nodes, top)
  {
    ks := {top};
    var level := {top};
    SubtreeIsClosed(nodes, top);
    while level != {}
      invariant top in ks && level <= ks <= Subtree(nodes, top)
      invariant forall k, j :: j in ks && j !in level && ChildOf(nodes, k, j) ==> k in ks
      decreases |nodes.Keys - ks|, |level|
    {
      var below := set k | k in nodes && nodes[k].parent.Some? && (k.0, nodes[k].parent.value) in level && k !in ks;
      forall k | k in below
        ensures k in Subtree(nodes, top)
      {
        assert ChildOf(nodes, k, (k.0, nodes[k].parent.value));
      }
      Shrinks(nodes.Keys, ks, below);
      ks, level := ks + below, below;
    }
    SubtreeIsLeastClosure(nodes, top, ks);
  }

  /** The highest of the persisted counter and every node's stamps, plus one. */
  method RederiveCounter(nodes: map<Key, Row>, persisted: nat) returns (counter: nat)
    ensures IsRederived(nodes, persisted, counter)
  {
    var top := persisted;
    var todo := nodes.Keys;
    while todo != {}
      invariant todo <= nodes.Keys && persisted <= top
      invariant forall k :: k in nodes && k !in todo ==> nodes[k].createdAt <= top && nodes[k].updatedAt <= top
      invariant top == persisted || exists k :: k in nodes && (nodes[k].createdAt == top || nodes[k].updatedAt == top)
      decreases |todo|
    {
      var k :| k in todo;
      if top < nodes[k].createdAt {
        top := nodes[k].createdAt;
      }
      if top < nodes[k].updatedAt {
        top := nodes[k].updatedAt;
      }
      todo := todo - {k};
    }
    counter := top + 1;
  }

  lemma Shrinks<T>(all: set<T>, s: set<T>, more: set<T>)
    requires more <= all && more !! s
    ensures more == {} ==> all - (s + more) == all - s
    ensures more != {} ==> |all - (s + more)| < |all - s|
  {
    if more != {} {
      var x :| x in more;
      assert x in all - s && x !in all - (s + more);
      assert all - (s + more) < all - s;
      Smaller(all - (s + more), all - s);
    } else {
      assert s + more == s;
    }
  }

  lemma Smaller<T>(a: set<T>, b: set<T>)
    requires a < b
    ensures |a| < |b|
  {
    assert b == a + (b - a);
    assert |b| == |a| + |b - a|;
    var x :| x in b - a;
  }

  class WriterActor {
    const config: Config
    ghost const exec: Exec

    /** The tables as the open transaction sees them. */
    var tables: Tables
    var counter: nat
    /** The counter as last committed. */
    var persisted: nat

    ghost function State(): Database
      reads this
    {
      Database(tables, counter, persisted)
    }

    ghost predicate Valid()
      reads this
    {
      Runs(exec, config) && DatabaseInv(State())
    }

    constructor (config: Config)
      ensures Valid() && this.config == config && tables.nodes == map[] && counter == 1
    {
      this.config := config;
      this.exec := Executor(config);
      tables := Tables(map[], map[], map[], map[], map[]);
      counter, persisted := 1, 0;
    }

    /** What a command did to the tables and the reply it got; where it failed the tables are whatever it left behind. */
    ghost predicate Did(before: Tables, c: Command, at: nat, r: Result<Reply, MetaError>)
      reads this
    {
      var o := Applied(config, before, c, at);
      if r.Ok? then o == Ok((tables, r.value)) else o == Err(r.error)
    }

    method PutLog(log: Digest, container: Bytes, at: nat) returns (r: Result<Reply, MetaError>)
      modifies this`tables
      ensures Did(old(tables), PutInputLog(log, container), at, r)
      ensures r.Ok? ==> tables == WithLog(old(tables), log, container, at)
      ensures tables.nodes == old(tables.nodes)
    {
      if |container| < INPUT_LOG_MIN_BYTES {
        return Err(LogTooSmall);
      }
      if |container| > config.logMaxBytes {
        return Err(LogTooLarge);
      }
      if config.hash(container[..|container| - 32]) != log {
        return Err(LogIdMismatch);
      }
      r := Ok(Flag(log !in tables.logs));
      if log !in tables.logs {
        tables := tables.(logs := tables.logs[log := LogRow(U32At(container, 8), container, at)]);
      }
    }

    method Create(p: NewNode, at: nat) returns (r: Result<Reply, MetaError>)
      modifies this`tables
      ensures Did(old(tables), CreateNode(p), at, r)
    {
      if p.id == 0 && p.parent.Some? {
        return Err(InvalidArgument);
      }
      if p.id != 0 && p.parent.None? {
        return Err(InvalidArgument);
      }
      var depth := 0;
      if p.parent.Some? {
        var up := (p.exp, p.parent.value);
        if up !in tables.nodes {
          return Err(ParentNotFound);
        }
        if tables.nodes[up].status == Pruned {
          return Err(ParentNotFound);
        }
        depth := tables.nodes[up].depth + 1;
      }
      if p.log.Some? && p.log.value !in tables.logs {
        if p.inlineLog.None? {
          return Err(InvalidArgument);
        }
        var put := PutLog(p.log.value, p.inlineLog.value, at);
        if put.Err? {
          return Err(put.error);
        }
      }
      var key := (p.exp, p.id);
      if key !in tables.nodes {
        var row := Row(p.parent, depth, p.snapshot, p.log, p.status, p.score, 0, p.icount, p.virtualNs, at, at, 0, p.attrs);
        tables := tables.(nodes := tables.nodes[key := row]);
        return Ok(Node(row));
      }
      var row := tables.nodes[key];
      if row.parent != p.parent || row.snapshot != p.snapshot || row.log != p.log {
        return Err(AlreadyExists);
      }
      r := Ok(Node(row));
    }

    method Update(exp: Experiment, updates: seq<NodeUpdate>, at: nat) returns (r: Result<Reply, MetaError>)
      modifies this`tables
      ensures Did(old(tables), UpdateNodes(exp, updates), at, r)
    {
      var missing := [];
      for i := 0 to |updates|
        invariant missing == Missing(tables.nodes, exp, updates[..i])
        invariant tables == old(tables)
      {
        assert updates[..i + 1][..i] == updates[..i];
        if (exp, updates[i].id) !in tables.nodes {
          missing := missing + [updates[i].id];
        }
      }
      assert updates[..|updates|] == updates;
      if missing != [] {
        return Err(MissingNodes(missing));
      }
      for i := 0 to |updates|
        invariant tables == old(tables).(nodes := AllUpdated(old(tables.nodes), exp, updates[..i], at))
      {
        assert updates[..i + 1][..i] == updates[..i];
        var u := updates[i];
        var key := (exp, u.id);
        if key in tables.nodes {
          tables := tables.(nodes := tables.nodes[key := Updated(tables.nodes[key], u, at)]);
        }
      }
      r := Ok(Count(at));
    }

    method Prune(top: Key, allowRoot: bool, at: nat) returns (r: Result<Reply, MetaError>)
      requires TreeInv(tables.nodes)
      modifies this`tables
      ensures Did(old(tables), PruneSubtree(top.0, top.1, allowRoot), at, r)
    {
      if top.1 == 0 && !allowRoot {
        return Err(PruneRootDenied);
      }
      if top !in tables.nodes {
        return Err(MissingNodes([top.1]));
      }
      var ks := CollectSubtree(tables.nodes, top);
      tables := tables.(nodes := MarkPruned(tables.nodes, ks, at));
      if top !in tables.tombstones {
        tables := tables.(tombstones := tables.tombstones[top := at]);
      }
      r := Ok(Count(|ks|));
    }

    method Reap(top: Key, at: nat) returns (r: Result<Reply, MetaError>)
      requires TreeInv(tables.nodes)
      modifies this`tables
      ensures Did(old(tables), ReapTombstone(top.0, top.1), at, r)
    {
      if top !in tables.nodes {
        return Ok(Count(0));
      }
      var ks := CollectSubtree(tables.nodes, top);
      if exists k :: k in ks && tables.nodes[k].status != Pruned {
        return Err(InvalidArgument);
      }
      tables := tables.(nodes := tables.nodes - ks);
      var used := Referencing(tables.nodes);
      tables := tables.(logs := map l | l in tables.logs && l in used :: tables.logs[l]);
      tables := tables.(tombstones := tables.tombstones - {top});
      r := Ok(Count(|ks|));
    }

    method PutKv(key: Bytes, value: Bytes, expected: Option<nat>, at: nat) returns (r: Result<Reply, MetaError>)
      modifies this`tables
      ensures Did(old(tables), PutMetadata(key, value, expected), at, r)
    {
      if |key| == 0 || |key| > KV_KEY_MAX || |value| > KV_VALUE_MAX {
        return Err(InvalidArgument);
      }
      var current := if key in tables.kv then tables.kv[key].generation else 0;
      match expected {
        case None =>
        case Some(g) =>
          if g == 0 && key in tables.kv {
            return Err(CasFailed(current));
          }
          if g != 0 && (key !in tables.kv || current != g) {
            return Err(CasFailed(current));
          }
      }
      tables := tables.(kv := tables.kv[key := KvRow(value, current + 1, at)]);
      r := Ok(Count(current + 1));
    }

    method DeleteKv(key: Bytes, expected: Option<nat>, at: nat) returns (r: Result<Reply, MetaError>)
      modifies this`tables
      ensures Did(old(tables), DeleteMetadata(key, expected), at, r)
    {
      if |key| == 0 || |key| > KV_KEY_MAX {
        return Err(InvalidArgument);
      }
      if key !in tables.kv {
        return Ok(Flag(false));
      }
      if expected.Some? && tables.kv[key].generation != expected.value {
        return Err(CasFailed(tables.kv[key].generation));
      }
      tables := tables.(kv := tables.kv - {key});
      r := Ok(Flag(true));
    }

    method Dispatch(c: Command, at: nat) returns (r: Result<Reply, MetaError>)
      requires TreeInv(tables.nodes)
      modifies this`tables
      ensures Did(old(tables), c, at, r)
    {
      match c {
        case CreateNode(p) => r := Create(p, at);
        case UpdateNodes(exp, updates) => r := Update(exp, updates, at);
        case PutInputLog(log, container) => r := PutLog(log, container, at);
        case PutMetadata(key, value, expected) => r := PutKv(key, value, expected, at);
        case DeleteMetadata(key, expected) => r := DeleteKv(key, expected, at);
        case Pin(snapshot, note) =>
          if snapshot !in tables.pins {
            tables := tables.(pins := tables.pins[snapshot := PinRow(note, at)]);
          }
          r := Ok(Done);
        case Unpin(snapshot) =>
          r := Ok(Flag(snapshot in tables.pins));
          tables := tables.(pins := tables.pins - {snapshot});
        case PruneSubtree(exp, id, allowRoot) => r := Prune((exp, id), allowRoot, at);
        case ReapTombstone(exp, id) => r := Reap((exp, id), at);
      }
    }

    /** One command in its savepoint: a failing one is rolled back and leaves nothing behind but the counter value it used. */
    method ExecuteOne(c: Command) returns (r: Result<Reply, MetaError>)
      requires Runs(exec, config) && TablesInv(tables, counter)
      modifies this`tables, this`counter
      ensures TablesInv(tables, counter) && counter == old(counter) + 1
      ensures tables == Stepped(exec, old(tables), c, old(counter))
      ensures r == Answer(exec, old(tables), c, old(counter))
      ensures r.Err? ==> tables == old(tables)
    {
      StepKeeps(exec, config, tables, c, counter);
      var savepoint := tables;
      var at := counter;
      counter := counter + 1;
      r := Dispatch(c, at);
      if r.Err? {
        tables := savepoint;
      }
    }

    /** The first `i` commands of a batch begun at tables `t` and counter `n` have run. */
    ghost predicate Ran(t: Tables, n: nat, batch: seq<Command>, i: nat, replies: seq<Result<Reply, MetaError>>)
      reads this
    {
      && i <= |batch| && counter == n + i && TablesInv(tables, counter)
      && tables == Replay(exec, t, n, batch[..i])
      && replies == Replies(exec, t, n, batch[..i])
    }

    method ExecuteNext(batch: seq<Command>, i: nat, replies: seq<Result<Reply, MetaError>>, ghost t: Tables, ghost n: nat)
      returns (more: seq<Result<Reply, MetaError>>)
      requires Runs(exec, config) && i < |batch| && Ran(t, n, batch, i, replies)
      modifies this`tables, this`counter
      ensures Ran(t, n, batch, i + 1, more)
    {
      ReplayNext(exec, t, n, batch, i);
      var r := ExecuteOne(batch[i]);
      more := replies + [r];
    }

    method ExecuteAll(batch: seq<Command>) returns (replies: seq<Result<Reply, MetaError>>)
      requires Runs(exec, config) && TablesInv(tables, counter)
      modifies this`tables, this`counter
      ensures Ran(old(tables), old(counter), batch, |batch|, replies)
    {
      replies := [];
      for i := 0 to |batch|
        invariant Ran(old(tables), old(counter), batch, i, replies)
      {
        replies := ExecuteNext(batch, i, replies, old(tables), old(counter));
      }
    }

    /** One transaction for the whole batch does what one transaction per command would. */
    method ExecuteBatch(batch: seq<Command>) returns (replies: seq<Result<Reply, MetaError>>)
      requires Valid()
      modifies this
      ensures Valid()
      ensures tables == Replay(exec, old(tables), old(counter), batch)
      ensures replies == Replies(exec, old(tables), old(counter), batch)
      ensures counter == old(counter) + |batch|
      ensures persisted == if batch == [] then old(persisted) else counter
    {
      LaterCounter(tables, persisted, counter);
      replies := ExecuteAll(batch);
      assert batch[..|batch|] == batch;
      if batch != [] {
        persisted := counter;
      }
    }

    /** After a kill: the tables are as last committed, and the counter starts above every stamp in them. */
    method Restart()
      requires Valid()
      modifies this`counter
      ensures Valid() && IsRederived(tables.nodes, persisted, counter) && counter == persisted + 1
    {
      counter := RederiveCounter(tables.nodes, persisted);
    }
  }

  // ── Batches against single commands ────────────────────────────────────

  /** Where a writer begun at `start` is after the first `i` batches. */
  ghost predicate AfterBatches(f: Exec, start: Database, batches: seq<seq<Command>>, i: nat, now: Database,
                               replies: seq<Result<Reply, MetaError>>) {
    && i <= |batches|
    && now.tables == BatchTables(f, start.tables, start.counter, batches[..i])
    && now.counter == start.counter + |Joined(batches[..i])|
    && now.persisted == (if Joined(batches[..i]) == [] then start.persisted else now.counter)
    && replies == BatchReplies(f, start.tables, start.counter, batches[..i])
  }

  method RunBatch(a: WriterActor, batches: seq<seq<Command>>, i: nat, replies: seq<Result<Reply, MetaError>>, ghost start: Database)
    returns (all: seq<Result<Reply, MetaError>>)
    requires a.Valid() && i < |batches| && AfterBatches(a.exec, start, batches, i, a.State(), replies)
    modifies a
    ensures a.Valid() && AfterBatches(a.exec, start, batches, i + 1, a.State(), all)
  {
    BatchesNext(a.exec, start.tables, start.counter, batches, i);
    var more := a.ExecuteBatch(batches[i]);
    all := replies + more;
  }

  method RunBatches(a: WriterActor, batches: seq<seq<Command>>) returns (replies: seq<Result<Reply, MetaError>>)
    requires a.Valid()
    modifies a
    ensures a.Valid() && AfterBatches(a.exec, old(a.State()), batches, |batches|, a.State(), replies)
  {
    ghost var start := a.State();
    replies := [];
    for i := 0 to |batches|
      invariant a.Valid() && AfterBatches(a.exec, start, batches, i, a.State(), replies)
    {
      replies := RunBatch(a, batches, i, replies, start);
    }
  }

  /** Where it is after the first `i` commands, one transaction each. */
  ghost predicate AfterSingles(f: Exec, start: Database, cs: seq<Command>, i: nat, now: Database,
                               replies: seq<Result<Reply, MetaError>>) {
    && i <= |cs|
    && now.tables == Replay(f, start.tables, start.counter, cs[..i])
    && now.counter == start.counter + i
    && now.persisted == (if i == 0 then start.persisted else now.counter)
    && replies == Replies(f, start.tables, start.counter, cs[..i])
  }

  method RunSingle(a: WriterActor, cs: seq<Command>, i: nat, replies: seq<Result<Reply, MetaError>>, ghost start: Database)
    returns (all: seq<Result<Reply, MetaError>>)
    requires a.Valid() && i < |cs| && AfterSingles(a.exec, start, cs, i, a.State(), replies)
    modifies a
    ensures a.Valid() && AfterSingles(a.exec, start, cs, i + 1, a.State(), all)
  {
    assert cs[..i + 1] == cs[..i] + [cs[i]];
    ReplaySplit(a.exec, start.tables, start.counter, cs[..i], [cs[i]]);
    var more := a.ExecuteBatch([cs[i]]);
    all := replies + more;
  }

  method RunSingles(a: WriterActor, cs: seq<Command>) returns (replies: seq<Result<Reply, MetaError>>)
    requires a.Valid()
    modifies a
    ensures a.Valid() && AfterSingles(a.exec, old(a.State()), cs, |cs|, a.State(), replies)
  {
    ghost var start := a.State();
    replies := [];
    for i := 0 to |cs|
      invariant a.Valid() && AfterSingles(a.exec, start, cs, i, a.State(), replies)
    {
      replies := RunSingle(a, cs, i, replies, start);
    }
  }

  /** Two writers in the same state are given the same stream, one in batches cut anywhere, the other one command at a
      time: savepoints, rollbacks and all, they end with the same tables, counters and replies. */
  method BatchesMatchSingles(a: WriterActor, b: WriterActor, batches: seq<seq<Command>>)
    returns (batched: seq<Result<Reply, MetaError>>, single: seq<Result<Reply, MetaError>>)
    requires a != b && a.Valid() && b.Valid() && a.config == b.config
    requires a.State() == b.State()
    modifies a, b
    ensures a.Valid() && b.Valid() && a.State() == b.State() && batched == single
  {
    assert batches[..|batches|] == batches && Joined(batches)[..|Joined(batches)|] == Joined(batches);
    BatchesJoin(a.exec, a.tables, a.counter, batches);
    SameExecutor(a.exec, b.exec, a.config, a.tables, a.counter, Joined(batches));
    batched := RunBatches(a, batches);
    single := RunSingles(b, Joined(batches));
  }
}
