/** Key-value pairs under compare-and-set, and stored input logs. */
module MetaKeys {
  import opened Base
  import opened MetaTables
  import opened MetaTree
  import opened MetaRuns

  predicate LegalKey(key: Bytes) { 1 <= |key| <= KV_KEY_MAX }

  /** Pairs are of legal size and their generations start at 1. */
  ghost predicate KvInv(t: Tables) {
    forall key :: key in t.kv ==> t.kv[key].generation >= 1 && LegalKey(key) && |t.kv[key].value| <= KV_VALUE_MAX
  }

  /** The body of every stored log hashes to its id. */
  ghost predicate LogsGenuine(config: Config, t: Tables) {
    forall l :: l in t.logs ==> Genuine(config, l, t.logs[l].content)
  }

  ghost predicate Genuine(config: Config, log: Digest, c: Bytes) {
    INPUT_LOG_MIN_BYTES <= |c| <= config.logMaxBytes && config.hash(c[..|c| - 32]) == log
  }

  ghost predicate StoredInv(config: Config, t: Tables) { KvInv(t) && LogsGenuine(config, t) }

  lemma CommandKeepsKv(config: Config, t: Tables, c: Command, counter: nat)
    requires KvInv(t)
    ensures KvInv(After(config, t, c, counter))
  {
    match c {
      case PutMetadata(key, value, expected) => PutIsExact(t, key, value, expected, counter);
      case DeleteMetadata(key, expected) => DeleteIsExact(t, key, expected);
      case _ => OtherCommandsKeepKv(config, t, c, counter);
    }
  }

  lemma OtherCommandsKeepKv(config: Config, t: Tables, c: Command, counter: nat)
    requires !c.PutMetadata? && !c.DeleteMetadata?
    ensures After(config, t, c, counter).kv == t.kv
  {
  }

  lemma InsertKeepsLogs(config: Config, t: Tables, log: Digest, container: Bytes, counter: nat)
    requires LogsGenuine(config, t) && LogError(config, log, container).None?
    ensures LogsGenuine(config, WithLog(t, log, container, counter))
  {
  }

  lemma CreateKeepsLogs(config: Config, t: Tables, p: NewNode, counter: nat)
    requires LogsGenuine(config, t) && CreateError(config, t, p).None?
    ensures LogsGenuine(config, WithInlineLog(config, t, p, counter))
  {
    if p.log.Some? && p.log.value !in t.logs {
      InsertKeepsLogs(config, t, p.log.value, p.inlineLog.value, counter);
    }
  }

  lemma CommandKeepsLogs(config: Config, t: Tables, c: Command, counter: nat)
    requires LogsGenuine(config, t)
    ensures LogsGenuine(config, After(config, t, c, counter))
  {
    match c {
      case CreateNode(p) =>
        if CreateError(config, t, p).None? {
          CreateKeepsLogs(config, t, p, counter);
        }
      case PutInputLog(log, container) =>
        if LogError(config, log, container).None? {
          InsertKeepsLogs(config, t, log, container, counter);
        }
      case ReapTombstone(exp, id) => ReapKeepsLogs(config, t, (exp, id));
      case _ => OtherCommandsKeepLogs(config, t, c, counter);
    }
  }

  lemma ReapKeepsLogs(config: Config, t: Tables, top: Key)
    requires LogsGenuine(config, t)
    ensures Reaped(t, top).Ok? ==> LogsGenuine(config, Reaped(t, top).value.0)
  {
  }

  lemma OtherCommandsKeepLogs(config: Config, t: Tables, c: Command, counter: nat)
    requires !c.CreateNode? && !c.PutInputLog? && !c.ReapTombstone?
    ensures After(config, t, c, counter).logs == t.logs
  {
  }

  lemma StepKeepsStored(f: Exec, config: Config, t: Tables, c: Command, counter: nat)
    requires Runs(f, config) && StoredInv(config, t)
    ensures StoredInv(config, Stepped(f, t, c, counter))
  {
    CommandKeepsKv(config, t, c, counter);
    CommandKeepsLogs(config, t, c, counter);
    assert f(t, c, counter) == Applied(config, t, c, counter);
  }

  /** Over every run of commands. */
  lemma {:induction false} ReplayKeepsStored(f: Exec, config: Config, t: Tables, counter: nat, cs: seq<Command>)
    requires Runs(f, config) && StoredInv(config, t)
    ensures StoredInv(config, Replay(f, t, counter, cs))
  {
    if cs != [] {
      var n := |cs| - 1;
      ReplayKeepsStored(f, config, t, counter, cs[..n]);
      StepKeepsStored(f, config, Replay(f, t, counter, cs[..n]), cs[n], counter + n);
    }
  }

  // ── What a caller gets ─────────────────────────────────────────────────

  /** A missing key has generation 0. */
  function Generation(t: Tables, key: Bytes): nat { if key in t.kv then t.kv[key].generation else 0 }

  /** A put is granted exactly for legal sizes and, where a generation is expected, that one: 0 for a key that must not
      exist. It then raises the generation by one, says so, and touches nothing else; refused, it says the current one. */
  lemma PutIsExact(t: Tables, key: Bytes, value: Bytes, expected: Option<nat>, counter: nat)
    requires KvInv(t)
    ensures var r, legal, g := MetadataPut(t, key, value, expected, counter), LegalKey(key) && |value| <= KV_VALUE_MAX, Generation(t, key);
      if legal && (expected.None? || expected.value == g) then
        r == Ok((t.(kv := t.kv[key := KvRow(value, g + 1, counter)]), Count(g + 1)))
      else r == Err(if legal then CasFailed(g) else InvalidArgument)
  {
  }

  /** A delete is refused only for an illegal key or a present one of another generation; it says whether the key was there,
      and leaves every other key alone. */
  lemma DeleteIsExact(t: Tables, key: Bytes, expected: Option<nat>)
    ensures var r, g := MetadataDeleted(t, key, expected), Generation(t, key);
      if LegalKey(key) && (key !in t.kv || expected.None? || expected.value == g) then
        r.Ok? && r.value.1 == Flag(key in t.kv) && r.value.0 == t.(kv := r.value.0.kv)
        && forall k :: (k in r.value.0.kv <==> k in t.kv && k != key) && (k in r.value.0.kv ==> r.value.0.kv[k] == t.kv[k])
      else r == Err(if LegalKey(key) then CasFailed(g) else InvalidArgument)
  {
  }

  /** A root is a node with id 0; a parent exists and is not pruned; a log is stored, or comes with the node and is genuine. */
  ghost predicate Admissible(config: Config, t: Tables, p: NewNode) {
    && (p.id == 0 <==> p.parent.None?)
    && (p.parent.Some? ==> (p.exp, p.parent.value) in t.nodes && t.nodes[(p.exp, p.parent.value)].status != Pruned)
    && (p.log.Some? ==> p.log.value in t.logs || (p.inlineLog.Some? && Genuine(config, p.log.value, p.inlineLog.value)))
  }

  /** The logs after a create: one that came with the node is stored unless it was there. */
  ghost predicate LogsWith(t: Tables, u: Tables, p: NewNode, counter: nat) {
    u.logs == if p.log.Some? && p.log.value !in t.logs && p.inlineLog.Some? && |p.inlineLog.value| >= 12
              then t.logs[p.log.value := LogRow(U32At(p.inlineLog.value, 8), p.inlineLog.value, counter)] else t.logs
  }

  /** A create is answered with `CreateRefusal` unless it is admissible. A new node's row holds what was sent, one level below
      the parent, with no visits and fresh stamps; an existing row is given back if parent, snapshot and log agree. */
  lemma CreateIsExact(config: Config, t: Tables, p: NewNode, counter: nat)
    requires TablesInv(t, counter)
    ensures var r, key := Created(config, t, p, counter), (p.exp, p.id);
      if !Admissible(config, t, p) then r == Err(CreateRefusal(config, t, p))
      else if key !in t.nodes then
        r.Ok? && var (u, reply) := r.value;
        var depth := if p.parent.Some? then t.nodes[(p.exp, p.parent.value)].depth + 1 else 0;
        var row := Row(p.parent, depth, p.snapshot, p.log, p.status, p.score, 0, p.icount, p.virtualNs, counter, counter, 0, p.attrs);
        && reply == Node(row) && u == t.(nodes := t.nodes[key := row], logs := u.logs) && LogsWith(t, u, p, counter)
      else if t.nodes[key].parent == p.parent && t.nodes[key].snapshot == p.snapshot && t.nodes[key].log == p.log then
        r == Ok((t, Node(t.nodes[key])))
      else r == Err(AlreadyExists)
  {
    if (p.exp, p.id) in t.nodes {
      assert RowInv(t.nodes, (p.exp, p.id));
    }
  }

  /** What a create that is not granted is answered with. */
  ghost function CreateRefusal(config: Config, t: Tables, p: NewNode): MetaError {
    if (p.id == 0) != p.parent.None? then InvalidArgument
    else if p.parent.Some? && !((p.exp, p.parent.value) in t.nodes && t.nodes[(p.exp, p.parent.value)].status != Pruned) then
      ParentNotFound
    else if p.inlineLog.None? then InvalidArgument
    else LogRefusal(config, p.inlineLog.value)
  }

  ghost function LogRefusal(config: Config, container: Bytes): MetaError {
    if |container| < 56 then LogTooSmall else if |container| > config.logMaxBytes then LogTooLarge else LogIdMismatch
  }

  /** A pin keeps its first note and stamp; an unpin says whether there was one. */
  lemma PinsAreExact(config: Config, t: Tables, snapshot: Digest, note: Option<string>, counter: nat)
    ensures var u := After(config, t, Pin(snapshot, note), counter);
      && Applied(config, t, Pin(snapshot, note), counter) == Ok((u, Done)) && u == t.(pins := u.pins)
      && u.pins.Keys == t.pins.Keys + {snapshot}
      && forall s :: s in u.pins ==> u.pins[s] == if s in t.pins then t.pins[s] else PinRow(note, counter)
    ensures var u := After(config, t, Unpin(snapshot), counter);
      && Applied(config, t, Unpin(snapshot), counter) == Ok((u, Flag(snapshot in t.pins)))
      && u == t.(pins := t.pins - {snapshot})
  {
  }

  /** A log is stored exactly if its size is in bounds and its body hashes to the id; a stored log is never replaced, and
      afterwards the id names a container whose body hashes to it. */
  lemma LogPutIsExact(config: Config, t: Tables, log: Digest, container: Bytes, counter: nat)
    requires LogsGenuine(config, t)
    ensures LogPut(config, t, log, container, counter).Ok? <==> Genuine(config, log, container)
    ensures LogPut(config, t, log, container, counter).Err? ==>
      LogPut(config, t, log, container, counter).error == LogRefusal(config, container)
    ensures LogPut(config, t, log, container, counter).Ok? ==>
      var (u, reply) := LogPut(config, t, log, container, counter).value;
      && reply == Flag(log !in t.logs) && u.logs.Keys == t.logs.Keys + {log} && u == t.(logs := u.logs)
      && (forall l :: l in t.logs ==> u.logs[l] == t.logs[l])
      && (log !in t.logs ==> u.logs[log] == LogRow(U32At(container, 8), container, counter))
      && Genuine(config, log, u.logs[log].content)
  {
  }

  // ── What a client can tell from its replies ────────────────────────────

  /** The value and generation of a key, read off the commands sent and the replies received: granted puts count up, a
      granted delete starts over. */
  function Recalled(before: Option<(Bytes, nat)>, cs: seq<Command>, rs: seq<Result<Reply, MetaError>>, key: Bytes): Option<(Bytes, nat)>
    requires |cs| == |rs|
  {
    if cs == [] then before
    else
      var n := |cs| - 1;
      var known := Recalled(before, cs[..n], rs[..n], key);
      if cs[n].PutMetadata? && cs[n].key == key && rs[n].Ok? then
        Some((cs[n].value, (if known.Some? then known.value.1 else 0) + 1))
      else if cs[n].DeleteMetadata? && cs[n].key == key && rs[n].Ok? then None
      else known
  }

  function Held(t: Tables, key: Bytes): Option<(Bytes, nat)> {
    if key in t.kv then Some((t.kv[key].value, t.kv[key].generation)) else None
  }

  lemma StepIsRecalled(f: Exec, config: Config, t: Tables, c: Command, counter: nat, key: Bytes)
    requires Runs(f, config) && KvInv(t)
    ensures Held(Stepped(f, t, c, counter), key) == Recalled(Held(t, key), [c], [Answer(f, t, c, counter)], key)
  {
    assert f(t, c, counter) == Applied(config, t, c, counter);
    match c {
      case PutMetadata(k, value, expected) => PutIsExact(t, k, value, expected, counter);
      case DeleteMetadata(k, expected) => DeleteIsExact(t, k, expected);
      case _ => OtherCommandsKeepKv(config, t, c, counter);
    }
  }

  lemma RecalledNext(before: Option<(Bytes, nat)>, cs: seq<Command>, rs: seq<Result<Reply, MetaError>>, c: Command,
                     r: Result<Reply, MetaError>, key: Bytes)
    requires |cs| == |rs|
    ensures Recalled(before, cs + [c], rs + [r], key) == Recalled(Recalled(before, cs, rs, key), [c], [r], key)
  {
    assert (cs + [c])[..|cs|] == cs && (rs + [r])[..|rs|] == rs;
    assert [c][..0] == [] && [r][..0] == [];
  }

  lemma OneMoreRecalled(f: Exec, config: Config, t: Tables, counter: nat, cs: seq<Command>, c: Command, key: Bytes)
    requires Runs(f, config) && KvInv(Replay(f, t, counter, cs)) && |Replies(f, t, counter, cs)| == |cs|
    requires Held(Replay(f, t, counter, cs), key) == Recalled(Held(t, key), cs, Replies(f, t, counter, cs), key)
    ensures |Replies(f, t, counter, cs + [c])| == |cs + [c]|
    ensures Held(Replay(f, t, counter, cs + [c]), key)
      == Recalled(Held(t, key), cs + [c], Replies(f, t, counter, cs + [c]), key)
  {
    var u, n := Replay(f, t, counter, cs), counter + |cs|;
    StepIsRecalled(f, config, u, c, n, key);
    RecalledNext(Held(t, key), cs, Replies(f, t, counter, cs), c, Answer(f, u, c, n), key);
    assert (cs + [c])[..|cs|] == cs;
  }

  /** Over every run, what the table holds for a key is what its clients' replies say: the value of the last granted put
      since the last granted delete, at a generation that counts those puts. */
  lemma {:induction false} KeysAreAsReplied(f: Exec, config: Config, t: Tables, counter: nat, cs: seq<Command>, key: Bytes)
    requires Runs(f, config) && StoredInv(config, t)
    ensures |Replies(f, t, counter, cs)| == |cs|
    ensures Held(Replay(f, t, counter, cs), key) == Recalled(Held(t, key), cs, Replies(f, t, counter, cs), key)
  {
    if cs != [] {
      var front, c := cs[..|cs| - 1], cs[|cs| - 1];
      KeysAreAsReplied(f, config, t, counter, front, key);
      ReplayKeepsStored(f, config, t, counter, front);
      OneMoreRecalled(f, config, t, counter, front, c, key);
      assert front + [c] == cs;
    }
  }

  // ── Logs leave only by a reap ──────────────────────────────────────────

  /** Command `i` of the run is a reap that leaves no row naming the log. */
  ghost predicate ReapsAt(f: Exec, t: Tables, counter: nat, cs: seq<Command>, i: nat, log: Digest) {
    i < |cs| && cs[i].ReapTombstone? && !Referenced(Replay(f, t, counter, cs[..i + 1]).nodes, log)
  }

  ghost predicate Reaps(f: Exec, t: Tables, counter: nat, cs: seq<Command>, log: Digest) {
    exists i :: ReapsAt(f, t, counter, cs, i, log)
  }

  lemma StepKeepsLog(f: Exec, config: Config, t: Tables, c: Command, counter: nat, log: Digest)
    requires Runs(f, config) && log in t.logs
    ensures var u := Stepped(f, t, c, counter);
      (log in u.logs && u.logs[log] == t.logs[log]) || (c.ReapTombstone? && !Referenced(u.nodes, log))
  {
    assert f(t, c, counter) == Applied(config, t, c, counter);
    if !c.ReapTombstone? {
      if !c.CreateNode? && !c.PutInputLog? {
        OtherCommandsKeepLogs(config, t, c, counter);
      }
    }
  }

  lemma {:induction false} PrefixKeepsLog(f: Exec, config: Config, t: Tables, counter: nat, cs: seq<Command>, n: nat, log: Digest)
    requires Runs(f, config) && log in t.logs && n <= |cs| && !Reaps(f, t, counter, cs, log)
    ensures var u := Replay(f, t, counter, cs[..n]); log in u.logs && u.logs[log] == t.logs[log]
  {
    if n > 0 {
      PrefixKeepsLog(f, config, t, counter, cs, n - 1, log);
      ReplayNext(f, t, counter, cs, n - 1);
      assert !ReapsAt(f, t, counter, cs, n - 1, log);
      StepKeepsLog(f, config, Replay(f, t, counter, cs[..n - 1]), cs[n - 1], counter + n - 1, log);
    }
  }

  /** Over every run, a stored log keeps its bytes unless some reap leaves no row that names it. */
  lemma LogsLeaveByReap(f: Exec, config: Config, t: Tables, counter: nat, cs: seq<Command>, log: Digest)
    requires Runs(f, config) && log in t.logs
    ensures var u := Replay(f, t, counter, cs);
      (log in u.logs && u.logs[log] == t.logs[log]) || Reaps(f, t, counter, cs, log)
  {
    if !Reaps(f, t, counter, cs, log) {
      PrefixKeepsLog(f, config, t, counter, cs, |cs|, log);
      assert cs[..|cs|] == cs;
    }
  }

  /** A granted reap of an existing row takes every log that no row left behind names, whoever uploaded it. */
  lemma ReapTakesUnnamedLogs(f: Exec, config: Config, t: Tables, counter: nat, top: Key, log: Digest)
    requires Runs(f, config) && TablesInv(t, counter) && top in t.nodes && log in t.logs
    requires Answer(f, t, ReapTombstone(top.0, top.1), counter).Ok?
    ensures var u := Stepped(f, t, ReapTombstone(top.0, top.1), counter);
      u.nodes == t.nodes - Subtree(t.nodes, top) && (log in u.logs <==> Referenced(u.nodes, log))
  {
    var c := ReapTombstone(top.0, top.1);
    assert f(t, c, counter) == Applied(config, t, c, counter);
    ReapIsExact(config, t, top, counter);
  }

  function Root(exp: Experiment, log: Option<Digest>): NewNode {
    NewNode(exp, 0, None, Zeros(32), log, None, Frontier, None, 0, 0, None)
  }

  const NO_TABLES: Tables := Tables(map[], map[], map[], map[], map[])

  /** One experiment with a pruned root, and a log uploaded ahead of its node in another. */
  function UploadedAhead(other: Experiment, log: Digest, container: Bytes): seq<Command> {
    [CreateNode(Root(other, None)), PruneSubtree(other, 0, true), PutInputLog(log, container)]
  }

  ghost predicate Waiting(t: Tables, other: Experiment, log: Digest) {
    && t.nodes.Keys == {(other, 0)} && log in t.logs
    && t.nodes[(other, 0)].parent.None? && t.nodes[(other, 0)].log.None? && t.nodes[(other, 0)].status == Pruned
  }

  lemma OneByOne(f: Exec, t: Tables, counter: nat, a: Command, b: Command, c: Command)
    ensures Replay(f, t, counter, [a, b, c])
      == Stepped(f, Stepped(f, Stepped(f, t, a, counter), b, counter + 1), c, counter + 2)
  {
    assert [a, b, c][..2] == [a, b] && [a, b][..1] == [a] && [a][..0] == [];
    assert Replay(f, t, counter, [a]) == Stepped(f, t, a, counter);
    assert Replay(f, t, counter, [a, b]) == Stepped(f, Stepped(f, t, a, counter), b, counter + 1);
  }

  lemma AheadLogWaits(f: Exec, config: Config, other: Experiment, log: Digest, container: Bytes)
    requires Runs(f, config) && Genuine(config, log, container)
    ensures Waiting(Replay(f, NO_TABLES, 1, UploadedAhead(other, log, container)), other, log)
  {
    var a, b, c := CreateNode(Root(other, None)), PruneSubtree(other, 0, true), PutInputLog(log, container);
    var t1 := Stepped(f, NO_TABLES, a, 1);
    assert f(NO_TABLES, a, 1) == Applied(config, NO_TABLES, a, 1);
    assert t1.nodes == map[(other, 0) := FreshRow(NO_TABLES, Root(other, None), 1)];
    var t2 := Stepped(f, t1, b, 2);
    assert f(t1, b, 2) == Applied(config, t1, b, 2);
    assert Under(t1.nodes, (other, 0), (other, 0));
    assert f(t2, c, 3) == Applied(config, t2, c, 3);
    OneByOne(f, NO_TABLES, 1, a, b, c);
  }

  lemma NamingNeedsTheLog(f: Exec, config: Config, t: Tables, counter: nat, exp: Experiment, log: Digest)
    requires Runs(f, config) && (exp, 0) !in t.nodes
    ensures Answer(f, t, CreateNode(Root(exp, Some(log))), counter).Ok? <==> log in t.logs
  {
    var c := CreateNode(Root(exp, Some(log)));
    assert f(t, c, counter) == Applied(config, t, c, counter);
  }

  lemma WaitingIsReaped(f: Exec, config: Config, t: Tables, counter: nat, other: Experiment, log: Digest)
    requires Runs(f, config) && TablesInv(t, counter) && Waiting(t, other, log)
    ensures var u := Stepped(f, t, ReapTombstone(other, 0), counter); u.nodes == map[] && log !in u.logs
  {
    var c := ReapTombstone(other, 0);
    assert f(t, c, counter) == Applied(config, t, c, counter);
    assert Subtree(t.nodes, (other, 0)) == {(other, 0)};
    ReapTakesUnnamedLogs(f, config, t, counter, (other, 0), log);
  }

  /** From empty tables: the node would be created, unless the other experiment's root is reaped first; then its log is gone
      and the node is refused. */
  lemma AheadLogIsLost(f: Exec, config: Config, exp: Experiment, other: Experiment, log: Digest, container: Bytes)
    requires Runs(f, config) && Genuine(config, log, container) && exp != other
    ensures var cs, node := UploadedAhead(other, log, container), CreateNode(Root(exp, Some(log)));
      && Answer(f, Replay(f, NO_TABLES, 1, cs), node, 4).Ok?
      && Answer(f, Replay(f, NO_TABLES, 1, cs + [ReapTombstone(other, 0)]), node, 5).Err?
  {
    var cs, reap := UploadedAhead(other, log, container), ReapTombstone(other, 0);
    AheadLogWaits(f, config, other, log, container);
    ReplayKeeps(f, config, NO_TABLES, 1, cs);
    var t := Replay(f, NO_TABLES, 1, cs);
    NamingNeedsTheLog(f, config, t, 4, exp, log);
    WaitingIsReaped(f, config, t, 4, other, log);
    assert (cs + [reap])[..3] == cs;
    assert Replay(f, NO_TABLES, 1, cs + [reap]) == Stepped(f, t, reap, 4);
    NamingNeedsTheLog(f, config, Stepped(f, t, reap, 4), 5, exp, log);
  }

  // ── Compare-and-set ────────────────────────────────────────────────────

  /** Command `i` of the run deletes the key, and the key was there. */
  ghost predicate DeletesAt(f: Exec, t: Tables, counter: nat, cs: seq<Command>, i: nat, key: Bytes) {
    && i < |cs| && cs[i].DeleteMetadata? && cs[i].key == key
    && Answer(f, Replay(f, t, counter, cs[..i]), cs[i], counter + i) == Ok(Flag(true))
  }

  ghost predicate Deletes(f: Exec, t: Tables, counter: nat, cs: seq<Command>, key: Bytes) {
    exists i :: DeletesAt(f, t, counter, cs, i, key)
  }

  lemma OnlyDeletesLower(f: Exec, config: Config, t: Tables, c: Command, counter: nat, key: Bytes)
    requires Runs(f, config)
    ensures || Generation(Stepped(f, t, c, counter), key) >= Generation(t, key)
            || (c.DeleteMetadata? && c.key == key && Answer(f, t, c, counter) == Ok(Flag(true)))
  {
    assert f(t, c, counter) == Applied(config, t, c, counter);
  }

  lemma {:induction false} RunLowersOnlyByDelete(f: Exec, config: Config, t: Tables, counter: nat, cs: seq<Command>, n: nat, key: Bytes)
    requires Runs(f, config) && n <= |cs| && !Deletes(f, t, counter, cs, key)
    ensures Generation(Replay(f, t, counter, cs[..n]), key) >= Generation(t, key)
  {
    if n > 0 {
      RunLowersOnlyByDelete(f, config, t, counter, cs, n - 1, key);
      ReplayNext(f, t, counter, cs, n - 1);
      assert !DeletesAt(f, t, counter, cs, n - 1, key);
      OnlyDeletesLower(f, config, Replay(f, t, counter, cs[..n - 1]), cs[n - 1], counter + n - 1, key);
    }
  }

  lemma FirstPut(f: Exec, config: Config, t: Tables, counter: nat, key: Bytes, v: Bytes, g: nat)
    requires Runs(f, config) && StoredInv(config, t) && Answer(f, t, PutMetadata(key, v, Some(g)), counter).Ok?
    ensures var t1 := Stepped(f, t, PutMetadata(key, v, Some(g)), counter);
      LegalKey(key) && |v| <= KV_VALUE_MAX && Generation(t1, key) == g + 1 && StoredInv(config, t1)
  {
    PutAnswer(f, config, t, counter, key, v, g);
    StepKeepsStored(f, config, t, PutMetadata(key, v, Some(g)), counter);
  }

  lemma PutAnswer(f: Exec, config: Config, t: Tables, counter: nat, key: Bytes, v: Bytes, g: nat)
    requires Runs(f, config) && KvInv(t)
    ensures Answer(f, t, PutMetadata(key, v, Some(g)), counter).Ok? <==>
      LegalKey(key) && |v| <= KV_VALUE_MAX && Generation(t, key) == g
    ensures Answer(f, t, PutMetadata(key, v, Some(g)), counter).Ok? ==>
      Generation(Stepped(f, t, PutMetadata(key, v, Some(g)), counter), key) == g + 1
  {
    var c := PutMetadata(key, v, Some(g));
    assert f(t, c, counter) == Applied(config, t, c, counter);
    PutIsExact(t, key, v, Some(g), counter);
  }

  lemma SecondPut(f: Exec, config: Config, t: Tables, counter: nat, key: Bytes, g: nat, w: Bytes, cs: seq<Command>)
    requires Runs(f, config) && StoredInv(config, t) && LegalKey(key) && Generation(t, key) == g + 1
    ensures var u := Replay(f, t, counter, cs);
      var granted := Answer(f, u, PutMetadata(key, w, Some(g)), counter + |cs|).Ok?;
      && (granted <==> |w| <= KV_VALUE_MAX && Generation(u, key) == g)
      && (granted ==> Deletes(f, t, counter, cs, key))
  {
    ReplayKeepsStored(f, config, t, counter, cs);
    PutAnswer(f, config, Replay(f, t, counter, cs), counter + |cs|, key, w, g);
    if !Deletes(f, t, counter, cs, key) {
      RunLowersOnlyByDelete(f, config, t, counter, cs, |cs|, key);
      assert cs[..|cs|] == cs;
    }
  }

  /** After a put that expected generation `g` was granted, a second one expecting `g` is granted, whatever ran in between,
      if and only if its value is of legal size and the key is back at `g`; and that takes a granted delete of the key. */
  lemma CasAdmitsOne(f: Exec, config: Config, t: Tables, counter: nat, key: Bytes, g: nat, v: Bytes, w: Bytes, cs: seq<Command>)
    requires Runs(f, config) && StoredInv(config, t)
    requires Answer(f, t, PutMetadata(key, v, Some(g)), counter).Ok?
    ensures var t1 := Stepped(f, t, PutMetadata(key, v, Some(g)), counter);
      var u := Replay(f, t1, counter + 1, cs);
      var granted := Answer(f, u, PutMetadata(key, w, Some(g)), counter + 1 + |cs|).Ok?;
      && (granted <==> |w| <= KV_VALUE_MAX && Generation(u, key) == g)
      && (granted ==> Deletes(f, t1, counter + 1, cs, key))
  {
    FirstPut(f, config, t, counter, key, v, g);
    SecondPut(f, config, Stepped(f, t, PutMetadata(key, v, Some(g)), counter), counter + 1, key, g, w, cs);
  }

  function Repeated(c: Command, n: nat): seq<Command> { seq(n, _ => c) }

  lemma {:induction false} PutsCount(f: Exec, config: Config, t: Tables, counter: nat, key: Bytes, v: Bytes, n: nat)
    requires Runs(f, config) && KvInv(t) && LegalKey(key) && |v| <= KV_VALUE_MAX
    ensures Generation(Replay(f, t, counter, Repeated(PutMetadata(key, v, None), n)), key) == Generation(t, key) + n
    ensures KvInv(Replay(f, t, counter, Repeated(PutMetadata(key, v, None), n)))
  {
    if n > 0 {
      var c := PutMetadata(key, v, None);
      PutsCount(f, config, t, counter, key, v, n - 1);
      assert Repeated(c, n)[..n - 1] == Repeated(c, n - 1);
      var u, at := Replay(f, t, counter, Repeated(c, n - 1)), counter + n - 1;
      assert f(u, c, at) == Applied(config, u, c, at);
      PutIsExact(u, key, v, None, at);
    }
  }

  /** Delete the key, then put it `n` times. */
  function Refill(key: Bytes, v: Bytes, n: nat): seq<Command> {
    [DeleteMetadata(key, None)] + Repeated(PutMetadata(key, v, None), n)
  }

  lemma RefillCounts(f: Exec, config: Config, t: Tables, counter: nat, key: Bytes, v: Bytes, n: nat)
    requires Runs(f, config) && StoredInv(config, t) && LegalKey(key) && |v| <= KV_VALUE_MAX
    ensures var u := Replay(f, t, counter, Refill(key, v, n)); KvInv(u) && Generation(u, key) == n
  {
    var d, puts := DeleteMetadata(key, None), Repeated(PutMetadata(key, v, None), n);
    var u := Stepped(f, t, d, counter);
    assert f(t, d, counter) == Applied(config, t, d, counter);
    StepKeepsStored(f, config, t, d, counter);
    assert [d][..0] == [];
    assert Replay(f, t, counter, [d]) == u;
    ReplaySplit(f, t, counter, [d], puts);
    PutsCount(f, config, u, counter + 1, key, v, n);
  }

  /** For every generation there is such a run: after a put expecting `g`, delete the key and put it `g` times, and a second
      put expecting `g` is granted. */
  lemma CasAfterDelete(f: Exec, config: Config, t: Tables, counter: nat, key: Bytes, g: nat, v: Bytes, w: Bytes)
    requires Runs(f, config) && StoredInv(config, t) && |w| <= KV_VALUE_MAX
    requires Answer(f, t, PutMetadata(key, v, Some(g)), counter).Ok?
    ensures var t1 := Stepped(f, t, PutMetadata(key, v, Some(g)), counter);
      Answer(f, Replay(f, t1, counter + 1, Refill(key, v, g)), PutMetadata(key, w, Some(g)), counter + g + 2).Ok?
  {
    FirstPut(f, config, t, counter, key, v, g);
    var t1 := Stepped(f, t, PutMetadata(key, v, Some(g)), counter);
    RefillCounts(f, config, t1, counter + 1, key, v, g);
    PutAnswer(f, config, Replay(f, t1, counter + 1, Refill(key, v, g)), counter + g + 2, key, w, g);
  }
}
