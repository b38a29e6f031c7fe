/** The metadata tables and what each write command does to them. */
module MetaTables {
  import opened Base

  type Experiment = string
  type NodeId = nat
  type Key = (Experiment, NodeId)

  const INPUT_LOG_MIN_BYTES := 56
  const KV_KEY_MAX := 512
  const KV_VALUE_MAX := 16777216

  datatype Status = Frontier | Expanded | Pruned | Goal

  datatype Row = Row(
    parent: Option<NodeId>,
    depth: nat,
    snapshot: Digest,
    log: Option<Digest>,
    status: Status,
    score: Option<real>,
    visits: int,
    icount: U64,
    virtualNs: U64,
    createdAt: nat,
    updatedAt: nat,
    visitedAt: nat,
    attrs: Option<Bytes>)

  datatype LogRow = LogRow(version: U32, content: Bytes, createdAt: nat)
  datatype KvRow = KvRow(value: Bytes, generation: nat, updatedAt: nat)
  datatype PinRow = PinRow(note: Option<string>, createdAt: nat)

  datatype Tables = Tables(
    nodes: map<Key, Row>,
    logs: map<Digest, LogRow>,
    kv: map<Bytes, KvRow>,
    pins: map<Digest, PinRow>,
    tombstones: map<Key, nat>)

  datatype NewNode = NewNode(
    exp: Experiment,
    id: NodeId,
    parent: Option<NodeId>,
    snapshot: Digest,
    log: Option<Digest>,
    inlineLog: Option<Bytes>,
    status: Status,
    score: Option<real>,
    icount: U64,
    virtualNs: U64,
    attrs: Option<Bytes>)

  datatype NodeUpdate = NodeUpdate(
    id: NodeId,
    status: Option<Status>,
    score: Option<real>,
    attrs: Option<Bytes>,
    visitDelta: int,
    touch: bool,
    icount: Option<U64>,
    virtualNs: Option<U64>)

  datatype Command =
    | CreateNode(node: NewNode)
    | UpdateNodes(exp: Experiment, updates: seq<NodeUpdate>)
    | PutInputLog(log: Digest, container: Bytes)
    | PutMetadata(key: Bytes, value: Bytes, expected: Option<nat>)
    | DeleteMetadata(key: Bytes, expected: Option<nat>)
    | Pin(snapshot: Digest, note: Option<string>)
    | Unpin(snapshot: Digest)
    | PruneSubtree(exp: Experiment, id: NodeId, allowRoot: bool)
    | ReapTombstone(exp: Experiment, id: NodeId)

  datatype MetaError =
    | InvalidArgument
    | ParentNotFound
    | AlreadyExists
    | MissingNodes(ids: seq<NodeId>)
    | LogTooSmall
    | LogTooLarge
    | LogIdMismatch
    | CasFailed(current: nat)
    | PruneRootDenied

  datatype Reply = Node(row: Row) | Count(n: nat) | Flag(b: bool) | Done

  /** The tables after a command and its reply, or the error it is refused with. */
  type Outcome = Result<(Tables, Reply), MetaError>

  /** The hash function and the configured log size limit. */
  datatype Config = Config(hash: Blake3, logMaxBytes: nat)

  // ── Nodes ──────────────────────────────────────────────────────────────

  function LogError(config: Config, log: Digest, container: Bytes): Option<MetaError> {
    if |container| < INPUT_LOG_MIN_BYTES then Some(LogTooSmall)
    else if |container| > config.logMaxBytes then Some(LogTooLarge)
    else if config.hash(container[..|container| - 32]) != log then Some(LogIdMismatch)
    else None
  }

  /** Insert a log unless one with this id is present. */
  function WithLog(t: Tables, log: Digest, container: Bytes, counter: nat): Tables
    requires |container| >= 12
  {
    if log in t.logs then t else t.(logs := t.logs[log := LogRow(U32At(container, 8), container, counter)])
  }

  /** What the root rule, the parent and the inline log have against a new node. */
  function CreateError(config: Config, t: Tables, p: NewNode): Option<MetaError> {
    if p.id == 0 && p.parent.Some? then Some(InvalidArgument)
    else if p.id != 0 && p.parent.None? then Some(InvalidArgument)
    else if p.parent.Some? && (p.exp, p.parent.value) !in t.nodes then Some(ParentNotFound)
    else if p.parent.Some? && t.nodes[(p.exp, p.parent.value)].status == Pruned then Some(ParentNotFound)
    else if p.log.Some? && p.log.value !in t.logs then
      (if p.inlineLog.None? then Some(InvalidArgument) else LogError(config, p.log.value, p.inlineLog.value))
    else None
  }

  function FreshRow(t: Tables, p: NewNode, counter: nat): Row
    requires p.parent.Some? ==> (p.exp, p.parent.value) in t.nodes
  {
    var depth := if p.parent.Some? then t.nodes[(p.exp, p.parent.value)].depth + 1 else 0;
    Row(p.parent, depth, p.snapshot, p.log, p.status, p.score, 0, p.icount, p.virtualNs, counter, counter, 0, p.attrs)
  }

  function WithInlineLog(config: Config, t: Tables, p: NewNode, counter: nat): Tables
    requires CreateError(config, t, p).None?
  {
    if p.log.Some? && p.log.value !in t.logs then WithLog(t, p.log.value, p.inlineLog.value, counter) else t
  }

  /** Creating a node again with the same parent, snapshot and log is not an error and changes no row. */
  function Created(config: Config, t: Tables, p: NewNode, counter: nat): Outcome {
    var e := CreateError(config, t, p);
    if e.Some? then Err(e.value)
    else
      var t1 := WithInlineLog(config, t, p, counter);
      var key := (p.exp, p.id);
      if key !in t.nodes then
        var row := FreshRow(t, p, counter);
        Ok((t1.(nodes := t.nodes[key := row]), Node(row)))
      else
        var row := t.nodes[key];
        if row.parent == p.parent && row.snapshot == p.snapshot && row.log == p.log then Ok((t1, Node(row)))
        else Err(AlreadyExists)
  }

  function Updated(row: Row, u: NodeUpdate, counter: nat): Row {
    row.(
      updatedAt := counter,
      status := if u.status.Some? then u.status.value else row.status,
      score := if u.score.Some? then u.score else row.score,
      attrs := if u.attrs.Some? then u.attrs else row.attrs,
      visits := row.visits + u.visitDelta,
      visitedAt := if u.touch then counter else row.visitedAt,
      icount := if u.icount.Some? then u.icount.value else row.icount,
      virtualNs := if u.virtualNs.Some? then u.virtualNs.value else row.virtualNs)
  }

  function Missing(nodes: map<Key, Row>, exp: Experiment, updates: seq<NodeUpdate>): seq<NodeId> {
    if updates == [] then []
    else
      var rest := Missing(nodes, exp, updates[..|updates| - 1]);
      var id := updates[|updates| - 1].id;
      if (exp, id) in nodes then rest else rest + [id]
  }

  /** Apply updates in order; an id not present is skipped. */
  function AllUpdated(nodes: map<Key, Row>, exp: Experiment, updates: seq<NodeUpdate>, counter: nat): map<Key, Row> {
    if updates == [] then nodes
    else
      var before := AllUpdated(nodes, exp, updates[..|updates| - 1], counter);
      var u := updates[|updates| - 1];
      if (exp, u.id) in before then before[(exp, u.id) := Updated(before[(exp, u.id)], u, counter)] else before
  }

  function UpdatedAll(t: Tables, exp: Experiment, updates: seq<NodeUpdate>, counter: nat): Outcome {
    var missing := Missing(t.nodes, exp, updates);
    if missing != [] then Err(MissingNodes(missing))
    else Ok((t.(nodes := AllUpdated(t.nodes, exp, updates, counter)), Count(counter)))
  }

  // ── Subtrees ───────────────────────────────────────────────────────────

  /** `k` is a child of `j`. */
  predicate ChildOf(nodes: map<Key, Row>, k: Key, j: Key) {
    k in nodes && k.0 == j.0 && nodes[k].parent == Some(j.1)
  }

  /** `k` lies under `top`. Depths fall along parent links, which is what ends the walk. */
  predicate Under(nodes: map<Key, Row>, k: Key, top: Key)
    decreases if k in nodes then nodes[k].depth else 0
  {
    && k in nodes
    && (|| k == top
        || (nodes[k].parent.Some?
            && var up := (k.0, nodes[k].parent.value);
            up in nodes && nodes[up].depth < nodes[k].depth && Under(nodes, up, top)))
  }

  function Subtree(nodes: map<Key, Row>, top: Key): set<Key> {
    set k | k in nodes && Under(nodes, k, top)
  }

  function MarkPruned(nodes: map<Key, Row>, ks: set<Key>, counter: nat): map<Key, Row> {
    map k | k in nodes :: if k in ks then nodes[k].(status := Pruned, updatedAt := counter) else nodes[k]
  }

  function PrunedSubtree(t: Tables, top: Key, allowRoot: bool, counter: nat): Outcome {
    if top.1 == 0 && !allowRoot then Err(PruneRootDenied)
    else if top !in t.nodes then Err(MissingNodes([top.1]))
    else
      var ks := Subtree(t.nodes, top);
      Ok((t.(nodes := MarkPruned(t.nodes, ks, counter),
             tombstones := if top in t.tombstones then t.tombstones else t.tombstones[top := counter]),
          Count(|ks|)))
  }

  ghost predicate Referenced(nodes: map<Key, Row>, log: Digest) {
    exists k :: k in nodes && nodes[k].log == Some(log)
  }

  function Referencing(nodes: map<Key, Row>): set<Digest> {
    set k | k in nodes && nodes[k].log.Some? :: nodes[k].log.value
  }

  /** Delete a subtree all of whose rows are pruned, every log no row names any more, and the tombstone. */
  function Reaped(t: Tables, top: Key): Outcome {
    if top !in t.nodes then Ok((t, Count(0)))
    else
      var ks := Subtree(t.nodes, top);
      if exists k :: k in ks && t.nodes[k].status != Pruned then Err(InvalidArgument)
      else
        var left := t.nodes - ks;
        var used := Referencing(left);
        Ok((t.(nodes := left, logs := map l | l in t.logs && l in used :: t.logs[l], tombstones := t.tombstones - {top}),
            Count(|ks|)))
  }

  // ── Logs, key-value pairs and pins ─────────────────────────────────────

  function LogPut(config: Config, t: Tables, log: Digest, container: Bytes, counter: nat): Outcome {
    var e := LogError(config, log, container);
    if e.Some? then Err(e.value) else Ok((WithLog(t, log, container, counter), Flag(log !in t.logs)))
  }

  function MetadataPut(t: Tables, key: Bytes, value: Bytes, expected: Option<nat>, counter: nat): Outcome {
    if |key| == 0 || |key| > KV_KEY_MAX || |value| > KV_VALUE_MAX then Err(InvalidArgument)
    else
      var current := if key in t.kv then t.kv[key].generation else 0;
      if expected.Some? && expected.value == 0 then
        // create only
        if key in t.kv then Err(CasFailed(current)) else Ok((t.(kv := t.kv[key := KvRow(value, 1, counter)]), Count(1)))
      else if expected.Some? && (key !in t.kv || current != expected.value) then Err(CasFailed(current))
      else Ok((t.(kv := t.kv[key := KvRow(value, current + 1, counter)]), Count(current + 1)))
  }

  function MetadataDeleted(t: Tables, key: Bytes, expected: Option<nat>): Outcome {
    if |key| == 0 || |key| > KV_KEY_MAX then Err(InvalidArgument)
    else if key !in t.kv then Ok((t, Flag(false)))
    else if expected.Some? && t.kv[key].generation != expected.value then Err(CasFailed(t.kv[key].generation))
    else Ok((t.(kv := t.kv - {key}), Flag(true)))
  }

  function Pinned(t: Tables, snapshot: Digest, note: Option<string>, counter: nat): Outcome {
    Ok((if snapshot in t.pins then t else t.(pins := t.pins[snapshot := PinRow(note, counter)]), Done))
  }

  function Unpinned(t: Tables, snapshot: Digest): Outcome {
    Ok((t.(pins := t.pins - {snapshot}), Flag(snapshot in t.pins)))
  }

  /** One command, all or nothing. */
  function Applied(config: Config, t: Tables, c: Command, counter: nat): Outcome {
    match c
    case CreateNode(p) => Created(config, t, p, counter)
    case UpdateNodes(exp, updates) => UpdatedAll(t, exp, updates, counter)
    case PutInputLog(log, container) => LogPut(config, t, log, container, counter)
    case PutMetadata(key, value, expected) => MetadataPut(t, key, value, expected, counter)
    case DeleteMetadata(key, expected) => MetadataDeleted(t, key, expected)
    case Pin(snapshot, note) => Pinned(t, snapshot, note, counter)
    case Unpin(snapshot) => Unpinned(t, snapshot)
    case PruneSubtree(exp, id, allowRoot) => PrunedSubtree(t, (exp, id), allowRoot, counter)
    case ReapTombstone(exp, id) => Reaped(t, (exp, id))
  }

  function After(config: Config, t: Tables, c: Command, counter: nat): Tables {
    var r := Applied(config, t, c, counter);
    if r.Ok? then r.value.0 else t
  }
}
