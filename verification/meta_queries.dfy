/** Read queries over the node table: the path to a node, filters and pages. */
module MetaQueries {
  import opened Base
  import opened Sorting
  import opened MetaTables
  import opened MetaTree

  // ── Path ───────────────────────────────────────────────────────────────

  /** What the path query selects: `k` and its ancestors, each once, by ascending depth. */
  ghost predicate IsPathQuery(nodes: map<Key, Row>, k: Key, rs: seq<Key>) {
    && (forall x :: x in rs <==> x in nodes && Under(nodes, k, x))
    && Distinct(rs)
    && (forall i, j :: 0 <= i < j < |rs| ==> nodes[rs[i]].depth <= nodes[rs[j]].depth)
  }

  /** From the root down to `k`. */
  function Chain(nodes: map<Key, Row>, k: Key): seq<Key>
    decreases if k in nodes then nodes[k].depth else 0
  {
    if k !in nodes then []
    else if nodes[k].parent.None? then [k]
    else
      var up := (k.0, nodes[k].parent.value);
      if up in nodes && nodes[up].depth < nodes[k].depth then Chain(nodes, up) + [k] else [k]
  }

  /** One row per level, each the child of the one before, starting at node 0. */
  ghost predicate IsChain(nodes: map<Key, Row>, k: Key, c: seq<Key>) {
    && k in nodes && |c| == nodes[k].depth + 1 && c[0] == (k.0, 0) && c[|c| - 1] == k
    && (forall i :: 0 <= i < |c| ==> c[i] in nodes && nodes[c[i]].depth == i)
    && (forall i :: 0 < i < |c| ==> ChildOf(nodes, c[i], c[i - 1]))
  }

  lemma {:induction false} ChainIsChain(nodes: map<Key, Row>, k: Key)
    requires TreeInv(nodes) && k in nodes
    ensures IsChain(nodes, k, Chain(nodes, k))
    decreases nodes[k].depth
  {
    assert RowInv(nodes, k);
    if nodes[k].parent.Some? {
      ChainIsChain(nodes, (k.0, nodes[k].parent.value));
    }
  }

  lemma {:induction false} ChainHoldsAncestors(nodes: map<Key, Row>, k: Key, x: Key)
    requires TreeInv(nodes) && k in nodes
    ensures x in Chain(nodes, k) <==> x in nodes && Under(nodes, k, x)
    decreases nodes[k].depth
  {
    assert RowInv(nodes, k);
    if nodes[k].parent.Some? {
      ChainHoldsAncestors(nodes, (k.0, nodes[k].parent.value), x);
    }
  }

  lemma {:induction false} Levels(ds: seq<nat>, n: nat, i: nat)
    requires forall a, b :: 0 <= a < b < |ds| ==> ds[a] < ds[b]
    requires forall a :: 0 <= a < |ds| ==> ds[a] < n
    requires forall v: nat :: v < n ==> v in ds
    requires i < n
    ensures i < |ds| && forall a :: 0 <= a <= i ==> ds[a] == a
  {
    if i > 0 {
      Levels(ds, n, i - 1);
    }
    assert i in ds;
    var j :| 0 <= j < |ds| && ds[j] == i;
    assert j >= i;
    AtLeast(ds, i);
  }

  lemma {:induction false} AtLeast(ds: seq<nat>, i: nat)
    requires forall a, b :: 0 <= a < b < |ds| ==> ds[a] < ds[b]
    requires i < |ds|
    ensures i <= ds[i]
  {
    if i > 0 {
      AtLeast(ds, i - 1);
    }
  }

  lemma LevelsFill(ds: seq<nat>, n: nat)
    requires forall a, b :: 0 <= a < b < |ds| ==> ds[a] < ds[b]
    requires forall a :: 0 <= a < |ds| ==> ds[a] < n
    requires forall v: nat :: v < n ==> v in ds
    ensures |ds| == n && forall a :: 0 <= a < n ==> ds[a] == a
  {
    if |ds| > 0 {
      AtLeast(ds, |ds| - 1);
    }
    if n > 0 {
      Levels(ds, n, n - 1);
    }
  }

  lemma PathHoldsChain(nodes: map<Key, Row>, k: Key, rs: seq<Key>)
    requires TreeInv(nodes) && k in nodes && IsPathQuery(nodes, k, rs)
    ensures forall x :: x in Chain(nodes, k) <==> x in rs
  {
    forall x
      ensures x in Chain(nodes, k) <==> x in rs
    {
      ChainHoldsAncestors(nodes, k, x);
    }
  }

  function Depths(nodes: map<Key, Row>, rs: seq<Key>): (ds: seq<nat>)
    requires forall x :: x in rs ==> x in nodes
    ensures |ds| == |rs| && forall i :: 0 <= i < |rs| ==> ds[i] == nodes[rs[i]].depth
  {
    seq(|rs|, i requires 0 <= i < |rs| => nodes[rs[i]].depth)
  }

  /** Rows of a chain have distinct depths, so sorting them by depth leaves no choice. */
  lemma SortedByLevel(nodes: map<Key, Row>, c: seq<Key>, rs: seq<Key>)
    requires forall i :: 0 <= i < |c| ==> c[i] in nodes && nodes[c[i]].depth == i
    requires forall x :: x in c <==> x in rs
    requires Distinct(rs) && forall x :: x in rs ==> x in nodes
    requires forall i, j :: 0 <= i < j < |rs| ==> nodes[rs[i]].depth <= nodes[rs[j]].depth
    ensures rs == c
  {
    var ds := Depths(nodes, rs);
    forall i | 0 <= i < |rs|
      ensures ds[i] < |c| && c[ds[i]] == rs[i]
    {
      assert rs[i] in c;
      var j :| 0 <= j < |c| && c[j] == rs[i];
    }
    forall v: nat | v < |c|
      ensures v in ds
    {
      assert c[v] in rs;
      var j :| 0 <= j < |rs| && rs[j] == c[v];
      assert ds[j] == v;
    }
    LevelsFill(ds, |c|);
  }

  /** The path query returns exactly the chain from the root to the node, in order, depth + 1 rows long. */
  lemma PathIsRootToNode(nodes: map<Key, Row>, k: Key, rs: seq<Key>)
    requires TreeInv(nodes) && IsPathQuery(nodes, k, rs)
    ensures rs == Chain(nodes, k)
    ensures k in nodes ==> IsChain(nodes, k, rs)
  {
    assert rs == [] || rs[0] in rs;
    if k in nodes {
      PathHoldsChain(nodes, k, rs);
      ChainIsChain(nodes, k);
      SortedByLevel(nodes, Chain(nodes, k), rs);
    }
  }

  /** The recursive part of the path query: from `k` up. */
  function UpFrom(nodes: map<Key, Row>, k: Key): seq<Key>
    decreases if k in nodes then nodes[k].depth else 0
  {
    if k !in nodes then []
    else if nodes[k].parent.None? then [k]
    else
      var up := (k.0, nodes[k].parent.value);
      if up in nodes && nodes[up].depth < nodes[k].depth then [k] + UpFrom(nodes, up) else [k]
  }

  lemma {:induction false} UpFromSelects(nodes: map<Key, Row>, k: Key)
    requires TreeInv(nodes) && k in nodes
    ensures forall x :: x in UpFrom(nodes, k) <==> x in nodes && Under(nodes, k, x)
    ensures forall x :: x in UpFrom(nodes, k) ==> nodes[x].depth <= nodes[k].depth
    ensures Distinct(UpFrom(nodes, k))
    decreases nodes[k].depth
  {
    assert RowInv(nodes, k);
    if nodes[k].parent.Some? {
      UpFromSelects(nodes, (k.0, nodes[k].parent.value));
    }
  }

  method SelectPath(nodes: map<Key, Row>, k: Key) returns (rs: seq<Key>)
    requires TreeInv(nodes)
    ensures rs == Chain(nodes, k)
    ensures k in nodes ==> IsChain(nodes, k, rs)
  {
    if k !in nodes {
      return [];
    }
    UpFromSelects(nodes, k);
    var up := UpFrom(nodes, k);
    rs := SortBy(up, (x: Key) => if x in nodes then nodes[x].depth else 0);
    SameElements(up, rs);
    DistinctPermutation(up, rs);
    SortedIsQuery(nodes, k, rs);
    PathIsRootToNode(nodes, k, rs);
  }

  /** The row's log, if it names one and logs are asked for. */
  function LogOf(t: Tables, k: Key, includeLogs: bool): Option<Bytes>
    requires k in t.nodes && LogsPresent(t)
  {
    if includeLogs && t.nodes[k].log.Some? then Some(t.logs[t.nodes[k].log.value].content) else None
  }

  /** The rows from the root to `k`, in order, each with its log where asked for; none if `k` is absent. */
  method GetPath(t: Tables, k: Key, includeLogs: bool) returns (r: seq<(Key, Option<Bytes>)>)
    requires TreeInv(t.nodes) && LogsPresent(t)
    ensures |r| == |Chain(t.nodes, k)| == if k in t.nodes then t.nodes[k].depth + 1 else 0
    ensures k in t.nodes ==> IsChain(t.nodes, k, Chain(t.nodes, k))
    ensures forall i :: 0 <= i < |r| ==>
      r[i].0 in t.nodes && r[i] == (Chain(t.nodes, k)[i], LogOf(t, r[i].0, includeLogs))
    ensures forall i :: 0 <= i < |r| ==>
      var log := t.nodes[r[i].0].log;
      r[i].1 == if includeLogs && log.Some? then Some(t.logs[log.value].content) else None
  {
    var rs := SelectPath(t.nodes, k);
    r := AttachLogs(t, rs, includeLogs);
  }

  method AttachLogs(t: Tables, rs: seq<Key>, includeLogs: bool) returns (r: seq<(Key, Option<Bytes>)>)
    requires LogsPresent(t) && forall i :: 0 <= i < |rs| ==> rs[i] in t.nodes
    ensures |r| == |rs| && forall i :: 0 <= i < |rs| ==> r[i] == (rs[i], LogOf(t, rs[i], includeLogs))
  {
    r := [];
    for i := 0 to |rs|
      invariant |r| == i && forall j :: 0 <= j < i ==> r[j] == (rs[j], LogOf(t, rs[j], includeLogs))
    {
      r := r + [(rs[i], LogOf(t, rs[i], includeLogs))];
    }
  }

  lemma SortedIsQuery(nodes: map<Key, Row>, k: Key, rs: seq<Key>)
    requires forall x :: x in rs <==> x in nodes && Under(nodes, k, x)
    requires Distinct(rs) && SortedBy(rs, (x: Key) => if x in nodes then nodes[x].depth else 0)
    ensures IsPathQuery(nodes, k, rs)
  {
    var key := (x: Key) => if x in nodes then nodes[x].depth else 0;
    forall i, j | 0 <= i < j < |rs|
      ensures nodes[rs[i]].depth <= nodes[rs[j]].depth
    {
      assert key(rs[i]) <= key(rs[j]);
    }
  }

  // ── Paging ─────────────────────────────────────────────────────────────

  function EffectiveLimit(limit: Option<U32>): nat {
    var n: nat := if limit.Some? then limit.value else 512;
    if n < 4096 then n else 4096
  }

  datatype Order = ByCreation | ByUpdate | ById

  datatype Filter = Filter(
    exp: Experiment,
    status: Option<Status>,
    parent: Option<NodeId>,
    minDepth: Option<U32>,
    maxDepth: Option<U32>,
    order: Order,
    createdAfter: Option<nat>,
    updatedAfter: Option<nat>,
    limit: Option<U32>)

  /** The row meets every condition the filter sets. */
  predicate Matches(nodes: map<Key, Row>, q: Filter, k: Key) {
    && k in nodes && k.0 == q.exp
    && (q.status.Some? ==> nodes[k].status == q.status.value)
    && (q.parent.Some? ==> nodes[k].parent == q.parent)
    && (q.minDepth.Some? ==> nodes[k].depth >= q.minDepth.value)
    && (q.maxDepth.Some? ==> nodes[k].depth <= q.maxDepth.value)
    && (q.createdAfter.Some? ==> nodes[k].createdAt > q.createdAfter.value)
    && (q.updatedAfter.Some? ==> nodes[k].updatedAt > q.updatedAfter.value)
  }

  /** Ids are stored as signed 64-bit integers, so those of 2^63 and more come before 0. */
  function Signed(id: NodeId): int {
    var n := id % 0x1_0000_0000_0000_0000;
    if n < 0x8000_0000_0000_0000 then n else n - 0x1_0000_0000_0000_0000
  }

  function SortKey(nodes: map<Key, Row>, order: Order, k: Key): int {
    if k !in nodes then 0
    else match order
      case ByCreation => nodes[k].createdAt
      case ByUpdate => nodes[k].updatedAt
      case ById => Signed(k.1)
  }

  /** What a query returns: of the rows that match, the first `limit` in its order. */
  ghost predicate IsAnswer(nodes: map<Key, Row>, q: Filter, page: seq<Key>) {
    && |page| <= EffectiveLimit(q.limit) && Distinct(page)
    && (forall i :: 0 <= i < |page| ==> Matches(nodes, q, page[i]))
    && (forall i, j :: 0 <= i < j < |page| ==> SortKey(nodes, q.order, page[i]) <= SortKey(nodes, q.order, page[j]))
    && (forall k :: Matches(nodes, q, k) && k !in page ==>
          |page| == EffectiveLimit(q.limit)
          && forall i :: 0 <= i < |page| ==> SortKey(nodes, q.order, page[i]) <= SortKey(nodes, q.order, k))
  }

  /** A row of `exp` past the cursor. */
  predicate Past(nodes: map<Key, Row>, exp: Experiment, after: Option<nat>, k: Key) {
    k in nodes && k.0 == exp && (after.Some? ==> nodes[k].createdAt > after.value)
  }

  /** What a query by creation stamp alone returns: the first `limit` rows past the cursor, ascending. */
  ghost predicate IsPage(nodes: map<Key, Row>, exp: Experiment, after: Option<nat>, limit: nat, page: seq<Key>) {
    && |page| <= limit && Distinct(page)
    && (forall i :: 0 <= i < |page| ==> Past(nodes, exp, after, page[i]))
    && (forall i, j :: 0 <= i < j < |page| ==> nodes[page[i]].createdAt <= nodes[page[j]].createdAt)
    && (forall k :: Past(nodes, exp, after, k) && k !in page ==>
          |page| == limit && forall i :: 0 <= i < |page| ==> nodes[page[i]].createdAt <= nodes[k].createdAt)
  }

  function ByStamp(exp: Experiment, after: Option<nat>, limit: Option<U32>): Filter {
    Filter(exp, None, None, None, None, ByCreation, after, None, limit)
  }

  lemma StampAnswerIsPage(nodes: map<Key, Row>, exp: Experiment, after: Option<nat>, limit: Option<U32>, page: seq<Key>)
    requires IsAnswer(nodes, ByStamp(exp, after, limit), page)
    ensures IsPage(nodes, exp, after, EffectiveLimit(limit), page)
  {
    var q := ByStamp(exp, after, limit);
    assert forall k :: Past(nodes, exp, after, k) <==> Matches(nodes, q, k);
    assert forall k :: k in nodes ==> SortKey(nodes, ByCreation, k) == nodes[k].createdAt;
    assert forall i :: 0 <= i < |page| ==> Matches(nodes, q, page[i]);
  }

  /** The keys of a finite set, in any order, each once. */
  method Enumerate(s: set<Key>) returns (xs: seq<Key>)
    ensures Distinct(xs) && forall k :: k in xs <==> k in s
  {
    xs := [];
    var todo := s;
    while todo != {}
      invariant todo <= s && Distinct(xs) && forall k :: k in xs <==> k in s && k !in todo
      decreases |todo|
    {
      var k :| k in todo;
      xs, todo := xs + [k], todo - {k};
    }
  }

  method QueryNodes(nodes: map<Key, Row>, q: Filter) returns (page: seq<Key>)
    ensures IsAnswer(nodes, q, page)
  {
    var xs := Enumerate(set k | k in nodes && Matches(nodes, q, k));
    var key := (k: Key) => SortKey(nodes, q.order, k);
    var all := SortBy(xs, key);
    SameElements(xs, all);
    DistinctPermutation(xs, all);
    var n := EffectiveLimit(q.limit);
    page := if |all| <= n then all else all[..n];
    assert forall i, j :: 0 <= i < j < |all| ==> key(all[i]) <= key(all[j]);
    TakePage(nodes, q, all);
  }

  lemma TakePage(nodes: map<Key, Row>, q: Filter, all: seq<Key>)
    requires Distinct(all) && forall k :: k in all <==> Matches(nodes, q, k)
    requires forall i, j :: 0 <= i < j < |all| ==> SortKey(nodes, q.order, all[i]) <= SortKey(nodes, q.order, all[j])
    ensures IsAnswer(nodes, q, if |all| <= EffectiveLimit(q.limit) then all else all[..EffectiveLimit(q.limit)])
  {
    var limit := EffectiveLimit(q.limit);
    var page := if |all| <= limit then all else all[..limit];
    assert forall i :: 0 <= i < |page| ==> page[i] == all[i] && all[i] in all;
    forall k | Matches(nodes, q, k) && k !in page
      ensures |page| == limit && forall i :: 0 <= i < |page| ==> SortKey(nodes, q.order, page[i]) <= SortKey(nodes, q.order, k)
    {
      assert k in all;
      var j :| 0 <= j < |all| && all[j] == k;
      assert j >= |page|;
    }
  }

  /** Every condition the filter sets, spelled out. */
  ghost predicate Passes(row: Row, q: Filter) {
    && (q.status == None || q.status == Some(row.status))
    && (q.parent == None || q.parent == row.parent)
    && (q.minDepth == None || q.minDepth.value <= row.depth)
    && (q.maxDepth == None || row.depth <= q.maxDepth.value)
    && (q.createdAfter == None || q.createdAfter.value < row.createdAt)
    && (q.updatedAfter == None || q.updatedAfter.value < row.updatedAt)
  }

  /** What a caller gets: only rows of the experiment that pass, by ascending stamp where a stamp was asked for, no more than
      asked for and than 4096, or 512 if nothing was said; and a row that passes is left out only if that many come before
      it. */
  lemma AnswerIsExact(nodes: map<Key, Row>, q: Filter, page: seq<Key>)
    requires IsAnswer(nodes, q, page)
    ensures forall k :: k in page ==> k in nodes && k.0 == q.exp && Passes(nodes[k], q)
    ensures |page| <= 4096 && (if q.limit.Some? then |page| <= q.limit.value else |page| <= 512)
    ensures forall i, j :: 0 <= i < j < |page| ==> page[i] != page[j]
    ensures q.order == ByCreation ==> forall i, j :: 0 <= i < j < |page| ==> nodes[page[i]].createdAt <= nodes[page[j]].createdAt
    ensures q.order == ByUpdate ==> forall i, j :: 0 <= i < j < |page| ==> nodes[page[i]].updatedAt <= nodes[page[j]].updatedAt
    ensures forall k :: k in nodes && k.0 == q.exp && Passes(nodes[k], q) && k !in page ==>
      && |page| == (if q.limit.None? then 512 else if q.limit.value < 4096 then q.limit.value else 4096)
      && (q.order == ByCreation ==> forall i :: 0 <= i < |page| ==> nodes[page[i]].createdAt <= nodes[k].createdAt)
      && (q.order == ByUpdate ==> forall i :: 0 <= i < |page| ==> nodes[page[i]].updatedAt <= nodes[k].updatedAt)
  {
    assert forall k :: k in nodes ==> (Matches(nodes, q, k) <==> k.0 == q.exp && Passes(nodes[k], q));
    forall k | k in nodes
      ensures q.order == ByCreation ==> SortKey(nodes, q.order, k) == nodes[k].createdAt
      ensures q.order == ByUpdate ==> SortKey(nodes, q.order, k) == nodes[k].updatedAt
    {
    }
  }

  // ── Order by id ────────────────────────────────────────────────────────

  /** The page a caller would expect of a query by id: the first `limit` matching rows by ascending id. */
  ghost predicate IsIdPage(nodes: map<Key, Row>, q: Filter, page: seq<Key>) {
    && |page| <= EffectiveLimit(q.limit) && Distinct(page)
    && (forall i :: 0 <= i < |page| ==> Matches(nodes, q, page[i]))
    && (forall i, j :: 0 <= i < j < |page| ==> page[i].1 < page[j].1)
    && (forall k :: Matches(nodes, q, k) && k !in page ==>
          |page| == EffectiveLimit(q.limit) && forall i :: 0 <= i < |page| ==> page[i].1 < k.1)
  }

  const SIGN: nat := 0x8000_0000_0000_0000

  /** Some matching id is below 2^63 and some is not. */
  ghost predicate Straddles(nodes: map<Key, Row>, q: Filter) {
    exists j: Key, k: Key :: Matches(nodes, q, j) && Matches(nodes, q, k) && j.1 < SIGN <= k.1
  }

  ghost predicate Ids64(nodes: map<Key, Row>) {
    forall k :: k in nodes ==> k.1 < 0x1_0000_0000_0000_0000
  }

  lemma SignedOrder(a: NodeId, b: NodeId)
    requires a < 0x1_0000_0000_0000_0000 && b < 0x1_0000_0000_0000_0000
    ensures Signed(a) <= Signed(b) <==> if (a < SIGN) == (b < SIGN) then a <= b else b < SIGN
  {
  }

  lemma IdKey(nodes: map<Key, Row>, q: Filter, j: Key, k: Key)
    requires q.order == ById && Ids64(nodes) && Matches(nodes, q, j) && Matches(nodes, q, k)
    ensures SortKey(nodes, q.order, j) <= SortKey(nodes, q.order, k) <==>
      if (j.1 < SIGN) == (k.1 < SIGN) then j.1 <= k.1 else k.1 < SIGN
  {
    SignedOrder(j.1, k.1);
  }

  /** Wherever ids of both kinds come out, those of 2^63 and more come first. */
  lemma HighIdsComeFirst(nodes: map<Key, Row>, q: Filter, page: seq<Key>, i: nat, j: nat)
    requires IsAnswer(nodes, q, page) && q.order == ById && Ids64(nodes) && i < j < |page| && page[j].1 >= SIGN
    ensures page[i].1 >= SIGN
  {
    IdKey(nodes, q, page[i], page[j]);
  }

  lemma UnstraddledIsIdPage(nodes: map<Key, Row>, q: Filter, page: seq<Key>)
    requires IsAnswer(nodes, q, page) && q.order == ById && Ids64(nodes)
    requires !Straddles(nodes, q) || EffectiveLimit(q.limit) == 0
    ensures IsIdPage(nodes, q, page)
  {
    forall i, j | 0 <= i < j < |page|
      ensures page[i].1 < page[j].1
    {
      IdKey(nodes, q, page[i], page[j]);
      assert page[i] != page[j];
    }
    forall i, k | 0 <= i < |page| && Matches(nodes, q, k) && k !in page
      ensures page[i].1 < k.1
    {
      IdKey(nodes, q, page[i], k);
      assert page[i] != k;
    }
  }

  lemma StraddledIsNot(nodes: map<Key, Row>, q: Filter, page: seq<Key>, low: Key, high: Key)
    requires IsAnswer(nodes, q, page) && q.order == ById && Ids64(nodes) && EffectiveLimit(q.limit) > 0
    requires Matches(nodes, q, low) && Matches(nodes, q, high) && low.1 < SIGN <= high.1
    ensures !IsIdPage(nodes, q, page)
  {
    IdKey(nodes, q, low, high);
    if low in page && high in page {
      var i :| 0 <= i < |page| && page[i] == low;
      var j :| 0 <= j < |page| && page[j] == high;
    } else if low !in page && |page| > 0 {
      IdKey(nodes, q, page[0], high);
    }
  }

  /** A query by id returns what a caller expects if and only if no two matching ids lie on both sides of 2^63, or nothing
      was asked for. */
  lemma IdOrderIsExact(nodes: map<Key, Row>, q: Filter, page: seq<Key>)
    requires IsAnswer(nodes, q, page) && q.order == ById && Ids64(nodes)
    ensures IsIdPage(nodes, q, page) <==> !Straddles(nodes, q) || EffectiveLimit(q.limit) == 0
  {
    if !Straddles(nodes, q) || EffectiveLimit(q.limit) == 0 {
      UnstraddledIsIdPage(nodes, q, page);
    } else {
      var j: Key, k: Key :| Matches(nodes, q, j) && Matches(nodes, q, k) && j.1 < SIGN <= k.1;
      StraddledIsNot(nodes, q, page, j, k);
    }
  }

  lemma ThreeOfTwo(xs: seq<Key>, a: Key, b: Key)
    requires forall i :: 0 <= i < |xs| ==> xs[i] == a || xs[i] == b
    ensures |xs| >= 3 ==> xs[0] == xs[1] || xs[0] == xs[2] || xs[1] == xs[2]
  {
  }

  /** A root and a child with a high id. */
  function TwoRows(exp: Experiment, root: Row, child: Row): map<Key, Row> { map[(exp, 0) := root, (exp, SIGN) := child] }

  /** Asked for its nodes by id, the store lists the child before the root. */
  lemma ChildComesFirst(exp: Experiment, root: Row, child: Row, page: seq<Key>)
    requires IsAnswer(TwoRows(exp, root, child), Filter(exp, None, None, None, None, ById, None, None, None), page)
    ensures page == [(exp, SIGN), (exp, 0)]
  {
    var nodes, q := TwoRows(exp, root, child), Filter(exp, None, None, None, None, ById, None, None, None);
    var low, high := (exp, 0), (exp, SIGN);
    assert Matches(nodes, q, low) && Matches(nodes, q, high);
    assert forall i :: 0 <= i < |page| ==> page[i] == low || page[i] == high;
    ThreeOfTwo(page, low, high);
    assert |page| <= 2;
    assert low in page && high in page;
    IdKey(nodes, q, low, high);
    var i :| 0 <= i < |page| && page[i] == low;
    var j :| 0 <= j < |page| && page[j] == high;
  }
}
