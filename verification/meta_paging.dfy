/** Paging by creation stamp while rows are being created. */
module MetaPaging {
  import opened Base
  import opened MetaTables
  import opened MetaTree
  import opened MetaRuns
  import opened MetaQueries

  /** No row disappears or changes its creation stamp, and new rows are stamped above all the old ones. */
  ghost predicate OnlyAdds(a: map<Key, Row>, b: map<Key, Row>) {
    && (forall k :: k in a ==> k in b && b[k].createdAt == a[k].createdAt)
    && (forall k, j :: k in b && k !in a && j in a ==> b[k].createdAt > a[j].createdAt)
  }

  ghost predicate DistinctStamps(nodes: map<Key, Row>) {
    forall j, k :: j in nodes && k in nodes && nodes[j].createdAt == nodes[k].createdAt ==> j == k
  }

  lemma CommandOnlyAdds(config: Config, t: Tables, c: Command, counter: nat)
    requires StampInv(t.nodes, counter) && !c.ReapTombstone?
    ensures OnlyAdds(t.nodes, After(config, t, c, counter).nodes)
  {
    if c.UpdateNodes? {
      UpdateShape(t.nodes, c.exp, c.updates, counter);
    }
  }

  lemma OnlyAddsIsTransitive(a: map<Key, Row>, b: map<Key, Row>, c: map<Key, Row>)
    requires OnlyAdds(a, b) && OnlyAdds(b, c)
    ensures OnlyAdds(a, c)
  {
    forall k, j | k in c && k !in a && j in a
      ensures c[k].createdAt > a[j].createdAt
    {
      assert j in b;
    }
  }

  /** Commands other than reaps only add. */
  lemma {:induction false} ReplayOnlyAdds(f: Exec, config: Config, t: Tables, counter: nat, cs: seq<Command>)
    requires Runs(f, config) && TablesInv(t, counter)
    requires forall i :: 0 <= i < |cs| ==> !cs[i].ReapTombstone?
    ensures OnlyAdds(t.nodes, Replay(f, t, counter, cs).nodes)
  {
    if cs != [] {
      var n := |cs| - 1;
      ReplayOnlyAdds(f, config, t, counter, cs[..n]);
      ReplayKeeps(f, config, t, counter, cs[..n]);
      var mid := Replay(f, t, counter, cs[..n]);
      StepOnlyAdds(f, config, mid, cs[n], counter + n);
      OnlyAddsIsTransitive(t.nodes, mid.nodes, Replay(f, t, counter, cs).nodes);
    }
  }

  lemma StepOnlyAdds(f: Exec, config: Config, t: Tables, c: Command, counter: nat)
    requires Runs(f, config) && StampInv(t.nodes, counter) && !c.ReapTombstone?
    ensures OnlyAdds(t.nodes, Stepped(f, t, c, counter).nodes)
  {
    CommandOnlyAdds(config, t, c, counter);
    assert f(t, c, counter) == Applied(config, t, c, counter);
  }

  // ── Sessions ───────────────────────────────────────────────────────────

  ghost predicate StepsOn(a: map<Key, Row>, page: seq<Key>, cursor: Option<nat>) {
    page != [] && page[|page| - 1] in a && cursor == Some(a[page[|page| - 1]].createdAt)
  }

  /** Tables that only gain rows, each with a stamp of its own. */
  ghost predicate Growing(states: seq<map<Key, Row>>) {
    && (forall i :: 0 <= i < |states| ==> DistinctStamps(states[i]))
    && (forall i, j :: 0 <= i && j == i + 1 && j < |states| ==> OnlyAdds(states[i], states[j]))
  }

  /** A client reads page after page, each from the table as it is at that moment, moving its cursor to the last row of a
      full page and stopping at the first short one. */
  ghost predicate Reading(states: seq<map<Key, Row>>, cursors: seq<Option<nat>>, pages: seq<seq<Key>>, exp: Experiment,
                          limit: nat) {
    && |states| == |cursors| == |pages| > 0
    && (forall i :: 0 <= i < |pages| ==> IsPage(states[i], exp, cursors[i], limit, pages[i]))
    && cursors[0] == None
    && (forall i, j :: 0 <= i && j == i + 1 && j < |pages| ==> |pages[i]| == limit && StepsOn(states[i], pages[i], cursors[j]))
    && |pages[|pages| - 1]| < limit
  }

  ghost predicate IsSession(states: seq<map<Key, Row>>, cursors: seq<Option<nat>>, pages: seq<seq<Key>>, exp: Experiment,
                            limit: nat) {
    Growing(states) && Reading(states, cursors, pages, exp, limit)
  }

  lemma {:induction false} RowStays(states: seq<map<Key, Row>>, i: nat, j: nat, k: Key)
    requires forall m, n :: 0 <= m && n == m + 1 && n < |states| ==> OnlyAdds(states[m], states[n])
    requires i <= j < |states| && k in states[i]
    ensures k in states[j] && states[j][k].createdAt == states[i][k].createdAt
    decreases j - i
  {
    if i < j {
      RowStays(states, i, j - 1, k);
      assert OnlyAdds(states[j - 1], states[j]);
    }
  }

  /** The row was read on a page before `n`. */
  ghost predicate ReadBefore(pages: seq<seq<Key>>, n: nat, k: Key) {
    exists i :: 0 <= i < n && i < |pages| && k in pages[i]
  }

  lemma ReadOn(pages: seq<seq<Key>>, i: nat, n: nat, k: Key)
    requires i < n && i < |pages| && k in pages[i]
    ensures ReadBefore(pages, n, k)
  {
  }

  /** The last row of a full page is the boundary: whatever it does not list lies beyond. */
  lemma BoundaryIsExact(nodes: map<Key, Row>, exp: Experiment, after: Option<nat>, limit: nat, page: seq<Key>, k: Key)
    requires DistinctStamps(nodes) && IsPage(nodes, exp, after, limit, page) && page != [] && Past(nodes, exp, after, k)
    requires nodes[k].createdAt <= nodes[page[|page| - 1]].createdAt
    ensures k in page
  {
    var last := page[|page| - 1];
    assert Past(nodes, exp, after, last);
    assert last in page;
  }

  lemma InPage(nodes: map<Key, Row>, exp: Experiment, after: Option<nat>, limit: nat, page: seq<Key>, a: nat)
    requires IsPage(nodes, exp, after, limit, page) && a < |page|
    ensures Past(nodes, exp, after, page[a]) && page[|page| - 1] in nodes
    ensures nodes[page[a]].createdAt <= nodes[page[|page| - 1]].createdAt
  {
    assert Past(nodes, exp, after, page[|page| - 1]);
  }

  lemma StrictInPage(nodes: map<Key, Row>, exp: Experiment, after: Option<nat>, limit: nat, page: seq<Key>, a: nat, b: nat)
    requires DistinctStamps(nodes) && IsPage(nodes, exp, after, limit, page) && a < b < |page|
    ensures page[a] in nodes && page[b] in nodes && nodes[page[a]].createdAt < nodes[page[b]].createdAt
  {
    assert Past(nodes, exp, after, page[a]) && Past(nodes, exp, after, page[b]);
    assert page[a] != page[b];
  }

  /** A page of a session. */
  lemma PageOf(states: seq<map<Key, Row>>, cursors: seq<Option<nat>>, pages: seq<seq<Key>>, exp: Experiment, limit: nat, i: nat)
    requires IsSession(states, cursors, pages, exp, limit) && i < |pages|
    ensures DistinctStamps(states[i]) && IsPage(states[i], exp, cursors[i], limit, pages[i])
    ensures i > 0 ==> StepsOn(states[i - 1], pages[i - 1], cursors[i])
    ensures i == 0 ==> cursors[i] == None
    ensures i == |pages| - 1 ==> |pages[i]| < limit
  {
  }

  /** A row of the first table that page `i` could still list. */
  lemma StillThere(states: seq<map<Key, Row>>, cursors: seq<Option<nat>>, pages: seq<seq<Key>>, exp: Experiment, limit: nat,
                   i: nat, k: Key)
    requires IsSession(states, cursors, pages, exp, limit) && i < |pages| && k in states[0] && k.0 == exp
    ensures k in states[i] && states[i][k].createdAt == states[0][k].createdAt
  {
    RowStays(states, 0, i, k);
  }

  ghost predicate Behind(cursor: Option<nat>, stamp: nat) { cursor.Some? && stamp <= cursor.value }

  /** A row the next cursor passes and this one does not is on this page. */
  lemma PassedIsRead(nodes: map<Key, Row>, exp: Experiment, cursor: Option<nat>, limit: nat, page: seq<Key>, next: Option<nat>,
                     k: Key)
    requires DistinctStamps(nodes) && IsPage(nodes, exp, cursor, limit, page) && StepsOn(nodes, page, next)
    requires k in nodes && k.0 == exp && !Behind(cursor, nodes[k].createdAt) && Behind(next, nodes[k].createdAt)
    ensures k in page
  {
    BoundaryIsExact(nodes, exp, cursor, limit, page, k);
  }

  lemma {:induction false} ReadUpToCursor(states: seq<map<Key, Row>>, cursors: seq<Option<nat>>, pages: seq<seq<Key>>,
                                          exp: Experiment, limit: nat, i: nat, n: nat, k: Key)
    requires IsSession(states, cursors, pages, exp, limit) && i <= n && i < |pages|
    requires k in states[0] && k.0 == exp && Behind(cursors[i], states[0][k].createdAt)
    ensures ReadBefore(pages, n, k)
    decreases i
  {
    PageOf(states, cursors, pages, exp, limit, i);
    var m := i - 1;
    if Behind(cursors[m], states[0][k].createdAt) {
      ReadUpToCursor(states, cursors, pages, exp, limit, m, n, k);
    } else {
      PageOf(states, cursors, pages, exp, limit, m);
      StillThere(states, cursors, pages, exp, limit, m, k);
      PassedIsRead(states[m], exp, cursors[m], limit, pages[m], cursors[i], k);
      ReadOn(pages, m, n, k);
    }
  }

  /** Every row there when the session began is read. */
  lemma SessionReadsAll(states: seq<map<Key, Row>>, cursors: seq<Option<nat>>, pages: seq<seq<Key>>, exp: Experiment,
                        limit: nat, k: Key)
    requires IsSession(states, cursors, pages, exp, limit) && k in states[0] && k.0 == exp
    ensures ReadBefore(pages, |pages|, k)
  {
    var n := |pages| - 1;
    StillThere(states, cursors, pages, exp, limit, n, k);
    PageOf(states, cursors, pages, exp, limit, n);
    if Behind(cursors[n], states[0][k].createdAt) {
      ReadUpToCursor(states, cursors, pages, exp, limit, n, |pages|, k);
    } else {
      assert Past(states[n], exp, cursors[n], k);
      ReadOn(pages, n, |pages|, k);
    }
  }

  lemma {:induction false} CursorsClimb(states: seq<map<Key, Row>>, cursors: seq<Option<nat>>, pages: seq<seq<Key>>,
                                        exp: Experiment, limit: nat, m: nat, n: nat)
    requires IsSession(states, cursors, pages, exp, limit) && 0 < m <= n < |pages|
    ensures cursors[m].Some? && cursors[n].Some? && cursors[m].value <= cursors[n].value
    decreases n - m
  {
    PageOf(states, cursors, pages, exp, limit, n);
    if m < n {
      CursorsClimb(states, cursors, pages, exp, limit, m, n - 1);
      PageOf(states, cursors, pages, exp, limit, n - 1);
      InPage(states[n - 1], exp, cursors[n - 1], limit, pages[n - 1], |pages[n - 1]| - 1);
    }
  }

  lemma BelowNextCursor(states: seq<map<Key, Row>>, cursors: seq<Option<nat>>, pages: seq<seq<Key>>, exp: Experiment,
                        limit: nat, m: nat, a: nat)
    requires IsSession(states, cursors, pages, exp, limit) && m + 1 < |pages| && a < |pages[m]|
    ensures pages[m][a] in states[m] && Behind(cursors[m + 1], states[m][pages[m][a]].createdAt)
  {
    PageOf(states, cursors, pages, exp, limit, m);
    assert StepsOn(states[m], pages[m], cursors[m + 1]);
    InPage(states[m], exp, cursors[m], limit, pages[m], a);
  }

  lemma AboveCursor(states: seq<map<Key, Row>>, cursors: seq<Option<nat>>, pages: seq<seq<Key>>, exp: Experiment,
                    limit: nat, n: nat, b: nat)
    requires IsSession(states, cursors, pages, exp, limit) && n < |pages| && b < |pages[n]|
    ensures pages[n][b] in states[n] && !Behind(cursors[n], states[n][pages[n][b]].createdAt)
  {
    PageOf(states, cursors, pages, exp, limit, n);
    InPage(states[n], exp, cursors[n], limit, pages[n], b);
  }

  /** Rows come out by strictly ascending creation stamp, across pages as within one, so none comes twice. */
  lemma SessionIsAscending(states: seq<map<Key, Row>>, cursors: seq<Option<nat>>, pages: seq<seq<Key>>, exp: Experiment,
                           limit: nat, m: nat, a: nat, n: nat, b: nat)
    requires IsSession(states, cursors, pages, exp, limit)
    requires m <= n < |pages| && a < |pages[m]| && b < |pages[n]| && (m == n ==> a < b)
    ensures pages[m][a] in states[m] && pages[n][b] in states[n]
    ensures states[m][pages[m][a]].createdAt < states[n][pages[n][b]].createdAt
  {
    if m == n {
      PageOf(states, cursors, pages, exp, limit, m);
      StrictInPage(states[m], exp, cursors[m], limit, pages[m], a, b);
    } else {
      BelowNextCursor(states, cursors, pages, exp, limit, m, a);
      CursorsClimb(states, cursors, pages, exp, limit, m + 1, n);
      AboveCursor(states, cursors, pages, exp, limit, n, b);
    }
  }

  // ── Sessions within a history ──────────────────────────────────────────

  ghost predicate Reapless(events: seq<Event>) {
    forall i :: 0 <= i < |events| && events[i].Commit? ==>
      forall j :: 0 <= j < |events[i].batch| ==> !events[i].batch[j].ReapTombstone?
  }

  lemma EventOnlyAdds(f: Exec, config: Config, states: seq<Database>, events: seq<Event>, i: nat)
    requires Runs(f, config) && IsHistory(f, states, events) && DatabaseInv(states[0]) && Reapless(events) && i < |events|
    ensures OnlyAdds(states[i].tables.nodes, states[i + 1].tables.nodes)
  {
    HistoryKeeps(f, config, states, events, i);
    assert Next(f, states[i], events[i], states[i + 1]);
    if events[i].Commit? {
      ReplayOnlyAdds(f, config, states[i].tables, states[i].counter, events[i].batch);
    }
  }

  lemma {:induction false} EventsOnlyAdd(f: Exec, config: Config, states: seq<Database>, events: seq<Event>, i: nat, j: nat)
    requires Runs(f, config) && IsHistory(f, states, events) && DatabaseInv(states[0]) && Reapless(events)
    requires i <= j < |states|
    ensures OnlyAdds(states[i].tables.nodes, states[j].tables.nodes)
    decreases j - i
  {
    if i < j {
      EventsOnlyAdd(f, config, states, events, i, j - 1);
      EventOnlyAdds(f, config, states, events, j - 1);
      OnlyAddsIsTransitive(states[i].tables.nodes, states[j - 1].tables.nodes, states[j].tables.nodes);
    }
  }

  /** The node tables at moments `at` of a history. */
  ghost function Seen(states: seq<Database>, at: seq<nat>): (r: seq<map<Key, Row>>)
    requires forall i :: 0 <= i < |at| ==> at[i] < |states|
    ensures |r| == |at| && forall i :: 0 <= i < |at| ==> r[i] == states[at[i]].tables.nodes
  {
    seq(|at|, i requires 0 <= i < |at| => states[at[i]].tables.nodes)
  }

  /** A client that reads its pages at any moments of a history of commits, kills and restarts without a reap is in a
      session: it reads every row that was there at the first page, and by SessionIsAscending none twice. */
  lemma HistoryServesSessions(f: Exec, config: Config, states: seq<Database>, events: seq<Event>, at: seq<nat>,
                              cursors: seq<Option<nat>>, pages: seq<seq<Key>>, exp: Experiment, limit: nat)
    requires Runs(f, config) && IsHistory(f, states, events) && DatabaseInv(states[0]) && Reapless(events)
    requires forall i :: 0 <= i < |at| ==> at[i] < |states|
    requires forall i, j :: 0 <= i && j == i + 1 && j < |at| ==> at[i] <= at[j]
    requires Reading(Seen(states, at), cursors, pages, exp, limit)
    ensures IsSession(Seen(states, at), cursors, pages, exp, limit)
    ensures forall k :: k in states[at[0]].tables.nodes && k.0 == exp ==> ReadBefore(pages, |pages|, k)
  {
    var tables := Seen(states, at);
    forall i | 0 <= i < |at|
      ensures DistinctStamps(tables[i])
    {
      HistoryKeeps(f, config, states, events, at[i]);
    }
    forall i, j | 0 <= i && j == i + 1 && j < |at|
      ensures OnlyAdds(tables[i], tables[j])
    {
      EventsOnlyAdd(f, config, states, events, at[i], at[j]);
    }
    forall k | k in states[at[0]].tables.nodes && k.0 == exp
      ensures ReadBefore(pages, |pages|, k)
    {
      SessionReadsAll(tables, cursors, pages, exp, limit, k);
    }
  }
}
