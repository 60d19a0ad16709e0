/** `merge_sessions`: fold saved session databases into the main graph.
    One URL index, keyed by the lower-cased URL, is built from the main
    store and shared by all sessions of the call, so a URL merged from one
    session is skipped when it comes back in a later one.  Each session gets
    its own old-id to new-id map, and its edges are inserted only when both
    endpoints are mapped. */
module Merge {
  import opened Types
  import opened Store
  import opened Reconcile
  import opened Strings

  /** A row of a session database's `nodes` table. */
  datatype SessionNode = SessionNode(
    id: NodeId,
    url: string,
    title: Option<string>,
    favicon: Option<string>,
    screenshot: Option<string>,
    position: Position,
    isAlive: bool,
    lastCrawled: Option<int>)

  /** What a session path yields: it may not open, its `nodes` query may not
      prepare, its `edges` query may not prepare once the nodes were read,
      or it yields both tables. */
  datatype SessionDb =
    | CannotOpen
    | NodesQueryFails
    | EdgesQueryFails(nodes: seq<SessionNode>)
    | Session(nodes: seq<SessionNode>, edges: seq<Edge>)

  datatype MergeResult = MergeResult(nodesMerged: nat, edgesMerged: nat, nodesSkipped: nat, sessionsMerged: nat)

  /** A merged node copies every column of the session row except the id,
      and is created at the merge time. */
  function MergedCopy(sn: SessionNode, now: int): Node
  {
    Node(sn.url, sn.title, sn.favicon, sn.screenshot, sn.position, sn.isAlive, sn.lastCrawled, now)
  }

  /** The session's node rows as (old id, the row it would be stored as). */
  function Rows(nodes: seq<SessionNode>, now: int): seq<(NodeId, Node)>
  {
    seq(|nodes|, k requires 0 <= k < |nodes| => (nodes[k].id, MergedCopy(nodes[k], now)))
  }

  /** The node rows the merge reads from a session: none when its node query never ran. */
  function SessionRows(s: SessionDb): seq<SessionNode>
  {
    match s
    case CannotOpen => []
    case NodesQueryFails => []
    case EdgesQueryFails(nodes) => nodes
    case Session(nodes, _) => nodes
  }

  /** The lower-cased URLs of all session rows read. */
  function SessionKeys(sessions: seq<SessionDb>, now: int): set<string>
  {
    if sessions == [] then {}
    else SessionKeys(sessions[..|sessions| - 1], now) + RowKeys(Rows(SessionRows(sessions[|sessions| - 1]), now), true)
  }

  /** The number of session rows read. */
  function RowCount(sessions: seq<SessionDb>): nat
  {
    if sessions == [] then 0
    else RowCount(sessions[..|sessions| - 1]) + |SessionRows(sessions[|sessions| - 1])|
  }

  /** The number of sessions whose two queries both prepared. */
  function MergedCount(sessions: seq<SessionDb>): (n: nat)
    ensures n <= |sessions|
  {
    if sessions == [] then 0
    else MergedCount(sessions[..|sessions| - 1]) + (if sessions[|sessions| - 1].Session? then 1 else 0)
  }

  /** The edges the sessions contribute: each session's edge rows through that
      session's own id map. */
  function SessionEdges(sessions: seq<SessionDb>, index: map<string, NodeId>, now: int): set<Edge>
    requires SessionKeys(sessions, now) <= index.Keys
  {
    if sessions == [] then {}
    else
      var s := sessions[|sessions| - 1];
      SessionEdges(sessions[..|sessions| - 1], index, now) +
        (if s.Session? then MappedEdges(s.edges, IdMap(Rows(s.nodes, now), index, true)) else {})
  }

  /** The nodes the merge adds, in id order: session by session, the copies
      of the rows that are first with a lower-cased URL neither stored before
      the merge (`keys0`) nor read from an earlier session. */
  function MergedNodes(sessions: seq<SessionDb>, now: int, keys0: set<string>): seq<Node>
  {
    if sessions == [] then []
    else
      MergedNodes(sessions[..|sessions| - 1], now, keys0) +
        NewRows(Rows(SessionRows(sessions[|sessions| - 1]), now), true, keys0 + SessionKeys(sessions[..|sessions| - 1], now))
  }

  lemma MergedNodesSnoc(sessions: seq<SessionDb>, now: int, keys0: set<string>, i: nat)
    requires i < |sessions|
    ensures MergedNodes(sessions[..i + 1], now, keys0) ==
      MergedNodes(sessions[..i], now, keys0) + NewRows(Rows(SessionRows(sessions[i]), now), true, keys0 + SessionKeys(sessions[..i], now))
  {
    assert sessions[..i + 1][..i] == sessions[..i];
  }

  /** Row `k` of session `s` is the first row of that session whose lower-cased
      URL is neither in `keys0` nor the URL of a row of an earlier session. */
  ghost predicate FirstMerged(sessions: seq<SessionDb>, now: int, keys0: set<string>, s: nat, k: nat)
  {
    && s < |sessions|
    && FirstNew(Rows(SessionRows(sessions[s]), now), true, keys0 + SessionKeys(sessions[..s], now), k)
  }

  /** Before the last session, a row is first merged exactly when it is so among the sessions before the last. */
  lemma FirstMergedInit(sessions: seq<SessionDb>, now: int, keys0: set<string>)
    requires sessions != []
    ensures forall s: nat, k: nat :: s < |sessions| - 1 ==>
      (FirstMerged(sessions, now, keys0, s, k) <==> FirstMerged(sessions[..|sessions| - 1], now, keys0, s, k))
  {
    var init := sessions[..|sessions| - 1];
    forall s: nat | s < |init|
      ensures sessions[s] == init[s] && sessions[..s] == init[..s]
    {
    }
  }

  /** The nodes the last session adds: its rows that are first with a key
      not seen before it, with `ks` giving each one's row. */
  lemma LastSessionOrigin(sessions: seq<SessionDb>, now: int, keys0: set<string>) returns (ks: seq<nat>)
    requires sessions != []
    ensures var n := |sessions| - 1;
      var added := NewRows(Rows(SessionRows(sessions[n]), now), true, keys0 + SessionKeys(sessions[..n], now));
      && |ks| == |added|
      && (forall t :: 0 <= t < |ks| ==>
           FirstMerged(sessions, now, keys0, n, ks[t]) && added[t] == MergedCopy(SessionRows(sessions[n])[ks[t]], now))
      && (forall k :: FirstMerged(sessions, now, keys0, n, k) ==> k in ks)
  {
    var n := |sessions| - 1;
    var rows := Rows(SessionRows(sessions[n]), now);
    ks := NewRowsOrigin(rows, true, keys0 + SessionKeys(sessions[..n], now));
  }

  /** Every node the merge adds is the copy of a first merged row; in
      particular its lower-cased URL was not stored before the merge. */
  lemma {:induction false} MergedNodesFrom(sessions: seq<SessionDb>, now: int, keys0: set<string>)
    ensures forall t :: 0 <= t < |MergedNodes(sessions, now, keys0)| ==>
      exists s: nat, k: nat :: FirstMerged(sessions, now, keys0, s, k) && MergedNodes(sessions, now, keys0)[t] == MergedCopy(SessionRows(sessions[s])[k], now)
    decreases |sessions|
  {
    if sessions != [] {
      var n := |sessions| - 1;
      var init := sessions[..n];
      MergedNodesFrom(init, now, keys0);
      FirstMergedInit(sessions, now, keys0);
      var ks := LastSessionOrigin(sessions, now, keys0);
      var m0 := MergedNodes(init, now, keys0);
      var added := NewRows(Rows(SessionRows(sessions[n]), now), true, keys0 + SessionKeys(init, now));
      var all := MergedNodes(sessions, now, keys0);
      assert all == m0 + added;
      forall t | 0 <= t < |all|
        ensures exists s: nat, k: nat :: FirstMerged(sessions, now, keys0, s, k) && all[t] == MergedCopy(SessionRows(sessions[s])[k], now)
      {
        if t < |m0| {
          var s: nat, k: nat :| FirstMerged(init, now, keys0, s, k) && m0[t] == MergedCopy(SessionRows(init[s])[k], now);
          assert FirstMerged(sessions, now, keys0, s, k) && init[s] == sessions[s];
        } else {
          assert FirstMerged(sessions, now, keys0, n, ks[t - |m0|]);
        }
      }
    } else {
      assert MergedNodes(sessions, now, keys0) == [];
    }
  }

  /** The nodes the first `i` sessions add are a prefix of those the first `j` add, for `i <= j`. */
  lemma {:induction false} MergedPrefix(sessions: seq<SessionDb>, now: int, keys0: set<string>, i: nat, j: nat)
    requires i <= j <= |sessions|
    ensures MergedNodes(sessions[..i], now, keys0) <= MergedNodes(sessions[..j], now, keys0)
    decreases j
  {
    if i < j {
      MergedPrefix(sessions, now, keys0, i, j - 1);
      MergedNodesSnoc(sessions, now, keys0, j - 1);
    }
  }

  /** Every first merged row is copied into the store by the merge. */
  lemma MergedNodesCover(sessions: seq<SessionDb>, now: int, keys0: set<string>)
    ensures forall s: nat, k: nat :: FirstMerged(sessions, now, keys0, s, k) ==>
      MergedCopy(SessionRows(sessions[s])[k], now) in MergedNodes(sessions, now, keys0)
  {
    forall s: nat, k: nat | FirstMerged(sessions, now, keys0, s, k)
      ensures MergedCopy(SessionRows(sessions[s])[k], now) in MergedNodes(sessions, now, keys0)
    {
      var rows := Rows(SessionRows(sessions[s]), now);
      var added := NewRows(rows, true, keys0 + SessionKeys(sessions[..s], now));
      FirstNewCopied(rows, true, keys0 + SessionKeys(sessions[..s], now), k);
      MergedNodesSnoc(sessions, now, keys0, s);
      MergedPrefix(sessions, now, keys0, s + 1, |sessions|);
      assert rows[k].1 in MergedNodes(sessions[..s + 1], now, keys0);
      assert sessions[..|sessions|] == sessions;
    }
  }

  /** The nodes added by the first `i` sessions sit, in order, under the ids from `next0` on. */
  ghost predicate MergedInOrder(sessions: seq<SessionDb>, now: int, i: nat, keys0: set<string>,
    next0: NodeId, nodes: map<NodeId, Node>, merged: nat)
    requires i <= |sessions|
  {
    && |MergedNodes(sessions[..i], now, keys0)| == merged
    && Placed(nodes, next0, MergedNodes(sessions[..i], now, keys0))
  }

  /** One session's inserted nodes, in row order, follow those of the earlier sessions. */
  lemma MergedInOrderStep(sessions: seq<SessionDb>, now: int, i: nat, keys0: set<string>, next0: NodeId,
    nodes: map<NodeId, Node>, next: NodeId, keys: set<string>, merged: nat, nodes2: map<NodeId, Node>, inserted: nat)
    requires i < |sessions| && MergedInOrder(sessions, now, i, keys0, next0, nodes, merged)
    requires keys == keys0 + SessionKeys(sessions[..i], now) && next == next0 + merged
    requires Grown(nodes, nodes2, next, next + inserted)
    requires InsertedInOrder(Rows(SessionRows(sessions[i]), now), true, |SessionRows(sessions[i])|, keys, next, nodes2, inserted)
    ensures MergedInOrder(sessions, now, i + 1, keys0, next0, nodes2, merged + inserted)
  {
    var rows := Rows(SessionRows(sessions[i]), now);
    var before, added := MergedNodes(sessions[..i], now, keys0), NewRows(rows, true, keys);
    InsertedAll(rows, true, keys, next, nodes2, inserted);
    assert |before| == merged && Placed(nodes, next0, before);
    PlacedAfter(nodes, nodes2, next0, before, added);
    MergedNodesSnoc(sessions, now, keys0, i);
  }

  /** The number of sessions merged is the number that yielded both tables. */
  lemma {:induction false} MergedCountIff(sessions: seq<SessionDb>)
    ensures MergedCount(sessions) == |sessions| <==> forall j :: 0 <= j < |sessions| ==> sessions[j].Session?
    decreases |sessions|
  {
    if sessions != [] {
      var n := |sessions| - 1;
      MergedCountIff(sessions[..n]);
      assert forall j :: 0 <= j < n ==> sessions[..n][j] == sessions[j];
    }
  }

  lemma SessionSnoc(sessions: seq<SessionDb>, index: map<string, NodeId>, now: int, i: nat)
    requires i < |sessions|
    ensures SessionKeys(sessions[..i + 1], now) == SessionKeys(sessions[..i], now) + RowKeys(Rows(SessionRows(sessions[i]), now), true)
    ensures RowCount(sessions[..i + 1]) == RowCount(sessions[..i]) + |SessionRows(sessions[i])|
    ensures MergedCount(sessions[..i + 1]) == MergedCount(sessions[..i]) + (if sessions[i].Session? then 1 else 0)
    ensures SessionKeys(sessions[..i + 1], now) <= index.Keys ==>
      SessionEdges(sessions[..i + 1], index, now) == SessionEdges(sessions[..i], index, now) +
        (if sessions[i].Session? then MappedEdges(sessions[i].edges, IdMap(Rows(sessions[i].nodes, now), index, true)) else {})
  {
    assert sessions[..i + 1][..i] == sessions[..i];
  }

  /** Adding keys to the index does not change the edges the sessions contribute. */
  lemma {:induction false} SessionEdgesGrow(sessions: seq<SessionDb>, index: map<string, NodeId>, index2: map<string, NodeId>, now: int)
    requires SessionKeys(sessions, now) <= index.Keys && Extends(index, index2)
    ensures SessionKeys(sessions, now) <= index2.Keys
    ensures SessionEdges(sessions, index2, now) == SessionEdges(sessions, index, now)
    decreases |sessions|
  {
    if sessions != [] {
      var n := |sessions| - 1;
      assert sessions[..n + 1] == sessions;
      SessionSnoc(sessions, index, now, n);
      SessionSnoc(sessions, index2, now, n);
      SessionEdgesGrow(sessions[..n], index, index2, now);
      if sessions[n].Session? {
        IdMapGrow(Rows(sessions[n].nodes, now), index, index2, true);
      }
    }
  }

  /** What the merge has done after the first `i` sessions. */
  ghost predicate MergedSoFar(sessions: seq<SessionDb>, now: int, i: nat,
    nodes0: map<NodeId, Node>, next0: NodeId, keys0: set<string>, edges0: set<Edge>,
    nodes: map<NodeId, Node>, next: NodeId, index: map<string, NodeId>, edges: set<Edge>, r: MergeResult)
    requires i <= |sessions|
  {
    && Indexes(index, nodes, true)
    && index.Keys == keys0 + SessionKeys(sessions[..i], now)
    && |index.Keys| == |keys0| + r.nodesMerged
    && r.nodesMerged + r.nodesSkipped == RowCount(sessions[..i])
    && r.sessionsMerged == MergedCount(sessions[..i])
    && next == next0 + r.nodesMerged && Grown(nodes0, nodes, next0, next)
    && edges == edges0 + SessionEdges(sessions[..i], index, now)
    && |edges| == |edges0| + r.edgesMerged
  }

  lemma MergedStart(sessions: seq<SessionDb>, now: int, nodes0: map<NodeId, Node>, next0: NodeId, index0: map<string, NodeId>, edges0: set<Edge>)
    requires Indexes(index0, nodes0, true)
    ensures MergedSoFar(sessions, now, 0, nodes0, next0, index0.Keys, edges0, nodes0, next0, index0, edges0, MergeResult(0, 0, 0, 0))
    ensures MergedInOrder(sessions, now, 0, index0.Keys, next0, nodes0, 0)
  {
    assert sessions[..0] == [];
  }

  /** The index and node part of one merge step. */
  lemma MergedNodesStep(sessions: seq<SessionDb>, now: int, i: nat, nodes0: map<NodeId, Node>, next0: NodeId, keys0: set<string>,
    nodes: map<NodeId, Node>, next: NodeId, index: map<string, NodeId>,
    nodes2: map<NodeId, Node>, next2: NodeId, index2: map<string, NodeId>, inserted: nat, r: MergeResult)
    requires i < |sessions|
    requires index.Keys == keys0 + SessionKeys(sessions[..i], now) && |index.Keys| == |keys0| + r.nodesMerged
    requires next == next0 + r.nodesMerged && Grown(nodes0, nodes, next0, next)
    requires index2.Keys == index.Keys + RowKeys(Rows(SessionRows(sessions[i]), now), true)
    requires |index2.Keys| == |index.Keys| + inserted
    requires next2 == next + inserted && Grown(nodes, nodes2, next, next2)
    ensures index2.Keys == keys0 + SessionKeys(sessions[..i + 1], now) && |index2.Keys| == |keys0| + r.nodesMerged + inserted
    ensures next2 == next0 + r.nodesMerged + inserted && Grown(nodes0, nodes2, next0, next2)
  {
    SessionSnoc(sessions, index, now, i);
    GrownTrans(nodes0, nodes, nodes2, next0, next, next2);
  }

  /** The edge part of one merge step: session `i`'s mapped edges join those of the earlier sessions. */
  lemma MergedEdgesStep(sessions: seq<SessionDb>, now: int, i: nat, edges0: set<Edge>,
    index: map<string, NodeId>, index2: map<string, NodeId>, edges: set<Edge>, edges2: set<Edge>, added: nat, r: MergeResult)
    requires i < |sessions| && Extends(index, index2)
    requires SessionKeys(sessions[..i], now) <= index.Keys && SessionKeys(sessions[..i + 1], now) <= index2.Keys
    requires edges == edges0 + SessionEdges(sessions[..i], index, now) && |edges| == |edges0| + r.edgesMerged
    requires sessions[i].Session? ==>
      (edges2 == edges + MappedEdges(sessions[i].edges, IdMap(Rows(sessions[i].nodes, now), index2, true)) &&
       |edges2| == |edges| + added)
    requires !sessions[i].Session? ==> edges2 == edges && added == 0
    ensures edges2 == edges0 + SessionEdges(sessions[..i + 1], index2, now)
    ensures |edges2| == |edges0| + r.edgesMerged + added
  {
    SessionEdgesGrow(sessions[..i], index, index2, now);
    SessionSnoc(sessions, index2, now, i);
  }

  /** One session folded in: the merge state moves from `i` to `i + 1` sessions. */
  lemma MergedStep(sessions: seq<SessionDb>, now: int, i: nat,
    nodes0: map<NodeId, Node>, next0: NodeId, keys0: set<string>, edges0: set<Edge>,
    nodes: map<NodeId, Node>, next: NodeId, index: map<string, NodeId>, edges: set<Edge>,
    nodes2: map<NodeId, Node>, next2: NodeId, index2: map<string, NodeId>, edges2: set<Edge>,
    inserted: nat, skipped: nat, added: nat, r: MergeResult)
    requires i < |sessions|
    requires MergedSoFar(sessions, now, i, nodes0, next0, keys0, edges0, nodes, next, index, edges, r)
    requires SessionMerged(sessions[i], now, nodes, next, index, edges, nodes2, next2, index2, edges2, inserted, skipped, added)
    ensures MergedSoFar(sessions, now, i + 1, nodes0, next0, keys0, edges0, nodes2, next2, index2, edges2,
      MergeResult(r.nodesMerged + inserted, r.edgesMerged + added, r.nodesSkipped + skipped,
        r.sessionsMerged + (if sessions[i].Session? then 1 else 0)))
  {
    SessionSnoc(sessions, index2, now, i);
    MergedNodesStep(sessions, now, i, nodes0, next0, keys0, nodes, next, index, nodes2, next2, index2, inserted, r);
    MergedEdgesStep(sessions, now, i, edges0, index, index2, edges, edges2, added, r);
  }

  /** What merging one session does to the store and the shared index: its
      rows are reconciled against the index (none when its node query never
      ran), and when both its queries prepared, its mapped edges are inserted. */
  ghost predicate SessionMerged(s: SessionDb, now: int,
    nodes: map<NodeId, Node>, next: NodeId, index: map<string, NodeId>, edges: set<Edge>,
    nodes2: map<NodeId, Node>, next2: NodeId, index2: map<string, NodeId>, edges2: set<Edge>,
    inserted: nat, skipped: nat, added: nat)
  {
    var rows := Rows(SessionRows(s), now);
    && Indexes(index2, nodes2, true) && Extends(index, index2)
    && index2.Keys == index.Keys + RowKeys(rows, true)
    && |index2.Keys| == |index.Keys| + inserted
    && inserted + skipped == |rows|
    && next2 == next + inserted && Grown(nodes, nodes2, next, next2)
    && (s.Session? ==>
         && edges2 == edges + MappedEdges(s.edges, IdMap(rows, index2, true))
         && |edges2| == |edges| + added)
    && (!s.Session? ==> edges2 == edges && added == 0)
  }

  /** The node and edge facts of one session's merge give the step the outer loop needs. */
  lemma SessionReconciled(s: SessionDb, now: int,
    nodes: map<NodeId, Node>, next: NodeId, index: map<string, NodeId>, edges: set<Edge>,
    nodes2: map<NodeId, Node>, next2: NodeId, index2: map<string, NodeId>, edges2: set<Edge>,
    idMap: map<NodeId, NodeId>, inserted: nat, skipped: nat, added: nat)
    requires Reconciled(Rows(SessionRows(s), now), true, |SessionRows(s)|, nodes, next, index, nodes2, next2, index2, idMap, inserted, skipped)
    requires s.Session? ==> edges2 == edges + MappedEdges(s.edges, idMap) && |edges2| == |edges| + added
    requires !s.Session? ==> edges2 == edges && added == 0
    ensures SessionMerged(s, now, nodes, next, index, edges, nodes2, next2, index2, edges2, inserted, skipped, added)
  {
    var rows := Rows(SessionRows(s), now);
    assert rows[..|rows|] == rows;
  }

  /** Every node a session adds is the merged copy of one of its rows, filed
      in the index under its lower-cased URL, which was not indexed before. */
  lemma MergedCopies(s: SessionDb, now: int,
    nodes: map<NodeId, Node>, next: NodeId, index: map<string, NodeId>,
    nodes2: map<NodeId, Node>, next2: NodeId, index2: map<string, NodeId>,
    idMap: map<NodeId, NodeId>, inserted: nat, skipped: nat)
    requires Reconciled(Rows(SessionRows(s), now), true, |SessionRows(s)|, nodes, next, index, nodes2, next2, index2, idMap, inserted, skipped)
    ensures forall id :: next <= id < next2 ==>
      && id in nodes2 && AsciiLower(nodes2[id].url) !in index && AsciiLower(nodes2[id].url) in index2 && index2[AsciiLower(nodes2[id].url)] == id
      && exists k :: 0 <= k < |SessionRows(s)| && nodes2[id] == MergedCopy(SessionRows(s)[k], now)
  {
    NewRowsAreCopies(SessionRows(s), now, index, nodes2, index2, next, next2);
  }

  lemma NewRowsAreCopies(sns: seq<SessionNode>, now: int, index: map<string, NodeId>,
    nodes2: map<NodeId, Node>, index2: map<string, NodeId>, next: NodeId, next2: NodeId)
    requires forall id :: next <= id < next2 ==> NewRow(Rows(sns, now), true, index, nodes2, index2, id)
    ensures forall id :: next <= id < next2 ==>
      && id in nodes2 && AsciiLower(nodes2[id].url) !in index && AsciiLower(nodes2[id].url) in index2 && index2[AsciiLower(nodes2[id].url)] == id
      && exists k :: 0 <= k < |sns| && nodes2[id] == MergedCopy(sns[k], now)
  {
    forall id | next <= id < next2
      ensures && id in nodes2 && AsciiLower(nodes2[id].url) !in index && AsciiLower(nodes2[id].url) in index2 && index2[AsciiLower(nodes2[id].url)] == id
              && exists k :: 0 <= k < |sns| && nodes2[id] == MergedCopy(sns[k], now)
    {
      assert NewRow(Rows(sns, now), true, index, nodes2, index2, id);
      var k :| 0 <= k < |sns| && Rows(sns, now)[k].1 == nodes2[id];
    }
  }

  /** The body of the loop over session paths.  The rows of a session that
      opened are reconciled through the shared index; when the edge query
      also prepared, the edges are inserted through the session's id map
      (and the caller counts the session). */
  method MergeSession(g: GraphStore, s: SessionDb, index: map<string, NodeId>, now: int)
    returns (index2: map<string, NodeId>, idMap: map<NodeId, NodeId>, inserted: nat, skipped: nat, added: nat)
    requires g.Valid() && Indexes(index, g.nodes, true)
    modifies g
    ensures g.Valid()
    ensures Reconciled(Rows(SessionRows(s), now), true, |SessionRows(s)|, old(g.nodes), old(g.nextId), index, g.nodes, g.nextId, index2, idMap, inserted, skipped)
    ensures InsertedInOrder(Rows(SessionRows(s), now), true, |SessionRows(s)|, index.Keys, old(g.nextId), g.nodes, inserted)
    ensures s.Session? ==> g.edges == old(g.edges) + MappedEdges(s.edges, idMap) && |g.edges| == |old(g.edges)| + added
    ensures !s.Session? ==> g.edges == old(g.edges) && added == 0
  {
    var rows := Rows(SessionRows(s), now);
    if s.CannotOpen? || s.NodesQueryFails? {
      ReconciledStart(rows, true, g.nodes, g.nextId, index);
      assert rows[..0] == [];
      return index, map[], 0, 0, 0;
    }
    index2, idMap, inserted, skipped := ReconcileNodes(g, rows, true, index);
    added := 0;
    if s.Session? {
      var attempted;
      attempted, added := InsertMappedEdges(g, s.edges, idMap);
    }
  }

  /** Session `i` folded into the store: the merge state moves from `i` to `i + 1` sessions. */
  method MergeOne(g: GraphStore, sessions: seq<SessionDb>, i: nat, now: int, idx: map<string, NodeId>, r: MergeResult,
    ghost nodes0: map<NodeId, Node>, ghost next0: NodeId, ghost keys0: set<string>, ghost edges0: set<Edge>)
    returns (idx2: map<string, NodeId>, r2: MergeResult)
    requires g.Valid() && i < |sessions|
    requires MergedSoFar(sessions, now, i, nodes0, next0, keys0, edges0, g.nodes, g.nextId, idx, g.edges, r)
    requires MergedInOrder(sessions, now, i, keys0, next0, g.nodes, r.nodesMerged)
    modifies g
    ensures g.Valid()
    ensures MergedSoFar(sessions, now, i + 1, nodes0, next0, keys0, edges0, g.nodes, g.nextId, idx2, g.edges, r2)
    ensures MergedInOrder(sessions, now, i + 1, keys0, next0, g.nodes, r2.nodesMerged)
  {
    ghost var nodes, next, edges := g.nodes, g.nextId, g.edges;
    var idMap, inserted, skipped, added;
    idx2, idMap, inserted, skipped, added := MergeSession(g, sessions[i], idx, now);
    SessionReconciled(sessions[i], now, nodes, next, idx, edges, g.nodes, g.nextId, idx2, g.edges, idMap, inserted, skipped, added);
    MergedStep(sessions, now, i, nodes0, next0, keys0, edges0, nodes, next, idx, edges,
      g.nodes, g.nextId, idx2, g.edges, inserted, skipped, added, r);
    MergedInOrderStep(sessions, now, i, keys0, next0, nodes, next, idx.Keys, r.nodesMerged, g.nodes, inserted);
    r2 := MergeResult(r.nodesMerged + inserted, r.edgesMerged + added, r.nodesSkipped + skipped,
      r.sessionsMerged + (if sessions[i].Session? then 1 else 0));
  }

  /** `merge_sessions(session_paths)` over the sessions those paths yield,
      with `now` the merge time.  The URL index of the main store is built
      once and shared by all sessions.  It ends up covering exactly the
      stored keys and the keys of every session row read, and the nodes
      merged are the keys that were new. */
  method MergeSessions(g: GraphStore, sessions: seq<SessionDb>, now: int) returns (r: MergeResult, ghost index: map<string, NodeId>)
    requires g.Valid()
    modifies g
    ensures g.Valid() && Indexes(index, g.nodes, true)
    ensures KeysOf(g.nodes, true) == KeysOf(old(g.nodes), true) + SessionKeys(sessions, now)
    ensures |KeysOf(g.nodes, true)| == |KeysOf(old(g.nodes), true)| + r.nodesMerged
    ensures r.nodesMerged + r.nodesSkipped == RowCount(sessions)
    ensures r.sessionsMerged == MergedCount(sessions)
    ensures g.nextId == old(g.nextId) + r.nodesMerged && Grown(old(g.nodes), g.nodes, old(g.nextId), g.nextId)
    ensures SessionKeys(sessions, now) <= index.Keys
    ensures g.edges == old(g.edges) + SessionEdges(sessions, index, now)
    ensures |g.edges| == |old(g.edges)| + r.edgesMerged
    ensures SessionKeys(sessions, now) <= KeysOf(old(g.nodes), true) ==> r.nodesMerged == 0 && g.nodes == old(g.nodes)
    ensures |MergedNodes(sessions, now, KeysOf(old(g.nodes), true))| == r.nodesMerged
    ensures Placed(g.nodes, old(g.nextId), MergedNodes(sessions, now, KeysOf(old(g.nodes), true)))
  {
    var index0 := IndexByKey(g.nodes, true);
    ghost var nodes0, next0, edges0 := g.nodes, g.nextId, g.edges;
    var idx := index0;
    r := MergeResult(0, 0, 0, 0);
    MergedStart(sessions, now, nodes0, next0, index0, edges0);
    for i := 0 to |sessions|
      invariant g.Valid()
      invariant MergedSoFar(sessions, now, i, nodes0, next0, index0.Keys, edges0, g.nodes, g.nextId, idx, g.edges, r)
      invariant MergedInOrder(sessions, now, i, index0.Keys, next0, g.nodes, r.nodesMerged)
    {
      idx, r := MergeOne(g, sessions, i, now, idx, r, nodes0, next0, index0.Keys, edges0);
    }
    assert sessions[..|sessions|] == sessions;
    index := idx;
    IndexKeys(index0, nodes0, true);
    IndexKeys(index, g.nodes, true);
    if SessionKeys(sessions, now) <= KeysOf(nodes0, true) {
      NothingNew(nodes0, next0, index0.Keys, SessionKeys(sessions, now), g.nodes, g.nextId, index.Keys, r.nodesMerged);
    }
  }
}
