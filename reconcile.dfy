/** The loops that reconcile the rows of another database with the store.
    A row's URL is looked up in a URL index built from the store: a known
    URL maps the row's old id to the stored node, an unknown one is
    inserted under a new id and added to the index, so a URL that comes
    back later in the same call is found.  Session merge looks URLs up
    lower-cased, crawler import looks them up exactly.  The edge loop then
    inserts every edge row whose two endpoints were mapped. */
module Reconcile {
  import opened Types
  import opened Store

  /** The index keys of the rows' URLs. */
  function RowKeys<K>(rows: seq<(K, Node)>, foldCase: bool): set<string>
  {
    if rows == [] then {}
    else RowKeys(rows[..|rows| - 1], foldCase) + {Key(rows[|rows| - 1].1.url, foldCase)}
  }

  lemma RowKeysSnoc<K>(rows: seq<(K, Node)>, foldCase: bool, i: nat)
    requires i < |rows|
    ensures RowKeys(rows[..i + 1], foldCase) == RowKeys(rows[..i], foldCase) + {Key(rows[i].1.url, foldCase)}
  {
    assert rows[..i + 1][..i] == rows[..i];
  }

  /** The keys are exactly those of the rows' URLs. */
  lemma {:induction false} RowKeysMembers<K>(rows: seq<(K, Node)>, foldCase: bool)
    ensures forall key :: key in RowKeys(rows, foldCase) <==> exists k :: 0 <= k < |rows| && Key(rows[k].1.url, foldCase) == key
    decreases |rows|
  {
    if rows != [] {
      var n := |rows| - 1;
      assert rows[..n + 1] == rows;
      RowKeysSnoc(rows, foldCase, n);
      RowKeysMembers(rows[..n], foldCase);
      forall key | key in RowKeys(rows, foldCase)
        ensures exists k :: 0 <= k < |rows| && Key(rows[k].1.url, foldCase) == key
      {
        if key != Key(rows[n].1.url, foldCase) {
          var k :| 0 <= k < n && Key(rows[..n][k].1.url, foldCase) == key;
          assert rows[k] == rows[..n][k];
        }
      }
      forall key | exists k :: 0 <= k < |rows| && Key(rows[k].1.url, foldCase) == key
        ensures key in RowKeys(rows, foldCase)
      {
        var k :| 0 <= k < |rows| && Key(rows[k].1.url, foldCase) == key;
        if k < n {
          assert rows[k] == rows[..n][k];
        }
      }
    }
  }

  /** The old-id to new-id map the node loop builds: every row's old id maps
      to the node indexed under its URL's key.  A later row with the same old
      id overwrites an earlier one, as `HashMap::insert` does. */
  function IdMap<K(==,!new)>(rows: seq<(K, Node)>, index: map<string, NodeId>, foldCase: bool): (r: map<K, NodeId>)
    requires RowKeys(rows, foldCase) <= index.Keys
    decreases |rows|
  {
    if rows == [] then map[]
    else
      var last := rows[|rows| - 1];
      RowKeysSnoc(rows, foldCase, |rows| - 1);
      assert rows[..|rows|] == rows;
      IdMap(rows[..|rows| - 1], index, foldCase)[last.0 := index[Key(last.1.url, foldCase)]]
  }

  lemma IdMapSnoc<K(!new)>(rows: seq<(K, Node)>, index: map<string, NodeId>, foldCase: bool, i: nat)
    requires i < |rows| && RowKeys(rows[..i + 1], foldCase) <= index.Keys
    ensures RowKeys(rows[..i], foldCase) <= index.Keys
    ensures IdMap(rows[..i + 1], index, foldCase) == IdMap(rows[..i], index, foldCase)[rows[i].0 := index[Key(rows[i].1.url, foldCase)]]
  {
    RowKeysSnoc(rows, foldCase, i);
    assert rows[..i + 1][..i] == rows[..i];
  }

  /** The map has exactly the rows' old ids as keys. */
  lemma {:induction false} IdMapKeys<K(!new)>(rows: seq<(K, Node)>, index: map<string, NodeId>, foldCase: bool)
    requires RowKeys(rows, foldCase) <= index.Keys
    ensures forall x :: x in IdMap(rows, index, foldCase) <==> exists k :: 0 <= k < |rows| && rows[k].0 == x
    decreases |rows|
  {
    if rows != [] {
      var n := |rows| - 1;
      assert rows[..n + 1] == rows;
      IdMapSnoc(rows, index, foldCase, n);
      IdMapKeys(rows[..n], index, foldCase);
      forall x | x in IdMap(rows, index, foldCase)
        ensures exists k :: 0 <= k < |rows| && rows[k].0 == x
      {
        if x != rows[n].0 {
          var k :| 0 <= k < n && rows[..n][k].0 == x;
          assert rows[k].0 == x;
        }
      }
      forall x | exists k :: 0 <= k < |rows| && rows[k].0 == x
        ensures x in IdMap(rows, index, foldCase)
      {
        var k :| 0 <= k < |rows| && rows[k].0 == x;
        if k < n {
          assert rows[..n][k].0 == x;
        }
      }
    }
  }

  /** The id a row's old id maps to is the one indexed for the URL of the last row carrying that old id. */
  lemma {:induction false} IdMapLast<K(!new)>(rows: seq<(K, Node)>, index: map<string, NodeId>, foldCase: bool, k: nat)
    requires RowKeys(rows, foldCase) <= index.Keys
    requires k < |rows| && forall j :: k < j < |rows| ==> rows[j].0 != rows[k].0
    ensures var m := IdMap(rows, index, foldCase);
      rows[k].0 in m && Key(rows[k].1.url, foldCase) in index && m[rows[k].0] == index[Key(rows[k].1.url, foldCase)]
    decreases |rows|
  {
    var n := |rows| - 1;
    assert rows[..n + 1] == rows;
    IdMapSnoc(rows, index, foldCase, n);
    if k < n {
      IdMapLast(rows[..n], index, foldCase, k);
    }
  }

  /** Adding keys to the index does not change the map built from rows it already covered. */
  lemma {:induction false} IdMapGrow<K(!new)>(rows: seq<(K, Node)>, index: map<string, NodeId>, index2: map<string, NodeId>, foldCase: bool)
    requires RowKeys(rows, foldCase) <= index.Keys && Extends(index, index2)
    ensures RowKeys(rows, foldCase) <= index2.Keys
    ensures IdMap(rows, index2, foldCase) == IdMap(rows, index, foldCase)
    decreases |rows|
  {
    if rows != [] {
      var n := |rows| - 1;
      assert rows[..n + 1] == rows;
      IdMapSnoc(rows, index, foldCase, n);
      IdMapGrow(rows[..n], index, index2, foldCase);
      IdMapSnoc(rows, index2, foldCase, n);
    }
  }

  /** What the node loop has done after the first `i` rows: the state it
      keeps from one row to the next. */
  ghost predicate Reconciled<K(!new)>(rows: seq<(K, Node)>, foldCase: bool, i: nat,
    nodes0: map<NodeId, Node>, next0: NodeId, index0: map<string, NodeId>,
    nodes: map<NodeId, Node>, next: NodeId, index: map<string, NodeId>,
    idMap: map<K, NodeId>, inserted: nat, skipped: nat)
    requires i <= |rows|
  {
    && Indexes(index, nodes, foldCase)
    && Extends(index0, index)
    && index.Keys == index0.Keys + RowKeys(rows[..i], foldCase)
    && |index.Keys| == |index0.Keys| + inserted
    && inserted + skipped == i
    && idMap == IdMap(rows[..i], index, foldCase)
    && next == next0 + inserted
    && Grown(nodes0, nodes, next0, next)
    && (forall id :: next0 <= id < next ==> NewRow(rows, foldCase, index0, nodes, index, id))
  }

  /** Node `id` was inserted for one of the rows, whose key was not indexed before the loop. */
  ghost predicate NewRow<K>(rows: seq<(K, Node)>, foldCase: bool,
    index0: map<string, NodeId>, nodes: map<NodeId, Node>, index: map<string, NodeId>, id: NodeId)
  {
    && id in nodes
    && Key(nodes[id].url, foldCase) !in index0
    && Key(nodes[id].url, foldCase) in index && index[Key(nodes[id].url, foldCase)] == id
    && exists k :: 0 <= k < |rows| && rows[k].1 == nodes[id]
  }

  lemma ReconciledStart<K(!new)>(rows: seq<(K, Node)>, foldCase: bool, nodes0: map<NodeId, Node>, next0: NodeId, index0: map<string, NodeId>)
    requires Indexes(index0, nodes0, foldCase)
    ensures Reconciled(rows, foldCase, 0, nodes0, next0, index0, nodes0, next0, index0, map[], 0, 0)
  {
    assert rows[..0] == [];
  }

  /** A row whose key is indexed maps its old id to the indexed node. */
  lemma ReconciledSkip<K(!new)>(rows: seq<(K, Node)>, foldCase: bool, i: nat,
    nodes0: map<NodeId, Node>, next0: NodeId, index0: map<string, NodeId>,
    nodes: map<NodeId, Node>, next: NodeId, index: map<string, NodeId>,
    idMap: map<K, NodeId>, inserted: nat, skipped: nat)
    requires i < |rows| && Key(rows[i].1.url, foldCase) in index
    requires Reconciled(rows, foldCase, i, nodes0, next0, index0, nodes, next, index, idMap, inserted, skipped)
    ensures Reconciled(rows, foldCase, i + 1, nodes0, next0, index0, nodes, next, index,
      idMap[rows[i].0 := index[Key(rows[i].1.url, foldCase)]], inserted, skipped + 1)
  {
    var key := Key(rows[i].1.url, foldCase);
    assert rows[..i + 1][..i] == rows[..i];
    RowKeysSnoc(rows, foldCase, i);
    IdMapSnoc(rows, index, foldCase, i);
  }

  /** Storing and indexing a node under `next` keeps the index exact and records the node as new. */
  lemma InsertKeepsNewRows<K>(rows: seq<(K, Node)>, foldCase: bool, i: nat,
    nodes0: map<NodeId, Node>, next0: NodeId, index0: map<string, NodeId>,
    nodes: map<NodeId, Node>, next: NodeId, index: map<string, NodeId>)
    requires i < |rows| && Key(rows[i].1.url, foldCase) !in index && next !in nodes
    requires Indexes(index, nodes, foldCase) && Extends(index0, index) && Grown(nodes0, nodes, next0, next) && next0 <= next
    requires forall id :: next0 <= id < next ==> NewRow(rows, foldCase, index0, nodes, index, id)
    ensures var nodes2, index2 := nodes[next := rows[i].1], index[Key(rows[i].1.url, foldCase) := next];
      && Indexes(index2, nodes2, foldCase) && Extends(index0, index2) && Grown(nodes0, nodes2, next0, next + 1)
      && forall id :: next0 <= id < next + 1 ==> NewRow(rows, foldCase, index0, nodes2, index2, id)
  {
    var key := Key(rows[i].1.url, foldCase);
    var index2 := index[key := next];
    var nodes2 := nodes[next := rows[i].1];
    IndexInsert(index, nodes, foldCase, next, rows[i].1);
    forall id | id in nodes2 && next0 <= id < next + 1
      ensures NewRow(rows, foldCase, index0, nodes2, index2, id)
    {
      if id == next {
        assert rows[i].1 == nodes2[id];
      } else {
        assert NewRow(rows, foldCase, index0, nodes, index, id);
        var k :| 0 <= k < |rows| && rows[k].1 == nodes[id];
        assert rows[k].1 == nodes2[id];
      }
    }
  }

  /** A row whose key is not indexed is stored under the next id and indexed. */
  lemma ReconciledInsert<K(!new)>(rows: seq<(K, Node)>, foldCase: bool, i: nat,
    nodes0: map<NodeId, Node>, next0: NodeId, index0: map<string, NodeId>,
    nodes: map<NodeId, Node>, next: NodeId, index: map<string, NodeId>,
    idMap: map<K, NodeId>, inserted: nat, skipped: nat)
    requires i < |rows| && Key(rows[i].1.url, foldCase) !in index && next !in nodes
    requires Reconciled(rows, foldCase, i, nodes0, next0, index0, nodes, next, index, idMap, inserted, skipped)
    ensures var nodes2, index2 := nodes[next := rows[i].1], index[Key(rows[i].1.url, foldCase) := next];
      Reconciled(rows, foldCase, i + 1, nodes0, next0, index0, nodes2, next + 1, index2, idMap[rows[i].0 := next], inserted + 1, skipped)
  {
    var key := Key(rows[i].1.url, foldCase);
    var index2 := index[key := next];
    InsertKeepsNewRows(rows, foldCase, i, nodes0, next0, index0, nodes, next, index);
    InsertCountsKey(rows, foldCase, i, index0, index, next);
    IdMapGrow(rows[..i], index, index2, foldCase);
    IdMapSnoc(rows, index2, foldCase, i);
  }

  /** Indexing a new key adds the row's key and one to the count of keys. */
  lemma InsertCountsKey<K>(rows: seq<(K, Node)>, foldCase: bool, i: nat,
    index0: map<string, NodeId>, index: map<string, NodeId>, next: NodeId)
    requires i < |rows| && Key(rows[i].1.url, foldCase) !in index
    requires index.Keys == index0.Keys + RowKeys(rows[..i], foldCase)
    ensures var index2 := index[Key(rows[i].1.url, foldCase) := next];
      && index2.Keys == index0.Keys + RowKeys(rows[..i + 1], foldCase)
      && |index2.Keys| == |index.Keys| + 1
  {
    RowKeysSnoc(rows, foldCase, i);
  }

  /** The nodes the node loop inserts, in row order: the node of every row
      whose key is neither in `keys` nor the key of an earlier row. */
  function NewRows<K>(rows: seq<(K, Node)>, foldCase: bool, keys: set<string>): seq<Node>
  {
    if rows == [] then []
    else if Key(rows[|rows| - 1].1.url, foldCase) in keys + RowKeys(rows[..|rows| - 1], foldCase) then
      NewRows(rows[..|rows| - 1], foldCase, keys)
    else NewRows(rows[..|rows| - 1], foldCase, keys) + [rows[|rows| - 1].1]
  }

  lemma NewRowsSnoc<K>(rows: seq<(K, Node)>, foldCase: bool, keys: set<string>, i: nat)
    requires i < |rows|
    ensures NewRows(rows[..i + 1], foldCase, keys) ==
      if Key(rows[i].1.url, foldCase) in keys + RowKeys(rows[..i], foldCase) then NewRows(rows[..i], foldCase, keys)
      else NewRows(rows[..i], foldCase, keys) + [rows[i].1]
  {
    assert rows[..i + 1][..i] == rows[..i];
  }

  /** Row `k` is the first row with its key, and that key is not in `keys`. */
  ghost predicate FirstNew<K>(rows: seq<(K, Node)>, foldCase: bool, keys: set<string>, k: nat)
  {
    && k < |rows|
    && Key(rows[k].1.url, foldCase) !in keys
    && forall j :: 0 <= j < k ==> Key(rows[j].1.url, foldCase) != Key(rows[k].1.url, foldCase)
  }

  /** Before the last row, a row is first with a new key exactly when it is so among the rows before the last. */
  lemma FirstNewInit<K>(rows: seq<(K, Node)>, foldCase: bool, keys: set<string>)
    requires rows != []
    ensures forall k: nat :: k < |rows| - 1 ==> (FirstNew(rows, foldCase, keys, k) <==> FirstNew(rows[..|rows| - 1], foldCase, keys, k))
  {
    var init := rows[..|rows| - 1];
    assert forall j :: 0 <= j < |init| ==> rows[j] == init[j];
  }

  /** The last row is first with a new key exactly when its key is neither in `keys` nor an earlier row's. */
  lemma FirstNewLast<K>(rows: seq<(K, Node)>, foldCase: bool, keys: set<string>)
    requires rows != []
    ensures FirstNew(rows, foldCase, keys, |rows| - 1) <==>
      Key(rows[|rows| - 1].1.url, foldCase) !in keys + RowKeys(rows[..|rows| - 1], foldCase)
  {
    var n := |rows| - 1;
    var init := rows[..n];
    RowKeysMembers(init, foldCase);
    assert forall j :: 0 <= j < n ==> rows[j] == init[j];
  }

  /** `ks` lists, in increasing order, the rows that are first with a key
      not in `keys`, and `NewRows` holds exactly their nodes. */
  ghost predicate Origin<K>(rows: seq<(K, Node)>, foldCase: bool, keys: set<string>, ks: seq<nat>)
  {
    && |ks| == |NewRows(rows, foldCase, keys)|
    && (forall t :: 0 <= t < |ks| ==>
         FirstNew(rows, foldCase, keys, ks[t]) && NewRows(rows, foldCase, keys)[t] == rows[ks[t]].1)
    && (forall t, u :: 0 <= t < u < |ks| ==> ks[t] < ks[u])
    && (forall k :: FirstNew(rows, foldCase, keys, k) ==> k in ks)
  }

  /** The origin of the rows before the last, with the last row appended when it is first with a new key. */
  lemma OriginSnoc<K>(rows: seq<(K, Node)>, foldCase: bool, keys: set<string>, ks0: seq<nat>) returns (ks: seq<nat>)
    requires rows != [] && Origin(rows[..|rows| - 1], foldCase, keys, ks0)
    ensures Origin(rows, foldCase, keys, ks)
  {
    var n := |rows| - 1;
    var init := rows[..n];
    FirstNewInit(rows, foldCase, keys);
    FirstNewLast(rows, foldCase, keys);
    var nr0 := NewRows(init, foldCase, keys);
    if FirstNew(rows, foldCase, keys, n) {
      ks := ks0 + [n];
      assert NewRows(rows, foldCase, keys) == nr0 + [rows[n].1];
    } else {
      ks := ks0;
      assert NewRows(rows, foldCase, keys) == nr0;
    }
    forall t | 0 <= t < |ks0|
      ensures ks[t] == ks0[t] < n
      ensures FirstNew(rows, foldCase, keys, ks[t]) && NewRows(rows, foldCase, keys)[t] == rows[ks[t]].1
    {
      assert rows[ks0[t]] == init[ks0[t]];
    }
    forall k: nat | FirstNew(rows, foldCase, keys, k)
      ensures k in ks
    {
      if k < n {
        assert k in ks0;
      }
    }
  }

  /** `NewRows` takes, in increasing row order, exactly the rows that are
      the first with a key not in `keys`: `ks` gives each entry's row. */
  lemma {:induction false} NewRowsOrigin<K>(rows: seq<(K, Node)>, foldCase: bool, keys: set<string>) returns (ks: seq<nat>)
    ensures |ks| == |NewRows(rows, foldCase, keys)|
    ensures forall t :: 0 <= t < |ks| ==>
      FirstNew(rows, foldCase, keys, ks[t]) && NewRows(rows, foldCase, keys)[t] == rows[ks[t]].1
    ensures forall t, u :: 0 <= t < u < |ks| ==> ks[t] < ks[u]
    ensures forall k :: FirstNew(rows, foldCase, keys, k) ==> k in ks
    decreases |rows|
  {
    if rows == [] {
      ks := [];
    } else {
      var ks0 := NewRowsOrigin(rows[..|rows| - 1], foldCase, keys);
      ks := OriginSnoc(rows, foldCase, keys, ks0);
    }
  }

  /** The node of a row that is first with a new key is among `NewRows`. */
  lemma FirstNewCopied<K>(rows: seq<(K, Node)>, foldCase: bool, keys: set<string>, k: nat)
    requires FirstNew(rows, foldCase, keys, k)
    ensures rows[k].1 in NewRows(rows, foldCase, keys)
  {
    var ks := NewRowsOrigin(rows, foldCase, keys);
    var t :| 0 <= t < |ks| && ks[t] == k;
    assert NewRows(rows, foldCase, keys)[t] == rows[k].1;
  }

  /** The nodes inserted for the first `i` rows sit, in row order, under the ids from `next0` on. */
  ghost predicate InsertedInOrder<K>(rows: seq<(K, Node)>, foldCase: bool, i: nat, keys0: set<string>,
    next0: NodeId, nodes: map<NodeId, Node>, inserted: nat)
    requires i <= |rows|
  {
    && |NewRows(rows[..i], foldCase, keys0)| == inserted
    && Placed(nodes, next0, NewRows(rows[..i], foldCase, keys0))
  }

  /** The nodes `s` are stored, in order, under the ids from `from` on. */
  ghost predicate Placed(nodes: map<NodeId, Node>, from: NodeId, s: seq<Node>)
  {
    forall id :: from <= id < from + |s| ==> id in nodes && nodes[id] == s[id - from]
  }

  /** Nodes placed from `from`, followed by nodes a growth of the store placed right after them, are placed together. */
  lemma PlacedAfter(nodes: map<NodeId, Node>, nodes2: map<NodeId, Node>, from: NodeId, s: seq<Node>, t: seq<Node>)
    requires Placed(nodes, from, s) && Grown(nodes, nodes2, from + |s|, from + |s| + |t|) && Placed(nodes2, from + |s|, t)
    ensures Placed(nodes2, from, s + t)
  {
  }

  /** `InsertedInOrder` over all the rows, stated on the rows themselves. */
  lemma InsertedAll<K>(rows: seq<(K, Node)>, foldCase: bool, keys0: set<string>, next0: NodeId, nodes: map<NodeId, Node>, inserted: nat)
    requires InsertedInOrder(rows, foldCase, |rows|, keys0, next0, nodes, inserted)
    ensures |NewRows(rows, foldCase, keys0)| == inserted && Placed(nodes, next0, NewRows(rows, foldCase, keys0))
  {
    assert rows[..|rows|] == rows;
  }

  /** One row of the node loop keeps the inserted nodes in row order. */
  lemma InsertedInOrderStep<K>(rows: seq<(K, Node)>, foldCase: bool, i: nat, keys0: set<string>, next0: NodeId,
    nodes: map<NodeId, Node>, next: NodeId, index: map<string, NodeId>, inserted: nat,
    nodes2: map<NodeId, Node>, inserted2: nat)
    requires i < |rows| && InsertedInOrder(rows, foldCase, i, keys0, next0, nodes, inserted)
    requires index.Keys == keys0 + RowKeys(rows[..i], foldCase) && next == next0 + inserted
    requires Key(rows[i].1.url, foldCase) in index ==> nodes2 == nodes && inserted2 == inserted
    requires Key(rows[i].1.url, foldCase) !in index ==> nodes2 == nodes[next := rows[i].1] && inserted2 == inserted + 1
    ensures InsertedInOrder(rows, foldCase, i + 1, keys0, next0, nodes2, inserted2)
  {
    NewRowsSnoc(rows, foldCase, keys0, i);
    var nr := NewRows(rows[..i], foldCase, keys0);
    if Key(rows[i].1.url, foldCase) !in index {
      assert Key(rows[i].1.url, foldCase) !in index.Keys;
      forall id | next0 <= id < next0 + inserted2
        ensures id in nodes2 && nodes2[id] == (nr + [rows[i].1])[id - next0]
      {
        if id < next {
          assert nodes[id] == nr[id - next0];
        }
      }
    }
  }

  /** The node loop of `merge_sessions` and `import_crawler_db`, over rows of
      (old id, the node the row would be stored as).  A key missing from an
      exact index means the URL is not stored, so the insert never violates
      `UNIQUE(url)`.  The index ends up covering the keys of all rows, and
      the number of nodes inserted is the number of keys that were new. */
  method ReconcileNodes<K(==,!new)>(g: GraphStore, rows: seq<(K, Node)>, foldCase: bool, index0: map<string, NodeId>)
    returns (index: map<string, NodeId>, idMap: map<K, NodeId>, inserted: nat, skipped: nat)
    requires g.Valid() && Indexes(index0, g.nodes, foldCase)
    modifies g
    ensures g.Valid() && g.edges == old(g.edges)
    ensures Reconciled(rows, foldCase, |rows|, old(g.nodes), old(g.nextId), index0, g.nodes, g.nextId, index, idMap, inserted, skipped)
    ensures InsertedInOrder(rows, foldCase, |rows|, index0.Keys, old(g.nextId), g.nodes, inserted)
  {
    ghost var nodes0, next0 := g.nodes, g.nextId;
    index, idMap, inserted, skipped := index0, map[], 0, 0;
    ReconciledStart(rows, foldCase, nodes0, next0, index0);
    assert rows[..0] == [];
    for i := 0 to |rows|
      invariant g.Valid() && g.edges == old(g.edges)
      invariant Reconciled(rows, foldCase, i, nodes0, next0, index0, g.nodes, g.nextId, index, idMap, inserted, skipped)
      invariant InsertedInOrder(rows, foldCase, i, index0.Keys, next0, g.nodes, inserted)
    {
      index, idMap, inserted, skipped := ReconcileOne(g, rows, foldCase, i, index0, nodes0, next0, index, idMap, inserted, skipped);
    }
    assert rows[..|rows|] == rows;
  }

  /** Row `i` of the node loop: the loop state moves from `i` to `i + 1` rows. */
  method ReconcileOne<K(==,!new)>(g: GraphStore, rows: seq<(K, Node)>, foldCase: bool, i: nat, index0: map<string, NodeId>,
    ghost nodes0: map<NodeId, Node>, ghost next0: NodeId,
    index: map<string, NodeId>, idMap: map<K, NodeId>, inserted: nat, skipped: nat)
    returns (index2: map<string, NodeId>, idMap2: map<K, NodeId>, inserted2: nat, skipped2: nat)
    requires g.Valid() && i < |rows|
    requires Reconciled(rows, foldCase, i, nodes0, next0, index0, g.nodes, g.nextId, index, idMap, inserted, skipped)
    requires InsertedInOrder(rows, foldCase, i, index0.Keys, next0, g.nodes, inserted)
    modifies g
    ensures g.Valid() && g.edges == old(g.edges)
    ensures Reconciled(rows, foldCase, i + 1, nodes0, next0, index0, g.nodes, g.nextId, index2, idMap2, inserted2, skipped2)
    ensures InsertedInOrder(rows, foldCase, i + 1, index0.Keys, next0, g.nodes, inserted2)
  {
    ghost var nodes, next := g.nodes, g.nextId;
    var id, isNew;
    index2, id, isNew := ReconcileRow(g, rows[i].1, foldCase, index);
    idMap2 := idMap[rows[i].0 := id];
    if isNew {
      inserted2, skipped2 := inserted + 1, skipped;
    } else {
      inserted2, skipped2 := inserted, skipped + 1;
    }
    ReconciledStep(rows, foldCase, i, nodes0, next0, index0, nodes, next, index, idMap, inserted, skipped,
      g.nodes, g.nextId, index2, idMap2, inserted2, skipped2);
  }

  /** One row of the node loop: a node whose key is indexed is looked up,
      any other is inserted under the next id and indexed. */
  method ReconcileRow(g: GraphStore, n: Node, foldCase: bool, index: map<string, NodeId>)
    returns (index2: map<string, NodeId>, id: NodeId, isNew: bool)
    requires g.Valid() && Indexes(index, g.nodes, foldCase)
    modifies g
    ensures g.Valid() && g.edges == old(g.edges)
    ensures isNew <==> Key(n.url, foldCase) !in index
    ensures !isNew ==> g.nodes == old(g.nodes) && g.nextId == old(g.nextId) && index2 == index && id == index[Key(n.url, foldCase)]
    ensures isNew ==>
      && old(g.nextId) !in old(g.nodes) && g.nodes == old(g.nodes)[old(g.nextId) := n] && g.nextId == old(g.nextId) + 1
      && index2 == index[Key(n.url, foldCase) := old(g.nextId)] && id == old(g.nextId)
  {
    var key := Key(n.url, foldCase);
    if key in index {
      index2, id, isNew := index, index[key], false;
    } else {
      NotIndexedNotStored(index, g.nodes, foldCase, n.url);
      var r := g.InsertNode(n);
      index2, id, isNew := index[key := r.value], r.value, true;
    }
  }

  /** One row of the node loop: skipped when its key is indexed, stored under the next id otherwise. */
  lemma ReconciledStep<K(!new)>(rows: seq<(K, Node)>, foldCase: bool, i: nat,
    nodes0: map<NodeId, Node>, next0: NodeId, index0: map<string, NodeId>,
    nodes: map<NodeId, Node>, next: NodeId, index: map<string, NodeId>,
    idMap: map<K, NodeId>, inserted: nat, skipped: nat,
    nodes2: map<NodeId, Node>, next2: NodeId, index2: map<string, NodeId>,
    idMap2: map<K, NodeId>, inserted2: nat, skipped2: nat)
    requires i < |rows|
    requires Reconciled(rows, foldCase, i, nodes0, next0, index0, nodes, next, index, idMap, inserted, skipped)
    requires Key(rows[i].1.url, foldCase) in index ==>
      && nodes2 == nodes && next2 == next && index2 == index
      && idMap2 == idMap[rows[i].0 := index[Key(rows[i].1.url, foldCase)]]
      && inserted2 == inserted && skipped2 == skipped + 1
    requires Key(rows[i].1.url, foldCase) !in index ==>
      && next !in nodes && nodes2 == nodes[next := rows[i].1] && next2 == next + 1
      && index2 == index[Key(rows[i].1.url, foldCase) := next] && idMap2 == idMap[rows[i].0 := next]
      && inserted2 == inserted + 1 && skipped2 == skipped
    requires InsertedInOrder(rows, foldCase, i, index0.Keys, next0, nodes, inserted)
    ensures Reconciled(rows, foldCase, i + 1, nodes0, next0, index0, nodes2, next2, index2, idMap2, inserted2, skipped2)
    ensures InsertedInOrder(rows, foldCase, i + 1, index0.Keys, next0, nodes2, inserted2)
  {
    InsertedInOrderStep(rows, foldCase, i, index0.Keys, next0, nodes, next, index, inserted, nodes2, inserted2);
    if Key(rows[i].1.url, foldCase) in index {
      ReconciledSkip(rows, foldCase, i, nodes0, next0, index0, nodes, next, index, idMap, inserted, skipped);
    } else {
      ReconciledInsert(rows, foldCase, i, nodes0, next0, index0, nodes, next, index, idMap, inserted, skipped);
    }
  }

  /** The edge a row contributes, if its endpoints are mapped. */
  function MappedEdge<K(!new)>(row: (K, K), idMap: map<K, NodeId>): set<Edge>
  {
    if row.0 in idMap && row.1 in idMap then {(idMap[row.0], idMap[row.1])} else {}
  }

  /** The edge rows whose two endpoints are mapped, translated to store ids. */
  function MappedEdges<K(!new)>(rows: seq<(K, K)>, idMap: map<K, NodeId>): set<Edge>
  {
    if rows == [] then {}
    else MappedEdges(rows[..|rows| - 1], idMap) + MappedEdge(rows[|rows| - 1], idMap)
  }

  lemma MappedEdgesSnoc<K(!new)>(rows: seq<(K, K)>, idMap: map<K, NodeId>, i: nat)
    requires i < |rows|
    ensures MappedEdges(rows[..i + 1], idMap) == MappedEdges(rows[..i], idMap) + MappedEdge(rows[i], idMap)
  {
    assert rows[..i + 1][..i] == rows[..i];
  }

  /** An edge is mapped exactly when some row has both endpoints mapped to its ends. */
  lemma {:induction false} MappedEdgesMembers<K(!new)>(rows: seq<(K, K)>, idMap: map<K, NodeId>)
    ensures forall e :: e in MappedEdges(rows, idMap) <==>
      exists k :: 0 <= k < |rows| && rows[k].0 in idMap && rows[k].1 in idMap && e == (idMap[rows[k].0], idMap[rows[k].1])
    decreases |rows|
  {
    if rows != [] {
      var n := |rows| - 1;
      assert rows[..n + 1] == rows;
      MappedEdgesSnoc(rows, idMap, n);
      MappedEdgesMembers(rows[..n], idMap);
      forall e | e in MappedEdges(rows, idMap)
        ensures exists k :: 0 <= k < |rows| && rows[k].0 in idMap && rows[k].1 in idMap && e == (idMap[rows[k].0], idMap[rows[k].1])
      {
        if e !in MappedEdge(rows[n], idMap) {
          var k :| 0 <= k < n && rows[..n][k].0 in idMap && rows[..n][k].1 in idMap && e == (idMap[rows[..n][k].0], idMap[rows[..n][k].1]);
          assert rows[k] == rows[..n][k];
        }
      }
      forall e | exists k :: 0 <= k < |rows| && rows[k].0 in idMap && rows[k].1 in idMap && e == (idMap[rows[k].0], idMap[rows[k].1])
        ensures e in MappedEdges(rows, idMap)
      {
        var k :| 0 <= k < |rows| && rows[k].0 in idMap && rows[k].1 in idMap && e == (idMap[rows[k].0], idMap[rows[k].1]);
        if k < n {
          assert rows[k] == rows[..n][k];
        }
      }
    }
  }

  /** The number of edge rows whose two endpoints are mapped. */
  function MappedCount<K(==,!new)>(rows: seq<(K, K)>, idMap: map<K, NodeId>): (n: nat)
    ensures n <= |rows|
  {
    if rows == [] then 0
    else MappedCount(rows[..|rows| - 1], idMap) + (if rows[|rows| - 1].0 in idMap && rows[|rows| - 1].1 in idMap then 1 else 0)
  }

  /** One more edge row: its edge, if both ends are mapped, joins the edges and the count. */
  lemma MappedStep<K(!new)>(rows: seq<(K, K)>, idMap: map<K, NodeId>, i: nat)
    requires i < |rows|
    ensures MappedEdges(rows[..i + 1], idMap) == MappedEdges(rows[..i], idMap) +
      (if rows[i].0 in idMap && rows[i].1 in idMap then {(idMap[rows[i].0], idMap[rows[i].1])} else {})
    ensures MappedCount(rows[..i + 1], idMap) == MappedCount(rows[..i], idMap) +
      (if rows[i].0 in idMap && rows[i].1 in idMap then 1 else 0)
  {
    assert rows[..i + 1][..i] == rows[..i];
  }

  /** Every mapped edge comes from a counted row, so the count bounds the edges. */
  lemma {:induction false} MappedCountBound<K(!new)>(rows: seq<(K, K)>, idMap: map<K, NodeId>)
    ensures |MappedEdges(rows, idMap)| <= MappedCount(rows, idMap)
    decreases |rows|
  {
    if rows != [] {
      var n := |rows| - 1;
      assert rows[..n + 1] == rows;
      MappedEdgesSnoc(rows, idMap, n);
      MappedCountBound(rows[..n], idMap);
    }
  }

  /** After `i` edge rows: the mapped edges of those rows joined the edges,
      `attempted` counts those rows and `added` the edges that were new. */
  ghost predicate EdgesInserted<K(!new)>(rows: seq<(K, K)>, idMap: map<K, NodeId>, i: nat,
    edges0: set<Edge>, edges: set<Edge>, attempted: nat, added: nat)
    requires i <= |rows|
  {
    && edges == edges0 + MappedEdges(rows[..i], idMap)
    && |edges| == |edges0| + added
    && attempted == MappedCount(rows[..i], idMap)
  }

  /** One edge row handled: an insert when both ends are mapped, nothing otherwise. */
  lemma EdgesInsertedStep<K(!new)>(rows: seq<(K, K)>, idMap: map<K, NodeId>, i: nat,
    edges0: set<Edge>, edges: set<Edge>, attempted: nat, added: nat,
    edges2: set<Edge>, attempted2: nat, added2: nat)
    requires i < |rows| && EdgesInserted(rows, idMap, i, edges0, edges, attempted, added)
    requires rows[i].0 in idMap && rows[i].1 in idMap ==>
      && edges2 == edges + {(idMap[rows[i].0], idMap[rows[i].1])}
      && |edges2| == |edges| + (added2 - added)
      && attempted2 == attempted + 1
    requires !(rows[i].0 in idMap && rows[i].1 in idMap) ==>
      edges2 == edges && attempted2 == attempted && added2 == added
    ensures EdgesInserted(rows, idMap, i + 1, edges0, edges2, attempted2, added2)
  {
    MappedStep(rows, idMap, i);
  }

  /** The edge loop: `INSERT OR IGNORE` of every edge row whose endpoints are
      both mapped.  `attempted` counts those inserts, `added` only the rows
      that were new. */
  method InsertMappedEdges<K(==,!new)>(g: GraphStore, rows: seq<(K, K)>, idMap: map<K, NodeId>)
    returns (attempted: nat, added: nat)
    modifies g
    ensures g.edges == old(g.edges) + MappedEdges(rows, idMap)
    ensures |g.edges| == |old(g.edges)| + added
    ensures attempted == MappedCount(rows, idMap)
    ensures g.nodes == old(g.nodes) && g.nextId == old(g.nextId)
  {
    attempted, added := 0, 0;
    for i := 0 to |rows|
      invariant EdgesInserted(rows, idMap, i, old(g.edges), g.edges, attempted, added)
      invariant g.nodes == old(g.nodes) && g.nextId == old(g.nextId)
    {
      ghost var edges, attempted0, added0 := g.edges, attempted, added;
      if rows[i].0 in idMap && rows[i].1 in idMap {
        var n := g.InsertOrIgnoreEdge(idMap[rows[i].0], idMap[rows[i].1]);
        attempted, added := attempted + 1, added + n;
      }
      EdgesInsertedStep(rows, idMap, i, old(g.edges), edges, attempted0, added0, g.edges, attempted, added);
    }
    assert rows[..|rows|] == rows;
  }

  /** The rows an edge loop adds are at most the inserts it attempts. */
  lemma AddedAtMostAttempted<K(!new)>(edges0: set<Edge>, edges: set<Edge>, rows: seq<(K, K)>, idMap: map<K, NodeId>, added: nat)
    requires edges == edges0 + MappedEdges(rows, idMap) && |edges| == |edges0| + added
    ensures added <= MappedCount(rows, idMap)
  {
    MappedCountBound(rows, idMap);
    assert |edges0 + MappedEdges(rows, idMap)| <= |edges0| + |MappedEdges(rows, idMap)|;
  }

  /** Counting attempts overstates the edges added: the same mapped edge row
      twice is two attempts but one edge. */
  lemma AttemptsOverstateAdded<K(!new)>(s: K, t: K, idMap: map<K, NodeId>)
    requires s in idMap && t in idMap
    ensures MappedCount([(s, t), (s, t)], idMap) == 2
    ensures |MappedEdges([(s, t), (s, t)], idMap)| == 1
  {
    var rows := [(s, t), (s, t)];
    assert rows[..1] == [(s, t)] && rows[..1][..0] == [];
    MappedEdgesSnoc(rows, idMap, 0);
    MappedEdgesSnoc(rows, idMap, 1);
    assert rows[..0] == [] && rows[..2] == rows;
  }
}
