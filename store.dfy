/** The graph store: the `nodes` and `edges` tables of the engine's SQLite
    database.  A node's `url` is unique, an edge is a unique (source, target)
    pair, and node ids come from an AUTOINCREMENT counter that never reuses
    an id.  Timestamps are whole seconds. */
module Store {
  import opened Types
  import opened Strings

  type NodeId = int

  /** A node's position in the 3-D view. */
  datatype Position = Position(x: real, y: real, z: real)

  /** A row of `nodes`. */
  datatype Node = Node(
    url: string,
    title: Option<string>,
    favicon: Option<string>,
    screenshot: Option<string>,
    position: Position,
    isAlive: bool,
    lastCrawled: Option<int>,
    createdAt: int)

  /** A row of `edges`: (source id, target id). */
  type Edge = (NodeId, NodeId)

  /** A non-empty set of ids has an element. */
  lemma HasElement(s: set<NodeId>)
    requires s != {}
    ensures exists x :: x in s
  {
    if forall x :: x !in s {
      assert false;
    }
  }

  /** `UNIQUE(url)` */
  ghost predicate UniqueUrls(nodes: map<NodeId, Node>)
  {
    forall a, b :: a in nodes && b in nodes && nodes[a].url == nodes[b].url ==> a == b
  }

  function StoredUrls(nodes: map<NodeId, Node>): set<string>
  {
    set id | id in nodes :: nodes[id].url
  }

  /** The id of the node stored under `url`; with unique URLs there is exactly one. */
  ghost function IdOf(nodes: map<NodeId, Node>, url: string): (r: NodeId)
    requires url in StoredUrls(nodes)
    ensures r in nodes && nodes[r].url == url
  {
    var id :| id in nodes && nodes[id].url == url;
    id
  }

  /** The id found for a URL does not change when nodes are added or updated
      without changing any stored URL. */
  lemma IdOfStable(nodes: map<NodeId, Node>, nodes2: map<NodeId, Node>, url: string)
    requires url in StoredUrls(nodes) && UniqueUrls(nodes2)
    requires forall id :: id in nodes ==> id in nodes2 && nodes2[id].url == nodes[id].url
    ensures url in StoredUrls(nodes2) && IdOf(nodes2, url) == IdOf(nodes, url)
  {
    var id := IdOf(nodes, url);
    assert nodes2[id].url == url;
  }

  /** Every edge joins two stored nodes.  SQLite does not enforce the foreign
      keys by default, so this is a property some operations keep, not a
      table constraint. */
  ghost predicate EdgesClosed(nodes: map<NodeId, Node>, edges: set<Edge>)
  {
    forall e :: e in edges ==> e.0 in nodes && e.1 in nodes
  }

  /** The edges that survive deleting node `id`. */
  function EdgesWithout(edges: set<Edge>, id: NodeId): (r: set<Edge>)
    ensures forall e :: e in r <==> e in edges && e.0 != id && e.1 != id
  {
    set e | e in edges && e.0 != id && e.1 != id
  }

  /** `UPDATE nodes SET title = COALESCE(?, title), favicon = COALESCE(?, favicon),
      is_alive = ?, last_crawled = now`: title and favicon change only when a
      value is supplied; liveness and the crawl time are always written. */
  function Coalesce(n: Node, title: Option<string>, favicon: Option<string>, isAlive: bool, now: int): (r: Node)
    ensures r.title == (if title.Some? then title else n.title)
    ensures r.favicon == (if favicon.Some? then favicon else n.favicon)
    ensures r.isAlive == isAlive && r.lastCrawled == Some(now)
    ensures r.(title := n.title, favicon := n.favicon, isAlive := n.isAlive, lastCrawled := n.lastCrawled) == n
  {
    n.(title := if title.Some? then title else n.title,
       favicon := if favicon.Some? then favicon else n.favicon,
       isAlive := isAlive,
       lastCrawled := Some(now))
  }

  /** `UPDATE nodes SET is_alive = 0, last_crawled = now` is the coalescing
      update with nothing fetched and a dead page. */
  lemma MarkDeadIsCoalesce(n: Node, now: int)
    ensures Coalesce(n, None, None, false, now) == n.(isAlive := false, lastCrawled := Some(now))
  {
  }

  /** A fresh row as `INSERT INTO nodes (url, title, position, is_alive = 1, created_at = now)` writes it. */
  function NewNode(url: string, title: string, position: Position, now: int): (r: Node)
    ensures r.url == url && r.title == Some(title) && r.position == position
    ensures r.isAlive && r.lastCrawled.None? && r.favicon.None? && r.screenshot.None? && r.createdAt == now
  {
    Node(url, Some(title), None, None, position, true, None, now)
  }

  /** The node's row with every crawl time cleared. */
  function ClearCrawlTimes(nodes: map<NodeId, Node>): (r: map<NodeId, Node>)
    ensures r.Keys == nodes.Keys
    ensures forall id :: id in r ==> r[id] == nodes[id].(lastCrawled := None)
  {
    map id | id in nodes :: nodes[id].(lastCrawled := None)
  }

  /** The key a URL is looked up by: lower-cased when `foldCase`, as is otherwise. */
  function Key(url: string, foldCase: bool): string
  {
    if foldCase then AsciiLower(url) else url
  }

  /** The keys of the stored URLs. */
  function KeysOf(nodes: map<NodeId, Node>, foldCase: bool): set<string>
  {
    set id | id in nodes :: Key(nodes[id].url, foldCase)
  }

  /** `index` maps the key of every stored URL, and only those, to a node with that key. */
  ghost predicate Indexes(index: map<string, NodeId>, nodes: map<NodeId, Node>, foldCase: bool)
  {
    && (forall k :: k in index ==> index[k] in nodes && Key(nodes[index[k]].url, foldCase) == k)
    && (forall id :: id in nodes ==> Key(nodes[id].url, foldCase) in index)
  }

  /** An index covers exactly the keys of the stored URLs. */
  lemma IndexKeys(index: map<string, NodeId>, nodes: map<NodeId, Node>, foldCase: bool)
    requires Indexes(index, nodes, foldCase)
    ensures index.Keys == KeysOf(nodes, foldCase)
  {
    forall k | k in index
      ensures k in KeysOf(nodes, foldCase)
    {
      var id := index[k];
      assert Key(nodes[id].url, foldCase) == k;
    }
  }

  /** A key absent from the index belongs to no stored URL, so inserting that URL cannot clash. */
  lemma NotIndexedNotStored(index: map<string, NodeId>, nodes: map<NodeId, Node>, foldCase: bool, url: string)
    requires Indexes(index, nodes, foldCase) && Key(url, foldCase) !in index
    ensures url !in StoredUrls(nodes)
  {
    forall id | id in nodes
      ensures nodes[id].url != url
    {
      assert Key(nodes[id].url, foldCase) in index;
    }
  }

  /** `index` only gains keys: every key it had still maps to the same id. */
  ghost predicate Extends(index0: map<string, NodeId>, index: map<string, NodeId>)
  {
    forall k :: k in index0 ==> k in index && index[k] == index0[k]
  }

  /** Indexing a newly inserted node keeps the index exact. */
  lemma IndexInsert(index: map<string, NodeId>, nodes: map<NodeId, Node>, foldCase: bool, id: NodeId, n: Node)
    requires Indexes(index, nodes, foldCase) && id !in nodes
    ensures Indexes(index[Key(n.url, foldCase) := id], nodes[id := n], foldCase)
  {
  }

  /** `nodes` keeps every row of `nodes0` and adds exactly the ids from `next0` up to `next`. */
  ghost predicate Grown(nodes0: map<NodeId, Node>, nodes: map<NodeId, Node>, next0: NodeId, next: NodeId)
  {
    && (forall id :: id in nodes0 ==> id in nodes && nodes[id] == nodes0[id])
    && (forall id :: id in nodes <==> id in nodes0 || next0 <= id < next)
  }

  lemma ExtendsTrans(index0: map<string, NodeId>, index1: map<string, NodeId>, index2: map<string, NodeId>)
    requires Extends(index0, index1) && Extends(index1, index2)
    ensures Extends(index0, index2)
  {
  }

  lemma GrownTrans(nodes0: map<NodeId, Node>, nodes1: map<NodeId, Node>, nodes2: map<NodeId, Node>, next0: NodeId, next1: NodeId, next2: NodeId)
    requires Grown(nodes0, nodes1, next0, next1) && Grown(nodes1, nodes2, next1, next2) && next0 <= next1 <= next2
    ensures Grown(nodes0, nodes2, next0, next2)
  {
  }

  /** Growing by no ids leaves the rows as they were. */
  lemma GrownNothing(nodes0: map<NodeId, Node>, nodes: map<NodeId, Node>, next: NodeId)
    requires Grown(nodes0, nodes, next, next)
    ensures nodes == nodes0
  {
    forall id | id in nodes
      ensures id in nodes0 && nodes[id] == nodes0[id]
    {
      assert id in nodes0 || next <= id < next;
    }
    forall id | id in nodes0
      ensures id in nodes
    {
    }
    assert nodes.Keys == nodes0.Keys;
  }

  /** When every key read was already stored, no node was added and the nodes are as before. */
  lemma NothingNew(nodes0: map<NodeId, Node>, next0: NodeId, keys0: set<string>, read: set<string>,
    nodes: map<NodeId, Node>, next: NodeId, keys: set<string>, merged: nat)
    requires read <= keys0 && keys == keys0 + read && |keys| == |keys0| + merged
    requires next == next0 + merged && Grown(nodes0, nodes, next0, next)
    ensures merged == 0 && nodes == nodes0
  {
    assert keys == keys0;
    GrownNothing(nodes0, nodes, next0);
  }

  /** The loop that reads `SELECT id, url FROM nodes` into a map keyed by URL
      (lower-cased for `foldCase`).  Rows come in an unspecified order, and
      when two URLs share a key the later row wins. */
  method IndexByKey(nodes: map<NodeId, Node>, foldCase: bool) returns (index: map<string, NodeId>)
    ensures Indexes(index, nodes, foldCase)
  {
    index := map[];
    var remaining := nodes.Keys;
    while remaining != {}
      invariant remaining <= nodes.Keys
      invariant forall k :: k in index ==> index[k] in nodes && Key(nodes[index[k]].url, foldCase) == k
      invariant forall id :: id in nodes && id !in remaining ==> Key(nodes[id].url, foldCase) in index
      decreases |remaining|
    {
      HasElement(remaining);
      var id :| id in remaining;
      index := index[Key(nodes[id].url, foldCase) := id];
      remaining := remaining - {id};
    }
  }

  class GraphStore {
    var nodes: map<NodeId, Node>
    var edges: set<Edge>
    /** The AUTOINCREMENT counter: the id the next inserted node receives. */
    var nextId: NodeId

    ghost predicate Valid()
      reads this
    {
      && nextId >= 1
      && (forall id :: id in nodes ==> 1 <= id < nextId)
      && UniqueUrls(nodes)
    }

    /** `CREATE TABLE IF NOT EXISTS nodes / edges` on a new database. */
    constructor ()
      ensures Valid()
      ensures nodes == map[] && edges == {} && nextId == 1
    {
      nodes := map[];
      edges := {};
      nextId := 1;
    }

    /** `SELECT id FROM nodes WHERE url = ?` */
    method FindByUrl(url: string) returns (r: Option<NodeId>)
      requires Valid()
      ensures r.None? <==> url !in StoredUrls(nodes)
      ensures r.Some? ==> r.value == IdOf(nodes, url)
    {
      if url in StoredUrls(nodes) {
        var id :| id in nodes && nodes[id].url == url;
        r := Some(id);
      } else {
        r := None;
      }
    }

    /** `INSERT INTO nodes`: fails on a duplicate URL, otherwise stores the
        row under the next id. */
    method InsertNode(n: Node) returns (r: Option<NodeId>)
      requires Valid()
      modifies this
      ensures Valid()
      ensures edges == old(edges)
      ensures n.url in old(StoredUrls(nodes)) ==> r.None? && nodes == old(nodes) && nextId == old(nextId)
      ensures n.url !in old(StoredUrls(nodes)) ==>
        && r == Some(old(nextId))
        && old(nextId) !in old(nodes)
        && nodes == old(nodes)[old(nextId) := n]
        && nextId == old(nextId) + 1
    {
      if n.url in StoredUrls(nodes) {
        r := None;
        return;
      }
      r := Some(nextId);
      nodes := nodes[nextId := n];
      nextId := nextId + 1;
    }

    /** `INSERT OR IGNORE INTO edges`: returns the number of rows added. */
    method InsertOrIgnoreEdge(source: NodeId, target: NodeId) returns (added: nat)
      modifies this
      ensures edges == old(edges) + {(source, target)}
      ensures added == if (source, target) in old(edges) then 0 else 1
      ensures |edges| == |old(edges)| + added
      ensures nodes == old(nodes) && nextId == old(nextId)
    {
      added := if (source, target) in edges then 0 else 1;
      edges := edges + {(source, target)};
    }

    /** The coalescing metadata update of one node; without such a node nothing changes. */
    method UpdateMetadata(id: NodeId, title: Option<string>, favicon: Option<string>, isAlive: bool, now: int)
      requires Valid()
      modifies this
      ensures Valid()
      ensures id in old(nodes) ==> nodes == old(nodes)[id := Coalesce(old(nodes)[id], title, favicon, isAlive, now)]
      ensures id !in old(nodes) ==> nodes == old(nodes)
      ensures edges == old(edges) && nextId == old(nextId)
    {
      if id in nodes {
        nodes := nodes[id := Coalesce(nodes[id], title, favicon, isAlive, now)];
      }
    }

    /** `add_node_url` / `add_node_with_position`: `INSERT OR IGNORE` of a
        live node, returning `last_insert_rowid()` of the fresh connection,
        which is 0 when the URL was already present and the row was ignored. */
    method AddNode(url: string, title: string, position: Position, now: int) returns (id: NodeId)
      requires Valid()
      modifies this
      ensures Valid()
      ensures edges == old(edges)
      ensures url in old(StoredUrls(nodes)) ==> id == 0 && nodes == old(nodes) && nextId == old(nextId)
      ensures url !in old(StoredUrls(nodes)) ==>
        id == old(nextId) && id >= 1 && nodes == old(nodes)[id := NewNode(url, title, position, now)] && nextId == id + 1
    {
      var r := InsertNode(NewNode(url, title, position, now));
      id := GetOr(r, 0);
    }

    /** `add_edge` */
    method AddEdge(source: NodeId, target: NodeId)
      modifies this
      ensures edges == old(edges) + {(source, target)}
      ensures nodes == old(nodes) && nextId == old(nextId)
    {
      var _ := InsertOrIgnoreEdge(source, target);
    }

    /** `delete_node`: the node's edges (either direction) are deleted first, then the node. */
    method DeleteCascade(id: NodeId)
      requires Valid()
      modifies this
      ensures Valid()
      ensures edges == EdgesWithout(old(edges), id)
      ensures nodes == old(nodes) - {id}
      ensures nextId == old(nextId)
    {
      edges := EdgesWithout(edges, id);
      nodes := nodes - {id};
    }

    /** `reset_all_crawl_timestamps`: clears every crawl time and returns the number of rows updated. */
    method ResetCrawlTimes() returns (count: nat)
      requires Valid()
      modifies this
      ensures Valid()
      ensures nodes == ClearCrawlTimes(old(nodes))
      ensures count == |old(nodes)|
      ensures edges == old(edges) && nextId == old(nextId)
    {
      count := |nodes|;
      nodes := ClearCrawlTimes(nodes);
    }
  }

  /** Deleting twice is deleting once. */
  lemma DeleteIdempotent(nodes: map<NodeId, Node>, edges: set<Edge>, id: NodeId)
    ensures EdgesWithout(EdgesWithout(edges, id), id) == EdgesWithout(edges, id)
    ensures (nodes - {id}) - {id} == nodes - {id}
  {
  }

  /** Deleting a node and its edges keeps every edge between stored nodes. */
  lemma DeleteKeepsEdgesClosed(nodes: map<NodeId, Node>, edges: set<Edge>, id: NodeId)
    requires EdgesClosed(nodes, edges)
    ensures EdgesClosed(nodes - {id}, EdgesWithout(edges, id))
  {
  }

  /** Inserting the same edge twice leaves one edge. */
  lemma EdgeInsertIdempotent(edges: set<Edge>, e: Edge)
    ensures (edges + {e}) + {e} == edges + {e}
  {
  }

  /** Clearing crawl times changes nothing else about a node, and clearing twice is clearing once. */
  lemma ClearCrawlTimesIdempotent(nodes: map<NodeId, Node>)
    ensures ClearCrawlTimes(ClearCrawlTimes(nodes)) == ClearCrawlTimes(nodes)
    ensures StoredUrls(ClearCrawlTimes(nodes)) == StoredUrls(nodes)
  {
  }
}
