/** `import_crawler_db`: copy the nodes and edges of a crawler's SQLite
    database into the graph.  The crawler's nodes carry text ids; a URL
    already stored (compared exactly, case and all) is skipped and its
    crawler id mapped to the stored node, any other URL is inserted as a new
    node.  Edges are then inserted, ignoring duplicates, where both ends are
    mapped.  The base64 encoder is the parameter `encode`, and `now` is the
    time of the import. */
module CrawlerImport {
  import opened Types
  import opened Strings
  import opened Store
  import opened Reconcile

  /** A row of the crawler's `nodes` table; `is_alive` is an integer column. */
  datatype CrawlerNode = CrawlerNode(
    id: string,
    url: string,
    title: Option<string>,
    favicon: Option<string>,
    thumbnail: Option<seq<bv8>>,
    position: Position,
    isAlive: int)

  /** A query on the crawler database: it fails to prepare, or it yields rows,
      each of which either reads or fails to convert. */
  datatype Query<T> = PrepareFails(message: string) | Rows(rows: seq<Result<T>>)

  /** The crawler database: it fails to open, or it answers the node query
      and the edge query.  The edge query keeps only rows whose target is
      not NULL, so its rows are (source id, target id) pairs of text ids. */
  datatype CrawlerDb =
    | CannotOpen(message: string)
    | CrawlerDb(nodes: Query<CrawlerNode>, edges: Query<(string, string)>)

  datatype ImportStats = ImportStats(nodesImported: nat, edgesImported: nat, nodesSkipped: nat)

  const ScreenshotPrefix := "data:image/png;base64,"
  const Untitled := "Untitled"

  function OpenError(message: string): string
  {
    "Failed to open crawler DB: " + message
  }

  /** A thumbnail becomes a PNG data URL. */
  function Screenshot(thumbnail: Option<seq<bv8>>, encode: seq<bv8> -> string): Option<string>
  {
    match thumbnail
    case None => None
    case Some(data) => Some(ScreenshotPrefix + encode(data))
  }

  /** The row inserted for a crawler node: the title defaults to `Untitled`,
      the thumbnail becomes a data URL, the node is crawled now and created
      now (the column default).  The integer `is_alive` is stored as it is,
      and every reader of the column takes only 1 for alive. */
  function ImportedNode(cn: CrawlerNode, encode: seq<bv8> -> string, now: int): (r: Node)
    ensures r.url == cn.url && r.favicon == cn.favicon && r.position == cn.position
    ensures r.title.Some? && (cn.title.Some? ==> r.title == cn.title)
    ensures r.screenshot.Some? <==> cn.thumbnail.Some?
    ensures r.screenshot.Some? ==> StartsWith(r.screenshot.value, ScreenshotPrefix)
    ensures r.isAlive <==> cn.isAlive == 1
    ensures r.lastCrawled == Some(now) && r.createdAt == now
  {
    Node(cn.url, Some(GetOr(cn.title, Untitled)), cn.favicon, Screenshot(cn.thumbnail, encode),
      cn.position, cn.isAlive == 1, Some(now), now)
  }

  /** How many rows read before the first one that fails: the loop's `?`
      stops there. */
  function ReadCount<T>(rows: seq<Result<T>>): (n: nat)
    ensures n <= |rows|
    ensures forall j :: 0 <= j < n ==> rows[j].Ok?
    ensures n < |rows| ==> rows[n].Err?
  {
    if rows == [] || rows[0].Err? then 0
    else 1 + ReadCount(rows[1..])
  }

  /** The values of the first `n` rows, all of which read. */
  function Values<T>(rows: seq<Result<T>>, n: nat): (vs: seq<T>)
    requires n <= |rows| && forall j :: 0 <= j < n ==> rows[j].Ok?
    ensures |vs| == n && forall j :: 0 <= j < n ==> rows[j] == Ok(vs[j])
  {
    seq(n, j requires 0 <= j < n => rows[j].value)
  }

  /** The rows a query delivers before it stops. */
  function ReadRows<T>(q: Query<T>): seq<T>
  {
    match q
    case PrepareFails(_) => []
    case Rows(rows) => Values(rows, ReadCount(rows))
  }

  /** The error a query stops with, if any. */
  function QueryError<T>(q: Query<T>): Option<string>
  {
    match q
    case PrepareFails(e) => Some(e)
    case Rows(rows) => if ReadCount(rows) < |rows| then Some(rows[ReadCount(rows)].message) else None
  }

  /** The error that ends the node phase, if any. */
  function NodePhaseError(db: CrawlerDb): Option<string>
  {
    match db
    case CannotOpen(e) => Some(OpenError(e))
    case CrawlerDb(nodes, _) => QueryError(nodes)
  }

  /** The crawler nodes the import reads. */
  function NodesRead(db: CrawlerDb): seq<CrawlerNode>
  {
    if db.CannotOpen? then [] else ReadRows(db.nodes)
  }

  /** The crawler edges the import reads: none once the node phase failed. */
  function EdgesRead(db: CrawlerDb): seq<(string, string)>
  {
    if NodePhaseError(db).Some? then [] else ReadRows(db.edges)
  }

  /** The error the import returns, if any. */
  function ImportError(db: CrawlerDb): Option<string>
  {
    if NodePhaseError(db).Some? then NodePhaseError(db) else QueryError(db.edges)
  }

  /** The crawler nodes as (crawler id, the row it would be stored as). */
  function ImportRows(nodes: seq<CrawlerNode>, encode: seq<bv8> -> string, now: int): seq<(string, Node)>
  {
    seq(|nodes|, k requires 0 <= k < |nodes| => (nodes[k].id, ImportedNode(nodes[k], encode, now)))
  }

  /** A query stops early exactly when one of its rows fails, and then with that row's error. */
  lemma QueryErrorIff<T>(q: Query<T>)
    ensures QueryError(q).None? <==> q.Rows? && forall j :: 0 <= j < |q.rows| ==> q.rows[j].Ok?
    ensures QueryError(q).None? ==> |ReadRows(q)| == |q.rows|
    ensures q.Rows? && QueryError(q).Some? ==>
      exists j :: 0 <= j < |q.rows| && q.rows[j].Err? && QueryError(q).value == q.rows[j].message &&
        |ReadRows(q)| == j && forall i :: 0 <= i < j ==> q.rows[i].Ok?
  {
    if q.Rows? {
      var n := ReadCount(q.rows);
      if n < |q.rows| {
        assert q.rows[n].Err?;
      }
    }
  }

  /** The import succeeds exactly when the crawler database opens, both
      queries prepare and every row reads; it then reads every row. */
  lemma ImportErrorIff(db: CrawlerDb)
    ensures ImportError(db).None? <==>
      && db.CrawlerDb? && db.nodes.Rows? && db.edges.Rows?
      && (forall j :: 0 <= j < |db.nodes.rows| ==> db.nodes.rows[j].Ok?)
      && (forall j :: 0 <= j < |db.edges.rows| ==> db.edges.rows[j].Ok?)
    ensures ImportError(db).None? ==> |NodesRead(db)| == |db.nodes.rows| && |EdgesRead(db)| == |db.edges.rows|
  {
    if db.CrawlerDb? {
      QueryErrorIff(db.nodes);
      QueryErrorIff(db.edges);
    }
  }

  /** The keys the import adds are exactly the crawler URLs read. */
  lemma ImportedUrls(nodes: seq<CrawlerNode>, encode: seq<bv8> -> string, now: int)
    ensures RowKeys(ImportRows(nodes, encode, now), false) == set k | 0 <= k < |nodes| :: nodes[k].url
  {
    var rows := ImportRows(nodes, encode, now);
    RowKeysMembers(rows, false);
    forall url | url in RowKeys(rows, false)
      ensures url in set k | 0 <= k < |nodes| :: nodes[k].url
    {
      var k :| 0 <= k < |rows| && Key(rows[k].1.url, false) == url;
    }
    forall url | url in set k | 0 <= k < |nodes| :: nodes[k].url
      ensures url in RowKeys(rows, false)
    {
      var k :| 0 <= k < |nodes| && nodes[k].url == url;
      assert Key(rows[k].1.url, false) == url;
    }
  }

  /** What the node phase did, having read the crawler nodes `read`: the
      stored URLs grew by exactly the URLs read, each added node has a URL
      the store did not hold and is the imported row of a crawler node read,
      the added nodes are, in id order, those of the first rows with each
      URL not stored before (see `ImportedFirstRows`),
      a phase that read only stored URLs changed nothing, and the crawler id
      map covers exactly the ids read, sending the last row carrying an id to
      the stored node with that row's URL. */
  ghost predicate NodesImported(read: seq<CrawlerNode>, encode: seq<bv8> -> string, now: int,
    nodes0: map<NodeId, Node>, next0: NodeId, nodes: map<NodeId, Node>, next: NodeId, idMap: map<string, NodeId>)
  {
    && KeysOf(nodes, false) == KeysOf(nodes0, false) + (set k | 0 <= k < |read| :: read[k].url)
    && |KeysOf(nodes, false)| == |KeysOf(nodes0, false)| + (next - next0)
    && Grown(nodes0, nodes, next0, next)
    && (forall id :: next0 <= id < next ==>
         && id in nodes && nodes[id].url !in StoredUrls(nodes0)
         && exists k :: 0 <= k < |read| && nodes[id] == ImportedNode(read[k], encode, now))
    && next0 <= next
    && InsertedInOrder(ImportRows(read, encode, now), false, |read|, KeysOf(nodes0, false), next0, nodes, next - next0)
    && ((set k | 0 <= k < |read| :: read[k].url) <= KeysOf(nodes0, false) ==> nodes == nodes0)
    && (forall x :: x in idMap <==> exists k :: 0 <= k < |read| && read[k].id == x)
    && (forall k :: 0 <= k < |read| && (forall j :: k < j < |read| ==> read[j].id != read[k].id) ==>
         read[k].id in idMap && idMap[read[k].id] in nodes && nodes[idMap[read[k].id]].url == read[k].url)
  }

  /** A phase that read nothing imported nothing. */
  lemma NothingImported(encode: seq<bv8> -> string, now: int, nodes: map<NodeId, Node>, next: NodeId)
    ensures NodesImported([], encode, now, nodes, next, nodes, next, map[])
  {
    var none: seq<CrawlerNode> := [];
    assert (set k | 0 <= k < |none| :: none[k].url) == {};
  }

  /** Crawler row `k` is the first with its URL, and that URL is not stored in `nodes0`. */
  ghost predicate FirstUnstored(read: seq<CrawlerNode>, nodes0: map<NodeId, Node>, k: nat)
  {
    && k < |read|
    && read[k].url !in StoredUrls(nodes0)
    && forall j :: 0 <= j < k ==> read[j].url != read[k].url
  }

  /** The nodes the node phase inserts, in id order, are the imported rows
      of exactly the crawler rows that are first with a URL not stored
      before, taken in row order: `ks` gives each one's row. */
  lemma ImportedFirstRows(read: seq<CrawlerNode>, encode: seq<bv8> -> string, now: int, nodes0: map<NodeId, Node>)
    returns (ks: seq<nat>)
    ensures var added := NewRows(ImportRows(read, encode, now), false, KeysOf(nodes0, false));
      && |ks| == |added|
      && (forall t :: 0 <= t < |ks| ==> FirstUnstored(read, nodes0, ks[t]) && added[t] == ImportedNode(read[ks[t]], encode, now))
      && (forall t, u :: 0 <= t < u < |ks| ==> ks[t] < ks[u])
      && (forall k :: FirstUnstored(read, nodes0, k) ==> k in ks)
  {
    var rows := ImportRows(read, encode, now);
    var keys := KeysOf(nodes0, false);
    assert keys == StoredUrls(nodes0);
    ks := NewRowsOrigin(rows, false, keys);
    forall k: nat
      ensures FirstNew(rows, false, keys, k) <==> FirstUnstored(read, nodes0, k)
    {
      if k < |read| {
        assert forall j :: 0 <= j <= k ==> rows[j].1.url == read[j].url;
      }
    }
  }

  /** The node loop: the exact URL index of the store is built, then every
      crawler node read is skipped when its URL is indexed and inserted
      otherwise. */
  method ImportNodes(g: GraphStore, read: seq<CrawlerNode>, encode: seq<bv8> -> string, now: int)
    returns (idMap: map<string, NodeId>, inserted: nat, skipped: nat)
    requires g.Valid()
    modifies g
    ensures g.Valid() && g.edges == old(g.edges)
    ensures g.nextId == old(g.nextId) + inserted && inserted + skipped == |read|
    ensures NodesImported(read, encode, now, old(g.nodes), old(g.nextId), g.nodes, g.nextId, idMap)
  {
    ghost var nodes0, next0 := g.nodes, g.nextId;
    var index0 := IndexByKey(g.nodes, false);
    var rows := ImportRows(read, encode, now);
    var index;
    index, idMap, inserted, skipped := ReconcileNodes(g, rows, false, index0);
    ImportReconciled(read, encode, now, nodes0, next0, index0, g.nodes, g.nextId, index, idMap, inserted, skipped);
  }

  /** What the reconciling loop leaves behind, restated for the crawler nodes read. */
  lemma ImportReconciled(read: seq<CrawlerNode>, encode: seq<bv8> -> string, now: int,
    nodes0: map<NodeId, Node>, next0: NodeId, index0: map<string, NodeId>,
    nodes: map<NodeId, Node>, next: NodeId, index: map<string, NodeId>,
    idMap: map<string, NodeId>, inserted: nat, skipped: nat)
    requires Indexes(index0, nodes0, false)
    requires Reconciled(ImportRows(read, encode, now), false, |ImportRows(read, encode, now)|,
      nodes0, next0, index0, nodes, next, index, idMap, inserted, skipped)
    requires InsertedInOrder(ImportRows(read, encode, now), false, |ImportRows(read, encode, now)|, index0.Keys, next0, nodes, inserted)
    ensures inserted + skipped == |read|
    ensures NodesImported(read, encode, now, nodes0, next0, nodes, next, idMap)
  {
    var rows := ImportRows(read, encode, now);
    assert rows[..|rows|] == rows;
    IndexKeys(index0, nodes0, false);
    ImportedKeys(read, encode, now, nodes0, index0, nodes, index, inserted);
    ImportedNew(read, encode, now, nodes0, index0, nodes, index, next0, next);
    ImportedIdMapKeys(read, encode, now, index, idMap);
    ImportedIdMapTargets(read, encode, now, nodes, index, idMap);
    ImportedNothingNew(read, encode, now, nodes0, next0, index0, nodes, next, index, inserted);
  }

  /** Importing only URLs already stored changes no node. */
  lemma ImportedNothingNew(read: seq<CrawlerNode>, encode: seq<bv8> -> string, now: int,
    nodes0: map<NodeId, Node>, next0: NodeId, index0: map<string, NodeId>,
    nodes: map<NodeId, Node>, next: NodeId, index: map<string, NodeId>, inserted: nat)
    requires Indexes(index0, nodes0, false)
    requires index.Keys == index0.Keys + RowKeys(ImportRows(read, encode, now), false)
    requires |index.Keys| == |index0.Keys| + inserted
    requires next == next0 + inserted && Grown(nodes0, nodes, next0, next)
    ensures (set k | 0 <= k < |read| :: read[k].url) <= KeysOf(nodes0, false) ==> nodes == nodes0
  {
    if (set k | 0 <= k < |read| :: read[k].url) <= KeysOf(nodes0, false) {
      ImportedUrls(read, encode, now);
      IndexKeys(index0, nodes0, false);
      NothingNew(nodes0, next0, index0.Keys, RowKeys(ImportRows(read, encode, now), false), nodes, next, index.Keys, inserted);
    }
  }

  /** `import_crawler_db(crawler_db_path)` on the database that path opens.
      The nodes read are imported; when every node read, the edges read are
      inserted through the crawler id map.  A failure after the node phase
      began leaves what was already inserted in place. */
  method ImportCrawlerDb(g: GraphStore, db: CrawlerDb, encode: seq<bv8> -> string, now: int)
    returns (r: Result<ImportStats>, ghost idMap: map<string, NodeId>)
    requires g.Valid()
    modifies g
    ensures g.Valid()
    ensures r.Err? <==> ImportError(db).Some?
    ensures r.Err? ==> r.message == ImportError(db).value
    ensures db.CannotOpen? || db.nodes.PrepareFails? ==> unchanged(g)
    ensures NodesImported(NodesRead(db), encode, now, old(g.nodes), old(g.nextId), g.nodes, g.nextId, idMap)
    ensures g.edges == old(g.edges) + MappedEdges(EdgesRead(db), idMap)
    ensures r.Ok? ==>
      && r.value.nodesImported == g.nextId - old(g.nextId)
      && r.value.nodesImported + r.value.nodesSkipped == |NodesRead(db)|
      && r.value.edgesImported == MappedCount(EdgesRead(db), idMap)
      && |g.edges| <= |old(g.edges)| + r.value.edgesImported
  {
    if db.CannotOpen? || db.nodes.PrepareFails? {
      NothingImported(encode, now, g.nodes, g.nextId);
      r := if db.CannotOpen? then Err(OpenError(db.message)) else Err(db.nodes.message);
      idMap := map[];
    } else {
      var ids, inserted, skipped := ImportNodes(g, ReadRows(db.nodes), encode, now);
      idMap := ids;
      r := ImportEdges(g, db, ids, inserted, skipped);
    }
  }

  /** What follows the node loop: its error, if the node query stopped
      early, or else the edge loop through the crawler id map `ids`, and the
      statistics. */
  method ImportEdges(g: GraphStore, db: CrawlerDb, ids: map<string, NodeId>, inserted: nat, skipped: nat)
    returns (r: Result<ImportStats>)
    requires db.CrawlerDb? && g.Valid()
    modifies g
    ensures g.Valid() && g.nodes == old(g.nodes) && g.nextId == old(g.nextId)
    ensures r.Err? <==> ImportError(db).Some?
    ensures r.Err? ==> r.message == ImportError(db).value
    ensures g.edges == old(g.edges) + MappedEdges(EdgesRead(db), ids)
    ensures r.Ok? ==>
      && r.value == ImportStats(inserted, MappedCount(EdgesRead(db), ids), skipped)
      && |g.edges| <= |old(g.edges)| + MappedCount(EdgesRead(db), ids)
  {
    if QueryError(db.nodes).Some? {
      return Err(QueryError(db.nodes).value);
    }
    // An edge query that does not prepare reads no rows, so nothing is inserted before its error.
    ghost var edges := g.edges;
    var attempted, added := InsertMappedEdges(g, ReadRows(db.edges), ids);
    AddedAtMostAttempted(edges, g.edges, EdgesRead(db), ids, added);
    r := if QueryError(db.edges).Some? then Err(QueryError(db.edges).value)
         else Ok(ImportStats(inserted, attempted, skipped));
  }

  /** The stored URLs after the node phase are the old ones plus the crawler URLs read. */
  lemma ImportedKeys(read: seq<CrawlerNode>, encode: seq<bv8> -> string, now: int,
    nodes0: map<NodeId, Node>, index0: map<string, NodeId>, nodes: map<NodeId, Node>, index: map<string, NodeId>, inserted: nat)
    requires Indexes(index0, nodes0, false) && Indexes(index, nodes, false)
    requires index.Keys == index0.Keys + RowKeys(ImportRows(read, encode, now), false)
    requires |index.Keys| == |index0.Keys| + inserted
    ensures KeysOf(nodes, false) == KeysOf(nodes0, false) + set k | 0 <= k < |read| :: read[k].url
    ensures |KeysOf(nodes, false)| == |KeysOf(nodes0, false)| + inserted
  {
    ImportedUrls(read, encode, now);
    IndexKeys(index0, nodes0, false);
    IndexKeys(index, nodes, false);
  }

  /** A node added by the node phase has a URL the store did not hold, and is
      the imported row of a crawler node read. */
  lemma ImportedNew(read: seq<CrawlerNode>, encode: seq<bv8> -> string, now: int,
    nodes0: map<NodeId, Node>, index0: map<string, NodeId>, nodes: map<NodeId, Node>, index: map<string, NodeId>, next0: NodeId, next: NodeId)
    requires Indexes(index0, nodes0, false)
    requires forall id :: next0 <= id < next ==> NewRow(ImportRows(read, encode, now), false, index0, nodes, index, id)
    ensures forall id :: next0 <= id < next ==>
      && id in nodes && nodes[id].url !in StoredUrls(nodes0)
      && exists k :: 0 <= k < |read| && nodes[id] == ImportedNode(read[k], encode, now)
  {
    forall id | next0 <= id < next {
      ImportedNewNode(read, encode, now, nodes0, index0, nodes, index, id);
    }
  }

  /** One node added by the node phase. */
  lemma ImportedNewNode(read: seq<CrawlerNode>, encode: seq<bv8> -> string, now: int,
    nodes0: map<NodeId, Node>, index0: map<string, NodeId>, nodes: map<NodeId, Node>, index: map<string, NodeId>, id: NodeId)
    requires Indexes(index0, nodes0, false)
    requires NewRow(ImportRows(read, encode, now), false, index0, nodes, index, id)
    ensures && id in nodes && nodes[id].url !in StoredUrls(nodes0)
            && exists k :: 0 <= k < |read| && nodes[id] == ImportedNode(read[k], encode, now)
  {
    var rows := ImportRows(read, encode, now);
    var k :| 0 <= k < |rows| && rows[k].1 == nodes[id];
    assert nodes[id] == ImportedNode(read[k], encode, now);
    NotIndexedNotStored(index0, nodes0, false, nodes[id].url);
  }

  /** The crawler id map covers exactly the crawler ids read. */
  lemma ImportedIdMapKeys(read: seq<CrawlerNode>, encode: seq<bv8> -> string, now: int,
    index: map<string, NodeId>, idMap: map<string, NodeId>)
    requires RowKeys(ImportRows(read, encode, now), false) <= index.Keys
    requires idMap == IdMap(ImportRows(read, encode, now), index, false)
    ensures forall x :: x in idMap <==> exists k :: 0 <= k < |read| && read[k].id == x
  {
    var rows := ImportRows(read, encode, now);
    IdMapKeys(rows, index, false);
    forall x | x in idMap
      ensures exists k :: 0 <= k < |read| && read[k].id == x
    {
      var k :| 0 <= k < |rows| && rows[k].0 == x;
      assert read[k].id == x;
    }
    forall x | exists k :: 0 <= k < |read| && read[k].id == x
      ensures x in idMap
    {
      var k :| 0 <= k < |read| && read[k].id == x;
      assert rows[k].0 == x;
    }
  }

  /** The crawler id map sends the last row carrying an id to the stored node with that row's URL. */
  lemma ImportedIdMapTargets(read: seq<CrawlerNode>, encode: seq<bv8> -> string, now: int,
    nodes: map<NodeId, Node>, index: map<string, NodeId>, idMap: map<string, NodeId>)
    requires Indexes(index, nodes, false) && RowKeys(ImportRows(read, encode, now), false) <= index.Keys
    requires idMap == IdMap(ImportRows(read, encode, now), index, false)
    ensures forall k :: 0 <= k < |read| && (forall j :: k < j < |read| ==> read[j].id != read[k].id) ==>
      read[k].id in idMap && idMap[read[k].id] in nodes && nodes[idMap[read[k].id]].url == read[k].url
  {
    var rows := ImportRows(read, encode, now);
    forall k | 0 <= k < |read| && (forall j :: k < j < |read| ==> read[j].id != read[k].id)
      ensures read[k].id in idMap && idMap[read[k].id] in nodes && nodes[idMap[read[k].id]].url == read[k].url
    {
      LastRow(read, encode, now, k);
      IdMapLast(rows, index, false, k);
    }
  }

  lemma LastRow(read: seq<CrawlerNode>, encode: seq<bv8> -> string, now: int, k: nat)
    requires k < |read| && forall j :: k < j < |read| ==> read[j].id != read[k].id
    ensures var rows := ImportRows(read, encode, now);
      k < |rows| && rows[k].0 == read[k].id && rows[k].1.url == read[k].url &&
      forall j :: k < j < |rows| ==> rows[j].0 != rows[k].0
  {
  }
}
