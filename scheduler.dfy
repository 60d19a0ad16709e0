/** The auto-crawl scheduler: which node is crawled next, how many are
    waiting, which was crawled last, and the random discovery pick.  The SQL
    queries are stated as properties of the node table. */
module Scheduler {
  import opened Types
  import opened Store

  const SecondsPerDay := 86400

  /** A node is due when it was never crawled or was last crawled more than
      `staleDays` days ago.  A negative `staleDays` writes the date modifier
      as `--N days`, which SQLite rejects: the cutoff is null, no comparison
      with it holds, and only never-crawled nodes are due. */
  predicate IsStale(n: Node, now: int, staleDays: int)
  {
    n.lastCrawled.None? || (staleDays >= 0 && n.lastCrawled.value < now - staleDays * SecondsPerDay)
  }

  /** The ids of the due nodes. */
  function StaleIds(nodes: map<NodeId, Node>, now: int, staleDays: int): (r: set<NodeId>)
    ensures forall id :: id in r <==> id in nodes && IsStale(nodes[id], now, staleDays)
  {
    set id | id in nodes && IsStale(nodes[id], now, staleDays)
  }

  /** The crawl order: never-crawled nodes first, then the oldest crawl time
      first; SQLite leaves ties unordered, and they are broken here by the
      lower id. */
  predicate CrawlsFirst(a: NodeId, na: Node, b: NodeId, nb: Node)
  {
    match (na.lastCrawled, nb.lastCrawled)
    case (None, None) => a <= b
    case (None, Some(_)) => true
    case (Some(_), None) => false
    case (Some(ta), Some(tb)) => ta < tb || (ta == tb && a <= b)
  }

  /** The crawl order is total and transitive. */
  lemma CrawlsFirstTotalOrder(a: NodeId, na: Node, b: NodeId, nb: Node, c: NodeId, nc: Node)
    ensures CrawlsFirst(a, na, b, nb) || CrawlsFirst(b, nb, a, na)
    ensures CrawlsFirst(a, na, b, nb) && CrawlsFirst(b, nb, c, nc) ==> CrawlsFirst(a, na, c, nc)
    ensures CrawlsFirst(a, na, b, nb) && CrawlsFirst(b, nb, a, na) ==> a == b
  {
  }

  /** Every non-empty set of stored ids has a first element in crawl order. */
  lemma {:induction false} FirstExists(nodes: map<NodeId, Node>, s: set<NodeId>)
    requires s != {} && s <= nodes.Keys
    ensures exists m :: m in s && forall o :: o in s ==> CrawlsFirst(m, nodes[m], o, nodes[o])
    decreases |s|
  {
    HasElement(s);
    var x :| x in s;
    var rest := s - {x};
    if rest == {} {
      assert s == {x};
      assert CrawlsFirst(x, nodes[x], x, nodes[x]);
    } else {
      FirstExists(nodes, rest);
      var m :| m in rest && forall o :: o in rest ==> CrawlsFirst(m, nodes[m], o, nodes[o]);
      CrawlsFirstTotalOrder(m, nodes[m], x, nodes[x], x, nodes[x]);
      var w := if CrawlsFirst(m, nodes[m], x, nodes[x]) then m else x;
      forall o | o in s
        ensures CrawlsFirst(w, nodes[w], o, nodes[o])
      {
        if o == x {
          CrawlsFirstTotalOrder(x, nodes[x], x, nodes[x], x, nodes[x]);
        } else if w == x {
          CrawlsFirstTotalOrder(x, nodes[x], m, nodes[m], o, nodes[o]);
        }
      }
    }
  }

  /** A row decodes into the command's node record only when its `title`
      column holds text: the record's title is a plain string, and the
      column is nullable. */
  predicate RowDecodes(n: Node)
  {
    n.title.Some?
  }

  /** Node `m` is due and comes first among all due nodes in crawl order. */
  ghost predicate FirstDueAt(nodes: map<NodeId, Node>, now: int, staleDays: int, m: NodeId)
  {
    && m in nodes && IsStale(nodes[m], now, staleDays)
    && forall o :: o in nodes && IsStale(nodes[o], now, staleDays) ==> CrawlsFirst(m, nodes[m], o, nodes[o])
  }

  /** The row `ORDER BY ... LIMIT 1` selects: the first due node in crawl
      order, or none when nothing is due. */
  ghost function FirstDue(nodes: map<NodeId, Node>, now: int, staleDays: int): (r: Option<NodeId>)
    ensures r.None? <==> StaleIds(nodes, now, staleDays) == {}
    ensures r.Some? ==> FirstDueAt(nodes, now, staleDays, r.value)
  {
    var due := StaleIds(nodes, now, staleDays);
    if due == {} then None
    else
      FirstExists(nodes, due);
      var m :| m in due && forall o :: o in due ==> CrawlsFirst(m, nodes[m], o, nodes[o]);
      Some(m)
  }

  /** The first due node is unique. */
  lemma FirstDueUnique(nodes: map<NodeId, Node>, now: int, staleDays: int, m: NodeId, m': NodeId)
    requires FirstDueAt(nodes, now, staleDays, m) && FirstDueAt(nodes, now, staleDays, m')
    ensures m == m'
  {
    CrawlsFirstTotalOrder(m, nodes[m], m', nodes[m'], m, nodes[m]);
  }

  /** `get_next_crawl_target`: the selected row, decoded; `.ok()` turns a
      failed decode into none, and no later row is tried.  So the result is
      none exactly when nothing is due or the first due node has a null
      title. */
  ghost function NextCrawlTarget(nodes: map<NodeId, Node>, now: int, staleDays: int): (r: Option<NodeId>)
    ensures r.Some? ==> FirstDueAt(nodes, now, staleDays, r.value) && RowDecodes(nodes[r.value])
    ensures r.None? <==>
      || StaleIds(nodes, now, staleDays) == {}
      || exists m :: FirstDueAt(nodes, now, staleDays, m) && !RowDecodes(nodes[m])
  {
    match FirstDue(nodes, now, staleDays)
    case None => None
    case Some(m) =>
      if RowDecodes(nodes[m]) then Some(m)
      else None
  }

  /** A due node, first in crawl order, whose title is null: the pending
      count is positive, yet no crawl target is returned. */
  lemma NullTitleStallsCrawl(nodes: map<NodeId, Node>, now: int, staleDays: int, m: NodeId)
    requires FirstDueAt(nodes, now, staleDays, m) && !RowDecodes(nodes[m])
    ensures PendingCount(nodes, now, staleDays) > 0 && NextCrawlTarget(nodes, now, staleDays).None?
  {
    assert m in StaleIds(nodes, now, staleDays);
    match FirstDue(nodes, now, staleDays)
    case None =>
    case Some(f) => FirstDueUnique(nodes, now, staleDays, f, m);
  }

  /** One merged session row with no title, never crawled, in an otherwise
      empty store: one node is pending and there is no crawl target. */
  lemma NullTitleStallExample()
    ensures var n := Node("http://a.com", None, None, None, Position(0.0, 0.0, 0.0), true, None, 0);
      PendingCount(map[1 := n], 10, 3) == 1 && NextCrawlTarget(map[1 := n], 10, 3).None?
  {
    var n := Node("http://a.com", None, None, None, Position(0.0, 0.0, 0.0), true, None, 0);
    var nodes := map[1 := n];
    assert StaleIds(nodes, 10, 3) == {1};
    NullTitleStallsCrawl(nodes, 10, 3, 1);
  }

  /** The `nodes_pending` count of `get_auto_crawl_status`: the due nodes.
      It is 0 exactly when `ORDER BY ... LIMIT 1` selects no row; a positive
      count with no crawl target means the selected row has a null title. */
  function PendingCount(nodes: map<NodeId, Node>, now: int, staleDays: int): (n: nat)
    ensures n <= |nodes|
    ensures n == 0 <==> FirstDue(nodes, now, staleDays).None?
    ensures NextCrawlTarget(nodes, now, staleDays).Some? ==> n > 0
    ensures n > 0 && NextCrawlTarget(nodes, now, staleDays).None? ==>
      exists m :: FirstDueAt(nodes, now, staleDays, m) && !RowDecodes(nodes[m])
  {
    var due := StaleIds(nodes, now, staleDays);
    assert due <= nodes.Keys;
    CardinalityMonotone(due, nodes.Keys);
    |due|
  }

  lemma CardinalityMonotone(a: set<NodeId>, b: set<NodeId>)
    requires a <= b
    ensures |a| <= |b|
  {
    assert b == a + (b - a);
  }

  /** The most recent crawl first; ties broken by the lower id. */
  predicate CrawledLater(a: NodeId, na: Node, b: NodeId, nb: Node)
    requires na.lastCrawled.Some? && nb.lastCrawled.Some?
  {
    na.lastCrawled.value > nb.lastCrawled.value || (na.lastCrawled == nb.lastCrawled && a <= b)
  }

  function CrawledIds(nodes: map<NodeId, Node>): (r: set<NodeId>)
    ensures forall id :: id in r <==> id in nodes && nodes[id].lastCrawled.Some?
  {
    set id | id in nodes && nodes[id].lastCrawled.Some?
  }

  /** Every non-empty set of crawled nodes has a most recently crawled one. */
  lemma {:induction false} LatestExists(nodes: map<NodeId, Node>, s: set<NodeId>)
    requires s != {} && s <= CrawledIds(nodes)
    ensures exists m :: m in s && forall o :: o in s ==> CrawledLater(m, nodes[m], o, nodes[o])
    decreases |s|
  {
    HasElement(s);
    var x :| x in s;
    var rest := s - {x};
    if rest == {} {
      assert s == {x};
    } else {
      LatestExists(nodes, rest);
      var m :| m in rest && forall o :: o in rest ==> CrawledLater(m, nodes[m], o, nodes[o]);
      if CrawledLater(m, nodes[m], x, nodes[x]) {
        assert forall o :: o in s ==> CrawledLater(m, nodes[m], o, nodes[o]);
      } else {
        assert forall o :: o in s ==> CrawledLater(x, nodes[x], o, nodes[o]);
      }
    }
  }

  /** `last_crawled_id` of `get_auto_crawl_status`: the most recently crawled node, if any was crawled. */
  ghost function LastCrawled(nodes: map<NodeId, Node>): (r: Option<NodeId>)
    ensures r.None? <==> forall id :: id in nodes ==> nodes[id].lastCrawled.None?
    ensures r.Some? ==> r.value in nodes && nodes[r.value].lastCrawled.Some?
    ensures r.Some? ==> forall o :: o in nodes && nodes[o].lastCrawled.Some? ==>
      nodes[o].lastCrawled.value <= nodes[r.value].lastCrawled.value
  {
    var crawled := CrawledIds(nodes);
    if crawled == {} then None
    else
      LatestExists(nodes, crawled);
      var m :| m in crawled && forall o :: o in crawled ==> CrawledLater(m, nodes[m], o, nodes[o]);
      Some(m)
  }

  /** The status record handed to the UI. */
  datatype AutoCrawlStatus = AutoCrawlStatus(nodesPending: nat, lastCrawledId: Option<NodeId>, lastCrawledUrl: Option<string>)

  /** `get_auto_crawl_status` */
  ghost function Status(nodes: map<NodeId, Node>, now: int, staleDays: int): (r: AutoCrawlStatus)
    ensures r.nodesPending == PendingCount(nodes, now, staleDays)
    ensures r.lastCrawledId.Some? <==> r.lastCrawledUrl.Some?
    ensures r.lastCrawledId.Some? ==> r.lastCrawledId.value in nodes && nodes[r.lastCrawledId.value].url == r.lastCrawledUrl.value
  {
    var last := LastCrawled(nodes);
    AutoCrawlStatus(PendingCount(nodes, now, staleDays), last,
      match last case None => None case Some(id) => Some(nodes[id].url))
  }

  /** After `reset_all_crawl_timestamps` every node is due and the pending count is the node count. */
  lemma ResetMakesAllDue(nodes: map<NodeId, Node>, now: int, staleDays: int)
    ensures StaleIds(ClearCrawlTimes(nodes), now, staleDays) == nodes.Keys
    ensures PendingCount(ClearCrawlTimes(nodes), now, staleDays) == |nodes|
    ensures LastCrawled(ClearCrawlTimes(nodes)).None?
  {
    assert |ClearCrawlTimes(nodes)| == |nodes.Keys|;
  }

  /** A node just crawled at `now` is not due again while fewer than
      `staleDays` days have passed, so the scheduler moves on to another node. */
  lemma CrawledNodeNotDue(n: Node, title: Option<string>, favicon: Option<string>, isAlive: bool, crawledAt: int, now: int, staleDays: int)
    requires 0 <= staleDays ==> now <= crawledAt + staleDays * SecondsPerDay
    ensures !IsStale(Coalesce(n, title, favicon, isAlive, crawledAt), now, staleDays)
  {
  }

  /** With a negative `staleDays` the due nodes are exactly the never-crawled ones. */
  lemma NegativeStaleDaysNeverCrawled(nodes: map<NodeId, Node>, now: int, staleDays: int)
    requires staleDays < 0
    ensures StaleIds(nodes, now, staleDays) == set id | id in nodes && nodes[id].lastCrawled.None?
  {
  }

  /** `get_random_discovery_target`: `ORDER BY RANDOM() LIMIT 1` picks some
      live row, which is returned when it decodes; `.ok()` turns a failed
      decode (a null title) into none.  None when no node is alive. */
  method RandomDiscoveryTarget(nodes: map<NodeId, Node>) returns (r: Option<NodeId>)
    ensures (forall id :: id in nodes ==> !nodes[id].isAlive) ==> r.None?
    ensures r.Some? ==> r.value in nodes && nodes[r.value].isAlive && RowDecodes(nodes[r.value])
    ensures r.None? ==> (forall id :: id in nodes ==> !nodes[id].isAlive) || exists p :: p in nodes && nodes[p].isAlive && !RowDecodes(nodes[p])
    ensures (exists id :: id in nodes && nodes[id].isAlive) && (forall id :: id in nodes && nodes[id].isAlive ==> RowDecodes(nodes[id])) ==> r.Some?
  {
    if exists id :: id in nodes && nodes[id].isAlive {
      var id :| id in nodes && nodes[id].isAlive;
      if RowDecodes(nodes[id]) {
        r := Some(id);
      } else {
        r := None;
      }
    } else {
      r := None;
    }
  }
}
