/** `crawl_single_node`: refetch one node's page and fold the result into its row. */
module Crawler {
  import opened Types
  import opened Urls
  import opened Fetcher
  import opened Store

  /** What the command reports to the UI. */
  datatype CrawlResult = CrawlResult(
    nodeId: NodeId,
    title: Option<string>,
    favicon: Option<string>,
    isAlive: bool,
    error: Option<string>)

  /** The error for an id that has no row. */
  const NodeNotFound := "Node not found: Query returned no rows"

  /** The report for a fetch: its metadata, or on failure a dead page carrying the error. */
  function Report(id: NodeId, fetched: Result<PageMetadata>): (r: CrawlResult)
    ensures r.nodeId == id
    ensures r.error.Some? <==> fetched.Err?
    ensures fetched.Err? ==> r == CrawlResult(id, None, None, false, Some(fetched.message))
    ensures fetched.Ok? ==> r.title == fetched.value.title && r.favicon == fetched.value.favicon && r.isAlive == fetched.value.isAlive
  {
    match fetched
    case Ok(m) => CrawlResult(id, m.title, m.favicon, m.isAlive, None)
    case Err(e) => CrawlResult(id, None, None, false, Some(e))
  }

  /** `crawl_single_node(node_id)` with `outcome` the fetch of the node's URL.
      The row is updated with the coalescing update in both branches: on a
      failed fetch that update is `is_alive = 0, last_crawled = now`. */
  method CrawlSingleNode(g: GraphStore, id: NodeId, outcome: FetchOutcome, now: int) returns (r: Result<CrawlResult>)
    requires g.Valid()
    modifies g
    ensures g.Valid()
    ensures g.edges == old(g.edges) && g.nextId == old(g.nextId)
    ensures id !in old(g.nodes) ==> r == Err(NodeNotFound) && g.nodes == old(g.nodes)
    ensures id in old(g.nodes) ==>
      && r == Ok(Report(id, FetchPageMetadata(old(g.nodes)[id].url, outcome)))
      && g.nodes == old(g.nodes)[id := Coalesce(old(g.nodes)[id], r.value.title, r.value.favicon, r.value.isAlive, now)]
  {
    if id !in g.nodes {
      return Err(NodeNotFound);
    }
    var url := g.nodes[id].url;
    var fetched := FetchPageMetadata(url, outcome);
    match fetched {
      case Ok(m) =>
        g.UpdateMetadata(id, m.title, m.favicon, m.isAlive, now);
        r := Ok(CrawlResult(id, m.title, m.favicon, m.isAlive, None));
      case Err(e) =>
        g.UpdateMetadata(id, None, None, false, now);
        r := Ok(CrawlResult(id, None, None, false, Some(e)));
    }
  }

  /** A crawl reports the page alive exactly when the server answered with a
      success status and the node's URL parses; a live page always has a favicon. */
  lemma CrawlAliveIff(id: NodeId, url: string, outcome: FetchOutcome)
    ensures Report(id, FetchPageMetadata(url, outcome)).isAlive <==>
      outcome.Received? && IsSuccess(outcome.status) && Parse(url).Some?
    ensures Report(id, FetchPageMetadata(url, outcome)).isAlive ==>
      Report(id, FetchPageMetadata(url, outcome)).favicon.Some?
  {
  }

  /** A transport failure is reported as `Ok` carrying the error, and the node is stored dead. */
  lemma TransportFailureMarksDead(n: Node, id: NodeId, outcome: FetchOutcome, now: int)
    requires outcome.TransportError?
    ensures var rep := Report(id, FetchPageMetadata(n.url, outcome));
      && rep.error == Some(outcome.message)
      && Coalesce(n, rep.title, rep.favicon, rep.isAlive, now) == n.(isAlive := false, lastCrawled := Some(now))
  {
  }

  /** A crawl never loses a known title or favicon: they are only replaced by fetched values. */
  lemma CrawlKeepsKnownMetadata(n: Node, id: NodeId, outcome: FetchOutcome, now: int)
    ensures var rep := Report(id, FetchPageMetadata(n.url, outcome));
      var m := Coalesce(n, rep.title, rep.favicon, rep.isAlive, now);
      && (n.title.Some? ==> m.title.Some?)
      && (n.favicon.Some? ==> m.favicon.Some?)
      && m.url == n.url && m.position == n.position && m.screenshot == n.screenshot && m.createdAt == n.createdAt
  {
  }
}
