/** `discover_links_from_node`: fetch a node's page, refresh its row, and grow
    the graph from its outbound links, at most `max_new_nodes` new nodes per
    call.  The random placement of a new node is the input `placement`,
    indexed by the link's position in the page's link list. */
module Discovery {
  import opened Types
  import opened Urls
  import opened Fetcher
  import opened Store

  /** What the command reports to the UI. */
  datatype DiscoveryResult = DiscoveryResult(
    sourceNodeId: NodeId,
    linksFound: int,
    nodesAdded: int,
    edgesAdded: int,
    newNodeIds: seq<NodeId>)

  /** The error for a source id that has no row. */
  const SourceNotFound := "Source node not found: Query returned no rows"

  /** The title a discovered node starts with: its host, or `Unknown`. */
  function PlaceholderTitle(link: string): string
  {
    HostOr(link, "Unknown")
  }

  /** The external-only filter's test: the link's host (empty if none) is the source's. */
  predicate SameSite(link: string, sourceHost: string)
  {
    HostOr(link, "") == sourceHost
  }

  /** Every edge points below `bound`: no edge names an id not yet handed out. */
  ghost predicate EdgesBelow(edges: set<Edge>, bound: NodeId)
  {
    forall e :: e in edges ==> e.1 < bound
  }

  /** A link has been dealt with: a stored URL is the target of an edge from
      the source; a URL that is not stored was skipped by the external-only filter. */
  ghost predicate Handled(nodes: map<NodeId, Node>, edges: set<Edge>, source: NodeId, sourceHost: string, externalOnly: bool, link: string)
  {
    if link in StoredUrls(nodes) then (source, IdOf(nodes, link)) in edges
    else externalOnly && SameSite(link, sourceHost)
  }

  /** Storing a node under a fresh id adds its URL and nothing else. */
  lemma UrlsInsert(nodes: map<NodeId, Node>, id: NodeId, n: Node)
    requires id !in nodes
    ensures StoredUrls(nodes[id := n]) == StoredUrls(nodes) + {n.url}
  {
    var after := nodes[id := n];
    forall u | u in StoredUrls(nodes)
      ensures u in StoredUrls(after)
    {
      var x :| x in nodes && nodes[x].url == u;
      assert after[x].url == u;
    }
    assert after[id].url == n.url;
  }

  /** A handled link stays handled when nodes are added (none whose URL the
      external-only filter would skip) and edges are added. */
  lemma HandledPreserved(
    nodes: map<NodeId, Node>, edges: set<Edge>, nodes2: map<NodeId, Node>, edges2: set<Edge>,
    source: NodeId, sourceHost: string, externalOnly: bool, link: string)
    requires Handled(nodes, edges, source, sourceHost, externalOnly, link)
    requires UniqueUrls(nodes2) && edges <= edges2
    requires forall id :: id in nodes ==> id in nodes2 && nodes2[id].url == nodes[id].url
    requires forall u :: u in StoredUrls(nodes2) && u !in StoredUrls(nodes) ==> !(externalOnly && SameSite(u, sourceHost))
    ensures Handled(nodes2, edges2, source, sourceHost, externalOnly, link)
  {
    if link in StoredUrls(nodes) {
      IdOfStable(nodes, nodes2, link);
    }
  }

  /** Edges between stored nodes point below the id counter. */
  lemma ClosedEdgesBelow(nodes: map<NodeId, Node>, edges: set<Edge>, bound: NodeId)
    requires EdgesClosed(nodes, edges)
    requires forall id :: id in nodes ==> id < bound
    ensures EdgesBelow(edges, bound)
  {
  }

  /** The fixed inputs of the link loop: the source node and its host, the
      filter switch, the page's links, the time and the placement of new nodes. */
  datatype Batch = Batch(
    source: NodeId, sourceHost: string, externalOnly: bool,
    links: seq<string>, now: int, placement: nat -> Position)

  /** The node the loop creates for `links[j]`. */
  function DiscoveredNode(b: Batch, j: nat): (r: Node)
    requires j < |b.links|
    ensures r.url == b.links[j] && r.title == Some(PlaceholderTitle(b.links[j])) && r.isAlive
  {
    NewNode(b.links[j], PlaceholderTitle(b.links[j]), b.placement(j), b.now)
  }

  /** The `k`-th new node came from link `origin[k]`, which was not stored
      before and passes the external-only filter; it is linked from the source. */
  ghost predicate NewNodesFrom(
    b: Batch, nodes0: map<NodeId, Node>, next0: NodeId, nodes: map<NodeId, Node>, edges: set<Edge>,
    i: nat, newIds: seq<NodeId>, origin: seq<nat>)
    requires |newIds| == |origin|
  {
    forall k :: 0 <= k < |newIds| ==>
      && newIds[k] == next0 + k
      && origin[k] < i <= |b.links|
      && newIds[k] in nodes && nodes[newIds[k]] == DiscoveredNode(b, origin[k])
      && b.links[origin[k]] !in StoredUrls(nodes0)
      && !(b.externalOnly && SameSite(b.links[origin[k]], b.sourceHost))
      && (b.source, newIds[k]) in edges
  }

  /** New nodes appear in the order of their links. */
  ghost predicate Increasing(origin: seq<nat>)
  {
    forall k, l :: 0 <= k < l < |origin| ==> origin[k] < origin[l]
  }

  /** What the loop guarantees after looking at `links[..i]`, starting from
      the store (`nodes0`, `edges0`, `next0`). */
  ghost predicate Expanded(
    b: Batch, nodes0: map<NodeId, Node>, edges0: set<Edge>, next0: NodeId,
    nodes: map<NodeId, Node>, edges: set<Edge>, nextId: NodeId,
    i: nat, newIds: seq<NodeId>, origin: seq<nat>, edgesAdded: int)
  {
    && i <= |b.links|
    && |newIds| == |origin|
    && nextId == next0 + |newIds|
    && (forall id :: id in nodes0 ==> id < next0)
    && (forall id :: id in nodes <==> id in nodes0 || next0 <= id < nextId)
    && (forall id :: id in nodes0 ==> nodes[id] == nodes0[id])
    && NewNodesFrom(b, nodes0, next0, nodes, edges, i, newIds, origin)
    && Increasing(origin)
    && edges0 <= edges
    && (forall e :: e in edges && e !in edges0 ==> e.0 == b.source && e.1 in nodes)
    && (EdgesBelow(edges0, next0) ==> edgesAdded == |edges| - |edges0| && EdgesBelow(edges, nextId))
    && (forall j :: 0 <= j < i ==> Handled(nodes, edges, b.source, b.sourceHost, b.externalOnly, b.links[j]))
  }

  /** Before the first link nothing has happened. */
  lemma ExpandedStart(b: Batch, nodes0: map<NodeId, Node>, edges0: set<Edge>, next0: NodeId)
    requires forall id :: id in nodes0 ==> id < next0
    ensures Expanded(b, nodes0, edges0, next0, nodes0, edges0, next0, 0, [], [], 0)
  {
  }

  /** A link the external-only filter skips changes nothing and is handled. */
  lemma ExpandedSkip(
    b: Batch, nodes0: map<NodeId, Node>, edges0: set<Edge>, next0: NodeId,
    nodes: map<NodeId, Node>, edges: set<Edge>, nextId: NodeId,
    i: nat, newIds: seq<NodeId>, origin: seq<nat>, edgesAdded: int)
    requires Expanded(b, nodes0, edges0, next0, nodes, edges, nextId, i, newIds, origin, edgesAdded)
    requires i < |b.links| && b.links[i] !in StoredUrls(nodes)
    requires b.externalOnly && SameSite(b.links[i], b.sourceHost)
    ensures Expanded(b, nodes0, edges0, next0, nodes, edges, nextId, i + 1, newIds, origin, edgesAdded)
  {
  }

  /** A stored link gains the edge from the source, counted when it is a new row. */
  lemma ExpandedExisting(
    b: Batch, nodes0: map<NodeId, Node>, edges0: set<Edge>, next0: NodeId,
    nodes: map<NodeId, Node>, edges: set<Edge>, nextId: NodeId,
    i: nat, newIds: seq<NodeId>, origin: seq<nat>, edgesAdded: int)
    requires Expanded(b, nodes0, edges0, next0, nodes, edges, nextId, i, newIds, origin, edgesAdded)
    requires i < |b.links| && b.links[i] in StoredUrls(nodes) && UniqueUrls(nodes)
    ensures var target := IdOf(nodes, b.links[i]);
      Expanded(b, nodes0, edges0, next0, nodes, edges + {(b.source, target)}, nextId, i + 1, newIds, origin,
        edgesAdded + (if (b.source, target) in edges then 0 else 1))
  {
    var target := IdOf(nodes, b.links[i]);
    var edges2 := edges + {(b.source, target)};
    forall j | 0 <= j < i + 1
      ensures Handled(nodes, edges2, b.source, b.sourceHost, b.externalOnly, b.links[j])
    {
      if j < i {
        HandledPreserved(nodes, edges, nodes, edges2, b.source, b.sourceHost, b.externalOnly, b.links[j]);
      }
    }
    if EdgesBelow(edges0, next0) {
      assert target < nextId;
      if (b.source, target) in edges {
        assert edges2 == edges;
      } else {
        assert |edges2| == |edges| + 1;
      }
    }
  }

  /** A new link becomes the node under the next id, with an edge from the
      source that is counted whether or not the row was new. */
  lemma ExpandedNew(
    b: Batch, nodes0: map<NodeId, Node>, edges0: set<Edge>, next0: NodeId,
    nodes: map<NodeId, Node>, edges: set<Edge>, nextId: NodeId,
    i: nat, newIds: seq<NodeId>, origin: seq<nat>, edgesAdded: int)
    requires Expanded(b, nodes0, edges0, next0, nodes, edges, nextId, i, newIds, origin, edgesAdded)
    requires i < |b.links| && b.links[i] !in StoredUrls(nodes)
    requires !(b.externalOnly && SameSite(b.links[i], b.sourceHost))
    requires UniqueUrls(nodes[nextId := DiscoveredNode(b, i)])
    ensures nextId !in nodes
    ensures Expanded(b, nodes0, edges0, next0,
      nodes[nextId := DiscoveredNode(b, i)], edges + {(b.source, nextId)}, nextId + 1,
      i + 1, newIds + [nextId], origin + [i], edgesAdded + 1)
  {
    var n := DiscoveredNode(b, i);
    var nodes2 := nodes[nextId := n];
    var edges2 := edges + {(b.source, nextId)};
    UrlsInsert(nodes, nextId, n);
    assert StoredUrls(nodes0) <= StoredUrls(nodes) by {
      forall u | u in StoredUrls(nodes0)
        ensures u in StoredUrls(nodes)
      {
        var x :| x in nodes0 && nodes0[x].url == u;
        assert nodes[x] == nodes0[x];
      }
    }
    NewNodesExtend(b, nodes0, next0, nodes, edges, nodes2, edges2, i, newIds, origin);
    assert Increasing(origin + [i]) by {
      forall k | 0 <= k < |origin|
        ensures (origin + [i])[k] < i
      {
        assert (origin + [i])[k] == origin[k];
      }
    }
    forall j | 0 <= j < i + 1
      ensures Handled(nodes2, edges2, b.source, b.sourceHost, b.externalOnly, b.links[j])
    {
      if j < i {
        HandledPreserved(nodes, edges, nodes2, edges2, b.source, b.sourceHost, b.externalOnly, b.links[j]);
      } else {
        assert nodes2[nextId].url == b.links[i];
        assert IdOf(nodes2, b.links[i]) == nextId;
      }
    }
    if EdgesBelow(edges0, next0) {
      assert (b.source, nextId) !in edges;
      assert |edges2| == |edges| + 1;
    }
  }

  /** The new-node facts survive the insertion of one more node and edge. */
  lemma NewNodesExtend(
    b: Batch, nodes0: map<NodeId, Node>, next0: NodeId, nodes: map<NodeId, Node>, edges: set<Edge>,
    nodes2: map<NodeId, Node>, edges2: set<Edge>,
    i: nat, newIds: seq<NodeId>, origin: seq<nat>)
    requires |newIds| == |origin| && i < |b.links|
    requires NewNodesFrom(b, nodes0, next0, nodes, edges, i, newIds, origin)
    requires next0 + |newIds| !in nodes
    requires nodes2 == nodes[next0 + |newIds| := DiscoveredNode(b, i)]
    requires edges2 == edges + {(b.source, next0 + |newIds|)}
    requires b.links[i] !in StoredUrls(nodes0)
    requires !(b.externalOnly && SameSite(b.links[i], b.sourceHost))
    ensures NewNodesFrom(b, nodes0, next0, nodes2, edges2, i + 1, newIds + [next0 + |newIds|], origin + [i])
  {
    var ids2 := newIds + [next0 + |newIds|];
    var origin2 := origin + [i];
    forall k | 0 <= k < |ids2|
      ensures ids2[k] in nodes2 && nodes2[ids2[k]] == DiscoveredNode(b, origin2[k])
      ensures (b.source, ids2[k]) in edges2
    {
      if k < |newIds| {
        assert ids2[k] == newIds[k] && origin2[k] == origin[k];
        assert newIds[k] in nodes;
      }
    }
  }

  /** One link of the loop: a stored link gains its edge, a link the
      external-only filter rejects changes nothing, any other link becomes a
      new node with an edge from the source. */
  lemma ExpandedStep(
    b: Batch, nodes0: map<NodeId, Node>, edges0: set<Edge>, next0: NodeId,
    nodes: map<NodeId, Node>, edges: set<Edge>, nextId: NodeId,
    i: nat, newIds: seq<NodeId>, origin: seq<nat>, edgesAdded: int,
    nodes2: map<NodeId, Node>, edges2: set<Edge>, next2: NodeId,
    newIds2: seq<NodeId>, origin2: seq<nat>, edgesAdded2: int, maxNewNodes: int)
    requires Expanded(b, nodes0, edges0, next0, nodes, edges, nextId, i, newIds, origin, edgesAdded)
    requires EdgesCounted(b, nodes0, edges0, nodes, edges, i, newIds, edgesAdded)
    requires (forall j :: 0 <= j < i ==> AddedBefore(origin, j) < maxNewNodes) && |newIds| < maxNewNodes
    requires i < |b.links| && UniqueUrls(nodes)
    requires b.links[i] in StoredUrls(nodes) ==>
      && nodes2 == nodes && next2 == nextId && newIds2 == newIds && origin2 == origin
      && edges2 == edges + {(b.source, IdOf(nodes, b.links[i]))}
      && edgesAdded2 == edgesAdded + (if (b.source, IdOf(nodes, b.links[i])) in edges then 0 else 1)
    requires b.links[i] !in StoredUrls(nodes) && b.externalOnly && SameSite(b.links[i], b.sourceHost) ==>
      && nodes2 == nodes && next2 == nextId && newIds2 == newIds && origin2 == origin
      && edges2 == edges && edgesAdded2 == edgesAdded
    requires b.links[i] !in StoredUrls(nodes) && !(b.externalOnly && SameSite(b.links[i], b.sourceHost)) ==>
      && UniqueUrls(nodes[nextId := DiscoveredNode(b, i)])
      && nodes2 == nodes[nextId := DiscoveredNode(b, i)] && next2 == nextId + 1
      && newIds2 == newIds + [nextId] && origin2 == origin + [i]
      && edges2 == edges + {(b.source, nextId)} && edgesAdded2 == edgesAdded + 1
    ensures Expanded(b, nodes0, edges0, next0, nodes2, edges2, next2, i + 1, newIds2, origin2, edgesAdded2)
    ensures EdgesCounted(b, nodes0, edges0, nodes2, edges2, i + 1, newIds2, edgesAdded2)
    ensures forall j :: 0 <= j < i + 1 ==> AddedBefore(origin2, j) < maxNewNodes
  {
    CountedStep(b, nodes0, edges0, nodes, edges, nextId, i, newIds, edgesAdded, nodes2, edges2, newIds2, edgesAdded2);
    CapStep(origin, origin2, i, maxNewNodes);
    if b.links[i] in StoredUrls(nodes) {
      ExpandedExisting(b, nodes0, edges0, next0, nodes, edges, nextId, i, newIds, origin, edgesAdded);
    } else if b.externalOnly && SameSite(b.links[i], b.sourceHost) {
      ExpandedSkip(b, nodes0, edges0, next0, nodes, edges, nextId, i, newIds, origin, edgesAdded);
    } else {
      ExpandedNew(b, nodes0, edges0, next0, nodes, edges, nextId, i, newIds, origin, edgesAdded);
    }
  }

  /** The edges from the source to the stored targets of `links[..i]`. */
  ghost function LinkEdges(b: Batch, nodes: map<NodeId, Node>, i: nat): set<Edge>
    requires i <= |b.links|
  {
    if i == 0 then {}
    else if b.links[i - 1] in StoredUrls(nodes) then LinkEdges(b, nodes, i - 1) + {(b.source, IdOf(nodes, b.links[i - 1]))}
    else LinkEdges(b, nodes, i - 1)
  }

  /** Each edge of `LinkEdges` comes from a stored link before `i`. */
  lemma {:induction false} LinkEdgesFrom(b: Batch, nodes: map<NodeId, Node>, i: nat, e: Edge) returns (j: nat)
    requires i <= |b.links| && e in LinkEdges(b, nodes, i)
    ensures j < i && b.links[j] in StoredUrls(nodes) && e == (b.source, IdOf(nodes, b.links[j]))
  {
    if e in LinkEdges(b, nodes, i - 1) {
      j := LinkEdgesFrom(b, nodes, i - 1, e);
    } else {
      j := i - 1;
    }
  }

  /** Each stored link before `i` has its edge in `LinkEdges`. */
  lemma {:induction false} LinkEdgesHas(b: Batch, nodes: map<NodeId, Node>, i: nat, j: nat)
    requires i <= |b.links| && j < i && b.links[j] in StoredUrls(nodes)
    ensures (b.source, IdOf(nodes, b.links[j])) in LinkEdges(b, nodes, i)
  {
    if j < i - 1 {
      LinkEdgesHas(b, nodes, i - 1, j);
    }
  }

  /** What the loop did to the edges after `links[..i]`: every node it added
      is linked from the source; the edges are the old ones plus one from the
      source to the stored target of every link looked at; and `edges_added`
      counts one per new node and one per edge to a node stored before the
      loop that was not already an edge. */
  ghost predicate EdgesCounted(b: Batch, nodes0: map<NodeId, Node>, edges0: set<Edge>,
    nodes: map<NodeId, Node>, edges: set<Edge>, i: nat, newIds: seq<NodeId>, edgesAdded: int)
    requires i <= |b.links|
  {
    && (forall id :: id in nodes && id !in nodes0 ==> (b.source, id) in edges)
    && edges == edges0 + LinkEdges(b, nodes, i)
    && edgesAdded == |newIds| + |LinkEdges(b, nodes0, i) - edges0|
  }

  lemma CountedStart(b: Batch, nodes0: map<NodeId, Node>, edges0: set<Edge>)
    ensures EdgesCounted(b, nodes0, edges0, nodes0, edges0, 0, [], 0)
  {
    assert LinkEdges(b, nodes0, 0) == {};
  }

  /** The URLs stored before the loop stay stored. */
  lemma StoredKept(nodes0: map<NodeId, Node>, nodes: map<NodeId, Node>)
    requires forall id :: id in nodes0 ==> id in nodes && nodes[id] == nodes0[id]
    ensures StoredUrls(nodes0) <= StoredUrls(nodes)
  {
    forall u | u in StoredUrls(nodes0)
      ensures u in StoredUrls(nodes)
    {
      var x :| x in nodes0 && nodes0[x].url == u;
      assert nodes[x].url == u;
    }
  }

  /** A link the external-only filter skips adds no edge and no count. */
  lemma CountedSkip(b: Batch, nodes0: map<NodeId, Node>, edges0: set<Edge>,
    nodes: map<NodeId, Node>, edges: set<Edge>, i: nat, newIds: seq<NodeId>, edgesAdded: int)
    requires i < |b.links| && EdgesCounted(b, nodes0, edges0, nodes, edges, i, newIds, edgesAdded)
    requires StoredUrls(nodes0) <= StoredUrls(nodes) && b.links[i] !in StoredUrls(nodes)
    ensures EdgesCounted(b, nodes0, edges0, nodes, edges, i + 1, newIds, edgesAdded)
  {
    assert LinkEdges(b, nodes, i + 1) == LinkEdges(b, nodes, i);
    assert LinkEdges(b, nodes0, i + 1) == LinkEdges(b, nodes0, i);
  }

  /** The edge to a stored URL is already among the loop's edges exactly
      when it is among those of the links to URLs stored before the loop. */
  lemma OldTargetSeen(b: Batch, nodes0: map<NodeId, Node>, nodes: map<NodeId, Node>, i: nat)
    requires i < |b.links| && UniqueUrls(nodes) && b.links[i] in StoredUrls(nodes0)
    requires forall id :: id in nodes0 ==> id in nodes && nodes[id] == nodes0[id]
    ensures IdOf(nodes, b.links[i]) == IdOf(nodes0, b.links[i])
    ensures (b.source, IdOf(nodes, b.links[i])) in LinkEdges(b, nodes, i) <==>
      (b.source, IdOf(nodes0, b.links[i])) in LinkEdges(b, nodes0, i)
  {
    var l := b.links[i];
    IdOfStable(nodes0, nodes, l);
    var e := (b.source, IdOf(nodes, l));
    if e in LinkEdges(b, nodes, i) {
      var j := LinkEdgesFrom(b, nodes, i, e);
      assert b.links[j] == l;
      LinkEdgesHas(b, nodes0, i, j);
    }
    if e in LinkEdges(b, nodes0, i) {
      var j := LinkEdgesFrom(b, nodes0, i, e);
      assert b.links[j] == l;
      LinkEdgesHas(b, nodes, i, j);
    }
  }

  /** A stored link adds the edge to its node, counted when it was not an edge. */
  lemma CountedExisting(b: Batch, nodes0: map<NodeId, Node>, edges0: set<Edge>,
    nodes: map<NodeId, Node>, edges: set<Edge>, i: nat, newIds: seq<NodeId>, edgesAdded: int)
    requires i < |b.links| && EdgesCounted(b, nodes0, edges0, nodes, edges, i, newIds, edgesAdded)
    requires forall id :: id in nodes0 ==> id in nodes && nodes[id] == nodes0[id]
    requires UniqueUrls(nodes) && b.links[i] in StoredUrls(nodes)
    ensures var e := (b.source, IdOf(nodes, b.links[i]));
      EdgesCounted(b, nodes0, edges0, nodes, edges + {e}, i + 1, newIds, edgesAdded + (if e in edges then 0 else 1))
  {
    var l := b.links[i];
    var e := (b.source, IdOf(nodes, l));
    assert LinkEdges(b, nodes, i + 1) == LinkEdges(b, nodes, i) +
      if b.links[i] in StoredUrls(nodes) then {(b.source, IdOf(nodes, b.links[i]))} else {};
    assert LinkEdges(b, nodes0, i + 1) == LinkEdges(b, nodes0, i) +
      if b.links[i] in StoredUrls(nodes0) then {(b.source, IdOf(nodes0, b.links[i]))} else {};
    var old0 := LinkEdges(b, nodes0, i);
    if l in StoredUrls(nodes0) {
      OldTargetSeen(b, nodes0, nodes, i);
      if e in edges0 || e in old0 {
        assert (old0 + {e}) - edges0 == old0 - edges0;
      } else {
        assert (old0 + {e}) - edges0 == (old0 - edges0) + {e};
      }
    } else {
      var id := IdOf(nodes, l);
      assert id !in nodes0;
    }
  }

  /** The edges of the links once a new link's URL is stored under `nextId`. */
  lemma NewLinkEdges(b: Batch, nodes: map<NodeId, Node>, nextId: NodeId, i: nat)
    requires i < |b.links| && b.links[i] !in StoredUrls(nodes) && nextId !in nodes
    requires UniqueUrls(nodes[nextId := DiscoveredNode(b, i)])
    ensures LinkEdges(b, nodes[nextId := DiscoveredNode(b, i)], i + 1) == LinkEdges(b, nodes, i) + {(b.source, nextId)}
  {
    var l := b.links[i];
    var nodes2 := nodes[nextId := DiscoveredNode(b, i)];
    assert nodes2[nextId].url == l;
    forall x | x in LinkEdges(b, nodes2, i + 1)
      ensures x in LinkEdges(b, nodes, i) + {(b.source, nextId)}
    {
      var j := LinkEdgesFrom(b, nodes2, i + 1, x);
      if b.links[j] != l {
        var y :| y in nodes2 && nodes2[y].url == b.links[j];
        assert y in nodes && nodes[y].url == b.links[j];
        IdOfStable(nodes, nodes2, b.links[j]);
        LinkEdgesHas(b, nodes, i, j);
      }
    }
    forall x | x in LinkEdges(b, nodes, i)
      ensures x in LinkEdges(b, nodes2, i + 1)
    {
      var j := LinkEdgesFrom(b, nodes, i, x);
      IdOfStable(nodes, nodes2, b.links[j]);
      LinkEdgesHas(b, nodes2, i + 1, j);
    }
  }

  /** A new link's node and edge: the edge set gains exactly the edge to the
      new node, and the count one. */
  lemma CountedNew(b: Batch, nodes0: map<NodeId, Node>, edges0: set<Edge>,
    nodes: map<NodeId, Node>, edges: set<Edge>, nextId: NodeId, i: nat, newIds: seq<NodeId>, edgesAdded: int)
    requires i < |b.links| && EdgesCounted(b, nodes0, edges0, nodes, edges, i, newIds, edgesAdded)
    requires StoredUrls(nodes0) <= StoredUrls(nodes) && b.links[i] !in StoredUrls(nodes)
    requires nextId !in nodes && UniqueUrls(nodes[nextId := DiscoveredNode(b, i)])
    ensures EdgesCounted(b, nodes0, edges0, nodes[nextId := DiscoveredNode(b, i)], edges + {(b.source, nextId)},
      i + 1, newIds + [nextId], edgesAdded + 1)
  {
    NewLinkEdges(b, nodes, nextId, i);
    assert LinkEdges(b, nodes0, i + 1) == LinkEdges(b, nodes0, i);
  }

  /** One link of the loop, for the edges and their count: the three cases of `ExpandedStep`. */
  lemma CountedStep(
    b: Batch, nodes0: map<NodeId, Node>, edges0: set<Edge>,
    nodes: map<NodeId, Node>, edges: set<Edge>, nextId: NodeId, i: nat, newIds: seq<NodeId>, edgesAdded: int,
    nodes2: map<NodeId, Node>, edges2: set<Edge>, newIds2: seq<NodeId>, edgesAdded2: int)
    requires i < |b.links| && EdgesCounted(b, nodes0, edges0, nodes, edges, i, newIds, edgesAdded)
    requires forall id :: id in nodes0 ==> id in nodes && nodes[id] == nodes0[id]
    requires UniqueUrls(nodes)
    requires b.links[i] in StoredUrls(nodes) ==>
      && nodes2 == nodes && newIds2 == newIds
      && edges2 == edges + {(b.source, IdOf(nodes, b.links[i]))}
      && edgesAdded2 == edgesAdded + (if (b.source, IdOf(nodes, b.links[i])) in edges then 0 else 1)
    requires b.links[i] !in StoredUrls(nodes) && b.externalOnly && SameSite(b.links[i], b.sourceHost) ==>
      && nodes2 == nodes && newIds2 == newIds && edges2 == edges && edgesAdded2 == edgesAdded
    requires b.links[i] !in StoredUrls(nodes) && !(b.externalOnly && SameSite(b.links[i], b.sourceHost)) ==>
      && nextId !in nodes && UniqueUrls(nodes[nextId := DiscoveredNode(b, i)])
      && nodes2 == nodes[nextId := DiscoveredNode(b, i)] && newIds2 == newIds + [nextId]
      && edges2 == edges + {(b.source, nextId)} && edgesAdded2 == edgesAdded + 1
    ensures EdgesCounted(b, nodes0, edges0, nodes2, edges2, i + 1, newIds2, edgesAdded2)
  {
    StoredKept(nodes0, nodes);
    if b.links[i] in StoredUrls(nodes) {
      CountedExisting(b, nodes0, edges0, nodes, edges, i, newIds, edgesAdded);
    } else if b.externalOnly && SameSite(b.links[i], b.sourceHost) {
      CountedSkip(b, nodes0, edges0, nodes, edges, i, newIds, edgesAdded);
    } else {
      CountedNew(b, nodes0, edges0, nodes, edges, nextId, i, newIds, edgesAdded);
    }
  }

  /** How many of the new nodes came from links before `links[j]`. */
  function AddedBefore(origin: seq<nat>, j: nat): nat
  {
    if origin == [] then 0
    else AddedBefore(origin[..|origin| - 1], j) + (if origin[|origin| - 1] < j then 1 else 0)
  }

  lemma AddedBeforeSnoc(origin: seq<nat>, x: nat, j: nat)
    ensures AddedBefore(origin + [x], j) == AddedBefore(origin, j) + (if x < j then 1 else 0)
  {
    assert (origin + [x])[..|origin|] == origin;
  }

  /** When every new node came from a link before `links[j]`, all of them count. */
  lemma {:induction false} AddedBeforeAll(origin: seq<nat>, j: nat)
    requires forall k :: 0 <= k < |origin| ==> origin[k] < j
    ensures AddedBefore(origin, j) == |origin|
    decreases |origin|
  {
    if origin != [] {
      var n := |origin| - 1;
      assert origin[..n] + [origin[n]] == origin;
      AddedBeforeSnoc(origin[..n], origin[n], j);
      AddedBeforeAll(origin[..n], j);
    }
  }

  /** Looking at link `i` below the cap keeps every link looked at below the cap. */
  lemma CapStep(origin: seq<nat>, origin2: seq<nat>, i: nat, maxNewNodes: int)
    requires forall j :: 0 <= j < i ==> AddedBefore(origin, j) < maxNewNodes
    requires forall k :: 0 <= k < |origin| ==> origin[k] < i
    requires |origin| < maxNewNodes
    requires origin2 == origin || origin2 == origin + [i]
    ensures forall j :: 0 <= j < i + 1 ==> AddedBefore(origin2, j) < maxNewNodes
  {
    AddedBeforeAll(origin, i);
    forall j: nat | j <= i
      ensures AddedBefore(origin2, j) == AddedBefore(origin, j)
    {
      if origin2 != origin {
        AddedBeforeSnoc(origin, i, j);
      }
    }
  }

  /** The body of the loop over the page's links, for link `i`, with
      `existing` the stored URLs.  `inserted` is the id of the node the link
      became, if any, and `counted` whether the link adds one to the edge count. */
  method HandleLink(g: GraphStore, b: Batch, i: nat, existing: set<string>)
    returns (inserted: Option<NodeId>, counted: bool)
    requires g.Valid() && i < |b.links| && existing == StoredUrls(g.nodes)
    modifies g
    ensures g.Valid()
    ensures b.links[i] in old(StoredUrls(g.nodes)) ==>
      && inserted.None? && g.nodes == old(g.nodes) && g.nextId == old(g.nextId)
      && g.edges == old(g.edges) + {(b.source, IdOf(old(g.nodes), b.links[i]))}
      && (counted <==> (b.source, IdOf(old(g.nodes), b.links[i])) !in old(g.edges))
    ensures b.links[i] !in old(StoredUrls(g.nodes)) && b.externalOnly && SameSite(b.links[i], b.sourceHost) ==>
      && inserted.None? && !counted
      && g.nodes == old(g.nodes) && g.nextId == old(g.nextId) && g.edges == old(g.edges)
    ensures b.links[i] !in old(StoredUrls(g.nodes)) && !(b.externalOnly && SameSite(b.links[i], b.sourceHost)) ==>
      && inserted == Some(old(g.nextId)) && counted && old(g.nextId) !in old(g.nodes)
      && g.nodes == old(g.nodes)[old(g.nextId) := DiscoveredNode(b, i)] && g.nextId == old(g.nextId) + 1
      && g.edges == old(g.edges) + {(b.source, old(g.nextId))}
  {
    var link := b.links[i];
    inserted, counted := None, false;
    if link in existing {
      var target := g.FindByUrl(link);
      if target.Some? {
        var added := g.InsertOrIgnoreEdge(b.source, target.value);
        counted := added > 0;
      }
    } else if b.externalOnly && SameSite(link, b.sourceHost) {
    } else {
      inserted := g.InsertNode(DiscoveredNode(b, i));
      var _ := g.InsertOrIgnoreEdge(b.source, inserted.value);
      counted := true;
    }
  }

  /** What holds of the loop over the links after `links[..i]`.  `EdgesCounted`
      is stated for the prefix length `n == i` so that a proof unfolds it only
      where it names `EdgesCounted` itself. */
  ghost predicate Looped(
    b: Batch, nodes0: map<NodeId, Node>, edges0: set<Edge>, next0: NodeId, maxNewNodes: int,
    nodes: map<NodeId, Node>, edges: set<Edge>, nextId: NodeId,
    i: nat, nodesAdded: int, newIds: seq<NodeId>, origin: seq<nat>, edgesAdded: int)
  {
    && Expanded(b, nodes0, edges0, next0, nodes, edges, nextId, i, newIds, origin, edgesAdded)
    && (forall n: nat {:trigger EdgesCounted(b, nodes0, edges0, nodes, edges, n, newIds, edgesAdded)} ::
          n == i <= |b.links| ==> EdgesCounted(b, nodes0, edges0, nodes, edges, n, newIds, edgesAdded))
    && (forall j :: 0 <= j < i ==> AddedBefore(origin, j) < maxNewNodes)
    && nodesAdded == |newIds|
    && (maxNewNodes <= 0 ==> i == 0)
    && (i == 0 ==> nodesAdded == 0 && edgesAdded == 0 && nodes == nodes0 && edges == edges0 && nextId == next0)
    && (i > 0 ==> nodesAdded <= maxNewNodes)
  }

  lemma LoopedStart(b: Batch, nodes0: map<NodeId, Node>, edges0: set<Edge>, next0: NodeId, maxNewNodes: int)
    requires forall id :: id in nodes0 ==> id < next0
    ensures Looped(b, nodes0, edges0, next0, maxNewNodes, nodes0, edges0, next0, 0, 0, [], [], 0)
  {
    ExpandedStart(b, nodes0, edges0, next0);
    CountedStart(b, nodes0, edges0);
  }

  /** `ExpandedStep` for the whole of `Looped`, below the cap. */
  lemma LoopedStep(
    b: Batch, nodes0: map<NodeId, Node>, edges0: set<Edge>, next0: NodeId, maxNewNodes: int,
    nodes: map<NodeId, Node>, edges: set<Edge>, nextId: NodeId,
    i: nat, nodesAdded: int, newIds: seq<NodeId>, origin: seq<nat>, edgesAdded: int,
    nodes2: map<NodeId, Node>, edges2: set<Edge>, next2: NodeId,
    nodesAdded2: int, newIds2: seq<NodeId>, origin2: seq<nat>, edgesAdded2: int)
    requires Looped(b, nodes0, edges0, next0, maxNewNodes, nodes, edges, nextId, i, nodesAdded, newIds, origin, edgesAdded)
    requires i < |b.links| && UniqueUrls(nodes) && nodesAdded < maxNewNodes && nodesAdded2 == |newIds2|
    requires b.links[i] in StoredUrls(nodes) ==>
      && nodes2 == nodes && next2 == nextId && newIds2 == newIds && origin2 == origin
      && edges2 == edges + {(b.source, IdOf(nodes, b.links[i]))}
      && edgesAdded2 == edgesAdded + (if (b.source, IdOf(nodes, b.links[i])) in edges then 0 else 1)
    requires b.links[i] !in StoredUrls(nodes) && b.externalOnly && SameSite(b.links[i], b.sourceHost) ==>
      && nodes2 == nodes && next2 == nextId && newIds2 == newIds && origin2 == origin
      && edges2 == edges && edgesAdded2 == edgesAdded
    requires b.links[i] !in StoredUrls(nodes) && !(b.externalOnly && SameSite(b.links[i], b.sourceHost)) ==>
      && UniqueUrls(nodes[nextId := DiscoveredNode(b, i)])
      && nodes2 == nodes[nextId := DiscoveredNode(b, i)] && next2 == nextId + 1
      && newIds2 == newIds + [nextId] && origin2 == origin + [i]
      && edges2 == edges + {(b.source, nextId)} && edgesAdded2 == edgesAdded + 1
    ensures Looped(b, nodes0, edges0, next0, maxNewNodes, nodes2, edges2, next2, i + 1, nodesAdded2, newIds2, origin2, edgesAdded2)
  {
    assert EdgesCounted(b, nodes0, edges0, nodes, edges, i, newIds, edgesAdded);
    ExpandedStep(b, nodes0, edges0, next0, nodes, edges, nextId, i, newIds, origin, edgesAdded,
      nodes2, edges2, next2, newIds2, origin2, edgesAdded2, maxNewNodes);
  }

  /** One pass of the loop below the cap: link `i` is handled and the loop's
      facts move on to `i + 1`. */
  method ExpandOne(
    g: GraphStore, b: Batch, i: nat, existing: set<string>, maxNewNodes: int,
    ghost nodes0: map<NodeId, Node>, ghost edges0: set<Edge>, ghost next0: NodeId,
    nodesAdded: int, edgesAdded: int, newIds: seq<NodeId>, ghost origin: seq<nat>)
    returns (existing2: set<string>, nodesAdded2: int, edgesAdded2: int, newIds2: seq<NodeId>, ghost origin2: seq<nat>)
    requires g.Valid() && i < |b.links| && existing == StoredUrls(g.nodes)
    requires Looped(b, nodes0, edges0, next0, maxNewNodes, g.nodes, g.edges, g.nextId, i, nodesAdded, newIds, origin, edgesAdded)
    requires nodesAdded < maxNewNodes
    modifies g
    ensures g.Valid() && existing2 == StoredUrls(g.nodes)
    ensures Looped(b, nodes0, edges0, next0, maxNewNodes, g.nodes, g.edges, g.nextId, i + 1, nodesAdded2, newIds2, origin2, edgesAdded2)
  {
    ghost var nodesB, edgesB, nextB := g.nodes, g.edges, g.nextId;
    existing2, nodesAdded2, edgesAdded2, newIds2, origin2 := existing, nodesAdded, edgesAdded, newIds, origin;
    var inserted, counted := HandleLink(g, b, i, existing);
    if inserted.Some? {
      UrlsInsert(nodesB, nextB, DiscoveredNode(b, i));
      newIds2 := newIds + [inserted.value];
      origin2 := origin + [i];
      existing2 := existing + {b.links[i]};
      nodesAdded2 := nodesAdded + 1;
    }
    if counted {
      edgesAdded2 := edgesAdded + 1;
    }
    LoopedStep(b, nodes0, edges0, next0, maxNewNodes, nodesB, edgesB, nextB, i, nodesAdded, newIds, origin, edgesAdded,
      g.nodes, g.edges, g.nextId, nodesAdded2, newIds2, origin2, edgesAdded2);
  }

  /** The loop over the page's links.  The growth cap is checked before each
      link.  A stored URL only gains the edge from the source, counted when
      the row is new; an unstored URL is skipped by the external-only filter
      or inserted with an edge from the source, counted unconditionally.
      `origin[k]` is the index in `links` of the k-th new node's URL, and
      `processed` is the number of links looked at. */
  method ExpandLinks(g: GraphStore, b: Batch, maxNewNodes: int)
    returns (nodesAdded: int, edgesAdded: int, newIds: seq<NodeId>, ghost origin: seq<nat>, ghost processed: nat)
    requires g.Valid()
    modifies g
    ensures g.Valid()
    ensures Looped(b, old(g.nodes), old(g.edges), old(g.nextId), maxNewNodes, g.nodes, g.edges, g.nextId,
      processed, nodesAdded, newIds, origin, edgesAdded)
    ensures processed < |b.links| ==> nodesAdded >= maxNewNodes
  {
    ghost var nodes0, edges0, next0 := g.nodes, g.edges, g.nextId;
    nodesAdded, edgesAdded, newIds, origin := 0, 0, [], [];
    var existing := StoredUrls(g.nodes);
    LoopedStart(b, nodes0, edges0, next0, maxNewNodes);
    var i := 0;
    while i < |b.links|
      invariant i <= |b.links|
      invariant g.Valid()
      invariant existing == StoredUrls(g.nodes)
      invariant Looped(b, nodes0, edges0, next0, maxNewNodes, g.nodes, g.edges, g.nextId, i, nodesAdded, newIds, origin, edgesAdded)
    {
      if nodesAdded >= maxNewNodes {
        break;
      }
      existing, nodesAdded, edgesAdded, newIds, origin :=
        ExpandOne(g, b, i, existing, maxNewNodes, nodes0, edges0, next0, nodesAdded, edgesAdded, newIds, origin);
      i := i + 1;
    }
    processed := i;
  }

  /** The outcome of the loop over the links, for some links looked at in
      order: `Looped` up to where the loop stopped, which is the end of the
      links unless the cap was reached. */
  ghost predicate Discovered(
    b: Batch, nodes0: map<NodeId, Node>, edges0: set<Edge>, next0: NodeId, maxNewNodes: int,
    nodes: map<NodeId, Node>, edges: set<Edge>, nextId: NodeId,
    nodesAdded: int, newIds: seq<NodeId>, edgesAdded: int)
  {
    exists origin: seq<nat>, processed: nat ::
      && Looped(b, nodes0, edges0, next0, maxNewNodes, nodes, edges, nextId, processed, nodesAdded, newIds, origin, edgesAdded)
      && (processed < |b.links| ==> nodesAdded >= maxNewNodes)
  }

  lemma LoopedDiscovered(
    b: Batch, nodes0: map<NodeId, Node>, edges0: set<Edge>, next0: NodeId, maxNewNodes: int,
    nodes: map<NodeId, Node>, edges: set<Edge>, nextId: NodeId,
    processed: nat, nodesAdded: int, newIds: seq<NodeId>, origin: seq<nat>, edgesAdded: int)
    requires Looped(b, nodes0, edges0, next0, maxNewNodes, nodes, edges, nextId, processed, nodesAdded, newIds, origin, edgesAdded)
    requires processed < |b.links| ==> nodesAdded >= maxNewNodes
    ensures Discovered(b, nodes0, edges0, next0, maxNewNodes, nodes, edges, nextId, nodesAdded, newIds, edgesAdded)
    ensures Expanded(b, nodes0, edges0, next0, nodes, edges, nextId, processed, newIds, origin, edgesAdded)
    ensures nodesAdded == |newIds| && nextId == next0 + nodesAdded
    ensures maxNewNodes <= 0 ==> nodesAdded == 0 && edgesAdded == 0 && nodes == nodes0 && edges == edges0
    ensures maxNewNodes > 0 ==> nodesAdded <= maxNewNodes
  {
  }

  /** `discover_links_from_node(node_id, max_new_nodes, external_only)`, with
      `outcome` the fetch of the source's URL. */
  method DiscoverLinksFromNode(
    g: GraphStore, nodeId: NodeId, maxNewNodes: int, externalOnly: bool,
    outcome: FetchOutcome, now: int, placement: nat -> Position)
    returns (r: Result<DiscoveryResult>)
    requires g.Valid()
    modifies g
    ensures g.Valid()
    ensures nodeId !in old(g.nodes) ==>
      r == Err(SourceNotFound) && g.nodes == old(g.nodes) && g.edges == old(g.edges) && g.nextId == old(g.nextId)
    ensures nodeId in old(g.nodes) && MetadataWithLinks(outcome).Err? ==>
      && r == Err(MetadataWithLinks(outcome).message)
      && g.nodes == old(g.nodes)[nodeId := old(g.nodes)[nodeId].(isAlive := false, lastCrawled := Some(now))]
      && g.edges == old(g.edges) && g.nextId == old(g.nextId)
    ensures nodeId in old(g.nodes) && MetadataWithLinks(outcome).Ok? ==>
      var m := MetadataWithLinks(outcome).value;
      var b := Batch(nodeId, HostOr(old(g.nodes)[nodeId].url, ""), externalOnly, m.links, now, placement);
      var refreshed := old(g.nodes)[nodeId := Coalesce(old(g.nodes)[nodeId], m.title, m.favicon, m.isAlive, now)];
      && r.Ok?
      && r.value.sourceNodeId == nodeId
      && r.value.linksFound == |m.links|
      && r.value.nodesAdded == |r.value.newNodeIds|
      && (maxNewNodes <= 0 ==>
            r.value.nodesAdded == 0 && r.value.edgesAdded == 0 && g.nodes == refreshed && g.edges == old(g.edges))
      && (maxNewNodes > 0 ==> r.value.nodesAdded <= maxNewNodes)
      && Discovered(b, refreshed, old(g.edges), old(g.nextId), maxNewNodes, g.nodes, g.edges, g.nextId,
           r.value.nodesAdded, r.value.newNodeIds, r.value.edgesAdded)
    ensures EdgesClosed(old(g.nodes), old(g.edges)) ==> EdgesClosed(g.nodes, g.edges)
  {
    if nodeId !in g.nodes {
      return Err(SourceNotFound);
    }
    var sourceUrl := g.nodes[nodeId].url;
    var sourceHost := HostOr(sourceUrl, "");
    var fetched := FetchPageMetadataWithLinks(outcome);
    if fetched.Err? {
      g.UpdateMetadata(nodeId, None, None, false, now);
      return Err(fetched.message);
    }
    var m := fetched.value;
    ghost var edges0 := g.edges;
    g.UpdateMetadata(nodeId, m.title, m.favicon, m.isAlive, now);
    ghost var nodes1, next0 := g.nodes, g.nextId;
    var b := Batch(nodeId, sourceHost, externalOnly, m.links, now, placement);
    var nodesAdded, edgesAdded, newIds, origin, processed := ExpandLinks(g, b, maxNewNodes);
    LoopedDiscovered(b, nodes1, edges0, next0, maxNewNodes, g.nodes, g.edges, g.nextId,
      processed, nodesAdded, newIds, origin, edgesAdded);
    r := Ok(DiscoveryResult(nodeId, |m.links|, nodesAdded, edgesAdded, newIds));
    if EdgesClosed(old(g.nodes), edges0) {
      ExpandedKeepsClosed(b, nodes1, edges0, next0, g.nodes, g.edges, g.nextId, processed, newIds, origin, edgesAdded);
    }
  }

  /** The loop keeps every edge between stored nodes. */
  lemma ExpandedKeepsClosed(
    b: Batch, nodes0: map<NodeId, Node>, edges0: set<Edge>, next0: NodeId,
    nodes: map<NodeId, Node>, edges: set<Edge>, nextId: NodeId,
    i: nat, newIds: seq<NodeId>, origin: seq<nat>, edgesAdded: int)
    requires EdgesClosed(nodes0, edges0) && b.source in nodes0
    requires Expanded(b, nodes0, edges0, next0, nodes, edges, nextId, i, newIds, origin, edgesAdded)
    ensures EdgesClosed(nodes, edges)
  {
    forall e | e in edges
      ensures e.0 in nodes && e.1 in nodes
    {
      assert forall id :: id in nodes0 ==> id in nodes;
      if e in edges0 {
        assert e.0 in nodes0 && e.1 in nodes0;
      } else {
        assert e.0 == b.source && e.1 in nodes;
      }
    }
  }
}
