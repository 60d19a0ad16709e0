# void-browser graph engine — a Dafny model

void-browser shows a 3-D graph of web pages: nodes are pages (URL, title,
favicon, screenshot, position, liveness, crawl time) and edges are links
between them. This project models the graph engine behind the app's Tauri
commands. That engine covers:

- the SQLite store with its unique URLs and unique (source, target) edges;
- extraction of title, favicon and links from a fetched page;
- the staleness scheduler of the auto-crawler;
- the single-node crawl;
- discovery, which grows the graph from a node's outbound links;
- the two reconciling imports: `merge_sessions` (case-insensitive, one URL
  index shared by all sessions) and `import_crawler_db` (exact URLs,
  crawler string ids).

Modules, one file each:

| file | module | contents |
|---|---|---|
| `types.dfy` | `Types` | `Option`, `Result` with the error message the UI receives |
| `strings.dfy` | `Strings` | `trim`, `trim_end_matches`, UTF-8 length, ASCII lower-casing |
| `urls.dfy` | `Urls` | a concrete stand-in for `url::Url::parse` / `to_string` with a proved round trip |
| `fetcher.dfy` | `Fetcher` | what both fetchers do with a response: title, favicon, links |
| `store.dfy` | `Store` | the `GraphStore` class (tables `nodes` and `edges`, the AUTOINCREMENT counter) and its SQL statements |
| `scheduler.dfy` | `Scheduler` | `get_next_crawl_target`, `get_auto_crawl_status`, `get_random_discovery_target` |
| `crawler.dfy` | `Crawler` | `crawl_single_node` |
| `discovery.dfy` | `Discovery` | `discover_links_from_node` |
| `reconcile.dfy` | `Reconcile` | the node and edge loops shared by merge and import |
| `merge.dfy` | `Merge` | `merge_sessions` |
| `crawler_import.dfy` | `CrawlerImport` | `import_crawler_db` |

State-changing commands are methods on `GraphStore`, or methods that take
one, with `modifies` clauses. Their loops are proved against specification
functions and predicates (`Links`, `Expanded`, `Reconciled`, `MappedEdges`,
`SessionKeys`). The properties of those specifications are proved as
lemmas.

Inputs that the code gets from outside are parameters:

- the HTTP response: `FetchOutcome`, either a transport error or the
  status, the final URL and the parsed document;
- the clock: `now`, an integer;
- the random placement of a discovered node: `placement`;
- the base64 encoder of thumbnails: `encode`;
- the databases being merged or imported: `SessionDb` and `CrawlerDb`. Each
  says where it fails (open, query prepare, row read) and otherwise which
  rows it yields.

Three facts about the code that the model relies on:

- **`is_alive`.** Every reader takes only the integer 1 as alive
  (`app/src-tauri/src/lib.rs:888`, `:1161`, `:1175`). So a crawler row's
  integer `is_alive` counts as alive exactly when it is 1, and a session
  row's liveness is "column equals 1".
- **`add_node_url` on a duplicate URL** returns 0: `INSERT OR IGNORE`
  changes nothing, and `last_insert_rowid()` on the command's fresh
  connection is 0 (`GraphStore.AddNode`).
- **Ties in the scheduler's orders.** The `ORDER BY` clauses leave rows
  with equal crawl times unordered; the model takes the one with the
  lower id.

Three inconsistencies in the code are stated rather than smoothed over:

- **URL matching.** `merge_sessions` matches lower-cased URLs, while
  `import_crawler_db` and discovery match exact URLs. This is the
  `foldCase` flag of `Reconcile`.
- **Edge counts.** `import_crawler_db` counts every edge insert that
  succeeds, including ignored duplicates (`Reconcile.AttemptsOverstateAdded`).
  `merge_sessions` counts rows actually added. Discovery's new-node branch
  counts its edge unconditionally, which equals the rows added only while
  every stored edge points at an id already handed out (`Discovery.Expanded`);
  in general its count is the new nodes plus the edges to previously stored
  targets that were new (`Discovery.EdgesCounted`).
- **Link base URL.** `fetch_page_metadata` resolves the favicon against the
  requested URL (`app/src-tauri/src/lib.rs:714`). The links fetcher resolves
  against the URL after redirects (`app/src-tauri/src/lib.rs:775`). The two
  agree only without a redirect (`Fetcher.FetchersAgreeWithoutRedirect`).

`app/src-tauri/src/auto_discovery_additions.rs` repeats the links fetcher
and the discovery logic of `app/src-tauri/src/lib.rs`; the table cites both.

## Model

| member | source | states |
|---|---|---|
| `Store.GraphStore.constructor` | app/src-tauri/src/lib.rs:534-556 | a new database has no nodes, no edges and ids starting at 1, and satisfies the store invariant (ids below the counter, unique URLs) |
| `Store.GraphStore.FindByUrl` | app/src-tauri/src/lib.rs:1082-1086 | lookup by exact URL finds nothing exactly when no stored node has that URL, and otherwise the one node that has it |
| `Store.GraphStore.InsertNode` | app/src-tauri/src/lib.rs:534-536 | `INSERT` fails on a URL already stored and changes nothing; otherwise the row is stored under the next AUTOINCREMENT id, URLs stay unique and edges are untouched |
| `Store.GraphStore.InsertOrIgnoreEdge` | app/src-tauri/src/lib.rs:547-553 | `INSERT OR IGNORE` into `edges`: the pair is in the edge set afterwards, and the rows-changed count is 1 exactly when it was new and 0 when `UNIQUE(source_id, target_id)` ignored it |
| `Store.GraphStore.UpdateMetadata` | app/src-tauri/src/lib.rs:915-928 | the coalescing update replaces the node's row by `Coalesce` of it; a missing id changes nothing |
| `Store.Coalesce` | app/src-tauri/src/lib.rs:916-921 | title and favicon are replaced only by a present value and kept otherwise; liveness and crawl time are always written; no other column changes |
| `Store.MarkDeadIsCoalesce` | app/src-tauri/src/lib.rs:940-941 | the "mark dead" update is the coalescing update with no title, no favicon and not alive |
| `Store.NewNode` | app/src-tauri/src/lib.rs:534-545 | a freshly inserted row has the given URL, title and position, is alive, was never crawled, and has no favicon or screenshot |
| `Store.GraphStore.AddNode` | app/src-tauri/src/export_import_additions.rs:74-120 | `add_node_url` / `add_node_with_position`: a URL already stored leaves the graph unchanged and yields id 0; a new URL is stored under the next id as a fresh node |
| `Store.GraphStore.AddEdge` | app/src-tauri/src/export_import_additions.rs:123-135 | the edge set afterwards is the old one plus the pair, so a repeated pair leaves one edge; nodes are untouched |
| `Store.EdgeInsertIdempotent` | app/src-tauri/src/export_import_additions.rs:129-132 | inserting the same edge twice is inserting it once |
| `Store.GraphStore.DeleteCascade` | app/src-tauri/src/export_import_additions.rs:138-153 | `delete_node` removes exactly the edges touching the id (either end) and the node; the id counter is untouched |
| `Store.EdgesWithout` | app/src-tauri/src/export_import_additions.rs:145-147 | an edge survives exactly when neither end is the deleted id |
| `Store.DeleteIdempotent` | app/src-tauri/src/export_import_additions.rs:145-150 | a second `delete_node` of the same id changes nothing |
| `Store.DeleteKeepsEdgesClosed` | app/src-tauri/src/export_import_additions.rs:145-150 | deleting edges before the node keeps every edge between stored nodes |
| `Store.GraphStore.ResetCrawlTimes` | app/src-tauri/src/lib.rs:995-1011 | every crawl time becomes null, nothing else changes, and the count returned is the number of nodes |
| `Store.ClearCrawlTimes` | app/src-tauri/src/lib.rs:1005-1006 | the same ids, each row with only its crawl time cleared |
| `Store.ClearCrawlTimesIdempotent` | app/src-tauri/src/lib.rs:1005-1006 | resetting twice is resetting once, and the stored URLs stay the same |
| `Store.IndexByKey` | app/src-tauri/src/lib.rs:227-239 | the loop over `SELECT id, url` builds a map covering exactly the keys of the stored URLs, each mapped to a node with that key (exact URLs for the import) |
| `Store.IndexKeys` | app/src-tauri/src/export_import_additions.rs:216-228 | a URL index covers exactly the keys of the stored URLs (lower-cased for the merge) |
| `Store.NotIndexedNotStored` | app/src-tauri/src/export_import_additions.rs:268-280 | a key missing from the index belongs to no stored URL, so the insert that follows cannot hit the `UNIQUE(url)` constraint |
| `Store.NothingNew` | app/src-tauri/src/export_import_additions.rs:268-274 | when every key read was already stored, no node was added and the nodes are as before |
| `Scheduler.StaleIds` | app/src-tauri/src/lib.rs:867-868 | a node is a crawl candidate exactly when it was never crawled or, for a `stale_days` of 0 or more, was crawled more than `stale_days` days before now |
| `Scheduler.NegativeStaleDaysNeverCrawled` | app/src-tauri/src/lib.rs:864-874 | with a negative `stale_days` the date modifier is invalid, the cutoff is null, and the due nodes are exactly the never-crawled ones |
| `Scheduler.CrawlsFirstTotalOrder` | app/src-tauri/src/lib.rs:869-871 | the crawl order (never-crawled first, then oldest crawl, then lower id) is total, transitive and antisymmetric |
| `Scheduler.FirstExists` | app/src-tauri/src/lib.rs:869-872 | every non-empty set of nodes has a first node in crawl order, so `LIMIT 1` has a row to return |
| `Scheduler.FirstDue` | app/src-tauri/src/lib.rs:862-876 | the row `ORDER BY ... LIMIT 1` selects: none exactly when no node is due, otherwise the due node that comes first among all due nodes in crawl order |
| `Scheduler.FirstDueUnique` | app/src-tauri/src/lib.rs:869-872 | two nodes that both come first among the due nodes are the same node |
| `Scheduler.NextCrawlTarget` | app/src-tauri/src/lib.rs:854-895 | `get_next_crawl_target` returns the first due node when its title decodes; it returns none exactly when no node is due or the first due node has a null title, since `.ok()` turns the failed decode of `title` into none |
| `Scheduler.NullTitleStallsCrawl` | app/src-tauri/src/lib.rs:878-892 | when the first due node has a null title, the pending count is positive and there is still no crawl target |
| `Scheduler.NullTitleStallExample` | app/src-tauri/src/lib.rs:878-892 | one never-crawled node with a null title: one node pending, no crawl target |
| `Scheduler.PendingCount` | app/src-tauri/src/lib.rs:969-979 | the pending count uses the same staleness test and is at most the node count; it is 0 exactly when `LIMIT 1` selects no row; it is positive whenever there is a crawl target, and positive with no crawl target only when the first due node has a null title |
| `Scheduler.LatestExists` | app/src-tauri/src/lib.rs:981-985 | every non-empty set of crawled nodes has a most recently crawled one |
| `Scheduler.LastCrawled` | app/src-tauri/src/lib.rs:981-985 | none exactly when no node was ever crawled; otherwise a crawled node whose crawl is no older than any other |
| `Scheduler.Status` | app/src-tauri/src/lib.rs:957-990 | `get_auto_crawl_status`: the pending count, and the last crawled id and URL, present together and belonging to the same stored node |
| `Scheduler.ResetMakesAllDue` | app/src-tauri/src/lib.rs:1005-1010 | after the reset every node is due, the pending count is the node count, and no node counts as last crawled |
| `Scheduler.CrawledNodeNotDue` | app/src-tauri/src/lib.rs:916-920 | a node just crawled is not due again before `stale_days` days have passed |
| `Scheduler.RandomDiscoveryTarget` | app/src-tauri/src/lib.rs:1148-1183 | `get_random_discovery_target`: none when no node is alive; a returned node is alive and its title decodes; none with a live node only when some live node has a null title; some node whenever live nodes exist and all have titles |
| `Fetcher.ExtractTitle` | app/src-tauri/src/lib.rs:769-773 | the title is absent exactly when there is no `<title>` or its text is all white space; a present title is non-empty and trimmed at both ends |
| `Fetcher.NormalizeHref` | app/src-tauri/src/lib.rs:812-822 | an href is dropped exactly when it is a fragment, `javascript:` or `mailto:` link not starting with `/` or `http`; any other is resolved by the favicon's prefix rules |
| `Fetcher.CleanLink` | app/src-tauri/src/lib.rs:824-827 | a kept link starts with `http://` or `https://`, has no `#` and does not end in `/` |
| `Fetcher.CleanLinkShape` | app/src-tauri/src/auto_discovery_additions.rs:95-99 | any text starting with `http://` or `https://` that parses, once its fragment is dropped and its trailing slashes are trimmed, is a clean link |
| `Fetcher.LinkFor` | app/src-tauri/src/lib.rs:811-827 | every link an anchor contributes is clean |
| `Fetcher.Push` | app/src-tauri/src/lib.rs:828-830 | a link is appended only when it is not already listed and is shorter than 500 UTF-8 bytes; earlier links stay as they were |
| `Fetcher.Links` | app/src-tauri/src/lib.rs:808-835 | every returned link is clean and under 500 bytes, and no link is listed twice |
| `Fetcher.LinksMembers` | app/src-tauri/src/auto_discovery_additions.rs:77-107 | a link is returned exactly when some anchor produces it and it is under 500 bytes |
| `Fetcher.LinksFirstOccurrenceOrder` | app/src-tauri/src/lib.rs:808-835 | links are listed in the order of their first occurrence in the document |
| `Fetcher.ExtractLinks` | app/src-tauri/src/lib.rs:808-835 | the loop that pushes into the `Vec` with a `contains` check computes exactly `Links` |
| `Fetcher.LinksIgnorePortAndPath` | app/src-tauri/src/lib.rs:775-776 | the links depend on the page URL only through its scheme and host, never its port or path |
| `Fetcher.WinningRel` | app/src-tauri/src/lib.rs:787-804 | the selector that wins is the first whose first element carries an `href`; none before it does |
| `Fetcher.Favicon` | app/src-tauri/src/lib.rs:778-806 | the first of `icon`, `shortcut icon`, `apple-touch-icon` whose first element has an `href` gives the favicon by the prefix rules; without one it is `scheme://host/favicon.ico` |
| `Fetcher.FetchPageMetadata` | app/src-tauri/src/lib.rs:692-748 | a transport error is an `Err` with its message; a non-success status is `Ok` with nothing and not alive; an `Ok` page is alive exactly when it has a favicon, and has no title when it is not alive |
| `Fetcher.MetadataWithLinks` | app/src-tauri/src/auto_discovery_additions.rs:16-110 | the same outcomes as the plain fetcher; links come only from a live page, and each is clean, under 500 bytes and listed once |
| `Fetcher.FetchPageMetadataWithLinks` | app/src-tauri/src/lib.rs:751-838 | the command's body computes exactly `MetadataWithLinks` of the response |
| `Fetcher.FetchersAgreeWithoutRedirect` | app/src-tauri/src/lib.rs:714-715 | without a redirect both fetchers agree on success, title, favicon and liveness |
| `Urls.ParseInverse` | app/src-tauri/src/lib.rs:825-827 | every URL the parser accepts is well formed and serialises back to the parsed text |
| `Urls.SerializeInverse` | app/src-tauri/src/lib.rs:825-827 | parsing a serialised well-formed URL gives it back |
| `Urls.ParseHierarchyInverse` | app/src-tauri/src/lib.rs:825 | a parsed URL keeps its scheme, its parts are in order, and its authority has a non-empty host |
| `Strings.Trim` | app/src-tauri/src/lib.rs:772-773 | trimming gives an empty text exactly when the text is all white space; otherwise neither end is white space |
| `Strings.TrimEndChar` | app/src-tauri/src/lib.rs:827 | `trim_end_matches('/')` removes every trailing `/` and nothing else |
| `Strings.AsciiLowerIdempotent` | app/src-tauri/src/export_import_additions.rs:222-228 | lower-casing a key that is already lower-case changes nothing |
| `Crawler.Report` | app/src-tauri/src/lib.rs:930-950 | the reported result carries the error exactly when the fetch failed, and then reports no title, no favicon and not alive |
| `Crawler.CrawlSingleNode` | app/src-tauri/src/lib.rs:898-953 | an unknown id is an error and changes nothing; otherwise the node's row becomes the coalescing update with the fetch's title, favicon and liveness at `now`, and the result is `Ok` |
| `Crawler.CrawlAliveIff` | app/src-tauri/src/lib.rs:913-937 | a crawl reports the page alive exactly when the server answered with a success status and the page URL parses |
| `Crawler.TransportFailureMarksDead` | app/src-tauri/src/lib.rs:938-951 | a transport failure is an `Ok` result carrying the error, and the stored node becomes dead with its crawl time stamped |
| `Crawler.CrawlKeepsKnownMetadata` | app/src-tauri/src/lib.rs:916-919 | a crawl never loses a known title or favicon; they are only replaced by fetched values |
| `Discovery.DiscoveredNode` | app/src-tauri/src/lib.rs:1113-1122 | a discovered node is stored under its link's URL, titled by the link's host or `Unknown`, and alive |
| `Discovery.ExpandedStep` | app/src-tauri/src/lib.rs:1082-1135 | one link: a stored URL only gains the edge from the source, counted when the row is new; an unstored URL is skipped by the external-only filter, or stored under the next id with an edge from the source, counted unconditionally; the edge set and the count keep `EdgesCounted`, and below the cap every link looked at was reached with fewer new nodes than the cap |
| `Discovery.CountedStep` | app/src-tauri/src/lib.rs:1082-1135 | one link keeps the edge set equal to the old edges plus an edge from the source to the stored target of every link looked at, and `edges_added` equal to the new nodes plus the edges to previously stored targets that were not already edges |
| `Discovery.CountedExisting` | app/src-tauri/src/lib.rs:1082-1098 | a stored link's edge is counted exactly when it is new to the store; a target stored before the loop and linked twice is counted once, and a target the loop itself added was counted when it was added |
| `Discovery.NewLinkEdges` | app/src-tauri/src/lib.rs:1113-1135 | storing a new link's URL under the next id adds exactly the edge from the source to that id to the edges of the links looked at |
| `Discovery.CapStep` | app/src-tauri/src/lib.rs:1077-1080 | the cap is checked before each link: a link is looked at only when fewer new nodes than the cap came from the links before it |
| `Discovery.AddedBeforeAll` | app/src-tauri/src/lib.rs:1077-1080 | when every new node came from a link before `j`, the count of new nodes from links before `j` is all of them |
| `Discovery.HandleLink` | app/src-tauri/src/auto_discovery_additions.rs:202-261 | the body of the link loop does exactly the three cases of `ExpandedStep` to the store |
| `Discovery.ExpandLinks` | app/src-tauri/src/lib.rs:1077-1136 | the loop ends with every visited link handled, the new ids consecutive from the old counter in link order, `nodes_added` equal to their number, at most the cap when any link was visited, nothing processed when the cap is 0 or less, and stopped early only when the cap is reached; every link it looked at was reached with fewer new nodes than the cap; the edges are the old ones plus one from the source to the stored target of each link looked at, and `edges_added` is the number of new nodes plus the number of edges to previously stored targets that were not edges before |
| `Discovery.LoopedDiscovered` | app/src-tauri/src/lib.rs:1077-1136 | the loop's account, with the links looked at left unnamed, still gives the new-node count, the cap bounds and an unchanged graph when the cap is 0 or less |
| `Discovery.DiscoverLinksFromNode` | app/src-tauri/src/lib.rs:1014-1145 | unknown source: error, nothing changes; fetch error: the source is marked dead and stamped, and the error is returned with no node or edge added; otherwise the source row is refreshed, `links_found` is the link count, and the loop's guarantees (`Discovered`: those of `ExpandLinks` for the links it looked at) hold; edges between stored nodes stay between stored nodes |
| `Discovery.ExpandedKeepsClosed` | app/src-tauri/src/auto_discovery_additions.rs:181-262 | the link loop only adds edges from the source to stored nodes |
| `Reconcile.RowKeysMembers` | app/src-tauri/src/export_import_additions.rs:268-287 | the keys a batch of rows adds are exactly the keys of its URLs |
| `Reconcile.IdMapKeys` | app/src-tauri/src/export_import_additions.rs:237-287 | the old-id map covers exactly the old ids of the rows read |
| `Reconcile.IdMapLast` | app/src-tauri/src/export_import_additions.rs:270-285 | an old id maps to the node indexed for the URL of the last row carrying it |
| `Reconcile.IdMapGrow` | app/src-tauri/src/export_import_additions.rs:216-228 | the shared index only gains keys, so a session's id map does not change when later sessions add keys |
| `Reconcile.ReconciledStep` | app/src-tauri/src/export_import_additions.rs:268-287 | one row: an indexed key is skipped and maps to the indexed node; a new key is stored under the next id, indexed, mapped and counted |
| `Reconcile.ReconcileNodes` | app/src-tauri/src/lib.rs:259-291 | the node loop leaves the index exact over the old and new keys; new ids are consecutive, each a copy of one row whose key was not indexed; in id order the new nodes are `NewRows`: the first row of each key not indexed before, in row order; inserted plus skipped is the row count; edges are untouched |
| `Reconcile.NewRowsOrigin` | app/src-tauri/src/export_import_additions.rs:268-280 | `NewRows` lists, in increasing row order, exactly the rows whose key was not indexed and does not occur in an earlier row: later rows with the same key are skipped |
| `Reconcile.FirstNewCopied` | app/src-tauri/src/export_import_additions.rs:268-280 | the first row with a key not indexed is always inserted: its node is among `NewRows` |
| `Reconcile.InsertedInOrderStep` | app/src-tauri/src/export_import_additions.rs:268-280 | one row keeps the new nodes equal, id by id from the old counter, to `NewRows` of the rows read so far |
| `Reconcile.MappedEdgesMembers` | app/src-tauri/src/export_import_additions.rs:306-317 | an edge is inserted exactly when some edge row has both ends mapped to its two ends |
| `Reconcile.MappedCountBound` | app/src-tauri/src/lib.rs:304-317 | the edges added never outnumber the edge rows with both ends mapped |
| `Reconcile.InsertMappedEdges` | app/src-tauri/src/export_import_additions.rs:296-317 | the edge loop adds exactly the mapped edges, counts the rows it changed, counts the inserts it attempted, and leaves the nodes untouched |
| `Reconcile.AddedAtMostAttempted` | app/src-tauri/src/lib.rs:313-314 | rows added never exceed inserts attempted |
| `Reconcile.AttemptsOverstateAdded` | app/src-tauri/src/lib.rs:313-314 | the same mapped edge row twice is two successful inserts but one row: the import's edge count can exceed the edges added |
| `Merge.MergedCount` | app/src-tauri/src/export_import_additions.rs:291-320 | the number of sessions merged is at most the number of sessions given |
| `Merge.MergedCountIff` | app/src-tauri/src/export_import_additions.rs:291-294 | a session counts exactly when it opens and prepares both queries |
| `Merge.MergedStep` | app/src-tauri/src/export_import_additions.rs:229-321 | one session folded in keeps the merge's account of keys, counts, node growth and edges |
| `Merge.MergedCopies` | app/src-tauri/src/export_import_additions.rs:276-287 | every node a session adds copies one of its rows verbatim, with a fresh creation time, under a lower-cased URL not indexed before |
| `Merge.MergeSession` | app/src-tauri/src/export_import_additions.rs:230-318 | a session that fails to open or prepare its node query changes nothing; otherwise its rows are reconciled through the shared index, and when its edge query prepared, its mapped edges are inserted |
| `Merge.MergeSessions` | app/src-tauri/src/export_import_additions.rs:202-324 | the stored keys become the old ones plus every session row's key; `nodes_merged` is the number of new keys; merged plus skipped is the row count; `sessions_merged` counts the sessions that opened and prepared both queries; `edges_merged` is the edges actually added; merging rows already stored adds no node; the nodes added are, id by id from the old counter, `MergedNodes`: the verbatim copies, in session and row order, of the first row of each key not stored before |
| `Merge.MergedNodesFrom` | app/src-tauri/src/export_import_additions.rs:268-287 | every node of `MergedNodes` is the verbatim copy (with a fresh creation time) of the first row of its lower-cased key in a session, a key not stored before and not in an earlier session |
| `Merge.MergedPrefix` | app/src-tauri/src/export_import_additions.rs:229-321 | the nodes the first `i` sessions add are, in order, the start of those the first `j` add when `i <= j`: a later session only appends |
| `Merge.MergedNodesCover` | app/src-tauri/src/export_import_additions.rs:268-287 | the copy of every such first row is among `MergedNodes` |
| `Merge.MergedInOrderStep` | app/src-tauri/src/export_import_additions.rs:229-321 | one session folded in appends its new rows to the merged nodes, placed under the ids that follow |
| `CrawlerImport.ImportedNode` | app/src-tauri/src/lib.rs:268-285 | the stored row copies URL, favicon and position, defaults the title to `Untitled`, turns a thumbnail into a PNG data URL, is alive exactly when `is_alive` is 1, and is stamped crawled and created now |
| `CrawlerImport.ReadCount` | app/src-tauri/src/lib.rs:259-261 | the rows read are those before the first row that fails to read |
| `CrawlerImport.QueryErrorIff` | app/src-tauri/src/lib.rs:241-261 | a query stops with an error exactly when it does not prepare or one of its rows fails, and then with that error |
| `CrawlerImport.ImportErrorIff` | app/src-tauri/src/lib.rs:212-302 | the import succeeds exactly when the database opens and both queries prepare and read every row; then every row was read |
| `CrawlerImport.ImportedUrls` | app/src-tauri/src/lib.rs:262-287 | the URL keys the node loop adds are exactly the crawler URLs read |
| `CrawlerImport.ImportNodes` | app/src-tauri/src/lib.rs:225-291 | the node phase stores the old URLs plus the crawler URLs read, one new node per new URL, each a copy of a crawler row; the new nodes, in id order from the old counter, are the imported copies of the first row of each URL not stored before, in row order, and later rows with that URL are skipped; inserted plus skipped is the number of rows read; edges are untouched |
| `CrawlerImport.ImportedFirstRows` | app/src-tauri/src/lib.rs:262-287 | the rows the node phase inserts are, in increasing row order, exactly the first row of each crawler URL the store did not hold, each as its imported copy |
| `CrawlerImport.ImportedNothingNew` | app/src-tauri/src/lib.rs:262-266 | importing only URLs already stored changes no node |
| `CrawlerImport.ImportedKeys` | app/src-tauri/src/lib.rs:227-287 | the stored URLs afterwards are the old ones plus the crawler URLs read, and `nodes_imported` is the number of those that were new |
| `CrawlerImport.ImportedNewNode` | app/src-tauri/src/lib.rs:272-287 | a node the import adds has a URL the store did not hold, and is the imported copy of a crawler row |
| `CrawlerImport.ImportedIdMapKeys` | app/src-tauri/src/lib.rs:225-290 | the crawler-id map covers exactly the crawler ids read |
| `CrawlerImport.ImportedIdMapTargets` | app/src-tauri/src/lib.rs:262-290 | the last row carrying a crawler id maps it to the stored node with that row's URL |
| `CrawlerImport.ImportEdges` | app/src-tauri/src/lib.rs:293-319 | the edge phase adds exactly the crawler edges whose ends are both mapped, fails exactly when the import's error is set, and reports the inserts attempted as `edges_imported` |
| `CrawlerImport.ImportCrawlerDb` | app/src-tauri/src/lib.rs:212-320 | an open or node-prepare failure changes nothing; otherwise the node phase and then the edge phase run; the command fails exactly when a database step failed, with that message; the counts are those of the phases |

## Findings

| source | as written | input that shows it | evidently intended | confidence | as-written member | corrected member |
|---|---|---|---|---|---|---|
| app/src-tauri/src/lib.rs:878-892 | the first due row is decoded with a non-optional `title`; a null title fails the decode and `.ok()` returns none without trying another row | a never-crawled node with a null title, as `merge_sessions` copies from a session row without one: one node pending, no crawl target, and the auto-crawl never advances | while any node is due, return the first due node | likely; not executed | `Scheduler.NullTitleStallExample` | `Scheduler.FirstDue` |

## Left out

- HTTP and HTML: reqwest and scraper are replaced by the `FetchOutcome` input. A body-read failure counts as a transport error, and the document is reduced to its first `<title>` text, its `<link>` elements and its `<a href>` values in document order.
- URL parsing: `url::Url::parse` is a small concrete parser with a proved round trip. WHATWG normalisation (host lower-casing, default path `/`, percent-encoding, dot segments, user info, IPv6 hosts) is not modelled.
- Lower-casing: `to_lowercase` is modelled on ASCII letters only.
- Time: SQLite's `datetime('now')` and the comparison of its strings become the integer `now` in seconds. A negative `stale_days` writes the modifier as `--N days`, which SQLite's date functions reject with a null result; that rule is taken as given (`Scheduler.IsStale`), since SQLite is not part of this model.
- Randomness: the random choice of `get_random_discovery_target` is any live node, returned only when its title is not null. `generate_nearby_position` and the random positions of the add commands are the `placement` or `position` inputs. Positions are copied as they are; floating point is not modelled.
- Base64: thumbnails are encoded by the `encode` input; only the `data:image/png;base64,` prefix is modelled.
- Threads: `std::thread::spawn(...).join()` around the blocking fetch, and its panic error, are left out. Also left out is the race between two concurrent discovery calls that check and insert the same URL.
- App database failures: opening `void.db`, a missing `void.db` (the early returns of the scheduler commands), and failures of statements against the app database other than `UNIQUE(url)` are not modelled.
- Merge row reads: a row of a session's node or edge query that fails to read is skipped by the source. The model counts it neither merged nor skipped, and treats it as absent from the session's rows.
- Merge query failures: `query_map` on a prepared session statement failing aborts the whole merge in the source (`app/src-tauri/src/export_import_additions.rs:260`, `:298`); this is not modelled, and neither is a failure of the main store's URL query.
- Integer widths: the `i32` and `i64` counters and ids are unbounded integers; overflow is not modelled.
- Windows, file and process I/O are not modelled: window management, screenshot files, session files and markers, directory listings, session statistics, the `run_crawler` subprocess, and `export_file`.
- `app/src-tauri/src/lib_updated.rs` and `add_void.py` are not part of this model: the first only repeats I/O wrappers, the second rewrites a web page.
- `Scheduler.FirstDue`: ties between nodes with the same crawl time are broken by the lower id, which SQL leaves unspecified.
- `Scheduler.LastCrawled`: ties are broken by the lower id, which SQL leaves unspecified.
- `Scheduler.RandomDiscoveryTarget`: states only that the picked node is alive, not that the choice is uniform; so it does not say how likely a null-title pick is.
- `Fetcher.InvalidUrlError`: one fixed message stands for the error text of `url::Url::parse`, which differs by kind of error (empty host, relative URL without a base, and others).
- `Fetcher.Favicon`: a selector that fails to parse is not modelled, since all three are constant and valid.
