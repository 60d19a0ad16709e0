/** What `fetch_page_metadata` and `fetch_page_metadata_with_links` do with a
    fetched page: title, favicon and outbound links.  The HTTP request and the
    HTML parser are not modelled; their result is the input `FetchOutcome`. */
module Fetcher {
  import opened Types
  import opened Strings
  import opened Urls

  /** A `<link>` element: its `rel` attribute and its optional `href`. */
  datatype LinkTag = LinkTag(rel: string, href: Option<string>)

  /** What the HTML parser yields: the text of the first `<title>` (if any),
      the `<link>` elements and the `href` of every `<a href>`, in document order. */
  datatype Document = Document(titleText: Option<string>, linkTags: seq<LinkTag>, anchorHrefs: seq<string>)

  /** A transport failure (DNS, connect, timeout, body read), or a response
      with its status, its URL after redirects and its parsed body. */
  datatype FetchOutcome =
    | TransportError(message: string)
    | Received(status: int, finalUrl: string, document: Document)

  /** The tuple `(title, favicon, is_alive, links)`. */
  datatype PageMetadata = PageMetadata(title: Option<string>, favicon: Option<string>, isAlive: bool, links: seq<string>)

  /** Links of this many UTF-8 bytes or more are dropped. */
  const MaxLinkBytes := 500

  /** Stands for the message of the `url` crate's parse error for a page URL
      it cannot parse; the crate has one message per kind of error. */
  const InvalidUrlError := "invalid URL"

  /** The `<link rel=...>` values searched for a favicon, in priority order. */
  const IconRels: seq<string> := ["icon", "shortcut icon", "apple-touch-icon"]

  /** `StatusCode::is_success` */
  predicate IsSuccess(status: int)
  {
    200 <= status <= 299
  }

  /** The first `<title>`'s text, trimmed; an empty title counts as none. */
  function ExtractTitle(doc: Document): (r: Option<string>)
    ensures r.None? <==>
      (doc.titleText.None? || forall k :: 0 <= k < |doc.titleText.value| ==> IsWhitespace(doc.titleText.value[k]))
    ensures r.Some? ==> r.value != [] && !IsWhitespace(r.value[0]) && !IsWhitespace(r.value[|r.value| - 1])
  {
    match doc.titleText
    case None => None
    case Some(text) =>
      var t := Trim(text);
      if t == [] then None else Some(t)
  }

  /** `scheme://host`: the port and the path of the page URL are dropped. */
  function BaseOf(u: Url): string
  {
    u.scheme + "://" + HostOf(u.authority)
  }

  /** How a favicon `href` is made absolute. */
  function ResolveIcon(base: string, href: string): string
  {
    if StartsWith(href, "//") then "https:" + href
    else if StartsWith(href, "/") then base + href
    else if StartsWith(href, "http") then href
    else base + "/" + href
  }

  /** Anchors that point nowhere useful: fragments, scripts and mail addresses. */
  predicate IsDiscardedHref(href: string)
  {
    StartsWith(href, "#") || StartsWith(href, "javascript:") || StartsWith(href, "mailto:")
  }

  /** How an anchor `href` is made absolute.  It is the favicon rule, except
      that fragment, `javascript:` and `mailto:` targets are dropped. */
  function NormalizeHref(base: string, href: string): (r: Option<string>)
    ensures r.None? <==> !StartsWith(href, "/") && !StartsWith(href, "http") && IsDiscardedHref(href)
    ensures r.Some? ==> r.value == ResolveIcon(base, href)
  {
    if StartsWith(href, "//") then Some("https:" + href)
    else if StartsWith(href, "/") then Some(base + href)
    else if StartsWith(href, "http") then Some(href)
    else if !StartsWith(href, "#") && !StartsWith(href, "javascript:") && !StartsWith(href, "mailto:") then
      Some(base + "/" + href)
    else None
  }

  /** An absolute http(s) link without fragment and without trailing slash. */
  predicate IsCleanLink(s: string)
  {
    && (StartsWith(s, "http://") || StartsWith(s, "https://"))
    && (forall k :: 0 <= k < |s| ==> s[k] != '#')
    && s[|s| - 1] != '/'
  }

  /** Keeps http(s) URLs that parse, drops the fragment and every trailing `/`. */
  function CleanLink(normalized: string): (r: Option<string>)
    ensures r.Some? ==> IsCleanLink(r.value)
  {
    if !(StartsWith(normalized, "http://") || StartsWith(normalized, "https://")) then None
    else
      match Parse(normalized)
      case None => None
      case Some(u) =>
        CleanLinkShape(normalized, u);
        Some(TrimEndChar(Serialize(WithoutFragment(u)), '/'))
  }

  lemma CleanLinkShape(n: string, u: Url)
    requires StartsWith(n, "http://") || StartsWith(n, "https://")
    requires Parse(n) == Some(u)
    ensures IsCleanLink(TrimEndChar(Serialize(WithoutFragment(u)), '/'))
  {
    ParseInverse(n);
    HttpScheme(n, u);
    CleanHttpUrl(u);
  }

  lemma CleanHttpUrl(u: Url)
    requires WellFormed(u) && (u.scheme == "http" || u.scheme == "https")
    ensures IsCleanLink(TrimEndChar(Serialize(WithoutFragment(u)), '/'))
  {
    var p := Serialize(WithoutFragment(u));
    var prefix := u.scheme + "://";
    NoFragmentMark(u);
    assert p == prefix + (u.authority + u.rest);
    assert p[|prefix|] == u.authority[0];
    var r := TrimEndChar(p, '/');
    TrimKeepsPrefix(p, prefix, '/');
    assert forall k :: 0 <= k < |r| ==> r[k] == p[k];
    SchemePrefixClean(r, u.scheme);
  }

  /** A text that starts with `http://` or `https://`, has no `#` and does not end in `/` is a clean link. */
  lemma SchemePrefixClean(r: string, scheme: string)
    requires scheme == "http" || scheme == "https"
    requires |r| > |scheme + "://"| && r[..|scheme + "://"|] == scheme + "://"
    requires forall k :: 0 <= k < |r| ==> r[k] != '#'
    requires r[|r| - 1] != '/'
    ensures IsCleanLink(r)
  {
  }

  /** A parsed URL whose text starts with `http://` (`https://`) has scheme `http` (`https`). */
  lemma HttpScheme(n: string, u: Url)
    requires StartsWith(n, "http://") || StartsWith(n, "https://")
    requires Parse(n) == Some(u)
    ensures StartsWith(n, "http://") ==> u.scheme == "http"
    ensures StartsWith(n, "https://") ==> u.scheme == "https"
  {
    var i := IndexOfAny(n, SchemeEnd);
    SchemeParts(n, u, i);
    ParseHierarchyInverse(n[..i], n[i + 3..], u);
    if StartsWith(n, "http://") {
      HttpPrefix(n);
    }
    if StartsWith(n, "https://") {
      HttpsPrefix(n);
    }
  }

  /** The scheme of text starting with `http://` ends at index 4. */
  lemma HttpPrefix(n: string)
    requires StartsWith(n, "http://")
    ensures IndexOfAny(n, SchemeEnd) == 4 && n[..4] == "http"
  {
    assert n[..7] == "http://";
    assert n[0] == 'h' && n[1] == 't' && n[2] == 't' && n[3] == 'p' && n[4] == ':';
    SchemeEndsAt(n, 4);
  }

  /** The scheme of text starting with `https://` ends at index 5. */
  lemma HttpsPrefix(n: string)
    requires StartsWith(n, "https://")
    ensures IndexOfAny(n, SchemeEnd) == 5 && n[..5] == "https"
  {
    assert n[..8] == "https://";
    assert n[0] == 'h' && n[1] == 't' && n[2] == 't' && n[3] == 'p' && n[4] == 's' && n[5] == ':';
    SchemeEndsAt(n, 5);
  }

  lemma SchemeEndsAt(n: string, i: nat)
    requires i < |n| && n[i] == ':' && forall k :: 0 <= k < i ==> n[k] !in SchemeEnd
    ensures IndexOfAny(n, SchemeEnd) == i
  {
    assert n == n[..i] + n[i..];
    assert n[i..][0] == ':';
    IndexOfAnyAt(n[..i], n[i..], SchemeEnd);
  }



  /** Without its fragment, a well-formed URL serialises without any `#`. */
  lemma NoFragmentMark(u: Url)
    requires WellFormed(u)
    ensures forall k :: 0 <= k < |Serialize(WithoutFragment(u))| ==> Serialize(WithoutFragment(u))[k] != '#'
  {
    var p := Serialize(WithoutFragment(u));
    var m := |u.scheme| + 3;
    forall k | 0 <= k < |p|
      ensures p[k] != '#'
    {
      if k < |u.scheme| {
        assert p[k] == u.scheme[k];
      } else if k < m {
        assert p[k] == "://"[k - |u.scheme|];
      } else if k < m + |u.authority| {
        assert p[k] == u.authority[k - m];
      } else {
        assert p[k] == u.rest[k - m - |u.authority|];
      }
    }
  }

  /** Trimming trailing copies of `c` never reaches into a prefix that is followed by another character. */
  lemma TrimKeepsPrefix(p: string, prefix: string, c: char)
    requires |prefix| < |p| && p[..|prefix|] == prefix && p[|prefix|] != c
    ensures |TrimEndChar(p, c)| > |prefix|
    ensures TrimEndChar(p, c)[..|prefix|] == prefix
  {
    var r := TrimEndChar(p, c);
    assert r[..|prefix|] == p[..|prefix|];
  }

  /** The link an `<a href>` contributes, before de-duplication and the length limit. */
  function LinkFor(base: string, href: string): (r: Option<string>)
    ensures r.Some? ==> IsCleanLink(r.value)
  {
    match NormalizeHref(base, href)
    case None => None
    case Some(n) => CleanLink(n)
  }

  /** One step of link collection: `link` is appended unless it is absent,
      already present, or 500 bytes or longer. */
  function Push(prev: seq<string>, link: Option<string>): (r: seq<string>)
    ensures forall c :: c in r <==> c in prev || (link == Some(c) && Utf8Len(c) < MaxLinkBytes)
    ensures |prev| <= |r| <= |prev| + 1 && r[..|prev|] == prev
  {
    match link
    case None => prev
    case Some(c) => if c !in prev && Utf8Len(c) < MaxLinkBytes then prev + [c] else prev
  }

  /** The candidate links in document order, pushed one by one. */
  function Collect(candidates: seq<Option<string>>): (r: seq<string>)
    ensures forall c :: c in r ==> Some(c) in candidates
    ensures forall k :: 0 <= k < |r| ==> Utf8Len(r[k]) < MaxLinkBytes
    ensures forall a, b :: 0 <= a < b < |r| ==> r[a] != r[b]
    decreases |candidates|
  {
    if candidates == [] then []
    else
      var init := candidates[..|candidates| - 1];
      var r := Push(Collect(init), candidates[|candidates| - 1]);
      assert forall c :: Some(c) in init ==> Some(c) in candidates;
      r
  }

  /** The candidate link of each anchor. */
  function Candidates(base: string, hrefs: seq<string>): (r: seq<Option<string>>)
    ensures |r| == |hrefs| && forall k :: 0 <= k < |hrefs| ==> r[k] == LinkFor(base, hrefs[k])
  {
    seq(|hrefs|, k requires 0 <= k < |hrefs| => LinkFor(base, hrefs[k]))
  }

  /** The links of a page: every anchor's candidate, in document order, each
      kept once, none of 500 bytes or more. */
  function Links(base: string, hrefs: seq<string>): (r: seq<string>)
    ensures forall k :: 0 <= k < |r| ==> IsCleanLink(r[k]) && Utf8Len(r[k]) < MaxLinkBytes
    ensures forall a, b :: 0 <= a < b < |r| ==> r[a] != r[b]
  {
    var cands := Candidates(base, hrefs);
    var r := Collect(cands);
    assert forall k :: 0 <= k < |r| ==> exists j :: 0 <= j < |cands| && cands[j] == Some(r[k]);
    r
  }

  lemma CandidatesSnoc(base: string, hrefs: seq<string>, i: nat)
    requires i < |hrefs|
    ensures Collect(Candidates(base, hrefs[..i + 1])) == Push(Collect(Candidates(base, hrefs[..i])), LinkFor(base, hrefs[i]))
  {
    assert Candidates(base, hrefs[..i + 1]) == Candidates(base, hrefs[..i]) + [LinkFor(base, hrefs[i])];
    CollectSnoc(Candidates(base, hrefs[..i]), LinkFor(base, hrefs[i]));
  }

  lemma CollectSnoc(candidates: seq<Option<string>>, link: Option<string>)
    ensures Collect(candidates + [link]) == Push(Collect(candidates), link)
  {
    assert (candidates + [link])[..|candidates|] == candidates;
  }

  /** A link is collected exactly when it is a candidate and short enough. */
  lemma {:induction false} CollectMembers(candidates: seq<Option<string>>, c: string)
    ensures c in Collect(candidates) <==> Some(c) in candidates && Utf8Len(c) < MaxLinkBytes
    decreases |candidates|
  {
    if candidates != [] {
      var init := candidates[..|candidates| - 1];
      CollectMembers(init, c);
      assert candidates == init + [candidates[|candidates| - 1]];
    }
  }

  /** A link is returned exactly when some anchor produces it and it is short enough. */
  lemma LinksMembers(base: string, hrefs: seq<string>, c: string)
    ensures c in Links(base, hrefs) <==>
      exists j :: 0 <= j < |hrefs| && LinkFor(base, hrefs[j]) == Some(c) && Utf8Len(c) < MaxLinkBytes
  {
    var cands := Candidates(base, hrefs);
    CollectMembers(cands, c);
    if Some(c) in cands {
      var j :| 0 <= j < |cands| && cands[j] == Some(c);
      assert LinkFor(base, hrefs[j]) == Some(c);
    }
  }

  /** Collected links keep the order of their first occurrence. */
  lemma {:induction false} CollectOrder(candidates: seq<Option<string>>, a: nat, b: nat, j: nat)
    requires a < b < |Collect(candidates)|
    requires j < |candidates| && candidates[j] == Some(Collect(candidates)[b])
    ensures exists i :: 0 <= i < j && candidates[i] == Some(Collect(candidates)[a])
    decreases |candidates|
  {
    var r := Collect(candidates);
    var n := |candidates|;
    var init := candidates[..n - 1];
    var prev := Collect(init);
    assert forall k :: 0 <= k < |prev| ==> r[k] == prev[k];
    if b < |prev| {
      if j < n - 1 {
        CollectOrder(init, a, b, j);
      } else {
        assert Some(prev[b]) in init;
        var j0 :| 0 <= j0 < n - 1 && init[j0] == Some(prev[b]);
        CollectOrder(init, a, b, j0);
      }
    } else {
      // `r[b]` was appended by the last candidate and is no earlier one
      CollectMembers(init, r[b]);
      assert Some(prev[a]) in init;
      var i :| 0 <= i < n - 1 && init[i] == Some(prev[a]);
      assert j == n - 1;
    }
  }

  /** Links keep the order of their first occurrence: when link `a` is listed
      before link `b`, some anchor producing `a` precedes every anchor producing `b`. */
  lemma LinksFirstOccurrenceOrder(base: string, hrefs: seq<string>, a: nat, b: nat, j: nat)
    requires a < b < |Links(base, hrefs)|
    requires j < |hrefs| && LinkFor(base, hrefs[j]) == Some(Links(base, hrefs)[b])
    ensures exists i :: 0 <= i < j && LinkFor(base, hrefs[i]) == Some(Links(base, hrefs)[a])
  {
    var cands := Candidates(base, hrefs);
    CollectOrder(cands, a, b, j);
    var i :| 0 <= i < j && cands[i] == Some(Links(base, hrefs)[a]);
    assert LinkFor(base, hrefs[i]) == Some(Links(base, hrefs)[a]);
  }

  /** The link-collecting loop: pushes each cleaned link unless already present or too long. */
  method ExtractLinks(base: string, hrefs: seq<string>) returns (links: seq<string>)
    ensures links == Links(base, hrefs)
  {
    links := [];
    for i := 0 to |hrefs|
      invariant links == Collect(Candidates(base, hrefs[..i]))
    {
      CandidatesSnoc(base, hrefs, i);
      var href := hrefs[i];
      var normalized: string;
      if StartsWith(href, "//") {
        normalized := "https:" + href;
      } else if StartsWith(href, "/") {
        normalized := base + href;
      } else if StartsWith(href, "http") {
        normalized := href;
      } else if !StartsWith(href, "#") && !StartsWith(href, "javascript:") && !StartsWith(href, "mailto:") {
        normalized := base + "/" + href;
      } else {
        assert NormalizeHref(base, href).None?;
        continue;
      }
      assert NormalizeHref(base, href) == Some(normalized);
      if StartsWith(normalized, "http://") || StartsWith(normalized, "https://") {
        var parsed := Parse(normalized);
        if parsed.Some? {
          var cleanUrl := TrimEndChar(Serialize(WithoutFragment(parsed.value)), '/');
          assert LinkFor(base, href) == Some(cleanUrl);
          if cleanUrl !in links && Utf8Len(cleanUrl) < MaxLinkBytes {
            links := links + [cleanUrl];
          }
        }
      }
    }
    assert hrefs[..|hrefs|] == hrefs;
  }

  /** Index in `tags` of the first element whose `rel` is `rel`, or `|tags|`. */
  function FirstIndexWithRel(tags: seq<LinkTag>, rel: string): (i: nat)
    ensures i <= |tags|
    ensures forall k :: 0 <= k < i ==> tags[k].rel != rel
    ensures i < |tags| ==> tags[i].rel == rel
  {
    if tags == [] || tags[0].rel == rel then 0 else 1 + FirstIndexWithRel(tags[1..], rel)
  }

  /** `document.select("link[rel=...]").next()` */
  function FirstWithRel(tags: seq<LinkTag>, rel: string): Option<LinkTag>
  {
    var i := FirstIndexWithRel(tags, rel);
    if i < |tags| then Some(tags[i]) else None
  }

  predicate HasHref(t: Option<LinkTag>)
  {
    t.Some? && t.value.href.Some?
  }

  /** Index of the first `rel` whose first matching element carries an `href`,
      or `|rels|`: later kinds are consulted only when every earlier one failed. */
  function WinningRel(tags: seq<LinkTag>, rels: seq<string>): (k: nat)
    ensures k <= |rels|
    ensures forall j :: 0 <= j < k ==> !HasHref(FirstWithRel(tags, rels[j]))
    ensures k < |rels| ==> HasHref(FirstWithRel(tags, rels[k]))
  {
    if rels == [] || HasHref(FirstWithRel(tags, rels[0])) then 0
    else 1 + WinningRel(tags, rels[1..])
  }

  /** The favicon: the first `icon`, else `shortcut icon`, else `apple-touch-icon`
      href, resolved against `base`; without one, the guess `base/favicon.ico`. */
  function Favicon(base: string, tags: seq<LinkTag>): (r: string)
    ensures forall j ::
      (0 <= j < |IconRels| && HasHref(FirstWithRel(tags, IconRels[j])) &&
       forall i :: 0 <= i < j ==> !HasHref(FirstWithRel(tags, IconRels[i])))
      ==> r == ResolveIcon(base, FirstWithRel(tags, IconRels[j]).value.href.value)
    ensures (forall j :: 0 <= j < |IconRels| ==> !HasHref(FirstWithRel(tags, IconRels[j]))) ==>
      r == base + "/favicon.ico"
  {
    var k := WinningRel(tags, IconRels);
    if k < |IconRels| then ResolveIcon(base, FirstWithRel(tags, IconRels[k]).value.href.value)
    else base + "/favicon.ico"
  }

  /** `fetch_page_metadata(url)`: links are not collected, and the favicon is
      resolved against the requested URL. */
  function FetchPageMetadata(url: string, outcome: FetchOutcome): (r: Result<PageMetadata>)
    ensures outcome.TransportError? ==> r == Err(outcome.message)
    ensures outcome.Received? && !IsSuccess(outcome.status) ==> r == Ok(PageMetadata(None, None, false, []))
    ensures r.Ok? ==> r.value.links == [] && (r.value.isAlive <==> r.value.favicon.Some?)
    ensures r.Ok? && !r.value.isAlive ==> r.value.title.None?
  {
    match outcome
    case TransportError(e) => Err(e)
    case Received(status, _, doc) =>
      if !IsSuccess(status) then Ok(PageMetadata(None, None, false, []))
      else
        match Parse(url)
        case None => Err(InvalidUrlError)
        case Some(u) => Ok(PageMetadata(ExtractTitle(doc), Some(Favicon(BaseOf(u), doc.linkTags)), true, []))
  }

  /** `fetch_page_metadata_with_links(url)`: favicon and links are resolved
      against the URL reached after redirects. */
  function MetadataWithLinks(outcome: FetchOutcome): (r: Result<PageMetadata>)
    ensures outcome.TransportError? ==> r == Err(outcome.message)
    ensures outcome.Received? && !IsSuccess(outcome.status) ==> r == Ok(PageMetadata(None, None, false, []))
    ensures r.Ok? ==> (r.value.isAlive <==> r.value.favicon.Some?)
    ensures r.Ok? && !r.value.isAlive ==> r.value.title.None? && r.value.links == []
    ensures r.Ok? ==> forall k :: 0 <= k < |r.value.links| ==>
      IsCleanLink(r.value.links[k]) && Utf8Len(r.value.links[k]) < MaxLinkBytes
    ensures r.Ok? ==> forall a, b :: 0 <= a < b < |r.value.links| ==> r.value.links[a] != r.value.links[b]
  {
    match outcome
    case TransportError(e) => Err(e)
    case Received(status, finalUrl, doc) =>
      if !IsSuccess(status) then Ok(PageMetadata(None, None, false, []))
      else
        match Parse(finalUrl)
        case None => Err(InvalidUrlError)
        case Some(u) =>
          var base := BaseOf(u);
          Ok(PageMetadata(ExtractTitle(doc), Some(Favicon(base, doc.linkTags)), true, Links(base, doc.anchorHrefs)))
  }

  method FetchPageMetadataWithLinks(outcome: FetchOutcome) returns (r: Result<PageMetadata>)
    ensures r == MetadataWithLinks(outcome)
  {
    match outcome
    case TransportError(e) =>
      r := Err(e);
    case Received(status, finalUrl, doc) =>
      if !IsSuccess(status) {
        r := Ok(PageMetadata(None, None, false, []));
        return;
      }
      var parsed := Parse(finalUrl);
      if parsed.None? {
        r := Err(InvalidUrlError);
        return;
      }
      var base := BaseOf(parsed.value);
      var links := ExtractLinks(base, doc.anchorHrefs);
      r := Ok(PageMetadata(ExtractTitle(doc), Some(Favicon(base, doc.linkTags)), true, links));
  }

  /** Without a redirect the two fetchers agree on everything but the links.
      Both follow redirects (the plain one under the HTTP client's default
      policy, the other under a limit of five); they differ in the base URL
      of the favicon, which is the requested URL for the plain fetcher and
      the URL reached for the other. */
  lemma FetchersAgreeWithoutRedirect(url: string, outcome: FetchOutcome)
    requires outcome.Received? && outcome.finalUrl == url
    ensures FetchPageMetadata(url, outcome).Ok? == MetadataWithLinks(outcome).Ok?
    ensures FetchPageMetadata(url, outcome).Ok? ==>
      FetchPageMetadata(url, outcome).value == MetadataWithLinks(outcome).value.(links := [])
  {
  }

  /** Links depend on the page URL only through its scheme and host. */
  lemma LinksIgnorePortAndPath(u1: Url, u2: Url, hrefs: seq<string>)
    requires u1.scheme == u2.scheme && HostOf(u1.authority) == HostOf(u2.authority)
    ensures Links(BaseOf(u1), hrefs) == Links(BaseOf(u2), hrefs)
  {
  }
}
