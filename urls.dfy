/** The part of URL parsing the engine uses (`url::Url::parse`, `host_str`,
    `set_fragment(None)` and serialisation), for hierarchical URLs of the form
    `scheme://authority[/path][?query][#fragment]`.  The authority's host is
    everything before an optional `:port`.  Parsing and serialising are proved
    to be inverse to each other. */
module Urls {
  import opened Types
  import opened Strings

  datatype Url = Url(scheme: string, authority: string, rest: string, fragment: Option<string>)

  /** Characters that end the scheme, and those that end the authority. */
  const SchemeEnd: set<char> := {':', '/', '?', '#'}
  const AuthorityEnd: set<char> := {'/', '?', '#'}

  /** Index of the first character of `s` in `delims`, or `|s|` if there is none. */
  function IndexOfAny(s: string, delims: set<char>): (i: nat)
    ensures i <= |s|
    ensures forall k :: 0 <= k < i ==> s[k] !in delims
    ensures i < |s| ==> s[i] in delims
  {
    if s == [] || s[0] in delims then 0 else 1 + IndexOfAny(s[1..], delims)
  }

  /** The host of an authority: what precedes the port separator. */
  function HostOf(authority: string): string
  {
    authority[..IndexOfAny(authority, {':'})]
  }

  /** `url::Url::parse(s)`: `None` for a string that is not a hierarchical URL with a non-empty host. */
  function Parse(s: string): Option<Url>
  {
    var i := IndexOfAny(s, SchemeEnd);
    if i == 0 || !StartsWith(s[i..], "://") then None
    else ParseHierarchy(s[..i], s[i + 3..])
  }

  /** What follows `scheme://`: the authority up to the first `/`, `?` or `#`, then path, query and fragment. */
  function ParseHierarchy(scheme: string, after: string): Option<Url>
  {
    var j := IndexOfAny(after, AuthorityEnd);
    if HostOf(after[..j]) == [] then None
    else
      var (rest, fragment) := SplitFragment(after[j..]);
      Some(Url(scheme, after[..j], rest, fragment))
  }

  /** Splits at the first `#`. */
  function SplitFragment(tail: string): (string, Option<string>)
  {
    var k := IndexOfAny(tail, {'#'});
    if k < |tail| then (tail[..k], Some(tail[k + 1..])) else (tail, None)
  }

  function FragmentPart(fragment: Option<string>): string
  {
    match fragment
    case None => ""
    case Some(f) => "#" + f
  }

  /** `url.to_string()` */
  function Serialize(u: Url): string
  {
    u.scheme + "://" + u.authority + u.rest + FragmentPart(u.fragment)
  }

  /** The URLs `Parse` can produce. */
  ghost predicate WellFormed(u: Url)
  {
    && u.scheme != []
    && (forall k :: 0 <= k < |u.scheme| ==> u.scheme[k] !in SchemeEnd)
    && (forall k :: 0 <= k < |u.authority| ==> u.authority[k] !in AuthorityEnd)
    && HostOf(u.authority) != []
    && (forall k :: 0 <= k < |u.rest| ==> u.rest[k] != '#')
    && (u.rest == [] || u.rest[0] in {'/', '?'})
  }

  /** `url.set_fragment(None)` */
  function WithoutFragment(u: Url): Url
  {
    u.(fragment := None)
  }

  /** `Url::parse(s).ok().and_then(|u| u.host_str())` */
  function Host(s: string): Option<string>
  {
    match Parse(s)
    case None => None
    case Some(u) => Some(HostOf(u.authority))
  }

  /** `... .unwrap_or_default()` / `.unwrap_or_else(|| d)` on the host. */
  function HostOr(s: string, default: string): string
  {
    GetOr(Host(s), default)
  }

  lemma {:induction false} IndexOfAnyAt(a: string, b: string, delims: set<char>)
    requires forall k :: 0 <= k < |a| ==> a[k] !in delims
    requires b == [] || b[0] in delims
    ensures IndexOfAny(a + b, delims) == |a|
  {
    if a != [] {
      assert (a + b)[1..] == a[1..] + b;
      IndexOfAnyAt(a[1..], b, delims);
    }
  }

  lemma SplitFragmentInverse(tail: string)
    ensures var (rest, fragment) := SplitFragment(tail);
      && rest + FragmentPart(fragment) == tail
      && (forall k :: 0 <= k < |rest| ==> rest[k] != '#')
      && (rest != [] ==> rest[0] == tail[0])
  {
    var k := IndexOfAny(tail, {'#'});
    if k < |tail| {
      assert tail == tail[..k] + "#" + tail[k + 1..];
    }
  }

  lemma SplitFragmentOf(rest: string, fragment: Option<string>)
    requires forall k :: 0 <= k < |rest| ==> rest[k] != '#'
    ensures SplitFragment(rest + FragmentPart(fragment)) == (rest, fragment)
  {
    var tail := rest + FragmentPart(fragment);
    IndexOfAnyAt(rest, FragmentPart(fragment), {'#'});
    assert tail[..|rest|] == rest;
    if fragment.Some? {
      assert tail == rest + "#" + fragment.value;
      assert tail[|rest|] == '#';
      assert tail[|rest| + 1..] == fragment.value;
    } else {
      assert tail == rest;
    }
  }

  /** A URL parsed from what follows `scheme://` has its parts in order and
      meets the conditions of `WellFormed` on them. */
  lemma ParseHierarchyInverse(scheme: string, after: string, u: Url)
    requires ParseHierarchy(scheme, after) == Some(u)
    ensures u.scheme == scheme
    ensures u.authority + (u.rest + FragmentPart(u.fragment)) == after
    ensures forall k :: 0 <= k < |u.authority| ==> u.authority[k] !in AuthorityEnd
    ensures HostOf(u.authority) != []
    ensures forall k :: 0 <= k < |u.rest| ==> u.rest[k] != '#'
    ensures u.rest == [] || u.rest[0] in {'/', '?'}
  {
    var j := IndexOfAny(after, AuthorityEnd);
    var authority, tail := after[..j], after[j..];
    var split := SplitFragment(tail);
    assert u == Url(scheme, authority, split.0, split.1);
    AuthoritySplit(after, j, authority, tail);
    SplitFragmentInverse(tail);
    RestStart(tail, split.0);
  }

  /** The authority is the text before the first `/`, `?` or `#`, and what follows starts with one of them. */
  lemma AuthoritySplit(after: string, j: nat, authority: string, tail: string)
    requires j == IndexOfAny(after, AuthorityEnd) && authority == after[..j] && tail == after[j..]
    ensures after == authority + tail
    ensures forall k :: 0 <= k < |authority| ==> authority[k] !in AuthorityEnd
    ensures tail == [] || tail[0] in AuthorityEnd
  {
    assert forall k :: 0 <= k < j ==> authority[k] == after[k];
    if j < |after| {
      assert tail[0] == after[j];
    }
  }

  lemma RestStart(tail: string, rest: string)
    requires tail == [] || tail[0] in AuthorityEnd
    requires rest != [] ==> tail != [] && rest[0] == tail[0]
    requires forall k :: 0 <= k < |rest| ==> rest[k] != '#'
    ensures rest == [] || rest[0] in {'/', '?'}
  {
    if rest != [] {
      assert rest[0] != '#';
    }
  }

  lemma ParseHierarchyOf(u: Url)
    requires WellFormed(u)
    ensures ParseHierarchy(u.scheme, u.authority + u.rest + FragmentPart(u.fragment)) == Some(u)
  {
    var tail := u.rest + FragmentPart(u.fragment);
    assert u.authority + u.rest + FragmentPart(u.fragment) == u.authority + tail;
    TailStart(u.rest, u.fragment);
    HierarchyOfParts(u.scheme, u.authority, tail);
    SplitFragmentOf(u.rest, u.fragment);
  }

  /** What follows the authority of a well-formed URL starts with `/`, `?` or `#`. */
  lemma TailStart(rest: string, fragment: Option<string>)
    requires rest == [] || rest[0] in {'/', '?'}
    ensures var tail := rest + FragmentPart(fragment); tail == [] || tail[0] in AuthorityEnd
  {
    if rest == [] && fragment.Some? {
      assert (rest + FragmentPart(fragment))[0] == '#';
    }
  }

  /** An authority free of `/`, `?` and `#` with a non-empty host, followed by
      text that starts with one of them, parses as that authority. */
  lemma HierarchyOfParts(scheme: string, authority: string, tail: string)
    requires forall k :: 0 <= k < |authority| ==> authority[k] !in AuthorityEnd
    requires HostOf(authority) != []
    requires tail == [] || tail[0] in AuthorityEnd
    ensures ParseHierarchy(scheme, authority + tail) == Some(Url(scheme, authority, SplitFragment(tail).0, SplitFragment(tail).1))
  {
    var after := authority + tail;
    IndexOfAnyAt(authority, tail, AuthorityEnd);
    assert after[..|authority|] == authority;
    assert after[|authority|..] == tail;
  }


  /** Every parse result is well formed and serialises back to the parsed string. */
  lemma ParseInverse(s: string)
    ensures Parse(s).Some? ==> WellFormed(Parse(s).value) && Serialize(Parse(s).value) == s
  {
    if Parse(s).Some? {
      ParseInverseOf(s, Parse(s).value);
    }
  }

  lemma ParseInverseOf(s: string, u: Url)
    requires Parse(s) == Some(u)
    ensures WellFormed(u) && Serialize(u) == s
  {
    var i := IndexOfAny(s, SchemeEnd);
    SchemeParts(s, u, i);
    var scheme, after := s[..i], s[i + 3..];
    ParseHierarchyInverse(scheme, after, u);
    SerializeParts(u, after);
  }

  /** A parse splits its input at the end of the scheme, before `://`. */
  lemma SchemeParts(s: string, u: Url, i: nat)
    requires Parse(s) == Some(u) && i == IndexOfAny(s, SchemeEnd)
    ensures 0 < i && i + 3 <= |s| && s == s[..i] + "://" + s[i + 3..]
    ensures forall k :: 0 <= k < |s[..i]| ==> s[..i][k] !in SchemeEnd
    ensures ParseHierarchy(s[..i], s[i + 3..]) == Some(u)
  {
    SchemeSplit(s, i);
    assert forall k :: 0 <= k < i ==> s[..i][k] == s[k];
  }

  lemma SerializeParts(u: Url, after: string)
    requires u.authority + (u.rest + FragmentPart(u.fragment)) == after
    ensures Serialize(u) == u.scheme + "://" + after
  {
  }

  lemma SchemeSplit(s: string, i: nat)
    requires i <= |s| && StartsWith(s[i..], "://")
    ensures i + 3 <= |s| && s == s[..i] + "://" + s[i + 3..]
  {
    assert s[i..i + 3] == "://";
  }

  /** Serialising a well-formed URL and parsing it back gives the same URL. */
  lemma SerializeInverse(u: Url)
    requires WellFormed(u)
    ensures Parse(Serialize(u)) == Some(u)
  {
    var after := u.authority + u.rest + FragmentPart(u.fragment);
    assert Serialize(u) == u.scheme + ("://" + after);
    ParseOfParts(Serialize(u), u.scheme, after);
    ParseHierarchyOf(u);
  }

  /** A scheme free of `:`, `/`, `?` and `#`, then `://`, parses as what follows. */
  lemma ParseOfParts(s: string, scheme: string, after: string)
    requires s == scheme + ("://" + after) && scheme != []
    requires forall k :: 0 <= k < |scheme| ==> scheme[k] !in SchemeEnd
    ensures Parse(s) == ParseHierarchy(scheme, after)
  {
    IndexOfAnyAt(scheme, "://" + after, SchemeEnd);
    var i := |scheme|;
    assert s[..i] == scheme;
    assert s[i..] == "://" + after;
    assert s[i + 3..] == after;
  }

}
