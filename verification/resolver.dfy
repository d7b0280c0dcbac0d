/**
 * `UmdOpenUrl::Resolver`: picking the direct link out of the resolver's JSON
 * answer and removing the `wskey` credential from it, and the guard around
 * the HTTP request.
 */
module Resolver {
  import opened Wrappers
  import opened Strings
  import opened OrderedMaps
  import opened FormQuery
  import opened Uri

  /** One entry of the resolver's JSON array; only its `linkerurl` member matters. */
  datatype Item = Item(linkerurl: Option<string>)

  /** `!j['linkerurl'].nil? && !j['linkerurl'].empty?` */
  predicate HasLink(item: Item)
  {
    item.linkerurl.Some? && item.linkerurl.value != ""
  }

  /** `json.find { ... }`: the position of the first item with a link. */
  function FindLinked(items: seq<Item>): (r: Option<nat>)
    ensures r.Some? ==> r.value < |items| && HasLink(items[r.value])
    ensures r.Some? ==> forall j :: 0 <= j < r.value ==> !HasLink(items[j])
    ensures r.None? <==> forall j :: 0 <= j < |items| ==> !HasLink(items[j])
  {
    if items == [] then None
    else if HasLink(items[0]) then Some(0)
    else
      var rest := FindLinked(items[1..]);
      assert forall j :: 1 <= j < |items| ==> items[j] == items[1..][j - 1];
      if rest.Some? then Some(rest.value + 1) else None
  }

  /** The URL's query without `wskey`, or `None` when nothing but blanks is left. */
  function FilteredQuery(query: string): (r: Option<string>)
    ensures r.Some? ==> r.value == FilterQuery(query) && r.value != ""
    ensures r.None? ==> FilterQuery(query) == ""
  {
    var filtered := FilterQuery(query);
    if IsBlank(filtered) then None else Some(filtered)
  }

  /** The host of a parsed URL, when it has an authority. */
  function HostOf(u: UriRef): Option<string>
  {
    if u.authority.Some? then Some(Host(u.authority.value)) else None
  }

  /** What `URI::HTTP.build` raises for a path that is neither empty nor absolute. */
  const InvalidComponent := "URI::InvalidComponentError"

  /**
   * Lines 33-58 of `parse_response`, applied to the selected link: `nil` when
   * Ruby's URI reports no query (none written, or an opaque URI); the
   * exception of `URI::HTTP.build` when the path is relative; otherwise the
   * link rebuilt from its scheme, host, path and filtered query.
   */
  function ResolveLink(link: string): (r: Result<Option<string>>)
    ensures r == Success(None) <==> QueryOf(Parse(link)).None?
    ensures r.Failure? <==> QueryOf(Parse(link)).Some? && !RootedOrEmpty(Parse(link).path)
    ensures r.Failure? ==> r.error == InvalidComponent
  {
    var u := Parse(link);
    match QueryOf(u)
    case None => Success(None)
    case Some(q) =>
      if !RootedOrEmpty(u.path) then Failure(InvalidComponent)
      else Success(Some(Build(u.scheme, HostOf(u), u.path, FilteredQuery(q))))
  }

  /**
   * `Resolver.parse_response(json)`: `nil` for no JSON, for no item with a
   * link, and for a link without a query; otherwise the first link, rebuilt
   * from its scheme, host and path with `wskey` removed from its query, or
   * the exception raised while rebuilding it.
   */
  function ParseResponse(json: Option<seq<Item>>): (r: Result<Option<string>>)
    ensures json.None? ==> r == Success(None)
    ensures json.Some? && FindLinked(json.value).None? ==> r == Success(None)
    ensures json.Some? && FindLinked(json.value).Some? ==>
      r == ResolveLink(json.value[FindLinked(json.value).value].linkerurl.value)
  {
    if json.None? then Success(None)
    else
      match FindLinked(json.value)
      case None => Success(None)
      case Some(i) => ResolveLink(json.value[i].linkerurl.value)
  }

  /** Items after the first one with a link are never consulted. */
  lemma FirstLinkDecides(items: seq<Item>, later: seq<Item>)
    requires FindLinked(items).Some?
    ensures ParseResponse(Some(items + later)) == ParseResponse(Some(items))
  {
    FindLinkedPrefix(items, later);
    var i := FindLinked(items).value;
    assert (items + later)[i] == items[i];
  }

  /** The search stops at the first linked item, whatever follows it. */
  lemma {:induction false} FindLinkedPrefix(items: seq<Item>, later: seq<Item>)
    requires FindLinked(items).Some?
    ensures FindLinked(items + later) == FindLinked(items)
  {
    if !HasLink(items[0]) {
      assert (items + later)[1..] == items[1..] + later;
      FindLinkedPrefix(items[1..], later);
    }
  }

  /** The query of a parsed URL, the empty string when it has none. */
  function QueryText(u: UriRef): string
  {
    if u.query.Some? then u.query.value else ""
  }

  lemma QueryTextHasNoHash(s: string)
    requires IsQueryText(s)
    ensures NoneOf(s, "#")
  {
    forall i | 0 <= i < |s| ensures s[i] != '#' {
      assert IsQueryChar(s[i]);
    }
  }

  /**
   * The resolved link keeps the original's lower-cased scheme, its host and
   * its path, and carries no userinfo, port or fragment; its query decodes to
   * the original query without `wskey` and without keys that had no value.
   */
  lemma ResolvedLinkParts(link: string)
    requires IsByteString(link)
    requires Parse(link).query.Some? && RootedOrEmpty(Parse(link).path)
    requires Parse(link).authority.None? ==> !AlwaysSlashes(LowerScheme(Parse(link).scheme))
    ensures ResolveLink(link).Success? && ResolveLink(link).value.Some?
    ensures Parse(ResolveLink(link).value.value).scheme == LowerScheme(Parse(link).scheme)
    ensures Parse(ResolveLink(link).value.value).authority == HostOf(Parse(link))
    ensures Parse(ResolveLink(link).value.value).path == Parse(link).path
    ensures Parse(ResolveLink(link).value.value).fragment == None
    ensures ParseQuery(QueryText(Parse(ResolveLink(link).value.value)))
         == DropEmpty(Reject(ParseQuery(QueryText(Parse(link))), "wskey"))
  {
    var u := Parse(link);
    var q := u.query.value;
    assert QueryOf(u) == Some(q);
    assert IsByteString(q) by {
      QueryIsPart(u, link);
    }
    var filtered := FilteredQuery(q);
    if filtered.Some? {
      QueryTextHasNoHash(filtered.value);
    }
    assert Printable(u.scheme, HostOf(u), u.path, filtered);
    Uri.ParseBuild(u.scheme, HostOf(u), u.path, filtered);
    if filtered.None? {
      assert FilterQuery(q) == "";
    }
  }

  /** The query of a URL is a stretch of the URL, so a byte-string URL has a byte-string query. */
  lemma QueryIsPart(u: UriRef, link: string)
    requires u.query.Some? && Recompose(u) == link && IsByteString(link)
    ensures IsByteString(u.query.value)
  {
    var a := (if u.scheme.Some? then u.scheme.value + ":" else "")
      + (if u.authority.Some? then "//" + u.authority.value else "") + u.path + "?";
    var e := if u.fragment.Some? then "#" + u.fragment.value else "";
    assert link == a + u.query.value + e;
    forall i | 0 <= i < |u.query.value| ensures IsByte(u.query.value[i]) {
      assert u.query.value[i] == link[|a| + i];
    }
  }

  /**
   * The filtered link's query holds no `wskey`, and every other key decodes
   * to the values it had in the original query, unless it had none.
   */
  lemma ResolvedLinkHidesKey(link: string)
    requires IsByteString(link)
    requires Parse(link).query.Some? && RootedOrEmpty(Parse(link).path)
    requires Parse(link).authority.None? ==> !AlwaysSlashes(LowerScheme(Parse(link).scheme))
    ensures ResolveLink(link).Success? && ResolveLink(link).value.Some?
    ensures Get(ParseQuery(QueryText(Parse(ResolveLink(link).value.value))), "wskey") == None
    ensures forall k :: k != "wskey" ==>
      Get(ParseQuery(QueryText(Parse(ResolveLink(link).value.value))), k)
        == (var before := Get(ParseQuery(QueryText(Parse(link))), k);
            if before.Some? && before.value != [] then before else None)
  {
    var q := QueryText(Parse(link));
    ResolvedLinkParts(link);
    var p := ParseQuery(q);
    GroupSpec(DecodeAll(Fields(q)));
    RejectSemantics(p, "wskey");
    DropEmptySemantics(Reject(p, "wskey"));
  }

  /**
   * When `wskey` is the only key of a link whose path `URI::HTTP.build`
   * accepts, the link comes back without a `?`.
   */
  lemma OnlyKeyDropsQuery(link: string)
    requires Parse(link).query.Some? && RootedOrEmpty(Parse(link).path)
    requires forall k :: k in Keys(ParseQuery(Parse(link).query.value)) ==> k == "wskey"
    ensures ResolveLink(link) == Success(Some(Build(Parse(link).scheme, HostOf(Parse(link)), Parse(link).path, None)))
  {
    assert QueryOf(Parse(link)) == Parse(link).query;
    var p := ParseQuery(Parse(link).query.value);
    GroupSpec(DecodeAll(Fields(Parse(link).query.value)));
    RejectSemantics(p, "wskey");
    var r := Reject(p, "wskey");
    if r != [] {
      assert Keys(r)[0] in Without(Keys(p), "wskey");
      WithoutDrops(Keys(p), "wskey");
    }
  }

  lemma {:induction false} WithoutDrops(ks: seq<string>, k: string)
    requires forall x :: x in ks ==> x == k
    ensures Without(ks, k) == []
  {
    if ks != [] {
      assert ks[0] in ks;
      assert forall x :: x in ks[1..] ==> x in ks;
      WithoutDrops(ks[1..], k);
    }
  }

  /** The link `scheme://host/path?k1=v1&k2=v2&...`. */
  function PlainLink(scheme: string, host: string, path: string, ps: seq<(string, string)>): string
  {
    Build(Some(scheme), Some(host), path, Some(PlainQuery(ps)))
  }

  /**
   * Resolving a lower-case `scheme://host/path?k1=v1&...` link with plain
   * parameters gives the same link without its `wskey` parameter, the other
   * parameters as written and in order, and without the `?` when nothing is left.
   */
  lemma PlainLinkFiltered(scheme: string, host: string, path: string, ps: seq<(string, string)>)
    requires scheme != [] && NoneOf(scheme, ":/?#") && Lower(scheme) == scheme
    requires IsHost(host)
    requires NoneOf(path, "?#") && (path == [] || path[0] == '/')
    requires PlainPairs(ps)
    ensures ResolveLink(PlainLink(scheme, host, path, ps))
         == Success(Some(if Reject(ps, "wskey") == [] then Build(Some(scheme), Some(host), path, None)
                 else PlainLink(scheme, host, path, Reject(ps, "wskey"))))
  {
    var q := PlainQuery(ps);
    var keep := Reject(ps, "wskey");
    ParsePlainQuery(ps);
    QueryTextHasNoHash(q);
    LinkSplit(scheme, host, path, q);
    FilterPlainQuery(ps);
    PlainQueryEmpty(keep);
    assert FilteredQuery(q) == if keep == [] then None else Some(PlainQuery(keep));
  }

  /**
   * A plain link without `wskey` in an answer of one item comes back
   * unchanged.
   */
  lemma PlainLinkUnchanged(scheme: string, host: string, path: string, ps: seq<(string, string)>)
    requires scheme != [] && NoneOf(scheme, ":/?#") && Lower(scheme) == scheme
    requires IsHost(host)
    requires NoneOf(path, "?#") && (path == [] || path[0] == '/')
    requires ps != [] && PlainPairs(ps)
    requires forall i :: 0 <= i < |ps| ==> ps[i].0 != "wskey"
    ensures ParseResponse(Some([Item(Some(PlainLink(scheme, host, path, ps)))])) == Success(Some(PlainLink(scheme, host, path, ps)))
  {
    var link := PlainLink(scheme, host, path, ps);
    assert "wskey" !in Keys(ps);
    RejectAbsent(ps, "wskey");
    PlainLinkFiltered(scheme, host, path, ps);
    assert link[0] == scheme[0];
    SingleLink(link);
  }

  /**
   * An opaque link such as `urn:x?wskey=1` has no query in Ruby's eyes, so
   * it gives `nil`.
   */
  lemma OpaqueLinkGivesNil(name: string, path: string, query: string)
    requires name != [] && NoneOf(name, ":/?#")
    requires path != [] && path[0] != '/' && NoneOf(path, "?#")
    requires NoneOf(query, "#")
    ensures ResolveLink(name + ":" + path + "?" + query) == Success(None)
  {
    OpaqueSplit(name, path, query);
  }

  /**
   * A relative link whose path does not start with `/`, such as
   * `foo?wskey=1`, makes `URI::HTTP.build` raise.
   */
  lemma RelativeLinkRaises(path: string, query: string)
    requires path != [] && path[0] != '/' && NoneOf(path, ":?#")
    requires NoneOf(query, "#")
    ensures ResolveLink(path + "?" + query) == Failure(InvalidComponent)
  {
    RelativeSplit(path, query);
  }

  /** An answer holding one link resolves that link. */
  lemma SingleLink(link: string)
    requires link != ""
    ensures ParseResponse(Some([Item(Some(link))])) == ResolveLink(link)
  {
    assert FindLinked([Item(Some(link))]) == Some(0);
  }

  /** A link printed from a lower-case scheme, a host, a path and a query splits back into them. */
  lemma LinkSplit(scheme: string, host: string, path: string, query: string)
    requires scheme != [] && NoneOf(scheme, ":/?#") && Lower(scheme) == scheme
    requires IsHost(host)
    requires NoneOf(path, "?#") && (path == [] || path[0] == '/')
    requires NoneOf(query, "#")
    ensures Parse(Build(Some(scheme), Some(host), path, Some(query))) == UriRef(Some(scheme), Some(host), path, Some(query), None)
    ensures HostOf(Parse(Build(Some(scheme), Some(host), path, Some(query)))) == Some(host)
  {
    Uri.ParseBuild(Some(scheme), Some(host), path, Some(query));
    HostOfBareHost(Parse(Build(Some(scheme), Some(host), path, Some(query))), host);
  }

  /** An authority that is a bare host names that host. */
  lemma HostOfBareHost(u: UriRef, host: string)
    requires IsHost(host) && u.authority == Some(host)
    ensures HostOf(u) == Some(host)
  {
    assert Authority(None, host, None) == host;
    HostOfAuthority(None, host, None);
  }

  /** The HTTP answer as the guard sees it: a status and the JSON body, `None` when it does not parse. */
  datatype Response<J> = Response(status: int, body: Option<J>)

  /**
   * `Resolver.resolve(open_url)`: `nil` for a `nil` URL, for a status other
   * than 200 and for a body that is not JSON; otherwise the parsed body. The
   * request itself is the parameter `get`.
   */
  function Resolve<J>(openUrl: Option<string>, get: string -> Response<J>): (r: Option<J>)
    ensures r.Some? <==> openUrl.Some? && get(openUrl.value).status == 200 && get(openUrl.value).body.Some?
    ensures r.Some? ==> r == get(openUrl.value).body
  {
    if openUrl.None? then None
    else
      var response := get(openUrl.value);
      if response.status != 200 then None else response.body
  }
}
