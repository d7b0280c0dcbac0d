/**
 * The resolver's documented examples: answers from the WorldCat link
 * resolver and the link `parse_response` makes of them. Each example is
 * stated twice: what the link is as text, and what the resolver makes of it,
 * the latter over the link's parts. The last example, a query that repeats
 * a key, shows the values of that key brought together by the round trip
 * through `CGI.parse` and `build_query`.
 */
module ResolverExamples {
  import opened Wrappers
  import opened Strings
  import opened OrderedMaps
  import opened FormQuery
  import opened Uri
  import opened Resolver

  const WorldCatHost := "link.worldcat.org"

  /** The scheme and host of the examples meet the requirements of the link lemmas. */
  lemma WorldCatParts()
    ensures Lower("http") == "http" && NoneOf("http", ":/?#")
    ensures IsHost(WorldCatHost)
  {
    LowerUnchanged("http");
  }

  /** `http://link.worldcat.org?` followed by the query. */
  lemma WorldCatLink(ps: seq<(string, string)>)
    ensures PlainLink("http", WorldCatHost, "", ps) == "http://link.worldcat.org?" + PlainQuery(ps)
  {
    WorldCatParts();
  }

  const FooOnly := [("foo", "abc")]
  const FooAndKey := [("foo", "abc"), ("wskey", "123")]
  const KeyAndFoo := [("wskey", "123"), ("foo", "abc")]
  const KeyBetween := [("bar", "456"), ("wskey", "123"), ("foo", "abc")]
  const BarAndFoo := [("bar", "456"), ("foo", "abc")]
  const KeyOnly := [("wskey", "123")]

  /** A plain query is its first pair, then `&` and the rest. */
  lemma PlainQueryCons(k: string, v: string, rest: seq<(string, string)>)
    ensures PlainQuery([(k, v)] + rest) == if rest == [] then k + "=" + v else k + "=" + v + "&" + PlainQuery(rest)
  {
    var ss := seq(|rest| + 1, i requires 0 <= i < |rest| + 1 => ([(k, v)] + rest)[i].0 + "=" + ([(k, v)] + rest)[i].1);
    assert ss[1..] == seq(|rest|, i requires 0 <= i < |rest| => rest[i].0 + "=" + rest[i].1);
  }

  lemma FooOnlyQuery()
    ensures PlainQuery(FooOnly) == "foo=abc"
  {
    PlainQueryCons("foo", "abc", []);
  }

  lemma FooAndKeyQuery()
    ensures PlainQuery(FooAndKey) == "foo=abc&wskey=123"
  {
    assert FooAndKey == [("foo", "abc")] + KeyOnly;
    PlainQueryCons("foo", "abc", KeyOnly);
    PlainQueryCons("wskey", "123", []);
  }

  lemma KeyAndFooQuery()
    ensures PlainQuery(KeyAndFoo) == "wskey=123&foo=abc"
  {
    assert KeyAndFoo == [("wskey", "123")] + FooOnly;
    PlainQueryCons("wskey", "123", FooOnly);
    PlainQueryCons("foo", "abc", []);
  }

  lemma KeyBetweenQuery()
    ensures PlainQuery(KeyBetween) == "bar=456&wskey=123&foo=abc"
  {
    assert KeyBetween == [("bar", "456")] + KeyAndFoo;
    PlainQueryCons("bar", "456", KeyAndFoo);
    KeyAndFooQuery();
    KeyBetweenText();
  }

  lemma KeyBetweenText()
    ensures "bar" + "=" + "456" + "&" + "wskey=123&foo=abc" == "bar=456&wskey=123&foo=abc"
  {
  }

  lemma BarAndFooQuery()
    ensures PlainQuery(BarAndFoo) == "bar=456&foo=abc"
  {
    assert BarAndFoo == [("bar", "456")] + FooOnly;
    PlainQueryCons("bar", "456", FooOnly);
    PlainQueryCons("foo", "abc", []);
  }

  lemma KeyOnlyQuery()
    ensures PlainQuery(KeyOnly) == "wskey=123"
  {
    PlainQueryCons("wskey", "123", []);
  }

  lemma BareTexts()
    ensures Build(Some("http"), Some(WorldCatHost), "", None) == "http://link.worldcat.org"
    ensures Build(Some("http"), Some(WorldCatHost), "/", None) == "http://link.worldcat.org/"
  {
    WorldCatParts();
  }

  lemma FooAndKeyPlain() ensures PlainPairs(FooAndKey) { }
  lemma KeyAndFooPlain() ensures PlainPairs(KeyAndFoo) { }
  lemma KeyBetweenPlain() ensures PlainPairs(KeyBetween)
  {
    KeyAndFooPlain();
    PlainPairsCons("bar", "456", KeyAndFoo);
    assert KeyBetween == [("bar", "456")] + KeyAndFoo;
  }

  /** A safe pair whose key is new in front of plain pairs keeps them plain. */
  lemma PlainPairsCons(k: string, v: string, rest: seq<(string, string)>)
    requires AllSafe(k) && AllSafe(v) && PlainPairs(rest)
    requires forall j :: 0 <= j < |rest| ==> rest[j].0 != k
    ensures PlainPairs([(k, v)] + rest)
  {
  }
  lemma KeyOnlyPlain() ensures PlainPairs(KeyOnly) { }

  /** The resolver's answer holding one item, whose link is the WorldCat link with parameters `ps`. */
  function Answer(ps: seq<(string, string)>): Option<seq<Item>>
  {
    Some([Item(Some(PlainLink("http", WorldCatHost, "", ps)))])
  }

  lemma AnswerResolves(ps: seq<(string, string)>)
    ensures ParseResponse(Answer(ps)) == ResolveLink(PlainLink("http", WorldCatHost, "", ps))
  {
    WorldCatLink(ps);
    SingleLink(PlainLink("http", WorldCatHost, "", ps));
  }

  /** The WorldCat link with parameters `ps`, written out. */
  lemma WorldCatText(ps: seq<(string, string)>, query: string, text: string)
    requires PlainQuery(ps) == query && text == "http://link.worldcat.org?" + query
    ensures PlainLink("http", WorldCatHost, "", ps) == text
    ensures Answer(ps) == Some([Item(Some(text))])
  {
    WorldCatLink(ps);
  }

  /** A one-item answer whose link resolves to the WorldCat link with `keep` gives that link. */
  lemma AnswerGives(ps: seq<(string, string)>, keep: seq<(string, string)>, text: string, result: string)
    requires text == PlainLink("http", WorldCatHost, "", ps)
    requires result == PlainLink("http", WorldCatHost, "", keep)
    requires ResolveLink(text) == Success(Some(result))
    ensures ParseResponse(Some([Item(Some(text))])) == Success(Some(result))
  {
    AnswerResolves(ps);
  }

  /** `parse_response(nil)` is `nil`. */
  lemma ParserWithNil()
    ensures ParseResponse(None) == Success(None)
  {
  }

  /** An answer with no items has no link. */
  lemma ParserWithEmptyJson()
    ensures ParseResponse(Some([])) == Success(None)
  {
  }

  /** A body that is not JSON gives `nil`. */
  lemma NonJsonResponse<J>(get: string -> Response<J>)
    requires get("http://example.com/non_json_response") == Response(200, None)
    ensures Resolve(Some("http://example.com/non_json_response"), get) == None
  {
  }

  /** A status of 404 gives `nil`, whatever the body. */
  lemma NotFoundResponse<J>(get: string -> Response<J>)
    requires get("http://example.com/404_response").status == 404
    ensures Resolve(Some("http://example.com/404_response"), get) == None
  {
  }

  /** A body that parses, such as `{}`, is returned as parsed. */
  lemma EmptyJsonResponse<J>(get: string -> Response<J>, empty: J)
    requires get("http://example.com/empty_json_response") == Response(200, Some(empty))
    ensures Resolve(Some("http://example.com/empty_json_response"), get) == Some(empty)
  {
  }

  /** `http://link.worldcat.org?foo=abc` comes back as it is. */
  lemma ValidLinkerUrl()
    ensures ParseResponse(Some([Item(Some("http://link.worldcat.org?foo=abc"))]))
         == Success(Some("http://link.worldcat.org?foo=abc"))
  {
    FooOnlyQuery();
    WorldCatText(FooOnly, "foo=abc", "http://link.worldcat.org?foo=abc");
    ValidLinkerUrlLink();
  }

  lemma ValidLinkerUrlLink()
    ensures ParseResponse(Answer(FooOnly)) == Success(Some(PlainLink("http", WorldCatHost, "", FooOnly)))
  {
    WorldCatParts();
    PlainLinkUnchanged("http", WorldCatHost, "", FooOnly);
  }

  /** `wskey` is removed when it is the last parameter, */
  lemma WskeyLast()
    ensures ParseResponse(Some([Item(Some("http://link.worldcat.org?foo=abc&wskey=123"))]))
         == Success(Some("http://link.worldcat.org?foo=abc"))
  {
    LastTexts();
    WskeyLastLink();
    AnswerGives(FooAndKey, FooOnly, "http://link.worldcat.org?foo=abc&wskey=123", "http://link.worldcat.org?foo=abc");
  }

  lemma LastTexts()
    ensures PlainLink("http", WorldCatHost, "", FooAndKey) == "http://link.worldcat.org?foo=abc&wskey=123"
    ensures PlainLink("http", WorldCatHost, "", FooOnly) == "http://link.worldcat.org?foo=abc"
  {
    FooAndKeyQuery();
    FooOnlyQuery();
    WorldCatText(FooAndKey, "foo=abc&wskey=123", "http://link.worldcat.org?foo=abc&wskey=123");
    WorldCatText(FooOnly, "foo=abc", "http://link.worldcat.org?foo=abc");
  }

  lemma WskeyLastLink()
    ensures ResolveLink(PlainLink("http", WorldCatHost, "", FooAndKey)) == Success(Some(PlainLink("http", WorldCatHost, "", FooOnly)))
  {
    WorldCatParts();
    FooAndKeyPlain();
    assert Reject(FooAndKey, "wskey") == FooOnly;
    PlainLinkFiltered("http", WorldCatHost, "", FooAndKey);
  }

  /** when it is the first, */
  lemma WskeyFirst()
    ensures ParseResponse(Some([Item(Some("http://link.worldcat.org?wskey=123&foo=abc"))]))
         == Success(Some("http://link.worldcat.org?foo=abc"))
  {
    FirstTexts();
    WskeyFirstLink();
    AnswerGives(KeyAndFoo, FooOnly, "http://link.worldcat.org?wskey=123&foo=abc", "http://link.worldcat.org?foo=abc");
  }

  lemma FirstTexts()
    ensures PlainLink("http", WorldCatHost, "", KeyAndFoo) == "http://link.worldcat.org?wskey=123&foo=abc"
    ensures PlainLink("http", WorldCatHost, "", FooOnly) == "http://link.worldcat.org?foo=abc"
  {
    KeyAndFooQuery();
    FooOnlyQuery();
    WorldCatText(KeyAndFoo, "wskey=123&foo=abc", "http://link.worldcat.org?wskey=123&foo=abc");
    WorldCatText(FooOnly, "foo=abc", "http://link.worldcat.org?foo=abc");
  }

  lemma WskeyFirstLink()
    ensures ResolveLink(PlainLink("http", WorldCatHost, "", KeyAndFoo)) == Success(Some(PlainLink("http", WorldCatHost, "", FooOnly)))
  {
    WorldCatParts();
    KeyAndFooPlain();
    assert Reject(KeyAndFoo, "wskey") == FooOnly;
    PlainLinkFiltered("http", WorldCatHost, "", KeyAndFoo);
  }

  /** when it stands between two others, */
  lemma WskeyBetween()
    ensures ParseResponse(Some([Item(Some("http://link.worldcat.org?bar=456&wskey=123&foo=abc"))]))
         == Success(Some("http://link.worldcat.org?bar=456&foo=abc"))
  {
    BetweenTexts();
    WskeyBetweenLink();
    AnswerGives(KeyBetween, BarAndFoo, "http://link.worldcat.org?bar=456&wskey=123&foo=abc", "http://link.worldcat.org?bar=456&foo=abc");
  }

  lemma BetweenTexts()
    ensures PlainLink("http", WorldCatHost, "", KeyBetween) == "http://link.worldcat.org?bar=456&wskey=123&foo=abc"
    ensures PlainLink("http", WorldCatHost, "", BarAndFoo) == "http://link.worldcat.org?bar=456&foo=abc"
  {
    KeyBetweenLinkText();
    BarAndFooQuery();
    WorldCatText(BarAndFoo, "bar=456&foo=abc", "http://link.worldcat.org?bar=456&foo=abc");
  }

  lemma KeyBetweenLinkText()
    ensures PlainLink("http", WorldCatHost, "", KeyBetween) == "http://link.worldcat.org?bar=456&wskey=123&foo=abc"
  {
    KeyBetweenQuery();
    KeyBetweenLiteral();
    WorldCatText(KeyBetween, "bar=456&wskey=123&foo=abc", "http://link.worldcat.org?bar=456&wskey=123&foo=abc");
  }

  lemma KeyBetweenLiteral()
    ensures "http://link.worldcat.org?" + "bar=456&wskey=123&foo=abc" == "http://link.worldcat.org?bar=456&wskey=123&foo=abc"
  {
  }

  lemma WskeyBetweenLink()
    ensures ResolveLink(PlainLink("http", WorldCatHost, "", KeyBetween)) == Success(Some(PlainLink("http", WorldCatHost, "", BarAndFoo)))
  {
    WorldCatParts();
    KeyBetweenPlain();
    assert Reject(KeyBetween, "wskey") == BarAndFoo;
    PlainLinkFiltered("http", WorldCatHost, "", KeyBetween);
  }

  /** and when it is the only one, the `?` goes with it. */
  lemma WskeyOnly()
    ensures ParseResponse(Some([Item(Some("http://link.worldcat.org?wskey=123"))]))
         == Success(Some("http://link.worldcat.org"))
  {
    KeyOnlyQuery();
    WorldCatText(KeyOnly, "wskey=123", "http://link.worldcat.org?wskey=123");
    BareTexts();
    AnswerResolves(KeyOnly);
    WskeyOnlyLink();
  }

  lemma WskeyOnlyLink()
    ensures ResolveLink(PlainLink("http", WorldCatHost, "", KeyOnly)) == Success(Some(Build(Some("http"), Some(WorldCatHost), "", None)))
  {
    WorldCatParts();
    KeyOnlyPlain();
    assert Reject(KeyOnly, "wskey") == [];
    PlainLinkFiltered("http", WorldCatHost, "", KeyOnly);
  }

  /** `http://link.worldcat.org/` has no query, so there is no link. */
  lemma LinkWithoutQuery()
    ensures ParseResponse(Some([Item(Some("http://link.worldcat.org/"))])) == Success(None)
  {
    BareTexts();
    LinkWithoutQueryParts();
  }

  lemma LinkWithoutQueryParts()
    ensures var link := Build(Some("http"), Some(WorldCatHost), "/", None);
      ParseResponse(Some([Item(Some(link))])) == Success(None)
  {
    WorldCatParts();
    var link := Build(Some("http"), Some(WorldCatHost), "/", None);
    Uri.ParseBuild(Some("http"), Some(WorldCatHost), "/", None);
    assert link[0] == 'h';
    SingleLink(link);
  }

  /** `urn:x?wskey=1` is opaque to Ruby's URI: it has no query, so there is no link. */
  lemma OpaqueLink()
    ensures ParseResponse(Some([Item(Some("urn:x?wskey=1"))])) == Success(None)
  {
    OpaqueText();
    OpaqueAnswer("urn", "x", "wskey=1", "urn:x?wskey=1");
  }

  lemma OpaqueText()
    ensures "urn" + ":" + "x" + "?" + "wskey=1" == "urn:x?wskey=1"
  {
  }

  /** A one-item answer whose link is opaque resolves to `nil`. */
  lemma OpaqueAnswer(name: string, path: string, query: string, link: string)
    requires name != [] && NoneOf(name, ":/?#")
    requires path != [] && path[0] != '/' && NoneOf(path, "?#")
    requires NoneOf(query, "#")
    requires link == name + ":" + path + "?" + query
    ensures ParseResponse(Some([Item(Some(link))])) == Success(None)
  {
    OpaqueLinkGivesNil(name, path, query);
    SingleLink(link);
  }

  /** `foo?wskey=1` has the relative path `foo`, which `URI::HTTP.build` refuses. */
  lemma RelativeLink()
    ensures ParseResponse(Some([Item(Some("foo?wskey=1"))])) == Failure(InvalidComponent)
  {
    RelativeText();
    RelativeAnswer("foo", "wskey=1", "foo?wskey=1");
  }

  lemma RelativeText()
    ensures "foo" + "?" + "wskey=1" == "foo?wskey=1"
  {
  }

  /** A one-item answer whose link is a rootless relative reference with a query raises. */
  lemma RelativeAnswer(path: string, query: string, link: string)
    requires path != [] && path[0] != '/' && NoneOf(path, ":?#")
    requires NoneOf(query, "#")
    requires link == path + "?" + query
    ensures ParseResponse(Some([Item(Some(link))])) == Failure(InvalidComponent)
  {
    RelativeLinkRaises(path, query);
    SingleLink(link);
  }

  const Repeated := [("a", "1"), ("b", "2"), ("a", "3")]
  const RepeatedFields: seq<(string, Option<string>)> := [("a", Some("1")), ("b", Some("2")), ("a", Some("3"))]
  const Regrouped := [("a", "1"), ("a", "3"), ("b", "2")]
  const Grouped: Groups := [("a", ["1", "3"]), ("b", ["2"])]

  /** A query in which the key `a` occurs twice, apart. */
  lemma RepeatedQuery()
    ensures PlainQuery(Repeated) == "a=1&b=2&a=3"
  {
    assert Repeated == [("a", "1")] + [("b", "2"), ("a", "3")];
    assert [("b", "2"), ("a", "3")] == [("b", "2")] + [("a", "3")];
    PlainQueryCons("a", "1", [("b", "2"), ("a", "3")]);
    PlainQueryCons("b", "2", [("a", "3")]);
    PlainQueryCons("a", "3", []);
  }

  lemma RepeatedFlat()
    ensures FlatPairs(Singletons(Repeated)) == RepeatedFields
  {
    var g := Singletons(Repeated);
    assert g == [("a", ["1"]), ("b", ["2"]), ("a", ["3"])];
    assert Run("a", ["3"]) == [("a", Some("3"))];
    assert FlatPairs(g[2..]) == [("a", Some("3"))];
    assert Run("b", ["2"]) == [("b", Some("2"))];
    assert g[1..][1..] == g[2..];
    assert FlatPairs(g[1..]) == [("b", Some("2")), ("a", Some("3"))];
    assert Run("a", ["1"]) == [("a", Some("1"))];
  }

  /** Its decoded fields, in the order written. */
  lemma RepeatedDecoded()
    ensures DecodeAll(Fields("a=1&b=2&a=3")) == RepeatedFields
  {
    assert SafePairs(Repeated);
    RepeatedQuery();
    SingletonsBuild(Repeated);
    SingletonsBytes(Repeated);
    BuildQueryFields(Singletons(Repeated));
    DecodeEncoded(Singletons(Repeated));
    RepeatedFlat();
  }

  /** Adding a value under a key already present appends the value to its group. */
  lemma AddOld(g: Groups, k: string, v: string)
    requires k in Keys(g)
    ensures AddValue(g, (k, Some(v))) == g[IndexOf(g, k) := (k, Get(g, k).value + [v])]
  {
  }

  /** `CGI.parse` groups both values of `a` under its first occurrence. */
  lemma RepeatedGroups()
    ensures GroupFrom([], RepeatedFields) == Grouped
  {
    var fs := RepeatedFields;
    assert fs[..1][..0] == [];
    AddFirstValue([], "a", "1");
    assert GroupFrom([], fs[..1]) == [("a", ["1"])];
    assert fs[..2][..1] == fs[..1];
    assert Keys([("a", ["1"])]) == ["a"];
    AddFirstValue([("a", ["1"])], "b", "2");
    assert GroupFrom([], fs[..2]) == [("a", ["1"]), ("b", ["2"])];
    var g2: Groups := [("a", ["1"]), ("b", ["2"])];
    assert fs[..2] == fs[..|fs| - 1];
    assert Keys(g2) == ["a", "b"];
    assert GroupFrom([], fs) == AddValue(g2, ("a", Some("3")));
    AddOld(g2, "a", "3");
    assert IndexOf(g2, "a") == 0;
    assert Get(g2, "a").value + ["3"] == ["1", "3"];
  }

  /** A pair of safe strings encodes as written. */
  lemma SafePair(k: string, v: string)
    requires AllSafe(k) && AllSafe(v)
    ensures EncodePair(k, v) == k + "=" + v
  {
  }

  /** `build_query` writes the values of a key one after another. */
  lemma GroupedText()
    ensures BuildQuery(Grouped) == "a=1&a=3&b=2"
  {
    GroupedPairs();
    assert Join("&", ["a=1", "a=3"]) == "a=1&a=3";
    assert GroupStrings(Grouped) == ["a=1&a=3", "b=2"];
  }

  lemma GroupedPairs()
    ensures GroupPairs("a", ["1", "3"]) == ["a=1", "a=3"]
    ensures GroupPairs("b", ["2"]) == ["b=2"]
  {
    SafePair("a", "1");
    SafePair("a", "3");
    SafePair("b", "2");
    assert "a" + "=" + "1" == "a=1" && "a" + "=" + "3" == "a=3" && "b" + "=" + "2" == "b=2";
    var pa := GroupPairs("a", ["1", "3"]);
    assert |pa| == 2 && pa[0] == EncodePair("a", "1") && pa[1] == EncodePair("a", "3");
    var pb := GroupPairs("b", ["2"]);
    assert |pb| == 1 && pb[0] == EncodePair("b", "2");
  }

  lemma RepeatedParse()
    ensures ParseQuery("a=1&b=2&a=3") == Grouped
  {
    RepeatedDecoded();
    RepeatedGroups();
  }

  /** Filtering a query with a repeated key brings its values together, at the key's first place. */
  lemma RepeatedKeyGrouped()
    ensures FilterQuery("a=1&b=2&a=3") == "a=1&a=3&b=2"
  {
    RepeatedParse();
    assert Reject(Grouped, "wskey") == Grouped;
    GroupedText();
  }

  lemma RegroupedQuery()
    ensures PlainQuery(Regrouped) == "a=1&a=3&b=2"
  {
    assert Regrouped == [("a", "1")] + [("a", "3"), ("b", "2")];
    assert [("a", "3"), ("b", "2")] == [("a", "3")] + [("b", "2")];
    PlainQueryCons("a", "1", [("a", "3"), ("b", "2")]);
    PlainQueryCons("a", "3", [("b", "2")]);
    PlainQueryCons("b", "2", []);
  }

  lemma RepeatedKeyLink()
    ensures ResolveLink(PlainLink("http", WorldCatHost, "", Repeated))
         == Success(Some(PlainLink("http", WorldCatHost, "", Regrouped)))
  {
    WorldCatParts();
    var q := PlainQuery(Repeated);
    assert SafePairs(Repeated);
    SingletonsBuild(Repeated);
    QueryTextHasNoHash(q);
    LinkSplit("http", WorldCatHost, "", q);
    RepeatedQuery();
    RepeatedKeyGrouped();
    GroupedText();
    RegroupedQuery();
    assert FilteredQuery(q) == Some(PlainQuery(Regrouped));
  }

  /** The resolver returns `http://link.worldcat.org?a=1&b=2&a=3` regrouped: `a=1&a=3&b=2`. */
  lemma RepeatedKey()
    ensures ParseResponse(Some([Item(Some("http://link.worldcat.org?a=1&b=2&a=3"))]))
         == Success(Some("http://link.worldcat.org?a=1&a=3&b=2"))
  {
    RepeatedTexts();
    RepeatedKeyLink();
    AnswerGives(Repeated, Regrouped, "http://link.worldcat.org?a=1&b=2&a=3", "http://link.worldcat.org?a=1&a=3&b=2");
  }

  lemma RepeatedTexts()
    ensures PlainLink("http", WorldCatHost, "", Repeated) == "http://link.worldcat.org?a=1&b=2&a=3"
    ensures PlainLink("http", WorldCatHost, "", Regrouped) == "http://link.worldcat.org?a=1&a=3&b=2"
  {
    RepeatedQuery();
    RegroupedQuery();
    WorldCatText(Repeated, "a=1&b=2&a=3", "http://link.worldcat.org?a=1&b=2&a=3");
    WorldCatText(Regrouped, "a=1&a=3&b=2", "http://link.worldcat.org?a=1&a=3&b=2");
  }
}
