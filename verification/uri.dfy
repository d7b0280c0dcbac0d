/**
 * The parts of Ruby's `URI` the resolver uses: `URI.parse` splitting a URL
 * into its components, the `host` of the authority, and the string that
 * `URI::HTTP.build(host:, path:, query:)` prints once its scheme is replaced.
 */
module Uri {
  import opened Wrappers
  import opened Strings

  /** A URI reference split into the five components of RFC 3986, section 3. */
  datatype UriRef = UriRef(
    scheme: Option<string>,
    authority: Option<string>,
    path: string,
    query: Option<string>,
    fragment: Option<string>)

  /** The component grammar the split guarantees. */
  predicate WellSplit(u: UriRef)
  {
    && (u.scheme.Some? ==> u.scheme.value != [] && NoneOf(u.scheme.value, ":/?#"))
    && (u.authority.Some? ==> NoneOf(u.authority.value, "/?#"))
    && NoneOf(u.path, "?#")
    && (u.authority.Some? ==> u.path == [] || u.path[0] == '/')
    && (u.authority.None? ==> !(|u.path| >= 2 && u.path[..2] == "//"))
    && (u.scheme.None? && u.authority.None? ==> !StartsWithScheme(u.path))
    && (u.query.Some? ==> NoneOf(u.query.value, "#"))
  }

  /** The string opens with a scheme: a non-empty run of characters other than `:/?#`, ended by `:`. */
  predicate StartsWithScheme(s: string)
  {
    var i := Scan(s, ":/?#");
    0 < i < |s| && s[i] == ':'
  }

  /** Component recomposition, section 5.3 of RFC 3986. */
  function Recompose(u: UriRef): string
  {
    (if u.scheme.Some? then u.scheme.value + ":" else "")
    + (if u.authority.Some? then "//" + u.authority.value else "")
    + u.path
    + (if u.query.Some? then "?" + u.query.value else "")
    + (if u.fragment.Some? then "#" + u.fragment.value else "")
  }

  /** `scheme ":"` at the front, when the first run of characters other than `:/?#` ends at a `:`. */
  function SplitScheme(s: string): (r: (Option<string>, string))
    ensures r.0.Some? <==> StartsWithScheme(s)
    ensures r.0.Some? ==> r.0.value != [] && NoneOf(r.0.value, ":/?#")
    ensures s == (if r.0.Some? then r.0.value + ":" else "") + r.1
  {
    var i := Scan(s, ":/?#");
    if 0 < i < |s| && s[i] == ':' then
      assert s == s[..i] + ":" + s[i + 1..];
      (Some(s[..i]), s[i + 1..])
    else (None, s)
  }

  /** `"//" authority` at the front, the authority running up to the next `/`, `?` or `#`. */
  function SplitAuthority(s: string): (r: (Option<string>, string))
    ensures r.0.Some? ==> NoneOf(r.0.value, "/?#")
    ensures s == (if r.0.Some? then "//" + r.0.value else "") + r.1
    ensures r.0.Some? ==> r.1 == [] || r.1[0] in "/?#"
    ensures r.0.None? ==> !(|s| >= 2 && s[..2] == "//")
  {
    if |s| >= 2 && s[..2] == "//" then
      var rest := s[2..];
      var j := Scan(rest, "/?#");
      assert s == "//" + rest[..j] + rest[j..];
      (Some(rest[..j]), rest[j..])
    else (None, s)
  }

  /** The path: everything up to the first `?` or `#`. */
  function SplitPath(s: string): (r: (string, string))
    ensures NoneOf(r.0, "?#") && s == r.0 + r.1
    ensures r.1 == [] || r.1[0] in "?#"
  {
    var k := Scan(s, "?#");
    assert s == s[..k] + s[k..];
    (s[..k], s[k..])
  }

  /** `"?" query`, the query running up to the first `#`. */
  function SplitQuery(s: string): (r: (Option<string>, string))
    requires s == [] || s[0] in "?#"
    ensures r.0.Some? ==> NoneOf(r.0.value, "#")
    ensures s == (if r.0.Some? then "?" + r.0.value else "") + r.1
    ensures r.1 == [] || r.1[0] == '#'
  {
    if |s| >= 1 && s[0] == '?' then
      var rest := s[1..];
      var m := Scan(rest, "#");
      assert s == "?" + rest[..m] + rest[m..];
      (Some(rest[..m]), rest[m..])
    else (None, s)
  }

  /** `"#" fragment`: the rest of the string. */
  function SplitFragment(s: string): (r: Option<string>)
    requires s == [] || s[0] == '#'
    ensures s == if r.Some? then "#" + r.value else ""
  {
    if s == [] then None
    else
      assert s == "#" + s[1..];
      Some(s[1..])
  }

  /**
   * The split of Appendix B of RFC 3986,
   * `^(([^:/?#]+):)?(//([^/?#]*))?([^?#]*)(\?([^#]*))?(#(.*))?`: its
   * components obey the component grammar, and recomposing them gives the
   * string back. `ParseRecomposed` shows that no other split does both.
   */
  function Parse(s: string): (u: UriRef)
    ensures WellSplit(u)
    ensures Recompose(u) == s
  {
    var schemeSplit := SplitScheme(s);
    var authoritySplit := SplitAuthority(schemeSplit.1);
    var pathSplit := SplitPath(authoritySplit.1);
    var querySplit := SplitQuery(pathSplit.1);
    var fragment := SplitFragment(querySplit.1);
    SplitComposes(s, schemeSplit, authoritySplit, pathSplit, querySplit, fragment);
    UriRef(schemeSplit.0, authoritySplit.0, pathSplit.0, querySplit.0, fragment)
  }

  /** Five consecutive pieces, each as its split leaves it, form a well-split URI that recomposes to the whole. */
  lemma SplitComposes(s: string, a: (Option<string>, string), b: (Option<string>, string), c: (string, string),
                      d: (Option<string>, string), e: Option<string>)
    requires a.0.Some? ==> a.0.value != [] && NoneOf(a.0.value, ":/?#")
    requires a.0.None? ==> !StartsWithScheme(s)
    requires s == (if a.0.Some? then a.0.value + ":" else "") + a.1
    requires b.0.Some? ==> NoneOf(b.0.value, "/?#") && (b.1 == [] || b.1[0] in "/?#")
    requires a.1 == (if b.0.Some? then "//" + b.0.value else "") + b.1
    requires b.0.None? ==> !(|a.1| >= 2 && a.1[..2] == "//")
    requires NoneOf(c.0, "?#") && b.1 == c.0 + c.1
    requires d.0.Some? ==> NoneOf(d.0.value, "#")
    requires c.1 == (if d.0.Some? then "?" + d.0.value else "") + d.1
    requires d.1 == if e.Some? then "#" + e.value else ""
    ensures WellSplit(UriRef(a.0, b.0, c.0, d.0, e))
    ensures Recompose(UriRef(a.0, b.0, c.0, d.0, e)) == s
  {
    PrefixStart(b.1, c.0, c.1);
    if b.0.None? {
      assert a.1 == b.1;
    }
    if a.0.None? && b.0.None? {
      assert s == c.0 + c.1;
      SchemeInPath(c.0, c.1);
    }
    Reassemble(s, if a.0.Some? then a.0.value + ":" else "", a.1,
               if b.0.Some? then "//" + b.0.value else "", b.1,
               c.0, c.1,
               if d.0.Some? then "?" + d.0.value else "",
               if e.Some? then "#" + e.value else "");
  }

  /** What follows a path (nothing, or a query or fragment) does not change whether a scheme opens the string. */
  lemma SchemeInPath(p: string, rest: string)
    requires rest == [] || rest[0] in "?#"
    ensures StartsWithScheme(p + rest) <==> StartsWithScheme(p)
  {
    var i := Scan(p, ":/?#");
    var s := p + rest;
    if i < |p| {
      assert s[i] == p[i];
      ScanIs(s, ":/?#", i);
    } else if rest != [] {
      ScanPast(p, rest, ":/?#");
      ScanIs(rest, ":/?#", 0);
      assert s[|p|] == rest[0];
    } else {
      assert s == p;
    }
  }

  /**
   * Every well-split URI is the parse of its recomposition: the grammar and
   * the round trip in `Parse`'s contract leave only one split of a string.
   */
  lemma ParseRecomposed(u: UriRef)
    requires WellSplit(u)
    ensures Parse(Recompose(u)) == u
  {
    var schemePart := if u.scheme.Some? then u.scheme.value + ":" else "";
    var authorityPart := if u.authority.Some? then "//" + u.authority.value else "";
    var queryPart := if u.query.Some? then "?" + u.query.value else "";
    var fragmentPart := if u.fragment.Some? then "#" + u.fragment.value else "";
    var afterPath := queryPart + fragmentPart;
    var afterAuthority := u.path + afterPath;
    var afterScheme := authorityPart + afterAuthority;
    Regroup(schemePart, authorityPart, u.path, queryPart, fragmentPart);
    TailSplits(u, afterScheme, afterAuthority, afterPath, fragmentPart);
    SchemeSplit(u.scheme, afterScheme);
    ParseOf(Recompose(u), u.scheme, afterScheme, u.authority, afterAuthority, u.path, afterPath, u.query, fragmentPart, u.fragment);
  }

  /** The splits after the scheme, read off a well-split URI's recomposition. */
  lemma TailSplits(u: UriRef, afterScheme: string, afterAuthority: string, afterPath: string, fragmentPart: string)
    requires WellSplit(u)
    requires fragmentPart == if u.fragment.Some? then "#" + u.fragment.value else ""
    requires afterPath == (if u.query.Some? then "?" + u.query.value else "") + fragmentPart
    requires afterAuthority == u.path + afterPath
    requires afterScheme == (if u.authority.Some? then "//" + u.authority.value else "") + afterAuthority
    ensures u.scheme.None? ==> !StartsWithScheme(afterScheme)
    ensures SplitAuthority(afterScheme) == (u.authority, afterAuthority)
    ensures SplitPath(afterAuthority) == (u.path, afterPath)
    ensures SplitQuery(afterPath) == (u.query, fragmentPart)
    ensures SplitFragment(fragmentPart) == u.fragment
  {
    assert afterPath == [] || afterPath[0] in "?#";
    QuerySplit(u.query, fragmentPart);
    PathSplit(u.path, afterPath);
    AfterPathStarts(u.authority, u.path, afterPath);
    AuthoritySplit(u.authority, afterAuthority);
    if u.scheme.None? {
      if u.authority.Some? {
        ScanIs(afterScheme, ":/?#", 0);
      } else {
        SchemeInPath(u.path, afterPath);
      }
    }
    if u.fragment.Some? {
      assert fragmentPart[1..] == u.fragment.value;
    }
  }

  /** The parse of a string whose splits are known. */
  lemma ParseOf(s: string, scheme: Option<string>, r1: string, authority: Option<string>, r2: string,
                path: string, r3: string, query: Option<string>, r4: string, fragment: Option<string>)
    requires SplitScheme(s) == (scheme, r1)
    requires SplitAuthority(r1) == (authority, r2)
    requires SplitPath(r2) == (path, r3)
    requires SplitQuery(r3) == (query, r4)
    requires SplitFragment(r4) == fragment
    ensures Parse(s) == UriRef(scheme, authority, path, query, fragment)
  {
  }

  /** A path `URI::HTTP.build` accepts: empty, or absolute (starting with `/`). */
  predicate RootedOrEmpty(path: string)
  {
    path == [] || path[0] == '/'
  }

  /**
   * A URI that `URI.parse` keeps opaque: a scheme, no authority and a path
   * not starting with `/` (`urn:x?y`). Ruby stores its path and query
   * together as the opaque part and reports no query.
   */
  predicate IsOpaque(u: UriRef)
  {
    u.scheme.Some? && u.authority.None? && !RootedOrEmpty(u.path)
  }

  /** The `query` of Ruby's URI object: the split's query, except that an opaque URI has none. */
  function QueryOf(u: UriRef): (r: Option<string>)
    ensures r.None? <==> u.query.None? || IsOpaque(u)
    ensures r.Some? ==> r == u.query
  {
    if IsOpaque(u) then None else u.query
  }

  /** A prefix starts with what the whole starts with. */
  lemma PrefixStart(s: string, p: string, r: string)
    requires s == p + r
    ensures p != [] ==> p[0] == s[0]
    ensures |p| >= 2 ==> p[..2] == s[..2]
  {
  }

  /** A string cut into five consecutive pieces is their concatenation. */
  lemma Reassemble(s: string, a: string, s1: string, b: string, s2: string, c: string, s3: string, d: string, e: string)
    requires s == a + s1 && s1 == b + s2 && s2 == c + s3 && s3 == d + e
    ensures a + b + c + d + e == s
  {
  }

  /**
   * The `host` of an authority `[userinfo "@"] host [":" port]`: an IP
   * literal keeps its brackets; any other host runs up to the port's `:`.
   */
  function Host(authority: string): (r: string)
    ensures NoneOf(authority, "/?#") ==> NoneOf(r, "/?#")
    ensures r == [] || r[0] != '[' ==> NoneOf(r, ":")
  {
    HostOfHostPort(AfterUserinfo(authority))
  }

  /** What follows the userinfo's `@`, or the whole authority when there is none. */
  function AfterUserinfo(authority: string): (r: string)
    ensures NoneOf(authority, "/?#") ==> NoneOf(r, "/?#")
  {
    var at := Scan(authority, "@");
    if at < |authority| then authority[at + 1..] else authority
  }

  /** The host at the front of `host [":" port]`. */
  function HostOfHostPort(hostPort: string): (r: string)
    ensures NoneOf(hostPort, "/?#") ==> NoneOf(r, "/?#")
    ensures r == [] || r[0] != '[' ==> NoneOf(r, ":")
  {
    if hostPort != [] && hostPort[0] == '[' then
      var close := Scan(hostPort, "]");
      if close < |hostPort| then hostPort[..close + 1] else hostPort
    else
      hostPort[..Scan(hostPort, ":")]
  }

  /** A host as the grammar allows it: a bracketed IP literal, or a name or address without `:`, `@` or brackets. */
  predicate IsHost(h: string)
  {
    NoneOf(h, "/?#@")
    && if h != [] && h[0] == '[' then |h| >= 2 && h[|h| - 1] == ']' && NoneOf(h[..|h| - 1], "]")
       else NoneOf(h, ":[]")
  }

  /** A port: decimal digits. */
  predicate IsPort(p: string)
  {
    forall i :: 0 <= i < |p| ==> '0' <= p[i] <= '9'
  }

  /** The authority written out from its parts. */
  function Authority(userinfo: Option<string>, host: string, port: Option<string>): string
  {
    (if userinfo.Some? then userinfo.value + "@" else "") + host + (if port.Some? then ":" + port.value else "")
  }

  /** `Host` picks the host back out of an authority, whatever userinfo and port surround it. */
  lemma HostOfAuthority(userinfo: Option<string>, host: string, port: Option<string>)
    requires userinfo.Some? ==> NoneOf(userinfo.value, "@")
    requires IsHost(host)
    requires port.Some? ==> IsPort(port.value)
    ensures Host(Authority(userinfo, host, port)) == host
  {
    var tail := if port.Some? then ":" + port.value else "";
    var front := if userinfo.Some? then userinfo.value + "@" else "";
    HostHasNoAt(host);
    HostPortHasNoAt(host, port);
    UserinfoSkipped(userinfo, host + tail);
    AuthorityParts(front, host, tail);
    HostBeforePort(host, tail);
  }

  lemma HostHasNoAt(host: string)
    requires IsHost(host)
    ensures NoneOf(host, "@")
  {
    forall i | 0 <= i < |host| ensures host[i] != '@' {
      assert host[i] !in "/?#@";
    }
  }

  lemma AuthorityParts(front: string, host: string, tail: string)
    ensures front + host + tail == front + (host + tail)
  {
  }

  lemma HostPortHasNoAt(host: string, port: Option<string>)
    requires NoneOf(host, "@")
    requires port.Some? ==> IsPort(port.value)
    ensures NoneOf(host + (if port.Some? then ":" + port.value else ""), "@")
  {
    var tail := if port.Some? then ":" + port.value else "";
    forall i | 0 <= i < |host + tail| ensures (host + tail)[i] != '@' {
      if i >= |host| { assert (host + tail)[i] == tail[i - |host|]; }
    }
  }

  lemma UserinfoSkipped(userinfo: Option<string>, hostPort: string)
    requires userinfo.Some? ==> NoneOf(userinfo.value, "@")
    requires NoneOf(hostPort, "@")
    ensures AfterUserinfo((if userinfo.Some? then userinfo.value + "@" else "") + hostPort) == hostPort
  {
    if userinfo.Some? {
      var u := userinfo.value;
      var a := u + "@" + hostPort;
      assert a == u + ("@" + hostPort);
      ScanPast(u, "@" + hostPort, "@");
      assert a[|u| + 1..] == hostPort;
    } else {
      ScanIs(hostPort, "@", |hostPort|);
    }
  }

  lemma HostBeforePort(host: string, tail: string)
    requires IsHost(host)
    requires tail == [] || tail[0] == ':'
    ensures HostOfHostPort(host + tail) == host
  {
    if host != [] && host[0] == '[' {
      BracketedHostBeforePort(host, tail);
    } else {
      PlainHostBeforePort(host, tail);
    }
  }

  lemma BracketedHostBeforePort(host: string, tail: string)
    requires |host| >= 2 && host[0] == '[' && host[|host| - 1] == ']' && NoneOf(host[..|host| - 1], "]")
    ensures HostOfHostPort(host + tail) == host
  {
    var hostPort := host + tail;
    var body := host[..|host| - 1];
    assert host == body + "]";
    assert hostPort == body + ("]" + tail);
    ScanPast(body, "]" + tail, "]");
    assert hostPort[..|body| + 1] == host;
  }

  lemma PlainHostBeforePort(host: string, tail: string)
    requires (host == [] || host[0] != '[') && NoneOf(host, ":")
    requires tail == [] || tail[0] == ':'
    ensures HostOfHostPort(host + tail) == host
  {
    var hostPort := host + tail;
    ScanPast(host, tail, ":");
    ScanIs(tail, ":", 0);
    assert hostPort[..|host|] == host;
  }

  /** `URI::Generic#set_scheme` lower-cases the scheme. */
  function LowerScheme(scheme: Option<string>): Option<string>
  {
    if scheme.Some? then Some(Lower(scheme.value)) else None
  }

  /** Schemes Ruby prints with `//` even when there is no host. */
  predicate AlwaysSlashes(scheme: Option<string>)
  {
    scheme == Some("file") || scheme == Some("postgres")
  }

  /**
   * `URI::HTTP.build(host:, path:, query:)`, its scheme then replaced, printed
   * by `to_s`: no userinfo, no port (the default port 80 of `URI::HTTP` is
   * never printed) and no fragment.
   */
  function Build(scheme: Option<string>, host: Option<string>, path: string, query: Option<string>): (r: string)
    ensures var s := LowerScheme(scheme);
      var authority := if host.Some? then host else if AlwaysSlashes(s) then Some("") else None;
      r == Recompose(UriRef(s, authority, path, query, None))
  {
    var s := LowerScheme(scheme);
    (if s.Some? then s.value + ":" else "")
    + (if host.Some? || AlwaysSlashes(s) then "//" else "")
    + (if host.Some? then host.value else "")
    + path
    + (if query.Some? then "?" + query.value else "")
  }

  /** Lower-casing keeps a scheme non-empty and free of `:/?#`. */
  lemma LowerKeepsScheme(s: string)
    requires s != [] && NoneOf(s, ":/?#")
    ensures Lower(s) != [] && NoneOf(Lower(s), ":/?#")
  {
  }

  /** Components that print and parse back unchanged. */
  predicate Printable(scheme: Option<string>, host: Option<string>, path: string, query: Option<string>)
  {
    && (scheme.None? && host.None? ==> RootedOrEmpty(path))
    && (scheme.Some? ==> scheme.value != [] && NoneOf(scheme.value, ":/?#"))
    && (host.Some? ==> NoneOf(host.value, "/?#"))
    && NoneOf(path, "?#")
    && (host.Some? ==> path == [] || path[0] == '/')
    && (host.None? ==> !AlwaysSlashes(LowerScheme(scheme)) && !(|path| >= 2 && path[..2] == "//"))
    && (query.Some? ==> NoneOf(query.value, "#"))
  }

  /**
   * Parsing the printed URL gives back what was built: the lower-cased scheme,
   * the host as the whole authority, the path and the query, and no fragment.
   */
  lemma ParseBuild(scheme: Option<string>, host: Option<string>, path: string, query: Option<string>)
    requires Printable(scheme, host, path, query)
    ensures Parse(Build(scheme, host, path, query)) == UriRef(LowerScheme(scheme), host, path, query, None)
  {
    var u := UriRef(LowerScheme(scheme), host, path, query, None);
    if scheme.Some? { LowerKeepsScheme(scheme.value); }
    if scheme.None? && host.None? && path != [] {
      ScanIs(path, ":/?#", 0);
    }
    assert Build(scheme, host, path, query) == Recompose(u);
    ParseRecomposed(u);
  }

  lemma Regroup(a: string, b: string, c: string, d: string, e: string)
    ensures a + b + c + d + e == a + (b + (c + (d + e)))
  {
  }

  /** What follows the host starts where the split expects it to. */
  lemma AfterPathStarts(host: Option<string>, path: string, q: string)
    requires host.Some? ==> path == [] || path[0] == '/'
    requires host.None? ==> !(|path| >= 2 && path[..2] == "//")
    requires q == [] || q[0] in "?#"
    ensures host.Some? ==> path + q == [] || (path + q)[0] in "/?#"
    ensures RootedOrEmpty(path) ==> path + q == [] || (path + q)[0] in "/?#"
    ensures host.None? ==> !(|path + q| >= 2 && (path + q)[..2] == "//")
  {
    if |path + q| >= 2 && |path| < 2 && path != [] {
      assert (path + q)[1] == q[0];
    }
    if |path + q| >= 2 && |path| >= 2 {
      assert (path + q)[..2] == path[..2];
    }
  }

  lemma SchemeSplit(scheme: Option<string>, rest: string)
    requires scheme.Some? ==> scheme.value != [] && NoneOf(scheme.value, ":/?#")
    requires scheme.None? ==> !StartsWithScheme(rest)
    ensures SplitScheme((if scheme.Some? then scheme.value + ":" else "") + rest) == (scheme, rest)
  {
    if scheme.Some? {
      NamedSchemeSplit(scheme.value, rest);
    } else {
      assert "" + rest == rest;
    }
  }

  lemma NamedSchemeSplit(name: string, rest: string)
    requires name != [] && NoneOf(name, ":/?#")
    ensures SplitScheme(name + ":" + rest) == (Some(name), rest)
  {
    var s := name + ":" + rest;
    assert s == name + (":" + rest);
    ScanIs(":" + rest, ":/?#", 0);
    ScanPast(name, ":" + rest, ":/?#");
    assert s[|name|] == ':';
    assert s[..|name|] == name;
    assert s[|name| + 1..] == rest;
  }

  lemma AuthoritySplit(host: Option<string>, rest: string)
    requires host.Some? ==> NoneOf(host.value, "/?#") && (rest == [] || rest[0] in "/?#")
    requires host.None? ==> !(|rest| >= 2 && rest[..2] == "//")
    ensures SplitAuthority((if host.Some? then "//" + host.value else "") + rest) == (host, rest)
  {
    if host.Some? {
      var h := host.value;
      var s := "//" + h + rest;
      var t := s[2..];
      assert s[..2] == "//";
      assert t == h + rest;
      ScanPast(h, rest, "/?#");
      ScanIs(rest, "/?#", 0);
      assert Scan(t, "/?#") == |h|;
      assert t[..|h|] == h;
      assert t[|h|..] == rest;
      assert SplitAuthority(s) == (Some(h), rest);
    } else {
      assert "" + rest == rest;
    }
  }

  lemma PathSplit(path: string, rest: string)
    requires NoneOf(path, "?#") && (rest == [] || rest[0] in "?#")
    ensures SplitPath(path + rest) == (path, rest)
  {
    ScanPast(path, rest, "?#");
    ScanIs(rest, "?#", 0);
    assert (path + rest)[..|path|] == path;
    assert (path + rest)[|path|..] == rest;
  }

  lemma QuerySplit(query: Option<string>, fragmentPart: string)
    requires query.Some? ==> NoneOf(query.value, "#")
    requires fragmentPart == [] || fragmentPart[0] == '#'
    ensures SplitQuery((if query.Some? then "?" + query.value else "") + fragmentPart) == (query, fragmentPart)
  {
    if query.Some? {
      var q := query.value;
      var s := "?" + q + fragmentPart;
      assert s[1..] == q + fragmentPart;
      ScanPast(q, fragmentPart, "#");
      if fragmentPart != [] {
        ScanIs(fragmentPart, "#", 0);
      }
      assert (q + fragmentPart)[..|q|] == q;
      assert (q + fragmentPart)[|q|..] == fragmentPart;
    } else {
      assert "" + fragmentPart == fragmentPart;
    }
  }

  /** `name:path?query` with a path not starting with `/` splits into a scheme, that path and that query. */
  lemma OpaqueSplit(name: string, path: string, query: string)
    requires name != [] && NoneOf(name, ":/?#")
    requires path != [] && path[0] != '/' && NoneOf(path, "?#")
    requires NoneOf(query, "#")
    ensures Parse(name + ":" + path + "?" + query) == UriRef(Some(name), None, path, Some(query), None)
  {
    var u := UriRef(Some(name), None, path, Some(query), None);
    assert Recompose(u) == name + ":" + path + "?" + query;
    ParseRecomposed(u);
  }

  /** `path?query` with a path holding no `:` and not starting with `/` is a relative reference. */
  lemma RelativeSplit(path: string, query: string)
    requires path != [] && path[0] != '/' && NoneOf(path, ":?#")
    requires NoneOf(query, "#")
    ensures Parse(path + "?" + query) == UriRef(None, None, path, Some(query), None)
  {
    var u := UriRef(None, None, path, Some(query), None);
    var i := Scan(path, ":/?#");
    assert i < |path| ==> path[i] != ':';
    assert Recompose(u) == path + "?" + query;
    ParseRecomposed(u);
  }
}
