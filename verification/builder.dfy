/**
 * The OpenURL request builder (`UmdOpenUrl::Builder`).
 *
 * The five named setters write the journal keys of the OpenURL key/encoded-value
 * format of ANSI/NISO Z39.88-2004 (metadata format info:ofi/fmt:kev:mtx:journal);
 * `CustomParam` writes any key. Values are interpolated verbatim: the source
 * deliberately does no percent-encoding, and neither does the model.
 */
module OpenUrlBuilder {
  import opened Wrappers
  import opened Strings
  import opened OrderedMaps

  const IssnKey := "rft.issn"
  const VolumeKey := "rft.volume"
  const IssueKey := "rft.issue"
  const StartPageKey := "rft.spage"
  const DateKey := "rft.date"

  /** A parameter value. `None` is Ruby's `nil`: it is stored like any other value. */
  type Value = Option<string>

  /** String interpolation of a value: `nil` becomes the empty string. */
  function Text(v: Value): string
  {
    match v
    case None => ""
    case Some(s) => s
  }

  /** One rendered parameter, `k=v`. */
  function Pair(k: string, v: Value): string
  {
    k + "=" + Text(v)
  }

  function Pairs(ps: Entries<Value>): seq<string>
  {
    seq(|ps|, i requires 0 <= i < |ps| => Pair(ps[i].0, ps[i].1))
  }

  /** The parameters as `k=v` joined by `&`, in insertion order. */
  function QueryString(ps: Entries<Value>): string
  {
    Join("&", Pairs(ps))
  }

  /**
   * Every stored key appears in the rendered query as a whole `&`-delimited
   * segment `k=v` carrying its current value; a key whose value is `nil`
   * appears as the bare segment `k=`.
   */
  lemma EntryRendered(ps: Entries<Value>, k: string) returns (pre: string, post: string)
    requires k in Keys(ps)
    ensures QueryString(ps) == pre + Pair(k, Get(ps, k).value) + post
    ensures Get(ps, k) == Some(None) ==> QueryString(ps) == pre + k + "=" + post
    ensures pre == "" || pre[|pre| - 1] == '&'
    ensures post == "" || post[0] == '&'
  {
    var i := IndexOf(ps, k);
    var ss := Pairs(ps);
    assert ss[i] == Pair(k, Get(ps, k).value);
    pre, post := JoinAt("&", ss, i);
    if Get(ps, k) == Some(None) {
      assert Pair(k, None) == k + "=";
      assert pre + (k + "=") + post == pre + k + "=" + post;
    }
  }

  /** `builder` changed `k` to `v` and nothing else. */
  ghost predicate Assigned(before: Entries<Value>, after: Entries<Value>, k: string, v: Value)
  {
    && after == Put(before, k, v)
    && Get(after, k) == Some(v)
    && (forall k' :: k' != k ==> Get(after, k') == Get(before, k'))
    && Keys(after) == (if k in Keys(before) then Keys(before) else Keys(before) + [k])
  }

  class Builder {
    var resolverUrl: string
    var params: Entries<Value>

    /** The parameter map never holds a key twice. */
    ghost predicate Valid()
      reads this
    {
      UniqueKeys(params)
    }

    constructor (resolverUrl: string)
      ensures Valid()
      ensures this.resolverUrl == resolverUrl && params == []
    {
      this.resolverUrl := resolverUrl;
      params := [];
    }

    /** `@params_map[k] = v`, shared by every setter. */
    method Assign(k: string, v: Value)
      requires Valid()
      modifies this
      ensures Valid() && resolverUrl == old(resolverUrl)
      ensures params == Put(old(params), k, v)
      ensures Assigned(old(params), params, k, v)
    {
      PutSemantics(params, k, v);
      params := Put(params, k, v);
    }

    method Issn(issn: Value) returns (b: Builder)
      requires Valid()
      modifies this
      ensures b == this && Valid() && resolverUrl == old(resolverUrl)
      ensures params == Put(old(params), IssnKey, issn)
    {
      Assign(IssnKey, issn);
      b := this;
    }

    method Volume(volume: Value) returns (b: Builder)
      requires Valid()
      modifies this
      ensures b == this && Valid() && resolverUrl == old(resolverUrl)
      ensures params == Put(old(params), VolumeKey, volume)
    {
      Assign(VolumeKey, volume);
      b := this;
    }

    method Issue(issueNumber: Value) returns (b: Builder)
      requires Valid()
      modifies this
      ensures b == this && Valid() && resolverUrl == old(resolverUrl)
      ensures params == Put(old(params), IssueKey, issueNumber)
    {
      Assign(IssueKey, issueNumber);
      b := this;
    }

    method StartPage(startPage: Value) returns (b: Builder)
      requires Valid()
      modifies this
      ensures b == this && Valid() && resolverUrl == old(resolverUrl)
      ensures params == Put(old(params), StartPageKey, startPage)
    {
      Assign(StartPageKey, startPage);
      b := this;
    }

    method PublicationDate(publicationDate: Value) returns (b: Builder)
      requires Valid()
      modifies this
      ensures b == this && Valid() && resolverUrl == old(resolverUrl)
      ensures params == Put(old(params), DateKey, publicationDate)
    {
      Assign(DateKey, publicationDate);
      b := this;
    }

    /** Stores `paramValue` under `paramName` exactly as given. */
    method CustomParam(paramName: string, paramValue: Value) returns (b: Builder)
      requires Valid()
      modifies this
      ensures b == this && Valid() && resolverUrl == old(resolverUrl)
      ensures params == Put(old(params), paramName, paramValue)
    {
      Assign(paramName, paramValue);
      b := this;
    }

    /**
     * The OpenURL: the resolver URL, `?`, then the parameters. It changes
     * nothing, so two calls in a row give the same string, and it is the
     * unredacted URL (only the log copy is redacted; the log is not modelled).
     */
    method Build() returns (url: string)
      ensures url == resolverUrl + "?" + QueryString(params)
      ensures |url| > |resolverUrl| && url[..|resolverUrl|] == resolverUrl
      ensures params == [] ==> url == resolverUrl + "?"
    {
      url := resolverUrl + "?" + QueryString(params);
      assert url == resolverUrl + ("?" + QueryString(params));
    }
  }

  // The debug-log copy of the URL.

  /** The regex literal `wskey=` starts at `p`. */
  predicate OccursAt(s: string, p: nat)
  {
    p + 6 <= |s| && s[p..p + 6] == "wskey="
  }

  /**
   * Where `/wskey=.*?&/` matches when tried at `p`: the index of the `&`
   * that closes the shortest match. Ruby's `.` does not match a newline.
   */
  function MatchEndAt(s: string, p: nat): (r: Option<nat>)
    ensures r.Some? ==> OccursAt(s, p) && p + 6 <= r.value < |s| && s[r.value] == '&'
    ensures r.Some? ==> forall j :: p + 6 <= j < r.value ==> s[j] != '&' && s[j] != '\n'
    ensures r.None? && OccursAt(s, p) ==> forall j :: p + 6 <= j < |s| && s[j] == '&' ==> '\n' in s[p + 6..j]
  {
    if OccursAt(s, p) then
      var q := p + 6 + Scan(s[p + 6..], "&\n");
      assert forall j :: p + 6 <= j < q ==> s[j] == s[p + 6..][j - (p + 6)];
      if q < |s| && s[q] == '&' then Some(q)
      else
        assert forall j :: p + 6 <= j < |s| && s[j] == '&' ==> q < j && s[q] == '\n' && s[p + 6..j][q - (p + 6)] == '\n';
        None
    else None
  }

  /** The regex matches at `p` and at no earlier position. */
  predicate LeftmostMatch(s: string, p: nat)
  {
    p <= |s| && MatchEndAt(s, p).Some? && forall q :: 0 <= q < p ==> MatchEndAt(s, q).None?
  }

  /** The position `FirstMatch` finds from the start is the one leftmost match. */
  lemma FirstMatchLeftmost(s: string)
    ensures (forall p :: 0 <= p <= |s| ==> MatchEndAt(s, p).None?) ==> FirstMatch(s, 0).None?
    ensures forall p: nat :: LeftmostMatch(s, p) ==> FirstMatch(s, 0) == Some(p)
  {
  }

  /** The leftmost position at or after `p` where the regex matches. */
  function FirstMatch(s: string, p: nat): (r: Option<nat>)
    requires p <= |s|
    decreases |s| - p
    ensures r.Some? ==> p <= r.value <= |s| && MatchEndAt(s, r.value).Some?
    ensures r.Some? ==> forall p' :: p <= p' < r.value ==> MatchEndAt(s, p').None?
    ensures r.None? ==> forall p' :: p <= p' <= |s| ==> MatchEndAt(s, p').None?
  {
    if MatchEndAt(s, p).Some? then Some(p)
    else if p == |s| then None
    else FirstMatch(s, p + 1)
  }

  /**
   * The copy of the URL written to the debug log, as the source computes it:
   * `url.sub(/wskey=.*?&/, "wskey=###&")`.
   */
  function LoggedUrl(url: string): (r: string)
    ensures (forall p :: 0 <= p <= |url| ==> MatchEndAt(url, p).None?) ==> r == url
    ensures forall p: nat :: LeftmostMatch(url, p) ==> r == url[..p] + "wskey=###&" + url[MatchEndAt(url, p).value + 1..]
  {
    FirstMatchLeftmost(url);
    match FirstMatch(url, 0)
    case None => url
    case Some(p) => Masked(url, p, MatchEndAt(url, p).value)
  }

  /** `url` with its characters from `p` through the `&` at `e` replaced by `wskey=###&`. */
  function Masked(url: string, p: nat, e: nat): string
    requires p <= e < |url|
  {
    url[..p] + "wskey=###&" + url[e + 1..]
  }

  /** The literal written after `pre` occurs right after it. */
  lemma OccursAfter(pre: string, rest: string)
    ensures OccursAt(pre + "wskey=" + rest, |pre|)
    ensures pre + "wskey=" + rest == pre + ("wskey=" + rest)
  {
    var s := pre + "wskey=" + rest;
    assert s[|pre|..|pre| + 6] == "wskey=";
  }

  /** A `wskey=` whose value is followed by `&` matches, and the match closes at that `&`. */
  lemma MatchClosesAtSeparator(pre: string, secret: string, post: string)
    requires '&' !in secret && '\n' !in secret
    requires post != [] && post[0] == '&'
    ensures MatchEndAt(pre + "wskey=" + secret + post, |pre|) == Some(|pre| + 6 + |secret|)
  {
    var s := pre + "wskey=" + secret + post;
    var n := |pre|;
    assert s[n..n + 6] == "wskey=";
    assert s[n + 6..] == secret + post;
    ScanPast(secret, post, "&\n");
    ScanIs(post, "&\n", 0);
    assert s[n + 6 + |secret|] == post[0];
  }

  /**
   * When `wskey` is followed by another parameter, the log copy hides its value:
   * the first `wskey=<value>&` becomes `wskey=###&`.
   */
  lemma LoggedUrlHidesFollowedSecret(pre: string, secret: string, post: string)
    requires '&' !in secret && '\n' !in secret
    requires post != [] && post[0] == '&'
    requires forall p :: 0 <= p < |pre| ==> !OccursAt(pre + "wskey=" + secret + post, p)
    ensures LoggedUrl(pre + "wskey=" + secret + post) == pre + "wskey=###" + post
  {
    var s := pre + "wskey=" + secret + post;
    MatchClosesAtSeparator(pre, secret, post);
    NoMatchBefore(s, |pre|);
    FirstMatchIs(s, 0, |pre|);
    LoggedUrlAt(s, |pre|);
    SpliceFollowed(pre, secret, post);
  }

  /** No match can start where the literal `wskey=` does not. */
  lemma NoMatchBefore(s: string, n: nat)
    requires forall p :: 0 <= p < n ==> !OccursAt(s, p)
    ensures forall p :: 0 <= p < n ==> MatchEndAt(s, p).None?
  {
  }

  /** The regex matches first at `n` when it matches there and nowhere from `p` on before it. */
  lemma {:induction false} FirstMatchIs(s: string, p: nat, n: nat)
    requires p <= n <= |s| && MatchEndAt(s, n).Some?
    requires forall q :: p <= q < n ==> MatchEndAt(s, q).None?
    ensures FirstMatch(s, p) == Some(n)
    decreases n - p
  {
    if p < n {
      FirstMatchIs(s, p + 1, n);
    }
  }

  /** The log copy when the regex matches first at `n`. */
  lemma LoggedUrlAt(s: string, n: nat)
    requires n <= |s| && FirstMatch(s, 0) == Some(n)
    ensures LoggedUrl(s) == Masked(s, n, MatchEndAt(s, n).value)
  {
  }

  /** Replacing `wskey=<secret>&` by `wskey=###&` keeps what is around it. */
  lemma SpliceFollowed(pre: string, secret: string, post: string)
    requires post != [] && post[0] == '&'
    ensures var s := pre + "wskey=" + secret + post;
      Masked(s, |pre|, |pre| + 6 + |secret|) == pre + "wskey=###" + post
  {
    var s := pre + "wskey=" + secret + post;
    assert s[..|pre|] == pre;
    assert s[|pre| + 6 + |secret| + 1..] == post[1..];
    assert post == "&" + post[1..];
  }

  /**
   * When `wskey` is the last parameter, no `&` follows its value, the regex
   * finds no match and the log copy shows the secret unchanged.
   */
  lemma LoggedUrlLeaksLastSecret(pre: string, secret: string)
    requires '&' !in secret
    requires forall p :: 0 <= p < |pre| ==> !OccursAt(pre + "wskey=" + secret, p)
    ensures LoggedUrl(pre + "wskey=" + secret) == pre + "wskey=" + secret
  {
    var s := pre + "wskey=" + secret;
    forall p | |pre| <= p <= |s| ensures MatchEndAt(s, p).None? {
      assert forall j :: p + 6 <= j < |s| ==> s[j] == secret[j - |pre| - 6];
    }
  }

  /**
   * The evidently intended redaction: `wskey=` and the run of non-`&`
   * characters after it become `wskey=###`, so the value of the first `wskey` parameter is replaced whether or not
   * another parameter follows it.
   */
  function RedactedUrl(url: string): (r: string)
    ensures (forall p :: 0 <= p <= |url| ==> !OccursAt(url, p)) ==> r == url
    ensures forall p: nat :: LeftmostOccurrence(url, p) ==> r == url[..p] + "wskey=###" + url[ValueEnd(url, p)..]
  {
    FirstOccurrenceLeftmost(url);
    match FirstOccurrence(url, 0)
    case None => url
    case Some(p) => Redacted(url, p)
  }

  /** `url` with the value of the `wskey=` at `p` replaced by `###`. */
  function Redacted(url: string, p: nat): string
    requires OccursAt(url, p)
  {
    url[..p] + "wskey=###" + url[ValueEnd(url, p)..]
  }

  /** Where the value after the `wskey=` at `p` ends: at the next `&`, or at the end of the URL. */
  function ValueEnd(url: string, p: nat): (e: nat)
    requires OccursAt(url, p)
    ensures p + 6 <= e <= |url| && '&' !in url[p + 6..e]
    ensures e == |url| || url[e] == '&'
  {
    var e := p + 6 + Scan(url[p + 6..], "&");
    assert url[p + 6..e] == url[p + 6..][..e - (p + 6)];
    e
  }

  /** `wskey=` occurs at `p` and at no earlier position. */
  predicate LeftmostOccurrence(s: string, p: nat)
  {
    OccursAt(s, p) && forall q :: 0 <= q < p ==> !OccursAt(s, q)
  }

  /** The position `FirstOccurrence` finds from the start is the one leftmost occurrence. */
  lemma FirstOccurrenceLeftmost(s: string)
    ensures (forall p :: 0 <= p <= |s| ==> !OccursAt(s, p)) ==> FirstOccurrence(s, 0).None?
    ensures forall p: nat :: LeftmostOccurrence(s, p) ==> FirstOccurrence(s, 0) == Some(p)
  {
  }

  /** The leftmost occurrence of `wskey=` at or after `p`. */
  function FirstOccurrence(s: string, p: nat): (r: Option<nat>)
    requires p <= |s|
    decreases |s| - p
    ensures r.Some? ==> p <= r.value && OccursAt(s, r.value)
    ensures r.Some? ==> forall p' :: p <= p' < r.value ==> !OccursAt(s, p')
    ensures r.None? ==> forall p' :: p <= p' <= |s| ==> !OccursAt(s, p')
  {
    if OccursAt(s, p) then Some(p)
    else if p == |s| then None
    else FirstOccurrence(s, p + 1)
  }

  /** The corrected redaction hides the secret in both positions, including the last. */
  lemma RedactedUrlHidesSecret(pre: string, secret: string, post: string)
    requires '&' !in secret
    requires post == [] || post[0] == '&'
    requires forall p :: 0 <= p < |pre| ==> !OccursAt(pre + "wskey=" + secret + post, p)
    ensures RedactedUrl(pre + "wskey=" + secret + post) == pre + "wskey=###" + post
  {
    var s := pre + "wskey=" + secret + post;
    OccursAfter(pre, secret + post);
    FirstOccurrenceIs(s, 0, |pre|);
    RedactedSplice(pre, secret, post);
  }

  /** The literal occurs first at `n` when it occurs there and nowhere from `p` on before it. */
  lemma {:induction false} FirstOccurrenceIs(s: string, p: nat, n: nat)
    requires p <= n <= |s| && OccursAt(s, n)
    requires forall q :: p <= q < n ==> !OccursAt(s, q)
    ensures FirstOccurrence(s, p) == Some(n)
    decreases n - p
  {
    if p < n {
      FirstOccurrenceIs(s, p + 1, n);
    }
  }

  /** Replacing the value after `wskey=` by `###` keeps what is around it. */
  lemma RedactedSplice(pre: string, secret: string, post: string)
    requires '&' !in secret
    requires post == [] || post[0] == '&'
    requires OccursAt(pre + "wskey=" + secret + post, |pre|)
    ensures Redacted(pre + "wskey=" + secret + post, |pre|) == pre + "wskey=###" + post
  {
    var s := pre + "wskey=" + secret + post;
    var n := |pre|;
    assert s[n + 6..] == secret + post;
    ScanPast(secret, post, "&");
    ScanIs(post, "&", 0);
    assert s[..n] == pre;
    assert s[n + 6 + |secret|..] == post;
  }
}
