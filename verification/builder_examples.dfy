/** The repository's two builder examples, checked against the Builder's contracts. */
module BuilderExamples {
  import opened Wrappers
  import opened Strings
  import opened OrderedMaps
  import opened OpenUrlBuilder

  /** Ruby's `nil` as a parameter value. */
  const Nil: Value := None

  /** The journal keys are pairwise distinct (those of equal length differ at their fifth character). */
  lemma KeysDistinct()
    ensures StartPageKey != IssueKey && DateKey != IssnKey
  {
    assert StartPageKey[4] != IssueKey[4];
    assert DateKey[4] != IssnKey[4];
  }

  /** Setting the volume after the issn appends it. */
  lemma VolumeAppended(issn: Value, volume: Value)
    ensures Put([(IssnKey, issn)], VolumeKey, volume) == [(IssnKey, issn), (VolumeKey, volume)]
  {
    assert VolumeKey[4] != IssnKey[4];
  }

  /** Setting the issue after issn and volume appends it. */
  lemma IssueAppended(issn: Value, volume: Value, issue: Value)
    ensures Put([(IssnKey, issn), (VolumeKey, volume)], IssueKey, issue)
         == [(IssnKey, issn), (VolumeKey, volume), (IssueKey, issue)]
  {
    assert IssueKey[7] != IssnKey[7];
    assert IssueKey[4] != VolumeKey[4];
  }

  /** Setting the start page after issn, volume and issue appends it. */
  lemma StartPageAppended(issn: Value, volume: Value, issue: Value, page: Value)
    ensures Put([(IssnKey, issn), (VolumeKey, volume), (IssueKey, issue)], StartPageKey, page)
         == [(IssnKey, issn), (VolumeKey, volume), (IssueKey, issue), (StartPageKey, page)]
  {
    KeysDistinct();
  }

  /** Setting the date after the four other journal keys appends it. */
  lemma DateAppended(issn: Value, volume: Value, issue: Value, page: Value, date: Value)
    ensures Put([(IssnKey, issn), (VolumeKey, volume), (IssueKey, issue), (StartPageKey, page)], DateKey, date)
         == [(IssnKey, issn), (VolumeKey, volume), (IssueKey, issue), (StartPageKey, page), (DateKey, date)]
  {
    KeysDistinct();
  }

  /** A custom `wskey` after the five journal keys is appended last. */
  lemma WskeyAppended(issn: Value, volume: Value, issue: Value, page: Value, date: Value, key: Value)
    ensures Put([(IssnKey, issn), (VolumeKey, volume), (IssueKey, issue), (StartPageKey, page), (DateKey, date)], "wskey", key)
         == [(IssnKey, issn), (VolumeKey, volume), (IssueKey, issue), (StartPageKey, page), (DateKey, date), ("wskey", key)]
  {
    assert "wskey"[0] != IssnKey[0];
  }

  /** The URL of a single parameter: the base, `?` and its pair. */
  lemma UrlFirst(base: string, k: string, v: Value, text: string)
    requires text == base + "?" + k + "=" + Text(v)
    ensures base + "?" + QueryString([(k, v)]) == text
  {
  }

  /** Appending a parameter appends `&` and its pair to the URL. */
  lemma UrlNext(base: string, ps: Entries<Value>, k: string, v: Value, prev: string, text: string)
    requires ps != [] && base + "?" + QueryString(ps) == prev
    requires text == prev + "&" + k + "=" + Text(v)
    ensures base + "?" + QueryString(ps + [(k, v)]) == text
  {
    assert Pairs(ps + [(k, v)]) == Pairs(ps) + [Pair(k, v)];
    JoinAppend("&", Pairs(ps), [Pair(k, v)]);
  }

  /** The builder example's URL after its first two parameters. */
  lemma ExampleUpTo2()
    ensures "http://example.com" + "?" + QueryString([(IssnKey, Some("1234-4567")), (VolumeKey, Some("1"))])
         == "http://example.com?rft.issn=1234-4567&rft.volume=1"
  {
    UrlFirst("http://example.com", IssnKey, Some("1234-4567"), "http://example.com?rft.issn=1234-4567");
    UrlNext("http://example.com",
            [(IssnKey, Some("1234-4567"))],
            VolumeKey, Some("1"),
            "http://example.com?rft.issn=1234-4567",
            "http://example.com?rft.issn=1234-4567&rft.volume=1");
    assert [(IssnKey, Some("1234-4567"))] + [(VolumeKey, Some("1"))]
        == [(IssnKey, Some("1234-4567")), (VolumeKey, Some("1"))];
  }

  /** The builder example's URL after its first four parameters. */
  lemma ExampleUpTo4()
    ensures "http://example.com" + "?" + QueryString([(IssnKey, Some("1234-4567")), (VolumeKey, Some("1")),
                                                      (IssueKey, Some("4")), (StartPageKey, Some("64"))])
         == "http://example.com?rft.issn=1234-4567&rft.volume=1&rft.issue=4&rft.spage=64"
  {
    ExampleUpTo2();
    UrlNext("http://example.com",
            [(IssnKey, Some("1234-4567")), (VolumeKey, Some("1"))],
            IssueKey, Some("4"),
            "http://example.com?rft.issn=1234-4567&rft.volume=1",
            "http://example.com?rft.issn=1234-4567&rft.volume=1&rft.issue=4");
    assert [(IssnKey, Some("1234-4567")), (VolumeKey, Some("1"))] + [(IssueKey, Some("4"))]
        == [(IssnKey, Some("1234-4567")), (VolumeKey, Some("1")), (IssueKey, Some("4"))];
    UrlNext("http://example.com",
            [(IssnKey, Some("1234-4567")), (VolumeKey, Some("1")), (IssueKey, Some("4"))],
            StartPageKey, Some("64"),
            "http://example.com?rft.issn=1234-4567&rft.volume=1&rft.issue=4",
            "http://example.com?rft.issn=1234-4567&rft.volume=1&rft.issue=4&rft.spage=64");
    assert [(IssnKey, Some("1234-4567")), (VolumeKey, Some("1")), (IssueKey, Some("4"))] + [(StartPageKey, Some("64"))]
        == [(IssnKey, Some("1234-4567")), (VolumeKey, Some("1")), (IssueKey, Some("4")), (StartPageKey, Some("64"))];
  }

  /** The builder example's URL after its first five parameters. */
  lemma ExampleUpTo5()
    ensures "http://example.com" + "?" + QueryString([(IssnKey, Some("1234-4567")), (VolumeKey, Some("1")), (IssueKey, Some("4")),
                                                      (StartPageKey, Some("64")), (DateKey, Some("1988-01-24"))])
         == "http://example.com?rft.issn=1234-4567&rft.volume=1&rft.issue=4&rft.spage=64&rft.date=1988-01-24"
  {
    ExampleUpTo4();
    UrlNext("http://example.com",
            [(IssnKey, Some("1234-4567")), (VolumeKey, Some("1")), (IssueKey, Some("4")), (StartPageKey, Some("64"))],
            DateKey, Some("1988-01-24"),
            "http://example.com?rft.issn=1234-4567&rft.volume=1&rft.issue=4&rft.spage=64",
            "http://example.com?rft.issn=1234-4567&rft.volume=1&rft.issue=4&rft.spage=64&rft.date=1988-01-24");
    assert [(IssnKey, Some("1234-4567")), (VolumeKey, Some("1")), (IssueKey, Some("4")), (StartPageKey, Some("64"))] + [(DateKey, Some("1988-01-24"))]
        == [(IssnKey, Some("1234-4567")), (VolumeKey, Some("1")), (IssueKey, Some("4")), (StartPageKey, Some("64")), (DateKey, Some("1988-01-24"))];
  }

  /** The builder example's URL, written out one parameter at a time. */
  lemma ExampleUrl(ps: Entries<Value>, url: string)
    requires ps == [(IssnKey, Some("1234-4567")), (VolumeKey, Some("1")), (IssueKey, Some("4")),
                    (StartPageKey, Some("64")), (DateKey, Some("1988-01-24")), ("wskey", Some("SECRET_KEY"))]
    requires url == "http://example.com" + "?" + QueryString(ps)
    ensures url == "http://example.com?rft.issn=1234-4567&rft.volume=1&rft.issue=4&rft.spage=64&rft.date=1988-01-24&wskey=SECRET_KEY"
  {
    ExampleUpTo5();
    UrlNext("http://example.com",
            [(IssnKey, Some("1234-4567")), (VolumeKey, Some("1")), (IssueKey, Some("4")), (StartPageKey, Some("64")), (DateKey, Some("1988-01-24"))],
            "wskey", Some("SECRET_KEY"),
            "http://example.com?rft.issn=1234-4567&rft.volume=1&rft.issue=4&rft.spage=64&rft.date=1988-01-24",
            "http://example.com?rft.issn=1234-4567&rft.volume=1&rft.issue=4&rft.spage=64&rft.date=1988-01-24&wskey=SECRET_KEY");
    assert [(IssnKey, Some("1234-4567")), (VolumeKey, Some("1")), (IssueKey, Some("4")), (StartPageKey, Some("64")), (DateKey, Some("1988-01-24"))] + [("wskey", Some("SECRET_KEY"))]
        == ps;
  }

  /** The nil example's URL after its first two parameters. */
  lemma NilUpTo2()
    ensures "http://example.com" + "?" + QueryString([(IssnKey, Nil), (VolumeKey, Nil)])
         == "http://example.com?rft.issn=&rft.volume="
  {
    UrlFirst("http://example.com", IssnKey, Nil, "http://example.com?rft.issn=");
    UrlNext("http://example.com",
            [(IssnKey, Nil)],
            VolumeKey, Nil,
            "http://example.com?rft.issn=",
            "http://example.com?rft.issn=&rft.volume=");
    assert [(IssnKey, Nil)] + [(VolumeKey, Nil)] == [(IssnKey, Nil), (VolumeKey, Nil)];
  }

  /** The nil example's URL after its first four parameters. */
  lemma NilUpTo4()
    ensures "http://example.com" + "?" + QueryString([(IssnKey, Nil), (VolumeKey, Nil),
                                                      (IssueKey, Nil), (StartPageKey, Nil)])
         == "http://example.com?rft.issn=&rft.volume=&rft.issue=&rft.spage="
  {
    NilUpTo2();
    UrlNext("http://example.com",
            [(IssnKey, Nil), (VolumeKey, Nil)],
            IssueKey, Nil,
            "http://example.com?rft.issn=&rft.volume=",
            "http://example.com?rft.issn=&rft.volume=&rft.issue=");
    assert [(IssnKey, Nil), (VolumeKey, Nil)] + [(IssueKey, Nil)]
        == [(IssnKey, Nil), (VolumeKey, Nil), (IssueKey, Nil)];
    UrlNext("http://example.com",
            [(IssnKey, Nil), (VolumeKey, Nil), (IssueKey, Nil)],
            StartPageKey, Nil,
            "http://example.com?rft.issn=&rft.volume=&rft.issue=",
            "http://example.com?rft.issn=&rft.volume=&rft.issue=&rft.spage=");
    assert [(IssnKey, Nil), (VolumeKey, Nil), (IssueKey, Nil)] + [(StartPageKey, Nil)]
        == [(IssnKey, Nil), (VolumeKey, Nil), (IssueKey, Nil), (StartPageKey, Nil)];
  }

  /** The nil example's URL after its first five parameters. */
  lemma NilUpTo5()
    ensures "http://example.com" + "?" + QueryString([(IssnKey, Nil), (VolumeKey, Nil), (IssueKey, Nil),
                                                      (StartPageKey, Nil), (DateKey, Nil)])
         == "http://example.com?rft.issn=&rft.volume=&rft.issue=&rft.spage=&rft.date="
  {
    NilUpTo4();
    UrlNext("http://example.com",
            [(IssnKey, Nil), (VolumeKey, Nil), (IssueKey, Nil), (StartPageKey, Nil)],
            DateKey, Nil,
            "http://example.com?rft.issn=&rft.volume=&rft.issue=&rft.spage=",
            "http://example.com?rft.issn=&rft.volume=&rft.issue=&rft.spage=&rft.date=");
    assert [(IssnKey, Nil), (VolumeKey, Nil), (IssueKey, Nil), (StartPageKey, Nil)] + [(DateKey, Nil)]
        == [(IssnKey, Nil), (VolumeKey, Nil), (IssueKey, Nil), (StartPageKey, Nil), (DateKey, Nil)];
  }

  /** The nil example's URL, written out one parameter at a time. */
  lemma NilUrl(ps: Entries<Value>, url: string)
    requires ps == [(IssnKey, Nil), (VolumeKey, Nil), (IssueKey, Nil),
                    (StartPageKey, Nil), (DateKey, Nil), ("wskey", Nil)]
    requires url == "http://example.com" + "?" + QueryString(ps)
    ensures url == "http://example.com?rft.issn=&rft.volume=&rft.issue=&rft.spage=&rft.date=&wskey="
  {
    NilUpTo5();
    UrlNext("http://example.com",
            [(IssnKey, Nil), (VolumeKey, Nil), (IssueKey, Nil), (StartPageKey, Nil), (DateKey, Nil)],
            "wskey", Nil,
            "http://example.com?rft.issn=&rft.volume=&rft.issue=&rft.spage=&rft.date=",
            "http://example.com?rft.issn=&rft.volume=&rft.issue=&rft.spage=&rft.date=&wskey=");
    assert [(IssnKey, Nil), (VolumeKey, Nil), (IssueKey, Nil), (StartPageKey, Nil), (DateKey, Nil)] + [("wskey", Nil)]
        == ps;
  }

  /**
   * The call sequence of the repository's builder example: every setter's
   * value is stored under its journal key, in call order, and the URL is the
   * resolver URL followed by exactly those parameters. Building twice gives
   * the same URL.
   */
  method ExampleBuild() returns (b: Builder, url: string)
    ensures b.params == [(IssnKey, Some("1234-4567")), (VolumeKey, Some("1")), (IssueKey, Some("4")),
                         (StartPageKey, Some("64")), (DateKey, Some("1988-01-24")), ("wskey", Some("SECRET_KEY"))]
    ensures b.resolverUrl == "http://example.com"
    ensures url == b.resolverUrl + "?" + QueryString(b.params)
    ensures url == "http://example.com?rft.issn=1234-4567&rft.volume=1&rft.issue=4&rft.spage=64&rft.date=1988-01-24&wskey=SECRET_KEY"
  {
    b := new Builder("http://example.com");
    b := b.Issn(Some("1234-4567"));
    VolumeAppended(Some("1234-4567"), Some("1"));
    b := b.Volume(Some("1"));
    IssueAppended(Some("1234-4567"), Some("1"), Some("4"));
    b := b.Issue(Some("4"));
    StartPageAppended(Some("1234-4567"), Some("1"), Some("4"), Some("64"));
    b := b.StartPage(Some("64"));
    DateAppended(Some("1234-4567"), Some("1"), Some("4"), Some("64"), Some("1988-01-24"));
    b := b.PublicationDate(Some("1988-01-24"));
    WskeyAppended(Some("1234-4567"), Some("1"), Some("4"), Some("64"), Some("1988-01-24"), Some("SECRET_KEY"));
    b := b.CustomParam("wskey", Some("SECRET_KEY"));
    url := b.Build();
    var again := b.Build();
    assert url == again;
    ExampleUrl(b.params, url);
  }

  /**
   * The repository's nil example: `nil` passed to every setter is stored, so
   * every key is present and renders as a bare `key=`.
   */
  method ExampleNilBuild() returns (b: Builder, url: string)
    ensures b.params == [(IssnKey, None), (VolumeKey, None), (IssueKey, None),
                         (StartPageKey, None), (DateKey, None), ("wskey", None)]
    ensures b.resolverUrl == "http://example.com"
    ensures url == "http://example.com?rft.issn=&rft.volume=&rft.issue=&rft.spage=&rft.date=&wskey="
  {
    b := new Builder("http://example.com");
    b := b.Issn(None);
    VolumeAppended(None, None);
    b := b.Volume(None);
    IssueAppended(None, None, None);
    b := b.Issue(None);
    StartPageAppended(None, None, None, None);
    b := b.StartPage(None);
    DateAppended(None, None, None, None, None);
    b := b.PublicationDate(None);
    WskeyAppended(None, None, None, None, None, None);
    b := b.CustomParam("wskey", None);
    url := b.Build();
    NilUrl(b.params, url);
  }
}
