# umd_open_url in Dafny

A model of the core of the `umd_open_url` Ruby gem, with proofs about it. The gem does two jobs:

- **`UmdOpenUrl::Builder`** builds an OpenURL request. The URL is the resolver's base URL, then `?`, then the
  parameters as `key=value` pairs joined by `&`. The five named setters write the journal keys of
  ANSI/NISO Z39.88-2004 (`rft.issn`, `rft.volume`, `rft.issue`, `rft.spage`, `rft.date`).
  `custom_param` writes any key. The URL printed to the debug log hides the `wskey` credential.
- **`UmdOpenUrl::Resolver.parse_response`** takes the resolver's JSON answer and returns a link, or nil:
  - it picks the first item whose `linkerurl` is present and non-empty;
  - it splits that URL and parses its query into key → list-of-values;
  - it drops `wskey`, re-encodes the query and rebuilds the link from the scheme, host and path;
  - it returns nil when the answer is nil, when no item has a link, or when the link has no query;
  - it raises `URI::InvalidComponentError` when the link has a query but a relative path such as `foo`.

`Resolver.resolve`, the HTTP request, is modelled as a guard over an abstract request function.

Files:

- `wrappers.dfy`: `Option` for Ruby's `nil`, and `Result` for a value or a raised exception.
- `strings.dfy`: scanning, joining and ASCII lower-casing of strings.
- `ordered_maps.dfy`: Ruby's insertion-ordered `Hash` as a sequence of entries. It provides `Get`, `Put` (hash assignment) and `Reject`.
- `builder.dfy`: the `Builder` class and the log redaction.
- `builder_examples.dfy`: the repository's two builder examples.
- `form_query.dfy`: the `application/x-www-form-urlencoded` codec.
  - `CGI.unescape` and `CGI.parse`: split on `&` and `;`, decode, group values by first occurrence of the key.
  - `URI.encode_www_form_component` and `Rack::Utils.build_query`.
- `uri.dfy`: the URL split of RFC 3986, Appendix B, and Ruby's rule that a URI with a scheme, no authority and a path not starting with `/` is opaque and has no query; the host of an authority; and what `URI::HTTP.build(host:, path:, query:)` prints after its scheme is replaced.
- `resolver.dfy`: `parse_response` and `resolve`.
- `resolver_examples.dfy`: the repository's resolver examples, and a link whose query repeats a key.

The builder is imperative. `Builder` is a class whose `params` field (a sequence of key/value entries) each setter updates in place. Each setter returns the builder itself, so calls chain as in Ruby. Everything on the resolver side is pure and is modelled with functions and lemmas.

Where the gem's description and its code differ, the model follows the code:

- A `nil` value passed to a setter is stored, not ignored. It prints as a bare `key=`. The repository's
  "nil values should be ignored" example only checks that the earlier values are absent, and they are.
- `valid?` is used by the repository's builder example but is not defined in `builder.rb`, so it is not modelled.
- `parse_response` returns one string or `nil`, never a list.
- The scheme of the rebuilt link is the original scheme in lower case (`URI::Generic#scheme=`
  downcases). `//` is printed when there is a host, or when the scheme is `file` or `postgres`.
  No port, userinfo or fragment is printed.

## Model

| member | source | states |
|---|---|---|
| OpenUrlBuilder.Builder.constructor | lib/umd_open_url/builder.rb:6-9 | a new builder keeps the resolver URL it is given and has no parameters |
| OpenUrlBuilder.Builder.Assign | lib/umd_open_url/builder.rb:12 | hash assignment: the parameters become `Put(old, k, v)`; an existing key keeps its place and takes the new value; a new key goes last; the resolver URL is unchanged |
| OrderedMaps.Put | lib/umd_open_url/builder.rb:12 | the entry of an existing key is replaced where it stands; a new key is appended |
| OrderedMaps.PutSemantics | lib/umd_open_url/builder.rb:12 | after `h[k] = v`: `k` maps to `v`; every other key maps to what it did; keys stay unique; the key order stays, with a new key last |
| OrderedMaps.PutExisting | lib/umd_open_url/builder.rb:37 | overwriting a key keeps the key list as it was |
| OrderedMaps.PutNew | lib/umd_open_url/builder.rb:37 | assigning a new key appends it to the key list |
| OpenUrlBuilder.Builder.Issn | lib/umd_open_url/builder.rb:11-14 | sets `rft.issn`; returns the same builder; nothing else changes |
| OpenUrlBuilder.Builder.Volume | lib/umd_open_url/builder.rb:16-19 | sets `rft.volume`; returns the same builder; nothing else changes |
| OpenUrlBuilder.Builder.Issue | lib/umd_open_url/builder.rb:21-24 | sets `rft.issue`; returns the same builder; nothing else changes |
| OpenUrlBuilder.Builder.StartPage | lib/umd_open_url/builder.rb:26-29 | sets `rft.spage`; returns the same builder; nothing else changes |
| OpenUrlBuilder.Builder.PublicationDate | lib/umd_open_url/builder.rb:31-34 | sets `rft.date`; returns the same builder; nothing else changes |
| OpenUrlBuilder.Builder.CustomParam | lib/umd_open_url/builder.rb:36-39 | sets any key; returns the same builder; nothing else changes |
| OpenUrlBuilder.Builder.Build | lib/umd_open_url/builder.rb:43-51 | the URL is the resolver URL, `?`, then the query string of the parameters; it starts with the resolver URL; with no parameters it is the resolver URL plus a bare `?`; the builder is unchanged |
| OpenUrlBuilder.EntryRendered | lib/umd_open_url/builder.rb:44 | every stored key appears in the query string as `key=value` (a nil value as `key=`), delimited on each side by `&` or the end of the string |
| OpenUrlBuilder.MatchEndAt | lib/umd_open_url/builder.rb:48 | the lazy match of `wskey=.*?&` at a position ends at the first `&` after `wskey=`; no line break may come between; there is no match when no `&` comes before a line break |
| OpenUrlBuilder.FirstMatch | lib/umd_open_url/builder.rb:48 | `sub` replaces the leftmost position where the pattern matches; no earlier position matches |
| OpenUrlBuilder.LoggedUrl | lib/umd_open_url/builder.rb:48 | the log copy is the URL itself when the pattern matches nowhere; otherwise the leftmost match, from `wskey=` through the first `&` after it, becomes `wskey=###&` and everything before and after it is kept |
| OpenUrlBuilder.LoggedUrlHidesFollowedSecret | lib/umd_open_url/builder.rb:48 | when another parameter follows `wskey=SECRET`, the logged URL reads `wskey=###` and keeps everything else |
| OpenUrlBuilder.LoggedUrlLeaksLastSecret | lib/umd_open_url/builder.rb:48 | when `wskey=SECRET` is the last parameter, the logged URL is the URL itself and the secret is printed |
| OpenUrlBuilder.FirstOccurrence | lib/umd_open_url/builder.rb:48 | corrected redaction: the leftmost `wskey=`, whatever follows it |
| OpenUrlBuilder.RedactedUrl | lib/umd_open_url/builder.rb:48 | corrected redaction: the URL itself when `wskey=` occurs nowhere; otherwise the leftmost `wskey=` and its value, which runs to the next `&` or the end, become `wskey=###`, and everything else is kept |
| OpenUrlBuilder.ValueEnd | lib/umd_open_url/builder.rb:48 | corrected redaction: the value after `wskey=` ends at the first `&` after it, or at the end of the URL |
| OpenUrlBuilder.RedactedUrlHidesSecret | lib/umd_open_url/builder.rb:48 | corrected redaction: the secret is replaced by `###` whether `&` or the end of the URL follows it, provided no `wskey=` (as in a key `xwskey`) occurs before it |
| BuilderExamples.ExampleBuild | test/umd_open_url/builder_test.rb:6-22 | the builder example stores the six pairs in call order, `1`, `4` and `64` as strings, and `wskey` last; the URL is the base URL, `?` and their query string, which is `http://example.com?rft.issn=1234-4567&rft.volume=1&rft.issue=4&rft.spage=64&rft.date=1988-01-24&wskey=SECRET_KEY` |
| BuilderExamples.ExampleNilBuild | test/umd_open_url/builder_test.rb:24-40 | nil passed to every setter stores all six keys with a nil value, and the URL is `http://example.com?rft.issn=&rft.volume=&rft.issue=&rft.spage=&rft.date=&wskey=` |
| Resolver.Resolve | lib/umd_open_url/resolver.rb:9-23 | the result is present exactly when the URL is present, the status is 200 and the body parses; the result is then the parsed body |
| Resolver.FindLinked | lib/umd_open_url/resolver.rb:29-30 | finds the first item whose `linkerurl` is present and non-empty; no earlier item has one; none is found exactly when no item has one |
| Resolver.ParseResponse | lib/umd_open_url/resolver.rb:25-59 | nil for a nil answer and for an answer with no linked item; otherwise the first linked item's link, resolved, or the exception resolving it raises |
| Resolver.FirstLinkDecides | lib/umd_open_url/resolver.rb:29 | items after the first one with a link never change the result |
| Resolver.SingleLink | lib/umd_open_url/resolver.rb:25-32 | an answer with one item and a non-empty link resolves that link |
| Resolver.ResolveLink | lib/umd_open_url/resolver.rb:33-58 | a link resolves to nil exactly when Ruby's URI gives it no query (none written, or an opaque URI); it raises `URI::InvalidComponentError` exactly when it has a query and a path that is neither empty nor starts with `/`, as the generic and HTTP URI classes of Ruby 3.4 (RFC 3986 parser) behave; otherwise it gives the rebuilt link |
| Uri.QueryOf | lib/umd_open_url/resolver.rb:33-34 | the query Ruby's URI reports is nil exactly when none is written or the URI is opaque (a scheme, no authority, a path not starting with `/`); otherwise it is the written query |
| Resolver.OpaqueLinkGivesNil | lib/umd_open_url/resolver.rb:33-34 | `name:path?query` with a path not starting with `/` resolves to nil |
| Resolver.RelativeLinkRaises | lib/umd_open_url/resolver.rb:49-53 | `path?query` with no scheme and a path not starting with `/` raises `URI::InvalidComponentError` in `URI::HTTP.build` |
| Resolver.FilteredQuery | lib/umd_open_url/resolver.rb:40-46 | the rebuilt query is the filtered query when that is non-empty, and nil when it is empty |
| Resolver.ResolvedLinkParts | lib/umd_open_url/resolver.rb:33-56 | for a link with a query and an empty or absolute path, resolving succeeds with a link; the rebuilt link keeps the lower-cased scheme, the host and the path, and has no fragment; its query parses to the original query minus `wskey` and minus keys without values |
| Resolver.ResolvedLinkHidesKey | lib/umd_open_url/resolver.rb:36-56 | for such a link, the rebuilt link's query has no `wskey`; every other key keeps all its values in order |
| Resolver.OnlyKeyDropsQuery | lib/umd_open_url/resolver.rb:44-56 | when `wskey` is the only key of a link with an empty or absolute path, the link comes back as scheme, host and path with no `?` |
| Resolver.PlainLinkFiltered | lib/umd_open_url/resolver.rb:33-56 | for `scheme://host/path?k1=v1&...` with plain keys and values, the result is the same link with the `wskey` pairs removed, or no `?` when nothing is left |
| Resolver.PlainLinkUnchanged | lib/umd_open_url/resolver.rb:25-58 | such a link without `wskey` in a one-item answer comes back unchanged |
| Resolver.LinkSplit | lib/umd_open_url/resolver.rb:49-56 | a printed `scheme://host/path?query` splits back into exactly those parts, and its host is `host` |
| FormQuery.UnescapeEscape | lib/umd_open_url/resolver.rb:36-44 | decoding undoes `build_query`'s encoding of any byte string |
| FormQuery.FieldsShape | lib/umd_open_url/resolver.rb:36 | the fields `CGI.parse` splits a query into are non-empty and contain neither `&` nor `;` |
| FormQuery.FieldsAround | lib/umd_open_url/resolver.rb:36 | splitting `a&b` gives the fields of `a` followed by the fields of `b` |
| FormQuery.FieldsBytes | lib/umd_open_url/resolver.rb:36 | the fields of a byte string are byte strings |
| FormQuery.ParseQuery | lib/umd_open_url/resolver.rb:36 | `CGI.parse` gives each distinct decoded key once, in order of first occurrence, mapped to all its values in order |
| FormQuery.GroupSpec | lib/umd_open_url/resolver.rb:36 | grouping lists the keys in order of first occurrence, each once; each key maps to all its values in order |
| FormQuery.ParseQueryBytes | lib/umd_open_url/resolver.rb:36 | the parse of a byte string holds only byte strings |
| OrderedMaps.Reject | lib/umd_open_url/resolver.rb:40 | the keys after `reject` are the keys before, in order, with the rejected key removed |
| OrderedMaps.RejectSemantics | lib/umd_open_url/resolver.rb:40 | `reject` on a key removes that key; every other key keeps its value; the order of the rest stays; keys stay unique |
| FormQuery.RejectSingletons | lib/umd_open_url/resolver.rb:40 | rejecting a key commutes with turning single pairs into one-value groups |
| FormQuery.DropEmptySemantics | lib/umd_open_url/resolver.rb:44 | a key whose list of values is empty disappears; every other key keeps its values; keys stay unique |
| FormQuery.ParseBuild | lib/umd_open_url/resolver.rb:36-44 | parsing what `build_query` produces from unique keys gives the same groups back, minus those with no values |
| FormQuery.FilterQuery | lib/umd_open_url/resolver.rb:36-46 | the filtered query holds only encoded characters, `=` and `&`; it is blank exactly when empty; for a byte-string query it parses to the original query's groups without `wskey` and without empty groups |
| FormQuery.FilterQueryFields | lib/umd_open_url/resolver.rb:36-44 | the fields of the filtered query are the encoded pairs of the parsed query without `wskey`, key by key in first-occurrence order: the values of a repeated key come out together, at its first place |
| FormQuery.FilterQueryKeys | lib/umd_open_url/resolver.rb:36-44 | the filtered query has no `wskey`; every other key has the values it had |
| FormQuery.BuildQuery | lib/umd_open_url/resolver.rb:44-46 | `build_query` output holds only encoded characters, `=` and `&`, so never `#`; it is blank after `strip` exactly when it is empty |
| FormQuery.ParsePlainQuery | lib/umd_open_url/resolver.rb:36-44 | a query of plain pairs parses to one-value groups, and building those groups gives the query back |
| FormQuery.FilterPlainQuery | lib/umd_open_url/resolver.rb:36-44 | filtering a plain query removes exactly its `wskey` pairs and keeps the rest in order |
| FormQuery.PlainQueryEmpty | lib/umd_open_url/resolver.rb:44-46 | a plain query is empty exactly when it has no pairs |
| Uri.SplitScheme | lib/umd_open_url/resolver.rb:33 | a scheme is split off exactly when the string opens with a non-empty run without `:/?#` ended by `:`; it is that run, and the rest follows it |
| Uri.SplitAuthority | lib/umd_open_url/resolver.rb:33 | an authority follows `//` and runs up to the next `/`, `?` or `#` |
| Uri.SplitPath | lib/umd_open_url/resolver.rb:33 | the path runs up to the first `?` or `#` |
| Uri.SplitQuery | lib/umd_open_url/resolver.rb:33-34 | the query follows `?` and runs up to `#`; it is nil when there is no `?` |
| Uri.SplitFragment | lib/umd_open_url/resolver.rb:33 | the fragment is whatever follows `#` |
| Uri.Parse | lib/umd_open_url/resolver.rb:33 | every parse has well-formed components (a scheme is non-empty; no component holds a delimiter that ends it; with an authority the path is empty or starts with `/`; without one it does not start with `//`; with neither a scheme nor an authority the path does not open with a scheme), and re-joining them gives back the exact string parsed |
| Uri.ParseRecomposed | lib/umd_open_url/resolver.rb:33 | every well-formed split is the parse of the string it re-joins to, so the two properties of `Parse` determine the split of every string |
| Uri.Host | lib/umd_open_url/resolver.rb:50 | the host of an authority without `/`, `?` or `#` has none of them either; an unbracketed host has no `:` |
| Uri.HostOfAuthority | lib/umd_open_url/resolver.rb:50 | the host of `userinfo@host:port` is `host` |
| Uri.Build | lib/umd_open_url/resolver.rb:49-56 | the printed link is the recomposition of the lower-cased scheme, the host as authority (an empty authority when there is no host and the scheme is `file` or `postgres`), the path and the query, with no fragment |
| Uri.ParseBuild | lib/umd_open_url/resolver.rb:49-56 | parsing what `URI::HTTP.build` prints gives the lower-cased scheme, the host, the path and the query back, and no fragment |
| ResolverExamples.NonJsonResponse | test/umd_open_url/resolver_test.rb:6-18 | a status-200 answer whose body is not JSON (`Hello world`, or empty) gives nil |
| ResolverExamples.NotFoundResponse | test/umd_open_url/resolver_test.rb:20-25 | a 404 answer gives nil |
| ResolverExamples.EmptyJsonResponse | test/umd_open_url/resolver_test.rb:27-31 | a status-200 answer whose body parses (`{}`) gives the parsed body |
| ResolverExamples.ParserWithNil | test/umd_open_url/resolver_test.rb:45-48 | `parse_response(nil)` is nil |
| ResolverExamples.ParserWithEmptyJson | test/umd_open_url/resolver_test.rb:50-54 | an answer with no items gives nil |
| ResolverExamples.ValidLinkerUrl | test/umd_open_url/resolver_test.rb:62-67 | `[{"linkerurl": "http://link.worldcat.org?foo=abc"}]` gives `http://link.worldcat.org?foo=abc` |
| ResolverExamples.WskeyLast | test/umd_open_url/resolver_test.rb:71-73 | `http://link.worldcat.org?foo=abc&wskey=123` gives `http://link.worldcat.org?foo=abc` |
| ResolverExamples.WskeyFirst | test/umd_open_url/resolver_test.rb:75-81 | `http://link.worldcat.org?wskey=123&foo=abc` gives `http://link.worldcat.org?foo=abc` |
| ResolverExamples.WskeyBetween | test/umd_open_url/resolver_test.rb:83-85 | `http://link.worldcat.org?bar=456&wskey=123&foo=abc` gives `http://link.worldcat.org?bar=456&foo=abc` |
| ResolverExamples.WskeyOnly | test/umd_open_url/resolver_test.rb:87-89 | `http://link.worldcat.org?wskey=123` gives `http://link.worldcat.org` |
| ResolverExamples.LinkWithoutQuery | test/umd_open_url/resolver_test.rb:39-43 | `http://link.worldcat.org/` has no query, so the answer gives nil |
| ResolverExamples.RepeatedKeyGrouped | lib/umd_open_url/resolver.rb:36-44 | the query `a=1&b=2&a=3` is filtered to `a=1&a=3&b=2` |
| ResolverExamples.RepeatedKey | lib/umd_open_url/resolver.rb:25-58 | `http://link.worldcat.org?a=1&b=2&a=3` gives `http://link.worldcat.org?a=1&a=3&b=2` |
| ResolverExamples.OpaqueLink | lib/umd_open_url/resolver.rb:33-34 | `urn:x?wskey=1` is opaque, so the answer gives nil |
| ResolverExamples.RelativeLink | lib/umd_open_url/resolver.rb:49-53 | `foo?wskey=1` raises `URI::InvalidComponentError` |

## Left out

- The logger (`UmdOpenUrl.logger`, builder.rb:46-50). Only the redacted string is modelled, as `LoggedUrl`; writing it to a log is I/O.
- `Faraday.get` and `JSON.parse`, inside `Resolver.resolve`. The request is the parameter `get` of `Resolve`. Its response carries the status and the parsed body, or nothing when the body is not JSON.
- Exceptions other than `URI::InvalidComponentError` from `URI::HTTP.build`, which is modelled. These are:
  - `json.find` on a non-empty JSON object;
  - a `linkerurl` that is not a string;
  - `URI::InvalidURIError` for a string that is not a valid URI. The model splits every string as RFC 3986 Appendix B does, so it never raises this one.
- A JSON object answer such as `{}`. The model takes an array of items. An empty object, like an empty array, has no linked item and gives nil.
- `to_s` of non-string values and keys: values are strings or nil, and the example passes `"1"` to `volume`. Keys are strings too, so a Symbol key and a String key that print alike (`custom_param(:foo, '1')` then `custom_param('foo', '2')`) are one entry in the model, while Ruby's Hash keeps two entries that both print `foo=`.
- `valid?`: it is called by the builder examples but is not defined in builder.rb, so it is not part of this model.
- Characters above one byte: a character below 256 stands for one byte, as Ruby's percent-decoding produces. Encoding and Unicode validity are not modelled.
- `URI::HTTP.build`'s own re-escaping of the query, and ports or userinfo in the rebuilt link: the rebuilt link never has them.
- The library's own `lib/umd_open_url.rb` (configuration and logger set-up) is not part of this model.
- OpenUrlBuilder.RedactedUrlHidesSecret: requires that no `wskey=` occurs before the parameter. The corrected redaction, like the pattern it corrects, masks only the first `wskey=` in the URL, so an earlier key ending in `wskey` (such as `xwskey`) is masked instead and the real secret stays.
- Resolver.ResolveLink: follows the generic and HTTP URI classes of Ruby 3.4, whose parser is the RFC 3986 one. Scheme-specific classes are not modelled: `URI::FTP` drops the leading `/` of the path, so `ftp://h/pub?x=1` raises `URI::InvalidComponentError` in `URI::HTTP.build`, and `URI::File` reads host `localhost` as empty. Also not modelled: the RFC 2396 host check of `URI::HTTP.build` in Ruby before 3.4, which raises the same error for a host with `_` or an empty host (`http:///p?x=1`). For these links the model gives the rebuilt link.
- Resolver.ResolvedLinkParts: requires a byte-string link with a query and an empty or absolute path; the other links resolve to nil or raise, as `ResolveLink` states. It also requires a link without a host to have a scheme for which `//` is not forced: a `file:` or `postgres:` link without a host is printed back with an empty authority, so its parts do not come back unchanged.
- Resolver.ResolvedLinkHidesKey: the same requirements as `ResolvedLinkParts`, for the same reasons.
- Resolver.OnlyKeyDropsQuery: requires an empty or absolute path; the other links resolve to nil or raise, as `ResolveLink` states.

## Findings

| source | as written | input that shows it | evidently intended | confidence | as-written member | corrected member |
|---|---|---|---|---|---|---|
| lib/umd_open_url/builder.rb:48 | the pattern `/wskey=.*?&/` matches only when an `&` follows the secret | `http://example.com?rft.issn=1234-4567&...&wskey=SECRET_KEY`, the repository's own builder example, where `wskey` is the last parameter: the URL is logged with the secret in it | the `wskey` value is hidden wherever the parameter stands in the order, last included (the corrected redaction, like the pattern, masks the first `wskey=` in the URL, so a key such as `xwskey` written earlier is masked in its place) | not executed | OpenUrlBuilder.LoggedUrlLeaksLastSecret | OpenUrlBuilder.RedactedUrlHidesSecret |
