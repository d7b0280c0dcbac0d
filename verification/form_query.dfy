/**
 * The `application/x-www-form-urlencoded` query codec the resolver relies on:
 * `CGI.parse` (split on `&` and `;`, decode, group the values by key) and
 * `Rack::Utils.build_query` (encode every key/value pair and join with `&`).
 *
 * Strings here are byte strings: a character below 256 stands for one byte,
 * which is what Ruby's decoding produces (`%E9` decodes to the byte 0xE9).
 */
module FormQuery {
  import opened Wrappers
  import opened Strings
  import opened OrderedMaps

  /** Characters `URI.encode_www_form_component` leaves as they are: `*-._`, digits and letters. */
  predicate IsSafe(c: char)
  {
    'a' <= c <= 'z' || 'A' <= c <= 'Z' || '0' <= c <= '9' || c == '*' || c == '-' || c == '.' || c == '_'
  }

  predicate IsByte(c: char)
  {
    c as int < 256
  }

  predicate IsByteString(s: string)
  {
    forall i :: 0 <= i < |s| ==> IsByte(s[i])
  }

  /** What an encoded string is made of. */
  predicate IsEncodedChar(c: char)
  {
    IsSafe(c) || c == '%' || c == '+'
  }

  /** Upper-case hexadecimal digit. */
  function HexDigit(n: nat): (c: char)
    requires n < 16
    ensures IsSafe(c)
  {
    if n < 10 then ('0' as int + n) as char else ('A' as int + n - 10) as char
  }

  /** The value of a hexadecimal digit of either case. */
  function HexValue(c: char): (r: Option<nat>)
    ensures r.Some? ==> r.value < 16
    ensures r.Some? <==> '0' <= c <= '9' || 'a' <= c <= 'f' || 'A' <= c <= 'F'
  {
    if '0' <= c <= '9' then Some(c as int - '0' as int)
    else if 'a' <= c <= 'f' then Some(c as int - 'a' as int + 10)
    else if 'A' <= c <= 'F' then Some(c as int - 'A' as int + 10)
    else None
  }

  lemma HexRoundTrip(n: nat)
    requires n < 16
    ensures HexValue(HexDigit(n)) == Some(n)
  {
  }

  /** `%XY` for one byte, upper-case hexadecimal. */
  function PercentByte(b: nat): (r: string)
    requires b < 256
    ensures |r| == 3 && r[0] == '%'
    ensures HexValue(r[1]).Some? && HexValue(r[2]).Some?
    ensures HexValue(r[1]).value * 16 + HexValue(r[2]).value == b
    ensures forall i :: 0 <= i < |r| ==> IsEncodedChar(r[i])
  {
    HexRoundTrip(b / 16);
    HexRoundTrip(b % 16);
    ['%', HexDigit(b / 16), HexDigit(b % 16)]
  }

  /** The UTF-8 bytes of a code point of 256 or more. */
  function Utf8(cp: nat): (r: seq<nat>)
    requires 256 <= cp < 0x11_0000
    ensures 2 <= |r| <= 4
    ensures forall i :: 0 <= i < |r| ==> r[i] < 256
  {
    if cp < 0x800 then [0xC0 + cp / 64, 0x80 + cp % 64]
    else if cp < 0x1_0000 then [0xE0 + cp / 4096, 0x80 + (cp / 64) % 64, 0x80 + cp % 64]
    else [0xF0 + cp / 262144, 0x80 + (cp / 4096) % 64, 0x80 + (cp / 64) % 64, 0x80 + cp % 64]
  }

  /** Each byte as `%XY`, in order. */
  function PercentBytes(bs: seq<nat>): (r: string)
    requires forall i :: 0 <= i < |bs| ==> bs[i] < 256
    ensures |r| == 3 * |bs|
    ensures forall i :: 0 <= i < |r| ==> IsEncodedChar(r[i])
  {
    if bs == [] then [] else PercentByte(bs[0]) + PercentBytes(bs[1..])
  }

  /** One character as `URI.encode_www_form_component` writes it. */
  function EscapeChar(c: char): (r: string)
    ensures r != []
    ensures forall i :: 0 <= i < |r| ==> IsEncodedChar(r[i])
    ensures IsSafe(c) ==> r == [c]
  {
    if IsSafe(c) then [c]
    else if c == ' ' then "+"
    else if IsByte(c) then PercentByte(c as int)
    else PercentBytes(Utf8(c as int))
  }

  /**
   * `Rack::Utils.escape`: safe characters stay, a space becomes `+`, every
   * other byte becomes `%XY`.
   */
  function Escape(s: string): (r: string)
    ensures forall i :: 0 <= i < |r| ==> IsEncodedChar(r[i])
    ensures (forall i :: 0 <= i < |s| ==> IsSafe(s[i])) ==> r == s
  {
    if s == [] then [] else EscapeChar(s[0]) + Escape(s[1..])
  }

  /**
   * `CGI.unescape`: `+` becomes a space, and `%` followed by two hexadecimal
   * digits becomes the byte they spell; any other `%` stays as it is.
   */
  function Unescape(s: string): (r: string)
    ensures |r| <= |s|
    ensures IsByteString(s) ==> IsByteString(r)
    ensures (forall i :: 0 <= i < |s| ==> s[i] != '+' && s[i] != '%') ==> r == s
  {
    if s == [] then []
    else if s[0] == '+' then " " + Unescape(s[1..])
    else if s[0] == '%' && |s| >= 3 && HexValue(s[1]).Some? && HexValue(s[2]).Some? then
      [(HexValue(s[1]).value * 16 + HexValue(s[2]).value) as char] + Unescape(s[3..])
    else [s[0]] + Unescape(s[1..])
  }

  lemma UnescapeCharThenRest(c: char, rest: string)
    requires IsByte(c)
    ensures Unescape(EscapeChar(c) + rest) == [c] + Unescape(rest)
  {
    var e := EscapeChar(c);
    if IsSafe(c) {
      assert (e + rest)[1..] == rest;
    } else if c == ' ' {
      assert (e + rest)[1..] == rest;
    } else {
      assert (e + rest)[3..] == rest;
    }
  }

  /** Decoding undoes encoding, for every byte string. */
  lemma {:induction false} UnescapeEscape(s: string)
    requires IsByteString(s)
    ensures Unescape(Escape(s)) == s
  {
    if s != [] {
      UnescapeCharThenRest(s[0], Escape(s[1..]));
      UnescapeEscape(s[1..]);
    }
  }

  /** The separators `CGI.parse` splits a query on. */
  const Separators := "&;"

  /**
   * `query.split(/[&;]/)` with the empty fields dropped (Ruby drops trailing
   * empty fields and `CGI.parse` skips the other empty ones).
   */
  function Fields(q: string): (fs: seq<string>)
    decreases |q|
  {
    if q == [] then []
    else
      var i := Scan(q, Separators);
      var rest := if i < |q| then Fields(q[i + 1..]) else [];
      if i == 0 then rest else [q[..i]] + rest
  }

  /** One field split at its first `=` and decoded: `key, value = field.split('=', 2)`. */
  function DecodeField(f: string): (r: (string, Option<string>))
    ensures '=' !in f ==> r == (Unescape(f), None)
  {
    var i := Scan(f, "=");
    if i < |f| then (Unescape(f[..i]), Some(Unescape(f[i + 1..])))
    else (Unescape(f), None)
  }

  type Groups = Entries<seq<string>>

  /**
   * One step of `CGI.parse`: `params[key] ||= []` then `params[key].push(value) if value`.
   * A key seen first without `=` gets an empty list.
   */
  function AddValue(g: Groups, field: (string, Option<string>)): Groups
  {
    var (k, value) := field;
    var before := if k in Keys(g) then Get(g, k).value else [];
    Put(g, k, before + (if value.Some? then [value.value] else []))
  }

  /** The groups after adding the decoded fields `fs`, in order, to `g`. */
  function GroupFrom(g: Groups, fs: seq<(string, Option<string>)>): Groups
  {
    if fs == [] then g else AddValue(GroupFrom(g, fs[..|fs| - 1]), fs[|fs| - 1])
  }

  /** `CGI.parse(q)`: every value under its decoded key, keys in the order they first occur. */
  function ParseQuery(q: string): (r: Groups)
    ensures Keys(r) == FirstKeys(DecodeAll(Fields(q)))
    ensures UniqueKeys(r)
    ensures forall k :: Get(r, k) == if k in FirstKeys(DecodeAll(Fields(q))) then Some(ValuesOf(DecodeAll(Fields(q)), k)) else None
  {
    GroupSpec(DecodeAll(Fields(q)));
    GroupFrom([], DecodeAll(Fields(q)))
  }

  function DecodeAll(fs: seq<string>): seq<(string, Option<string>)>
  {
    seq(|fs|, i requires 0 <= i < |fs| => DecodeField(fs[i]))
  }

  /** The keys of the decoded fields, each once, in the order they first occur. */
  function FirstKeys(fs: seq<(string, Option<string>)>): seq<string>
  {
    if fs == [] then []
    else
      var before := FirstKeys(fs[..|fs| - 1]);
      if fs[|fs| - 1].0 in before then before else before + [fs[|fs| - 1].0]
  }

  /** The values given for key `k`, in field order (a field without `=` gives none). */
  function ValuesOf(fs: seq<(string, Option<string>)>, k: string): seq<string>
  {
    if fs == [] then []
    else
      var last := fs[|fs| - 1];
      ValuesOf(fs[..|fs| - 1], k) + (if last.0 == k && last.1.Some? then [last.1.value] else [])
  }

  /**
   * What `CGI.parse` promises about the grouping: one group per distinct key,
   * in order of first occurrence, holding all of that key's values in order.
   */
  lemma {:induction false} GroupSpec(fs: seq<(string, Option<string>)>)
    ensures Keys(GroupFrom([], fs)) == FirstKeys(fs)
    ensures UniqueKeys(GroupFrom([], fs))
    ensures forall k :: Get(GroupFrom([], fs), k) == if k in FirstKeys(fs) then Some(ValuesOf(fs, k)) else None
  {
    if fs != [] {
      var init := fs[..|fs| - 1];
      var (k, value) := fs[|fs| - 1];
      GroupSpec(init);
      var g := GroupFrom([], init);
      var before: seq<string> := if k in Keys(g) then Get(g, k).value else [];
      assert before == ValuesOf(init, k) by {
        if k !in FirstKeys(init) { ValuesOfAbsent(init, k); }
      }
      var added := before + (if value.Some? then [value.value] else []);
      PutSemantics(g, k, added);
      assert GroupFrom([], fs) == Put(g, k, added);
      assert FirstKeys(fs) == if k in FirstKeys(init) then FirstKeys(init) else FirstKeys(init) + [k];
      forall k' ensures Get(GroupFrom([], fs), k') == if k' in FirstKeys(fs) then Some(ValuesOf(fs, k')) else None {
        if k' == k {
          assert ValuesOf(fs, k) == added;
          assert k in FirstKeys(fs);
        } else {
          assert ValuesOf(fs, k') == ValuesOf(init, k');
          assert k' in FirstKeys(fs) <==> k' in FirstKeys(init);
          assert Get(GroupFrom([], fs), k') == Get(g, k');
        }
      }
    }
  }

  lemma {:induction false} ValuesOfAbsent(fs: seq<(string, Option<string>)>, k: string)
    requires k !in FirstKeys(fs)
    ensures ValuesOf(fs, k) == []
  {
    if fs != [] {
      ValuesOfAbsent(fs[..|fs| - 1], k);
    }
  }

  /** One encoded `key=value` pair. */
  function EncodePair(k: string, v: string): string
  {
    Escape(k) + "=" + Escape(v)
  }

  /** The pairs of one group, `key=value` for each of its values. */
  function GroupPairs(k: string, vs: seq<string>): seq<string>
  {
    seq(|vs|, i requires 0 <= i < |vs| => EncodePair(k, vs[i]))
  }

  /**
   * `Rack::Utils.build_query`: each group gives its pairs joined by `&` (a
   * group with no values gives the empty string) and the groups are joined by `&`.
   */
  function BuildQuery(g: Groups): (r: string)
    ensures IsQueryText(r)
    ensures IsBlank(r) <==> r == ""
  {
    GroupTexts(g);
    JoinQueryText(GroupStrings(g));
    var r := Join("&", GroupStrings(g));
    assert r != "" ==> IsQueryChar(r[0]) && !IsStripped(r[0]);
    r
  }

  /** Each group's pairs joined by `&`. */
  function GroupStrings(g: Groups): (r: seq<string>)
    ensures |r| == |g|
  {
    seq(|g|, i requires 0 <= i < |g| => Join("&", GroupPairs(g[i].0, g[i].1)))
  }

  /** The groups that hold at least one value, in order. */
  function DropEmpty(g: Groups): (r: Groups)
  {
    if g == [] then [] else (if g[0].1 == [] then [] else [g[0]]) + DropEmpty(g[1..])
  }

  /** Splitting at a separator splits the fields. */
  lemma {:induction false} FieldsAround(a: string, b: string)
    ensures Fields(a + "&" + b) == Fields(a) + Fields(b)
    decreases |a|
  {
    var i := Scan(a, Separators);
    if i == |a| {
      FieldsAroundField(a, b);
    } else {
      FieldsAround(a[i + 1..], b);
      FieldsAroundStep(a, b, i);
    }
  }

  /** The step past the first separator of `a`. */
  lemma FieldsAroundStep(a: string, b: string, i: nat)
    requires i < |a| && Scan(a, Separators) == i
    requires Fields(a[i + 1..] + "&" + b) == Fields(a[i + 1..]) + Fields(b)
    ensures Fields(a + "&" + b) == Fields(a) + Fields(b)
  {
    FieldsOfJoined(a, b, i);
    FieldsAt(a, i);
    Regroup(if i == 0 then [] else [a[..i]], Fields(a[i + 1..]), Fields(b),
            Fields(a[i + 1..] + "&" + b), Fields(a + "&" + b), Fields(a));
  }

  /** Splicing three lists of fields back together. */
  lemma Regroup(pre: seq<string>, x: seq<string>, y: seq<string>,
                joined: seq<string>, whole: seq<string>, left: seq<string>)
    requires joined == x + y && whole == pre + joined && left == pre + x
    ensures whole == left + y
  {
  }

  /** The case where `a` holds no separator. */
  lemma FieldsAroundField(a: string, b: string)
    requires Scan(a, Separators) == |a|
    ensures Fields(a + "&" + b) == Fields(a) + Fields(b)
  {
    var s := a + "&" + b;
    var i := |a|;
    assert forall j :: 0 <= j < |a| ==> s[j] == a[j];
    ScanIs(s, Separators, i);
    FieldsAt(s, i);
    assert s[..i] == a;
    assert s[i + 1..] == b;
    if a != [] {
      FieldsOfField(a);
    }
  }

  /** The first separator of `a` is the first separator of `a + "&" + b`. */
  lemma FieldsOfJoined(a: string, b: string, i: nat)
    requires i < |a| && Scan(a, Separators) == i
    ensures Fields(a + "&" + b) == (if i == 0 then [] else [a[..i]]) + Fields(a[i + 1..] + "&" + b)
  {
    JoinedParts(a, b, i);
    ScanPrefix(a, "&" + b, i);
    FieldsAt(a + "&" + b, i);
  }

  lemma JoinedParts(a: string, b: string, i: nat)
    requires i < |a|
    ensures a + "&" + b == a + ("&" + b)
    ensures (a + "&" + b)[..i] == a[..i]
    ensures (a + "&" + b)[i + 1..] == a[i + 1..] + "&" + b
  {
    var s := a + "&" + b;
    assert s[..i] == a[..i];
    assert s[i + 1..] == a[i + 1..] + "&" + b;
  }

  /** Scanning `a + b` stops where scanning `a` stops, when that is inside `a`. */
  lemma ScanPrefix(a: string, b: string, i: nat)
    requires i < |a| && Scan(a, Separators) == i
    ensures Scan(a + b, Separators) == i
  {
    var s := a + b;
    assert forall j :: 0 <= j <= i ==> s[j] == a[j];
    ScanIs(s, Separators, i);
  }

  /** The fields of a string with a separator at `i`, the first one. */
  lemma FieldsAt(s: string, i: nat)
    requires i < |s| && Scan(s, Separators) == i
    ensures Fields(s) == (if i == 0 then [] else [s[..i]]) + Fields(s[i + 1..])
  {
    if i == 0 {
      FieldsAtSeparator(s);
    } else {
      FieldsAtField(s, i);
    }
  }

  lemma FieldsAtSeparator(s: string)
    requires s != [] && Scan(s, Separators) == 0
    ensures Fields(s) == Fields(s[1..])
  {
    var rest := Fields(s[1..]);
    assert Fields(s) == rest;
  }

  lemma FieldsAtField(s: string, i: nat)
    requires 0 < i < |s| && Scan(s, Separators) == i
    ensures Fields(s) == [s[..i]] + Fields(s[i + 1..])
  {
  }

  /** The fields of a join are the fields of its parts, in order. */
  function FieldsOfEach(ss: seq<string>): seq<string>
  {
    if ss == [] then [] else Fields(ss[0]) + FieldsOfEach(ss[1..])
  }

  lemma {:induction false} FieldsOfJoin(ss: seq<string>)
    ensures Fields(Join("&", ss)) == FieldsOfEach(ss)
  {
    if |ss| == 1 {
      assert FieldsOfEach(ss[1..]) == [];
    } else if |ss| > 1 {
      FieldsAround(ss[0], Join("&", ss[1..]));
      FieldsOfJoin(ss[1..]);
    }
  }

  /** A single field free of separators is its own only field. */
  lemma FieldsOfField(f: string)
    requires f != [] && NoneOf(f, Separators)
    ensures Fields(f) == [f]
  {
    ScanIs(f, Separators, |f|);
    assert f[..|f|] == f;
  }

  /** Non-empty strings without a separator: what splitting a query yields. */
  predicate AreFields(ss: seq<string>)
  {
    forall i :: 0 <= i < |ss| ==> ss[i] != [] && NoneOf(ss[i], Separators)
  }

  lemma {:induction false} FieldsOfFields(ss: seq<string>)
    requires AreFields(ss)
    ensures FieldsOfEach(ss) == ss
  {
    if ss != [] {
      FieldsOfField(ss[0]);
      FieldsOfFields(ss[1..]);
    }
  }

  /** Every key and every value of `g` is a byte string. */
  predicate AllBytes(g: Groups)
  {
    forall i :: 0 <= i < |g| ==> IsByteString(g[i].0) && forall j :: 0 <= j < |g[i].1| ==> IsByteString(g[i].1[j])
  }

  /** The encoded pairs of all groups, group after group. */
  function EncodedFields(g: Groups): seq<string>
  {
    if g == [] then [] else GroupPairs(g[0].0, g[0].1) + EncodedFields(g[1..])
  }

  /** The decoded pairs of one group. */
  function Run(k: string, vs: seq<string>): seq<(string, Option<string>)>
  {
    seq(|vs|, i requires 0 <= i < |vs| => (k, Some(vs[i])))
  }

  /** The decoded pairs of all groups, group after group. */
  function FlatPairs(g: Groups): seq<(string, Option<string>)>
  {
    if g == [] then [] else Run(g[0].0, g[0].1) + FlatPairs(g[1..])
  }

  lemma EncodePairIsField(k: string, v: string)
    ensures EncodePair(k, v) != [] && NoneOf(EncodePair(k, v), Separators)
  {
    var p := EncodePair(k, v);
    forall i | 0 <= i < |p| ensures p[i] !in Separators {
      assert IsEncodedChar(p[i]) || p[i] == '=';
    }
  }

  lemma GroupFields(k: string, vs: seq<string>)
    ensures Fields(Join("&", GroupPairs(k, vs))) == GroupPairs(k, vs)
  {
    var pairs := GroupPairs(k, vs);
    FieldsOfJoin(pairs);
    forall i | 0 <= i < |pairs| ensures pairs[i] != [] && NoneOf(pairs[i], Separators) {
      EncodePairIsField(k, vs[i]);
    }
    assert AreFields(pairs);
    FieldsOfFields(pairs);
  }

  lemma {:induction false} FieldsOfBuild(g: Groups)
    ensures FieldsOfEach(GroupStrings(g)) == EncodedFields(g)
  {
    if g != [] {
      assert GroupStrings(g)[1..] == GroupStrings(g[1..]);
      GroupFields(g[0].0, g[0].1);
      FieldsOfBuild(g[1..]);
    }
  }

  /** The fields of a built query are its encoded pairs. */
  lemma BuildQueryFields(g: Groups)
    ensures Fields(BuildQuery(g)) == EncodedFields(g)
  {
    FieldsOfJoin(GroupStrings(g));
    FieldsOfBuild(g);
  }

  /** The first `=` of an encoded pair is the one after the key. */
  lemma EncodePairSplit(k: string, v: string)
    ensures Scan(EncodePair(k, v), "=") == |Escape(k)|
  {
    EscapedHasNoEquals(k);
    ScanToEquals(Escape(k), "=" + Escape(v), EncodePair(k, v));
  }

  /** The first `=` of `e + rest` opens `rest` when `e` has none. */
  lemma ScanToEquals(e: string, rest: string, s: string)
    requires NoneOf(e, "=") && rest != [] && rest[0] == '=' && s == e + rest
    ensures Scan(s, "=") == |e|
  {
    ScanPast(e, rest, "=");
    ScanIs(rest, "=", 0);
  }

  lemma EscapedHasNoEquals(s: string)
    ensures NoneOf(Escape(s), "=")
  {
    var e := Escape(s);
    forall i | 0 <= i < |e| ensures e[i] != '=' {
      assert IsEncodedChar(e[i]);
    }
  }

  /** An encoded pair decodes to its key and value. */
  lemma DecodeEncodePair(k: string, v: string)
    requires IsByteString(k) && IsByteString(v)
    ensures DecodeField(EncodePair(k, v)) == (k, Some(v))
  {
    var p := EncodePair(k, v);
    var n := |Escape(k)|;
    EncodePairSplit(k, v);
    assert p[..n] == Escape(k);
    assert p[n + 1..] == Escape(v);
    UnescapeEscape(k);
    UnescapeEscape(v);
  }

  lemma {:induction false} DecodeEncoded(g: Groups)
    requires AllBytes(g)
    ensures DecodeAll(EncodedFields(g)) == FlatPairs(g)
  {
    if g != [] {
      assert AllBytes(g[1..]) by {
        forall i | 0 <= i < |g| - 1 ensures g[1..][i] == g[i + 1] { }
      }
      DecodeEncoded(g[1..]);
      DecodeGroupPairs(g[0].0, g[0].1);
      DecodeAllAppend(GroupPairs(g[0].0, g[0].1), EncodedFields(g[1..]));
    }
  }

  /** The encoded pairs of one group decode to its run of values. */
  lemma DecodeGroupPairs(k: string, vs: seq<string>)
    requires IsByteString(k) && forall j :: 0 <= j < |vs| ==> IsByteString(vs[j])
    ensures DecodeAll(GroupPairs(k, vs)) == Run(k, vs)
  {
    forall i | 0 <= i < |vs| ensures DecodeField(GroupPairs(k, vs)[i]) == (k, Some(vs[i])) {
      DecodeEncodePair(k, vs[i]);
    }
  }

  lemma DecodeAllAppend(xs: seq<string>, ys: seq<string>)
    ensures DecodeAll(xs + ys) == DecodeAll(xs) + DecodeAll(ys)
  {
  }

  lemma {:induction false} GroupFromAppend(g: Groups, a: seq<(string, Option<string>)>, b: seq<(string, Option<string>)>)
    ensures GroupFrom(g, a + b) == GroupFrom(GroupFrom(g, a), b)
  {
    if b == [] {
      assert a + b == a;
    } else {
      assert (a + b)[..|a + b| - 1] == a + b[..|b| - 1];
      GroupFromAppend(g, a, b[..|b| - 1]);
    }
  }

  /** Adding the values of a new key, one after another, appends one group holding them all. */
  lemma {:induction false} GroupRun(base: Groups, k: string, vs: seq<string>)
    requires k !in Keys(base)
    ensures GroupFrom(base, Run(k, vs)) == base + (if vs == [] then [] else [(k, vs)])
  {
    if vs != [] {
      var init := vs[..|vs| - 1];
      var v := vs[|vs| - 1];
      assert Run(k, vs)[..|vs| - 1] == Run(k, init);
      assert Run(k, vs)[|vs| - 1] == (k, Some(v));
      GroupRun(base, k, init);
      assert GroupFrom(base, Run(k, vs)) == AddValue(GroupFrom(base, Run(k, init)), (k, Some(v)));
      assert vs == init + [v];
      if init == [] {
        AddFirstValue(base, k, v);
      } else {
        AddNextValue(base, k, init, v);
      }
    }
  }

  /** The first value of a new key opens a group at the end. */
  lemma AddFirstValue(base: Groups, k: string, v: string)
    requires k !in Keys(base)
    ensures AddValue(base, (k, Some(v))) == base + [(k, [v])]
  {
    assert [] + [v] == [v];
  }

  /** A further value of the last group's key joins that group. */
  lemma AddNextValue(base: Groups, k: string, init: seq<string>, v: string)
    requires k !in Keys(base)
    ensures AddValue(base + [(k, init)], (k, Some(v))) == base + [(k, init + [v])]
  {
    var g := base + [(k, init)];
    assert Keys(g)[|base|] == k;
    assert forall j :: 0 <= j < |base| ==> g[j].0 == Keys(base)[j];
    assert IndexOf(g, k) == |base|;
  }

  /** A key of the later groups is not among the keys before it. */
  lemma NextKeysFresh(base: Groups, g: Groups)
    requires g != [] && UniqueKeys(g)
    requires forall i :: 0 <= i < |g| ==> g[i].0 !in Keys(base)
    ensures forall i :: 0 <= i < |g| - 1 ==> g[1..][i].0 !in Keys(base + (if g[0].1 == [] then [] else [g[0]]))
  {
    var next := base + (if g[0].1 == [] then [] else [g[0]]);
    forall i | 0 <= i < |g| - 1 ensures g[1..][i].0 !in Keys(next) {
      assert g[1..][i].0 == g[i + 1].0 != g[0].0;
      forall j | 0 <= j < |next| ensures Keys(next)[j] != g[i + 1].0 {
        if j < |base| {
          assert Keys(next)[j] == Keys(base)[j];
        }
      }
    }
  }

  /** Grouping the pairs of the first group, then those of the others. */
  lemma GroupFlatStep(base: Groups, g: Groups)
    requires g != [] && g[0].0 !in Keys(base)
    ensures GroupFrom(base, FlatPairs(g))
         == GroupFrom(base + (if g[0].1 == [] then [] else [g[0]]), FlatPairs(g[1..]))
  {
    GroupFromAppend(base, Run(g[0].0, g[0].1), FlatPairs(g[1..]));
    GroupRun(base, g[0].0, g[0].1);
  }

  /** Grouping the pairs of distinct-keyed groups after `base` gives back those groups, minus the empty ones. */
  lemma {:induction false} GroupFlat(base: Groups, g: Groups)
    requires UniqueKeys(g)
    requires forall i :: 0 <= i < |g| ==> g[i].0 !in Keys(base)
    ensures GroupFrom(base, FlatPairs(g)) == base + DropEmpty(g)
    decreases |g|
  {
    if g != [] {
      var next := base + (if g[0].1 == [] then [] else [g[0]]);
      GroupFlatStep(base, g);
      NextKeysFresh(base, g);
      TailUnique(g);
      GroupFlat(next, g[1..]);
      DropEmptyAfter(base, g);
    }
  }

  lemma DropEmptyAfter(base: Groups, g: Groups)
    requires g != []
    ensures base + DropEmpty(g) == base + (if g[0].1 == [] then [] else [g[0]]) + DropEmpty(g[1..])
  {
    var first := if g[0].1 == [] then [] else [g[0]];
    assert DropEmpty(g) == first + DropEmpty(g[1..]);
  }

  lemma TailUnique<V>(m: Entries<V>)
    requires m != [] && UniqueKeys(m)
    ensures UniqueKeys(m[1..])
  {
    forall i, j | 0 <= i < j < |m| - 1 ensures m[1..][i].0 != m[1..][j].0 {
      assert m[1..][i] == m[i + 1] && m[1..][j] == m[j + 1];
    }
  }

  /** `CGI.parse` undoes `Rack::Utils.build_query` for distinct byte-string keys, up to groups with no values. */
  lemma ParseBuild(g: Groups)
    requires UniqueKeys(g) && AllBytes(g)
    ensures ParseQuery(BuildQuery(g)) == DropEmpty(g)
  {
    BuildQueryFields(g);
    DecodeEncoded(g);
    GroupFlat([], g);
    assert [] + DropEmpty(g) == DropEmpty(g);
  }

  /** The head's key does not occur again in a list with distinct keys. */
  lemma HeadKeyFresh<V>(m: Entries<V>)
    requires m != [] && UniqueKeys(m)
    ensures m[0].0 !in Keys(m[1..])
  {
    forall j | 0 <= j < |m| - 1 ensures Keys(m[1..])[j] != m[0].0 {
      assert Keys(m[1..])[j] == m[j + 1].0;
    }
  }

  /** Looking a key up after dropping the empty groups. */
  lemma {:induction false} DropEmptyGet(g: Groups, k: string)
    requires UniqueKeys(g)
    ensures Get(DropEmpty(g), k) == if Get(g, k).Some? && Get(g, k).value != [] then Get(g, k) else None
  {
    if g != [] {
      TailUnique(g);
      DropEmptyGet(g[1..], k);
      GetTail(g, k);
      var rest := DropEmpty(g[1..]);
      if g[0].1 == [] {
        assert DropEmpty(g) == rest;
        if g[0].0 == k {
          HeadKeyFresh(g);
        }
      } else {
        assert DropEmpty(g) == [g[0]] + rest;
        GetTail(DropEmpty(g), k);
      }
    }
  }

  /** Dropping the empty groups keeps the keys distinct. */
  lemma {:induction false} DropEmptyUnique(g: Groups)
    requires UniqueKeys(g)
    ensures UniqueKeys(DropEmpty(g))
  {
    if g != [] && g[0].1 != [] {
      TailUnique(g);
      DropEmptyUnique(g[1..]);
      var rest := DropEmpty(g[1..]);
      var r := DropEmpty(g);
      assert r == [g[0]] + rest;
      HeadKeyFresh(g);
      DropEmptyGet(g[1..], g[0].0);
      assert g[0].0 !in Keys(rest);
      forall j | 0 < j < |r| ensures r[0].0 != r[j].0 {
        assert Keys(rest)[j - 1] == r[j].0;
      }
    } else if g != [] {
      TailUnique(g);
      DropEmptyUnique(g[1..]);
    }
  }

  /** The groups of `g` that hold values: a key whose group is empty reads as missing. */
  lemma DropEmptySemantics(g: Groups)
    requires UniqueKeys(g)
    ensures UniqueKeys(DropEmpty(g))
    ensures forall k :: Get(DropEmpty(g), k) == if Get(g, k).Some? && Get(g, k).value != [] then Get(g, k) else None
  {
    DropEmptyUnique(g);
    forall k ensures Get(DropEmpty(g), k) == if Get(g, k).Some? && Get(g, k).value != [] then Get(g, k) else None {
      DropEmptyGet(g, k);
    }
  }

  /** Dropping empty groups keeps a group list that has none. */
  lemma {:induction false} DropEmptyNone(g: Groups)
    requires forall i :: 0 <= i < |g| ==> g[i].1 != []
    ensures DropEmpty(g) == g
  {
    if g != [] {
      DropEmptyNone(g[1..]);
    }
  }

  /** Rejecting a key that is not there changes nothing. */
  lemma {:induction false} RejectAbsent<V>(m: Entries<V>, k: string)
    requires k !in Keys(m)
    ensures Reject(m, k) == m
  {
    if m != [] {
      assert Keys(m)[0] == m[0].0;
      assert k !in Keys(m[1..]) by {
        forall j | 0 <= j < |m| - 1 ensures Keys(m[1..])[j] != k {
          assert Keys(m[1..])[j] == Keys(m)[j + 1];
        }
      }
      RejectAbsent(m[1..], k);
    }
  }

  /** Rejecting keeps only entries that were there. */
  lemma {:induction false} RejectKeeps<V>(m: Entries<V>, k: string)
    ensures forall e :: e in Reject(m, k) ==> e in m
  {
    if m != [] {
      RejectKeeps(m[1..], k);
    }
  }

  lemma RejectBytes(g: Groups, k: string)
    requires AllBytes(g)
    ensures AllBytes(Reject(g, k))
  {
    var r := Reject(g, k);
    RejectKeeps(g, k);
    forall i | 0 <= i < |r| ensures IsByteString(r[i].0) && forall j :: 0 <= j < |r[i].1| ==> IsByteString(r[i].1[j]) {
      assert r[i] in r;
      var n :| 0 <= n < |g| && g[n] == r[i];
    }
  }

  /** Every field is non-empty and holds no separator. */
  lemma {:induction false} FieldsShape(q: string)
    ensures AreFields(Fields(q))
    decreases |q|
  {
    if q != [] {
      var i := Scan(q, Separators);
      if i < |q| {
        FieldsAt(q, i);
        FieldsShape(q[i + 1..]);
        FieldBeforeSeparator(q, i);
        AreFieldsAppend(if i == 0 then [] else [q[..i]], Fields(q[i + 1..]));
      } else {
        ScanIs(q, Separators, |q|);
        FieldsOfField(q);
        assert AreFields([q]);
      }
    }
  }

  lemma FieldBeforeSeparator(q: string, i: nat)
    requires i < |q| && Scan(q, Separators) == i
    ensures AreFields(if i == 0 then [] else [q[..i]])
  {
    if i > 0 {
      assert NoneOf(q[..i], Separators);
    }
  }

  lemma AreFieldsAppend(xs: seq<string>, ys: seq<string>)
    requires AreFields(xs) && AreFields(ys)
    ensures AreFields(xs + ys)
  {
    assert forall i :: 0 <= i < |xs + ys| ==> (xs + ys)[i] == if i < |xs| then xs[i] else ys[i - |xs|];
  }

  lemma {:induction false} FieldsBytes(q: string)
    requires IsByteString(q)
    ensures AreByteStrings(Fields(q))
    decreases |q|
  {
    if q != [] {
      var i := Scan(q, Separators);
      if i < |q| {
        FieldsAt(q, i);
        FieldsBytes(q[i + 1..]);
        var pre := if i == 0 then [] else [q[..i]];
        assert AreByteStrings(pre);
        AreByteStringsAppend(pre, Fields(q[i + 1..]));
      } else {
        ScanIs(q, Separators, |q|);
        FieldsOfField(q);
        assert AreByteStrings([q]);
      }
    }
  }

  /** Every string of `ss` is a byte string. */
  predicate AreByteStrings(ss: seq<string>)
  {
    forall i :: 0 <= i < |ss| ==> IsByteString(ss[i])
  }

  lemma AreByteStringsAppend(xs: seq<string>, ys: seq<string>)
    requires AreByteStrings(xs) && AreByteStrings(ys)
    ensures AreByteStrings(xs + ys)
  {
    assert forall i :: 0 <= i < |xs + ys| ==> (xs + ys)[i] == if i < |xs| then xs[i] else ys[i - |xs|];
  }

  lemma {:induction false} GroupFromBytes(g: Groups, fs: seq<(string, Option<string>)>)
    requires AllBytes(g)
    requires forall i :: 0 <= i < |fs| ==> IsByteString(fs[i].0) && (fs[i].1.Some? ==> IsByteString(fs[i].1.value))
    ensures AllBytes(GroupFrom(g, fs))
  {
    if fs != [] {
      GroupFromBytes(g, fs[..|fs| - 1]);
      var before := GroupFrom(g, fs[..|fs| - 1]);
      var (k, value) := fs[|fs| - 1];
      var vs: seq<string> := if k in Keys(before) then Get(before, k).value else [];
      var added := vs + (if value.Some? then [value.value] else []);
      assert forall j :: 0 <= j < |added| ==> IsByteString(added[j]);
    }
  }

  /** A byte-string query decodes to byte-string keys and values. */
  lemma ParseQueryBytes(q: string)
    requires IsByteString(q)
    ensures AllBytes(ParseQuery(q))
  {
    FieldsBytes(q);
    GroupFromBytes([], DecodeAll(Fields(q)));
  }

  /**
   * The resolver's query filter: decode, drop `wskey`, encode again.
   * The filtered query is query text, blank only when empty, and decoding it
   * gives exactly the decoded original without `wskey` and without keys that
   * had no value, the rest in their first-occurrence order.
   */
  function FilterQuery(q: string): (r: string)
    ensures IsQueryText(r)
    ensures IsBlank(r) <==> r == ""
    ensures IsByteString(q) ==> ParseQuery(r) == DropEmpty(Reject(ParseQuery(q), "wskey"))
  {
    RejectedRoundTrip(q);
    BuildQuery(Reject(ParseQuery(q), "wskey"))
  }

  /**
   * The filtered query lists every kept key once, at its first occurrence,
   * with all of its values behind it: repeated keys come out grouped.
   */
  lemma FilterQueryFields(q: string)
    ensures Fields(FilterQuery(q)) == EncodedFields(Reject(ParseQuery(q), "wskey"))
  {
    BuildQueryFields(Reject(ParseQuery(q), "wskey"));
  }

  lemma RejectedRoundTrip(q: string)
    ensures IsByteString(q) ==>
      ParseQuery(BuildQuery(Reject(ParseQuery(q), "wskey"))) == DropEmpty(Reject(ParseQuery(q), "wskey"))
  {
    if IsByteString(q) {
      var p := ParseQuery(q);
      RejectSemantics(p, "wskey");
      ParseQueryBytes(q);
      RejectBytes(p, "wskey");
      ParseBuild(Reject(p, "wskey"));
    }
  }

  /**
   * The filtered query holds no `wskey`, and every other key decodes to the
   * values it had, unless it had none.
   */
  lemma FilterQueryKeys(q: string)
    requires IsByteString(q)
    ensures Get(ParseQuery(FilterQuery(q)), "wskey") == None
    ensures forall k :: k != "wskey" ==>
      Get(ParseQuery(FilterQuery(q)), k)
        == (if Get(ParseQuery(q), k).Some? && Get(ParseQuery(q), k).value != [] then Get(ParseQuery(q), k) else None)
  {
    var p := ParseQuery(q);
    RejectSemantics(p, "wskey");
    DropEmptySemantics(Reject(p, "wskey"));
  }

  /** Characters of a built query: encoded characters, `=` and `&`. */
  predicate IsQueryChar(c: char)
  {
    IsEncodedChar(c) || c == '=' || c == '&'
  }

  predicate IsQueryText(s: string)
  {
    forall i :: 0 <= i < |s| ==> IsQueryChar(s[i])
  }

  lemma {:induction false} JoinQueryText(ss: seq<string>)
    requires forall i :: 0 <= i < |ss| ==> IsQueryText(ss[i])
    ensures IsQueryText(Join("&", ss))
  {
    if |ss| > 1 {
      JoinQueryText(ss[1..]);
    }
  }

  /** Each group's joined pairs are made of encoded characters, `=` and `&` only. */
  lemma GroupTexts(g: Groups)
    ensures forall i :: 0 <= i < |g| ==> IsQueryText(Join("&", GroupPairs(g[i].0, g[i].1)))
  {
    forall i | 0 <= i < |g| ensures IsQueryText(Join("&", GroupPairs(g[i].0, g[i].1))) {
      var pairs := GroupPairs(g[i].0, g[i].1);
      forall j | 0 <= j < |pairs| ensures IsQueryText(pairs[j]) {
        assert pairs[j] == Escape(g[i].0) + "=" + Escape(g[i].1[j]);
      }
      JoinQueryText(pairs);
    }
  }

  /** The characters Ruby's `String#strip` removes: NUL, tab, line feed, vertical tab, form feed, carriage return and space. */
  predicate IsStripped(c: char)
  {
    c == '\0' || c == '\t' || c == '\n' || c == '\U{000B}' || c == '\U{000C}' || c == '\r' || c == ' '
  }

  /** `s.strip.empty?`. */
  predicate IsBlank(s: string)
  {
    forall i :: 0 <= i < |s| ==> IsStripped(s[i])
  }

  /** The query `k1=v1&k2=v2&...` of single-valued parameters. */
  function PlainQuery(ps: seq<(string, string)>): string
  {
    Join("&", seq(|ps|, i requires 0 <= i < |ps| => ps[i].0 + "=" + ps[i].1))
  }

  predicate AllSafe(s: string)
  {
    forall i :: 0 <= i < |s| ==> IsSafe(s[i])
  }

  /** Keys and values made only of characters encoding leaves alone. */
  predicate SafePairs(ps: seq<(string, string)>)
  {
    forall i :: 0 <= i < |ps| ==> AllSafe(ps[i].0) && AllSafe(ps[i].1)
  }

  /** Distinct keys, one value each, keys and values made only of characters encoding leaves alone. */
  predicate PlainPairs(ps: seq<(string, string)>)
  {
    SafePairs(ps) && UniqueKeys(ps)
  }

  /** The groups of a query of single-valued parameters. */
  function Singletons(ps: seq<(string, string)>): (g: Groups)
    ensures |g| == |ps|
  {
    seq(|ps|, i requires 0 <= i < |ps| => (ps[i].0, [ps[i].1]))
  }

  /** A plain query is the encoding of its own parameters, and it decodes back to them. */
  lemma ParsePlainQuery(ps: seq<(string, string)>)
    requires PlainPairs(ps)
    ensures BuildQuery(Singletons(ps)) == PlainQuery(ps)
    ensures ParseQuery(PlainQuery(ps)) == Singletons(ps)
    ensures IsQueryText(PlainQuery(ps))
  {
    var g := Singletons(ps);
    SingletonsBuild(ps);
    SingletonsBytes(ps);
    SingletonsUnique(ps);
    ParseBuild(g);
    DropEmptyNone(g);
  }

  lemma SingletonsBuild(ps: seq<(string, string)>)
    requires SafePairs(ps)
    ensures BuildQuery(Singletons(ps)) == PlainQuery(ps)
  {
    var g := Singletons(ps);
    assert GroupStrings(g) == seq(|ps|, i requires 0 <= i < |ps| => ps[i].0 + "=" + ps[i].1) by {
      forall i | 0 <= i < |ps| ensures GroupStrings(g)[i] == ps[i].0 + "=" + ps[i].1 {
        assert GroupPairs(g[i].0, g[i].1) == [EncodePair(ps[i].0, ps[i].1)];
      }
    }
  }

  lemma SingletonsBytes(ps: seq<(string, string)>)
    requires SafePairs(ps)
    ensures AllBytes(Singletons(ps))
  {
    var g := Singletons(ps);
    forall i | 0 <= i < |g| ensures IsByteString(g[i].0) && IsByteString(ps[i].1) {
      assert forall j :: 0 <= j < |g[i].0| ==> IsSafe(g[i].0[j]);
    }
  }

  lemma SingletonsUnique(ps: seq<(string, string)>)
    requires UniqueKeys(ps)
    ensures UniqueKeys(Singletons(ps))
  {
    var g := Singletons(ps);
    forall i, j | 0 <= i < j < |g| ensures g[i].0 != g[j].0 {
      assert g[i].0 == ps[i].0 && g[j].0 == ps[j].0;
    }
  }

  /** Rejecting a key from the parameters or from their groups gives the same groups. */
  lemma {:induction false} RejectSingletons(ps: seq<(string, string)>, k: string)
    ensures Reject(Singletons(ps), k) == Singletons(Reject(ps, k))
  {
    if ps != [] {
      var g := Singletons(ps);
      var kept := Reject(ps[1..], k);
      RejectSingletons(ps[1..], k);
      assert g[1..] == Singletons(ps[1..]);
      if ps[0].0 == k {
        assert Reject(ps, k) == kept;
      } else {
        assert Reject(ps, k) == [ps[0]] + kept;
        assert Singletons([ps[0]] + kept) == [g[0]] + Singletons(kept);
      }
    }
  }

  /** What is left after rejecting a key is still plain. */
  lemma PlainPairsReject(ps: seq<(string, string)>, k: string)
    requires PlainPairs(ps)
    ensures PlainPairs(Reject(ps, k))
  {
    var r := Reject(ps, k);
    RejectKeeps(ps, k);
    RejectUnique(ps, k);
    forall i | 0 <= i < |r| ensures AllSafe(r[i].0) && AllSafe(r[i].1) {
      assert r[i] in ps;
      var j :| 0 <= j < |ps| && ps[j] == r[i];
    }
  }

  /** A plain query is empty exactly when it has no parameters. */
  lemma PlainQueryEmpty(ps: seq<(string, string)>)
    ensures PlainQuery(ps) == "" <==> ps == []
  {
    if ps != [] {
      var ss := seq(|ps|, i requires 0 <= i < |ps| => ps[i].0 + "=" + ps[i].1);
      assert ss[0] != "";
      if |ps| > 1 {
        assert Join("&", ss) == ss[0] + "&" + Join("&", ss[1..]);
      }
    }
  }

  /**
   * The filter on a plain query drops the `wskey` parameter and leaves the
   * other parameters exactly as written, in their order.
   */
  lemma FilterPlainQuery(ps: seq<(string, string)>)
    requires PlainPairs(ps)
    ensures FilterQuery(PlainQuery(ps)) == PlainQuery(Reject(ps, "wskey"))
  {
    ParsePlainQuery(ps);
    RejectSingletons(ps, "wskey");
    PlainPairsReject(ps, "wskey");
    ParsePlainQuery(Reject(ps, "wskey"));
  }
}
