/** Small string helpers shared by the builder, the query codec and the URI model. */
module Strings {

  /** True when no character of `s` occurs in `chars`. */
  predicate NoneOf(s: string, chars: string)
  {
    forall i :: 0 <= i < |s| ==> s[i] !in chars
  }

  /** The index of the first character of `s` that occurs in `stops`, or `|s|` when there is none. */
  function Scan(s: string, stops: string): (i: nat)
    ensures i <= |s|
    ensures forall j :: 0 <= j < i ==> s[j] !in stops
    ensures i < |s| ==> s[i] in stops
  {
    if s == [] || s[0] in stops then 0 else 1 + Scan(s[1..], stops)
  }

  /** The characterisation in Scan's contract determines its result. */
  lemma ScanIs(s: string, stops: string, i: nat)
    requires i <= |s|
    requires forall j :: 0 <= j < i ==> s[j] !in stops
    requires i < |s| ==> s[i] in stops
    ensures Scan(s, stops) == i
  {
  }

  /** Scanning past a prefix free of stop characters. */
  lemma ScanPast(a: string, b: string, stops: string)
    requires NoneOf(a, stops)
    ensures Scan(a + b, stops) == |a| + Scan(b, stops)
  {
    var k := Scan(b, stops);
    var s := a + b;
    forall j | 0 <= j < |a| + k ensures s[j] !in stops {
      if j >= |a| { assert s[j] == b[j - |a|]; }
    }
    if |a| + k < |s| { assert s[|a| + k] == b[k]; }
    ScanIs(s, stops, |a| + k);
  }

  /** Ruby's `Array#join(sep)`: the elements with `sep` between neighbours. */
  function Join(sep: string, ss: seq<string>): string
  {
    if |ss| == 0 then ""
    else if |ss| == 1 then ss[0]
    else ss[0] + sep + Join(sep, ss[1..])
  }

  lemma {:induction false} JoinAppend(sep: string, a: seq<string>, b: seq<string>)
    requires a != [] && b != []
    ensures Join(sep, a + b) == Join(sep, a) + sep + Join(sep, b)
  {
    if |a| == 1 {
      assert (a + b)[1..] == b;
    } else {
      assert (a + b)[1..] == a[1..] + b;
      JoinAppend(sep, a[1..], b);
    }
  }

  /**
   * Element `i` of a join stands between the elements before it and the
   * elements after it, with a separator on each side that has neighbours.
   */
  lemma JoinAt(sep: string, ss: seq<string>, i: nat) returns (pre: string, post: string)
    requires i < |ss|
    ensures Join(sep, ss) == pre + ss[i] + post
    ensures pre == Join(sep, ss[..i]) + (if i == 0 then "" else sep)
    ensures post == (if i == |ss| - 1 then "" else sep) + Join(sep, ss[i + 1..])
  {
    pre := Join(sep, ss[..i]) + (if i == 0 then "" else sep);
    post := (if i == |ss| - 1 then "" else sep) + Join(sep, ss[i + 1..]);
    var tail := ss[i..];
    assert tail[0] == ss[i] && tail[1..] == ss[i + 1..];
    assert Join(sep, tail) == ss[i] + post;
    if i == 0 {
      assert tail == ss;
    } else {
      JoinAppend(sep, ss[..i], tail);
      assert ss[..i] + tail == ss;
    }
  }

  /** ASCII lower-casing of one character. */
  function LowerChar(c: char): char
  {
    if 'A' <= c <= 'Z' then (c as int + 32) as char else c
  }

  /** ASCII lower-casing of a string. */
  function Lower(s: string): string
  {
    seq(|s|, i requires 0 <= i < |s| => LowerChar(s[i]))
  }

  /** A string without upper-case letters is its own lower-casing. */
  lemma LowerUnchanged(s: string)
    requires forall i :: 0 <= i < |s| ==> !('A' <= s[i] <= 'Z')
    ensures Lower(s) == s
  {
  }
}
