/**
 * A Ruby `Hash` with string keys, as a sequence of (key, value) entries in
 * insertion order. Assigning to an existing key keeps the key where it was;
 * assigning to a new key appends it. `Reject` is `Hash#reject` on one key.
 */
module OrderedMaps {
  import opened Wrappers

  type Entries<V> = seq<(string, V)>

  function Keys<V>(m: Entries<V>): seq<string>
  {
    seq(|m|, i requires 0 <= i < |m| => m[i].0)
  }

  predicate UniqueKeys<V>(m: Entries<V>)
  {
    forall i, j :: 0 <= i < j < |m| ==> m[i].0 != m[j].0
  }

  /** The position of the first entry with key `k`. */
  function IndexOf<V>(m: Entries<V>, k: string): (i: nat)
    requires k in Keys(m)
    ensures i < |m| && m[i].0 == k
    ensures forall j :: 0 <= j < i ==> m[j].0 != k
  {
    if m[0].0 == k then 0
    else
      KeysTail(m, k);
      1 + IndexOf(m[1..], k)
  }

  /** A key other than the first is a key of the whole exactly when it is one of the rest. */
  lemma KeysTail<V>(m: Entries<V>, k: string)
    requires m != [] && m[0].0 != k
    ensures k in Keys(m) <==> k in Keys(m[1..])
  {
    if k in Keys(m) {
      var j :| 0 <= j < |m| && Keys(m)[j] == k;
      assert Keys(m[1..])[j - 1] == k;
    }
    if k in Keys(m[1..]) {
      var j :| 0 <= j < |m| - 1 && Keys(m[1..])[j] == k;
      assert Keys(m)[j + 1] == k;
    }
  }

  /** `hash[k]`, with `None` for a missing key. */
  function Get<V>(m: Entries<V>, k: string): (r: Option<V>)
    ensures r.None? <==> k !in Keys(m)
    ensures r.Some? ==> r.value == m[IndexOf(m, k)].1
  {
    if k in Keys(m) then Some(m[IndexOf(m, k)].1) else None
  }

  /** `hash[k] = v`. */
  function Put<V>(m: Entries<V>, k: string, v: V): (r: Entries<V>)
    ensures k in Keys(m) ==> r == m[IndexOf(m, k) := (k, v)]
    ensures k !in Keys(m) ==> r == m + [(k, v)]
  {
    if m == [] then [(k, v)]
    else if m[0].0 == k then
      assert Keys(m)[0] == k;
      [(k, v)] + m[1..]
    else
      KeysTail(m, k);
      [m[0]] + Put(m[1..], k, v)
  }

  /** With unique keys, the entry with key `k` is the only one. */
  lemma IndexOfUnique<V>(m: Entries<V>, k: string, i: nat)
    requires UniqueKeys(m) && i < |m| && m[i].0 == k
    ensures k in Keys(m) && IndexOf(m, k) == i
  {
    assert Keys(m)[i] == k;
  }

  /**
   * Assigning `v` to `k`: `k` now reads `v`, every other key reads what it
   * read before, the key order is kept (a new key goes last), no key is
   * repeated, and only the entry for `k` differs.
   */
  lemma PutSemantics<V>(m: Entries<V>, k: string, v: V)
    requires UniqueKeys(m)
    ensures Get(Put(m, k, v), k) == Some(v)
    ensures forall k' :: k' != k ==> Get(Put(m, k, v), k') == Get(m, k')
    ensures Keys(Put(m, k, v)) == if k in Keys(m) then Keys(m) else Keys(m) + [k]
    ensures UniqueKeys(Put(m, k, v))
    ensures forall i :: 0 <= i < |m| && m[i].0 != k ==> Put(m, k, v)[i] == m[i]
  {
    if k in Keys(m) {
      PutExisting(m, k, v);
    } else {
      PutNew(m, k, v);
    }
  }

  /** With unique keys, the value at each position is what its key reads. */
  lemma GetAt<V>(m: Entries<V>, i: nat)
    requires UniqueKeys(m) && i < |m|
    ensures Get(m, m[i].0) == Some(m[i].1)
  {
    IndexOfUnique(m, m[i].0, i);
  }

  lemma PutExisting<V>(m: Entries<V>, k: string, v: V)
    requires UniqueKeys(m) && k in Keys(m)
    ensures Keys(Put(m, k, v)) == Keys(m)
    ensures UniqueKeys(Put(m, k, v))
    ensures Get(Put(m, k, v), k) == Some(v)
    ensures forall k' :: k' != k ==> Get(Put(m, k, v), k') == Get(m, k')
  {
    var i := IndexOf(m, k);
    var r := Put(m, k, v);
    assert r == m[i := (k, v)];
    assert Keys(r) == Keys(m);
    GetAt(r, i);
    forall k' | k' != k && k' in Keys(m) ensures Get(r, k') == Get(m, k') {
      var j := IndexOf(m, k');
      GetAt(r, j);
      GetAt(m, j);
    }
  }

  lemma PutNew<V>(m: Entries<V>, k: string, v: V)
    requires UniqueKeys(m) && k !in Keys(m)
    ensures Keys(Put(m, k, v)) == Keys(m) + [k]
    ensures UniqueKeys(Put(m, k, v))
    ensures Get(Put(m, k, v), k) == Some(v)
    ensures forall k' :: k' != k ==> Get(Put(m, k, v), k') == Get(m, k')
  {
    var r := Put(m, k, v);
    assert r == m + [(k, v)];
    assert Keys(r) == Keys(m) + [k];
    assert UniqueKeys(r) by {
      forall i | 0 <= i < |m| ensures m[i].0 != k { assert Keys(m)[i] == m[i].0; }
    }
    GetAt(r, |m|);
    forall k' | k' != k && k' in Keys(m) ensures Get(r, k') == Get(m, k') {
      var j := IndexOf(m, k');
      GetAt(r, j);
      GetAt(m, j);
    }
  }

  /** `hash.reject { |key, _| key == k }`. */
  function Reject<V>(m: Entries<V>, k: string): (r: Entries<V>)
    ensures Keys(r) == Without(Keys(m), k)
  {
    if m == [] then []
    else
      var rest := Reject(m[1..], k);
      assert Keys(m)[1..] == Keys(m[1..]);
      assert Keys([m[0]] + rest) == [m[0].0] + Keys(rest);
      (if m[0].0 == k then [] else [m[0]]) + rest
  }

  /** `ks` with every occurrence of `k` removed, the rest in order. */
  function Without(ks: seq<string>, k: string): seq<string>
  {
    if ks == [] then []
    else (if ks[0] == k then [] else [ks[0]]) + Without(ks[1..], k)
  }

  /**
   * Rejecting `k`: `k` is gone, every other key reads what it read before,
   * the remaining keys keep their order, and keys stay unique.
   */
  lemma RejectSemantics<V>(m: Entries<V>, k: string)
    requires UniqueKeys(m)
    ensures Get(Reject(m, k), k) == None
    ensures forall k' :: k' != k ==> Get(Reject(m, k), k') == Get(m, k')
    ensures Keys(Reject(m, k)) == Without(Keys(m), k)
    ensures UniqueKeys(Reject(m, k))
  {
    RejectGet(m, k, k);
    forall k' | k' != k ensures Get(Reject(m, k), k') == Get(m, k') {
      RejectGet(m, k, k');
    }
    RejectUnique(m, k);
  }

  /** One key looked up after rejecting `k`. */
  lemma {:induction false} RejectGet<V>(m: Entries<V>, k: string, k': string)
    ensures Get(Reject(m, k), k') == if k' == k then None else Get(m, k')
  {
    if m != [] {
      var rest := Reject(m[1..], k);
      RejectGet(m[1..], k, k');
      GetTail(m, k');
      if m[0].0 != k {
        assert Reject(m, k) == [m[0]] + rest;
        GetTail([m[0]] + rest, k');
        assert ([m[0]] + rest)[1..] == rest;
      } else {
        assert Reject(m, k) == rest;
      }
    }
  }

  lemma {:induction false} RejectUnique<V>(m: Entries<V>, k: string)
    requires UniqueKeys(m)
    ensures UniqueKeys(Reject(m, k))
  {
    if m != [] {
      var rest := Reject(m[1..], k);
      RejectUnique(m[1..], k);
      if m[0].0 != k {
        var r := [m[0]] + rest;
        assert Reject(m, k) == r;
        assert m[0].0 !in Keys(m[1..]) by {
          forall j | 0 <= j < |m| - 1 ensures Keys(m[1..])[j] != m[0].0 {
            assert Keys(m[1..])[j] == m[j + 1].0;
          }
        }
        RejectGet(m[1..], k, m[0].0);
        forall j | 0 < j < |r| ensures r[0].0 != r[j].0 {
          assert Keys(rest)[j - 1] == r[j].0;
        }
      }
    }
  }

  /** Looking a key up past the first entry. */
  lemma GetTail<V>(m: Entries<V>, k: string)
    requires m != []
    ensures Get(m, k) == if m[0].0 == k then Some(m[0].1) else Get(m[1..], k)
  {
    assert Keys(m) == [m[0].0] + Keys(m[1..]);
    if m[0].0 != k && k in Keys(m) {
      assert IndexOf(m, k) == 1 + IndexOf(m[1..], k);
    }
  }
}
