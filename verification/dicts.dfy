/** Python dictionaries with string keys, as association lists in insertion order.
    Assigning an existing key keeps its position and replaces its value; a new key
    goes at the end. */
module Dicts {
  import opened Results

  type Dict<V> = seq<(string, V)>

  predicate HasKey<V>(d: Dict<V>, k: string) {
    exists i :: 0 <= i < |d| && d[i].0 == k
  }

  /** `list(d) == ks`: the keys of `d`, in order, are `ks`. */
  predicate KeysAre<V>(d: Dict<V>, ks: seq<string>) {
    |d| == |ks| && forall i :: 0 <= i < |d| ==> d[i].0 == ks[i]
  }

  predicate DistinctKeys<V>(d: Dict<V>) {
    forall i, j :: 0 <= i < j < |d| ==> d[i].0 != d[j].0
  }

  /** `d.get(k)`. */
  function Get<V>(d: Dict<V>, k: string): (r: Option<V>)
    ensures r.Some? <==> HasKey(d, k)
    decreases |d|
  {
    if d == [] then None
    else if d[0].0 == k then Some(d[0].1)
    else
      HasKeyCons(d, k);
      Get(d[1..], k)
  }

  /** A key is in a non-empty dictionary when it is the first key or in the rest. */
  lemma HasKeyCons<V>(d: Dict<V>, k: string)
    requires d != []
    ensures HasKey(d, k) <==> d[0].0 == k || HasKey(d[1..], k)
  {
    if HasKey(d, k) && d[0].0 != k {
      var i :| 0 <= i < |d| && d[i].0 == k;
      assert d[1..][i - 1].0 == k;
    }
    if HasKey(d[1..], k) {
      var i :| 0 <= i < |d[1..]| && d[1..][i].0 == k;
      assert d[i + 1].0 == k;
    }
  }

  /** With distinct keys, looking up the key of an entry finds that entry's value. */
  lemma {:induction false} GetAt<V>(d: Dict<V>, j: nat)
    requires DistinctKeys(d) && j < |d|
    ensures Get(d, d[j].0) == Some(d[j].1)
    decreases j
  {
    if j > 0 {
      assert d[0].0 != d[j].0;
      assert DistinctKeys(d[1..]) by {
        forall a, b | 0 <= a < b < |d[1..]|
          ensures d[1..][a].0 != d[1..][b].0
        {
          assert d[1..][a] == d[a + 1] && d[1..][b] == d[b + 1];
        }
      }
      GetAt(d[1..], j - 1);
      assert d[1..][j - 1] == d[j];
    }
  }

  /** `d[k] = v`. */
  function Put<V>(d: Dict<V>, k: string, v: V): (r: Dict<V>)
    ensures Get(r, k) == Some(v)
    ensures forall k' :: k' != k ==> Get(r, k') == Get(d, k')
    ensures HasKey(d, k) ==> |r| == |d| && forall i :: 0 <= i < |d| ==> r[i].0 == d[i].0
    ensures !HasKey(d, k) ==> r == d + [(k, v)]
    ensures DistinctKeys(d) ==> DistinctKeys(r)
    decreases |d|
  {
    if d == [] then PutEmpty(k, v); [(k, v)]
    else if d[0].0 == k then PutFront(d, k, v); [(k, v)] + d[1..]
    else
      var rest := Put(d[1..], k, v);
      PutCons(d, k, v, rest);
      PutConsKeys(d, k, v, rest);
      [d[0]] + rest
  }

  /** Assigning into an empty dictionary gives the one entry. */
  lemma PutEmpty<V>(k: string, v: V)
    ensures Get([(k, v)], k) == Some(v)
    ensures forall k' :: k' != k ==> Get([(k, v)], k') == None
  {
    assert [(k, v)][1..] == [];
  }

  /** Assigning the first key replaces its value in place. */
  lemma PutFront<V>(d: Dict<V>, k: string, v: V)
    requires d != [] && d[0].0 == k
    ensures Get([(k, v)] + d[1..], k) == Some(v)
    ensures forall k' :: k' != k ==> Get([(k, v)] + d[1..], k') == Get(d, k')
    ensures |[(k, v)] + d[1..]| == |d| && forall i :: 0 <= i < |d| ==> ([(k, v)] + d[1..])[i].0 == d[i].0
    ensures DistinctKeys(d) ==> DistinctKeys([(k, v)] + d[1..])
  {
    var r := [(k, v)] + d[1..];
    assert r[1..] == d[1..];
    forall i | 0 <= i < |d|
      ensures r[i].0 == d[i].0
    {
      if i > 0 {
        assert r[i] == d[i];
      }
    }
  }

  /** Assigning past a first entry with another key keeps that entry in front. */
  lemma PutCons<V>(d: Dict<V>, k: string, v: V, rest: Dict<V>)
    requires d != [] && d[0].0 != k
    requires forall k' :: k' != k ==> Get(rest, k') == Get(d[1..], k')
    requires Get(rest, k) == Some(v)
    requires HasKey(d[1..], k) ==> |rest| == |d[1..]| && forall i :: 0 <= i < |d[1..]| ==> rest[i].0 == d[1..][i].0
    requires !HasKey(d[1..], k) ==> rest == d[1..] + [(k, v)]
    ensures Get([d[0]] + rest, k) == Some(v)
    ensures forall k' :: k' != k ==> Get([d[0]] + rest, k') == Get(d, k')
    ensures HasKey(d, k) ==> |[d[0]] + rest| == |d| && forall i :: 0 <= i < |d| ==> ([d[0]] + rest)[i].0 == d[i].0
    ensures !HasKey(d, k) ==> [d[0]] + rest == d + [(k, v)]
  {
    var r := [d[0]] + rest;
    assert r[0] == d[0] && r[1..] == rest;
    HasKeyCons(d, k);
    if HasKey(d, k) {
      forall i | 0 <= i < |d|
        ensures r[i].0 == d[i].0
      {
        if i > 0 {
          assert r[i] == rest[i - 1] && d[1..][i - 1] == d[i];
        }
      }
    } else {
      assert d == [d[0]] + d[1..];
    }
  }

  lemma PutConsKeys<V>(d: Dict<V>, k: string, v: V, rest: Dict<V>)
    requires d != [] && d[0].0 != k
    requires forall k' :: k' != k ==> Get(rest, k') == Get(d[1..], k')
    requires Get(rest, k) == Some(v)
    requires DistinctKeys(d) ==> DistinctKeys(rest)
    requires HasKey(d[1..], k) ==> |rest| == |d[1..]| && forall i :: 0 <= i < |d[1..]| ==> rest[i].0 == d[1..][i].0
    requires !HasKey(d[1..], k) ==> rest == d[1..] + [(k, v)]
    ensures DistinctKeys(d) ==> DistinctKeys([d[0]] + rest)
  {
    if DistinctKeys(d) {
      assert !HasKey(d[1..], d[0].0) by {
        forall i | 0 <= i < |d[1..]|
          ensures d[1..][i].0 != d[0].0
        {
          assert d[1..][i] == d[i + 1];
        }
      }
      assert Get(rest, d[0].0) == Get(d[1..], d[0].0);
      assert !HasKey(rest, d[0].0);
    }
  }

  /** `d.update(other)`: the entries of `other` assigned one by one, in order. */
  function Update<V>(d: Dict<V>, other: Dict<V>): (r: Dict<V>)
    ensures forall k :: HasKey(r, k) <==> HasKey(d, k) || HasKey(other, k)
    ensures DistinctKeys(d) ==> DistinctKeys(r)
    ensures ((forall i :: 0 <= i < |other| ==> !HasKey(d, other[i].0)) && DistinctKeys(other))
            ==> r == d + other
    decreases |other|
  {
    if other == [] then d
    else
      var d' := Put(d, other[0].0, other[0].1);
      var r := Update(d', other[1..]);
      UpdateConsKeys(d, other, d', r);
      UpdateConsFresh(d, other, d', r);
      r
  }

  lemma UpdateConsKeys<V>(d: Dict<V>, other: Dict<V>, d': Dict<V>, r: Dict<V>)
    requires other != [] && d' == Put(d, other[0].0, other[0].1)
    requires forall k :: HasKey(r, k) <==> HasKey(d', k) || HasKey(other[1..], k)
    ensures forall k :: HasKey(r, k) <==> HasKey(d, k) || HasKey(other, k)
  {
    forall k
      ensures HasKey(r, k) <==> HasKey(d, k) || HasKey(other, k)
    {
      PutHasKey(d, other[0].0, other[0].1, k);
      HasKeyCons(other, k);
    }
  }

  /** After `d[k0] = v` the keys are those of `d` and `k0`. */
  lemma PutHasKey<V>(d: Dict<V>, k0: string, v: V, k: string)
    ensures HasKey(Put(d, k0, v), k) <==> HasKey(d, k) || k == k0
  {
    assert Get(Put(d, k0, v), k).Some? <==> HasKey(Put(d, k0, v), k);
    assert Get(d, k).Some? <==> HasKey(d, k);
  }

  lemma UpdateConsFresh<V>(d: Dict<V>, other: Dict<V>, d': Dict<V>, r: Dict<V>)
    requires other != [] && (!HasKey(d, other[0].0) ==> d' == d + [other[0]])
    requires ((forall i :: 0 <= i < |other[1..]| ==> !HasKey(d', other[1..][i].0)) && DistinctKeys(other[1..]))
             ==> r == d' + other[1..]
    ensures ((forall i :: 0 <= i < |other| ==> !HasKey(d, other[i].0)) && DistinctKeys(other))
            ==> r == d + other
  {
    if (forall i :: 0 <= i < |other| ==> !HasKey(d, other[i].0)) && DistinctKeys(other) {
      assert !HasKey(d, other[0].0);
      assert d' == d + [other[0]];
      var tail := other[1..];
      forall i | 0 <= i < |tail|
        ensures !HasKey(d', tail[i].0)
      {
        assert tail[i] == other[i + 1];
        HasKeyAppend(d, other[0], tail[i].0);
      }
      assert DistinctKeys(tail) by {
        forall i, j | 0 <= i < j < |tail|
          ensures tail[i].0 != tail[j].0
        {
          assert tail[i] == other[i + 1] && tail[j] == other[j + 1];
        }
      }
      assert other == [other[0]] + tail;
    }
  }

  lemma HasKeyAppend<V>(d: Dict<V>, e: (string, V), k: string)
    ensures HasKey(d + [e], k) <==> HasKey(d, k) || e.0 == k
  {
    var d' := d + [e];
    if HasKey(d', k) && e.0 != k {
      var j :| 0 <= j < |d'| && d'[j].0 == k;
      assert d[j].0 == k;
    }
    if HasKey(d, k) {
      var j :| 0 <= j < |d| && d[j].0 == k;
      assert d'[j].0 == k;
    }
    assert d'[|d|] == e;
  }

  /** With distinct keys in `other`, `d.update(other)` maps a key of `other` to its
      value there and every other key to its value in `d`. */
  lemma {:induction false} UpdateGet<V>(d: Dict<V>, other: Dict<V>, k: string)
    requires DistinctKeys(other)
    ensures Get(Update(d, other), k) == if HasKey(other, k) then Get(other, k) else Get(d, k)
    decreases |other|
  {
    if other != [] {
      var k0 := other[0].0;
      var d' := Put(d, k0, other[0].1);
      var tail := other[1..];
      assert DistinctKeys(tail) by {
        forall i, j | 0 <= i < j < |tail|
          ensures tail[i].0 != tail[j].0
        {
          assert tail[i] == other[i + 1] && tail[j] == other[j + 1];
        }
      }
      UpdateGet(d', tail, k);
      HasKeyCons(other, k);
      if k == k0 {
        assert !HasKey(tail, k) by {
          forall i | 0 <= i < |tail|
            ensures tail[i].0 != k
          {
            assert tail[i] == other[i + 1];
          }
        }
      }
    }
  }

  /** `d.update(other)` keeps every key of `d` at its position; new keys come after. */
  lemma {:induction false} UpdateKeepsPositions<V>(d: Dict<V>, other: Dict<V>)
    ensures |Update(d, other)| >= |d|
    ensures forall i :: 0 <= i < |d| ==> Update(d, other)[i].0 == d[i].0
    decreases |other|
  {
    if other != [] {
      var d' := Put(d, other[0].0, other[0].1);
      UpdateKeepsPositions(d', other[1..]);
      if !HasKey(d, other[0].0) {
        forall i | 0 <= i < |d|
          ensures d'[i].0 == d[i].0
        {
          assert d'[i] == (d + [other[0]])[i];
        }
      }
    }
  }

  /** Assigning a key keeps the key order, and a new key goes last. */
  lemma KeysPut<V>(d: Dict<V>, k: string, v: V, ks: seq<string>)
    requires KeysAre(d, ks)
    ensures HasKey(d, k) ==> KeysAre(Put(d, k, v), ks)
    ensures !HasKey(d, k) ==> KeysAre(Put(d, k, v), ks + [k])
  {
    if !HasKey(d, k) {
      var r := Put(d, k, v);
      assert r == d + [(k, v)];
      forall i | 0 <= i < |r|
        ensures r[i].0 == (ks + [k])[i]
      {
        if i < |d| {
          assert r[i] == d[i];
        }
      }
    }
  }
}
