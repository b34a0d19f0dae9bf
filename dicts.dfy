/**
 * Python dictionaries as insertion-ordered association lists. Assigning to a
 * key that is present replaces its value where it stands; assigning to a new
 * key appends it, so iteration order is the order of first insertion.
 */
module Dicts {
  import opened Wrappers

  type Dict<K, V> = seq<(K, V)>

  predicate DistinctKeys<K(==), V>(d: Dict<K, V>) {
    forall i, j :: 0 <= i < j < |d| ==> d[i].0 != d[j].0
  }

  predicate HasKey<K(==), V>(d: Dict<K, V>, k: K) {
    exists i :: 0 <= i < |d| && d[i].0 == k
  }

  /** `d.get(k)`: the value of the first entry with key `k`. */
  function Get<K(==), V>(d: Dict<K, V>, k: K): (r: Option<V>)
    ensures r.None? <==> !HasKey(d, k)
    ensures r.Some? ==> exists i :: 0 <= i < |d| && d[i] == (k, r.value)
  {
    if d == [] then None
    else if d[0].0 == k then Some(d[0].1)
    else
      var r := Get(d[1..], k);
      assert forall i :: 0 <= i < |d[1..]| ==> d[1..][i] == d[i + 1];
      r
  }

  /** The entry found is the first one with the key. */
  lemma {:induction false} GetAt<K, V>(d: Dict<K, V>, k: K, i: nat)
    requires i < |d| && d[i].0 == k
    requires forall j :: 0 <= j < i ==> d[j].0 != k
    ensures Get(d, k) == Some(d[i].1)
    decreases i
  {
    if i > 0 {
      GetAt(d[1..], k, i - 1);
    }
  }

  /** `d.get(k, fallback)`. */
  function GetOr<K(==), V>(d: Dict<K, V>, k: K, fallback: V): V {
    match Get(d, k)
    case Some(v) => v
    case None => fallback
  }

  /** `d[k] = v`. */
  function Put<K(==), V>(d: Dict<K, V>, k: K, v: V): (r: Dict<K, V>)
    ensures HasKey(d, k) ==> |r| == |d|
    ensures !HasKey(d, k) ==> r == d + [(k, v)]
  {
    if d == [] then [(k, v)]
    else if d[0].0 == k then [(k, v)] + d[1..]
    else
      assert HasKey(d, k) <==> HasKey(d[1..], k) by {
        assert forall i :: 0 <= i < |d[1..]| ==> d[1..][i] == d[i + 1];
        if HasKey(d, k) {
          var i :| 0 <= i < |d| && d[i].0 == k;
          assert d[1..][i - 1] == d[i];
        }
      }
      [d[0]] + Put(d[1..], k, v)
  }

  function Keys<K, V>(d: Dict<K, V>): (ks: seq<K>)
    ensures |ks| == |d| && forall i :: 0 <= i < |d| ==> ks[i] == d[i].0
  {
    seq(|d|, i requires 0 <= i < |d| => d[i].0)
  }

  /** After `d[k] = v`, `k` maps to `v` and every other key to what it mapped to. */
  lemma {:induction false} GetPut<K, V>(d: Dict<K, V>, k: K, v: V, k': K)
    ensures Get(Put(d, k, v), k') == if k' == k then Some(v) else Get(d, k')
    decreases |d|
  {
    if d != [] && d[0].0 != k {
      GetPut(d[1..], k, v, k');
      assert Put(d, k, v)[1..] == Put(d[1..], k, v);
    }
  }

  lemma GetOrPut<K, V>(d: Dict<K, V>, k: K, v: V, k': K, fallback: V)
    ensures GetOr(Put(d, k, v), k', fallback) == if k' == k then v else GetOr(d, k', fallback)
  {
    GetPut(d, k, v, k');
  }

  /** Assignment keeps the keys distinct, and a new key goes last. */
  lemma {:induction false} PutKeys<K, V>(d: Dict<K, V>, k: K, v: V)
    requires DistinctKeys(d)
    ensures DistinctKeys(Put(d, k, v))
    ensures Keys(Put(d, k, v)) == if HasKey(d, k) then Keys(d) else Keys(d) + [k]
    decreases |d|
  {
    if d != [] && d[0].0 != k {
      PutKeys(d[1..], k, v);
      var r := Put(d, k, v);
      assert r == [d[0]] + Put(d[1..], k, v);
      assert HasKey(d, k) <==> HasKey(d[1..], k) by {
        if HasKey(d, k) {
          var i :| 0 <= i < |d| && d[i].0 == k;
          assert d[1..][i - 1] == d[i];
        }
      }
      forall i, j | 0 <= i < j < |r|
        ensures r[i].0 != r[j].0
      {
        if i == 0 {
          assert Keys(r)[j] == Keys(Put(d[1..], k, v))[j - 1];
          if HasKey(d[1..], k) {
            assert Keys(Put(d[1..], k, v)) == Keys(d[1..]);
            assert r[j].0 == d[j].0;
          } else if j < |d| {
            assert r[j].0 == d[j].0;
          }
        }
      }
    } else if d != [] {
      assert HasKey(d, k);
      assert Keys(Put(d, k, v)) == Keys(d);
    }
  }

  /** An entry after `d[k] = v` is the assigned one or an old one. */
  lemma {:induction false} PutIn<K, V>(d: Dict<K, V>, k: K, v: V)
    ensures forall e :: e in Put(d, k, v) ==> e == (k, v) || e in d
    decreases |d|
  {
    if d != [] && d[0].0 != k {
      PutIn(d[1..], k, v);
      assert Put(d, k, v) == [d[0]] + Put(d[1..], k, v);
    } else if d != [] {
      assert forall e :: e in d[1..] ==> e in d;
    }
  }

  /** `d.get(k, fallback)` is the fallback or the value of an entry of `d`. */
  lemma GetOrIn<K, V>(d: Dict<K, V>, k: K, fallback: V)
    ensures GetOr(d, k, fallback) == fallback || (k, GetOr(d, k, fallback)) in d
  {
    if Get(d, k).Some? {
      var i :| 0 <= i < |d| && d[i] == (k, Get(d, k).value);
    }
  }

  /** `{k: v for k, v in pairs}`: each pair assigned in order. */
  function FromPairs<K(==), V>(pairs: seq<(K, V)>): Dict<K, V> {
    if pairs == [] then []
    else
      var last := pairs[|pairs| - 1];
      Put(FromPairs(pairs[..|pairs| - 1]), last.0, last.1)
  }

  /** The value of `k` is that of the last pair with key `k`: later pairs win. */
  lemma {:induction false} FromPairsLast<K, V>(pairs: seq<(K, V)>, k: K, i: nat)
    requires i < |pairs| && pairs[i].0 == k
    requires forall j :: i < j < |pairs| ==> pairs[j].0 != k
    ensures Get(FromPairs(pairs), k) == Some(pairs[i].1)
    decreases |pairs|
  {
    var n := |pairs| - 1;
    var last := pairs[n];
    GetPut(FromPairs(pairs[..n]), last.0, last.1, k);
    if i < n {
      FromPairsLast(pairs[..n], k, i);
    }
  }

  /** A key no pair has is absent. */
  lemma {:induction false} FromPairsAbsent<K, V>(pairs: seq<(K, V)>, k: K)
    requires forall j :: 0 <= j < |pairs| ==> pairs[j].0 != k
    ensures Get(FromPairs(pairs), k) == None
    decreases |pairs|
  {
    if pairs != [] {
      var n := |pairs| - 1;
      GetPut(FromPairs(pairs[..n]), pairs[n].0, pairs[n].1, k);
      FromPairsAbsent(pairs[..n], k);
    }
  }

  lemma FromPairsAppend<K, V>(pairs: seq<(K, V)>, k: K, v: V)
    ensures FromPairs(pairs + [(k, v)]) == Put(FromPairs(pairs), k, v)
  {
    assert (pairs + [(k, v)])[..|pairs|] == pairs;
  }
}
