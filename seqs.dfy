/**
 * Order-preserving selection (`Array.prototype.filter`, a list comprehension
 * with a condition) and stable ordering by a numeric key
 * (`Array.prototype.sort`, which is stable), stated once for any element type.
 */
module Seqs {
  import opened Wrappers

  // ---------------------------------------------------------------------------
  // Filtering
  // ---------------------------------------------------------------------------

  /** The elements of `s` that satisfy `p`, in their original order. */
  function Filter<T>(s: seq<T>, p: T -> bool): (r: seq<T>)
    ensures |r| <= |s|
    ensures forall i :: 0 <= i < |r| ==> p(r[i])
  {
    if s == [] then []
    else (if p(s[0]) then [s[0]] else []) + Filter(s[1..], p)
  }

  /** `a` can be obtained from `b` by deleting elements. */
  predicate IsSubsequence<T(==)>(a: seq<T>, b: seq<T>)
    decreases |b|
  {
    || a == []
    || (b != [] && a[0] == b[0] && IsSubsequence(a[1..], b[1..]))
    || (b != [] && IsSubsequence(a, b[1..]))
  }

  /** Prepending an element to the longer sequence keeps a subsequence, and
      may prepend it to the shorter one as well. */
  lemma OptionalPrefix<T>(p: seq<T>, h: T, x: seq<T>, y: seq<T>)
    requires p == [] || p == [h]
    requires IsSubsequence(x, y)
    ensures IsSubsequence(p + x, [h] + y)
  {
    assert ([h] + y)[1..] == y;
    if p != [] {
      assert (p + x)[1..] == x;
    } else {
      assert p + x == x;
    }
  }

  /** Five pieces, each empty or one given element, concatenated in order
      form a subsequence of those five elements. */
  lemma OptionalChain<T>(a: seq<T>, b: seq<T>, c: seq<T>, d: seq<T>, f: seq<T>, h1: T, h2: T, h3: T, h4: T, h5: T)
    requires a == [] || a == [h1]
    requires b == [] || b == [h2]
    requires c == [] || c == [h3]
    requires d == [] || d == [h4]
    requires f == [] || f == [h5]
    ensures IsSubsequence(a + b + c + d + f, [h1, h2, h3, h4, h5])
  {
    assert IsSubsequence(f, [h5]) by {
      assert IsSubsequence<T>([], []);
      OptionalPrefix(f, h5, [], []);
      assert f + [] == f && [h5] + [] == [h5];
    }
    assert IsSubsequence(d + f, [h4, h5]) by {
      OptionalPrefix(d, h4, f, [h5]);
      assert [h4] + [h5] == [h4, h5];
    }
    assert IsSubsequence(c + (d + f), [h3, h4, h5]) by {
      OptionalPrefix(c, h3, d + f, [h4, h5]);
      assert [h3] + [h4, h5] == [h3, h4, h5];
    }
    assert IsSubsequence(b + (c + (d + f)), [h2, h3, h4, h5]) by {
      OptionalPrefix(b, h2, c + (d + f), [h3, h4, h5]);
      assert [h2] + [h3, h4, h5] == [h2, h3, h4, h5];
    }
    assert IsSubsequence(a + (b + (c + (d + f))), [h1, h2, h3, h4, h5]) by {
      OptionalPrefix(a, h1, b + (c + (d + f)), [h2, h3, h4, h5]);
      assert [h1] + [h2, h3, h4, h5] == [h1, h2, h3, h4, h5];
    }
    Regroup5(a, b, c, d, f);
  }

  /** Five pieces concatenate to the empty sequence exactly when each is empty. */
  lemma EmptyConcat5<T>(a: seq<T>, b: seq<T>, c: seq<T>, d: seq<T>, f: seq<T>)
    ensures a + b + c + d + f == [] <==> a == [] && b == [] && c == [] && d == [] && f == []
  {
    assert |a + b + c + d + f| == |a| + |b| + |c| + |d| + |f|;
  }

  /** Five concatenated pieces, regrouped from the right. */
  lemma Regroup5<T>(a: seq<T>, b: seq<T>, c: seq<T>, d: seq<T>, f: seq<T>)
    ensures a + b + c + d + f == a + (b + (c + (d + f)))
  {
  }

  /** Filtering keeps a subsequence of the input. */
  lemma {:induction false} FilterIsSubsequence<T>(s: seq<T>, p: T -> bool)
    ensures IsSubsequence(Filter(s, p), s)
    decreases |s|
  {
    if s != [] {
      FilterIsSubsequence(s[1..], p);
      var rest := Filter(s[1..], p);
      if p(s[0]) {
        assert ([s[0]] + rest)[1..] == rest;
      } else {
        assert Filter(s, p) == rest;
      }
    }
  }

  /** Each value occurs in the filtered sequence as often as in the input when
      it satisfies `p`, and not at all otherwise. */
  lemma {:induction false} FilterCounts<T>(s: seq<T>, p: T -> bool, x: T)
    ensures multiset(Filter(s, p))[x] == if p(x) then multiset(s)[x] else 0
    decreases |s|
  {
    if s != [] {
      FilterCounts(s[1..], p, x);
      assert s == [s[0]] + s[1..];
      assert multiset(s) == multiset([s[0]]) + multiset(s[1..]);
    }
  }

  lemma {:induction false} FilterAppend<T>(a: seq<T>, b: seq<T>, p: T -> bool)
    ensures Filter(a + b, p) == Filter(a, p) + Filter(b, p)
    decreases |a|
  {
    if a == [] {
      assert a + b == b;
    } else {
      assert (a + b)[0] == a[0];
      assert (a + b)[1..] == a[1..] + b;
      FilterAppend(a[1..], b, p);
    }
  }

  /** A filter that keeps everything is the identity. */
  lemma {:induction false} FilterAll<T>(s: seq<T>, p: T -> bool)
    requires forall i :: 0 <= i < |s| ==> p(s[i])
    ensures Filter(s, p) == s
    decreases |s|
  {
    if s != [] {
      FilterAll(s[1..], p);
      assert [s[0]] + s[1..] == s;
    }
  }

  /** A filter that keeps nothing gives the empty sequence. */
  lemma {:induction false} FilterNone<T>(s: seq<T>, p: T -> bool)
    requires forall i :: 0 <= i < |s| ==> !p(s[i])
    ensures Filter(s, p) == []
    decreases |s|
  {
    if s != [] {
      FilterNone(s[1..], p);
    }
  }

  // ---------------------------------------------------------------------------
  // Leftmost search
  // ---------------------------------------------------------------------------

  /** The smallest index in `from..to` at which `f` gives a value, with that
      value: the position of the first match of a non-global regular
      expression when `f` is its matcher at a fixed start. */
  function Leftmost<T>(f: nat -> Option<T>, from: nat, to: nat): (r: Option<(nat, T)>)
    requires from <= to
    ensures r.Some? ==> from <= r.value.0 <= to && f(r.value.0) == Some(r.value.1)
    ensures r.Some? ==> forall k :: from <= k < r.value.0 ==> f(k).None?
    ensures r.None? ==> forall k :: from <= k <= to ==> f(k).None?
    decreases (to as int) - from
  {
    if f(from).Some? then Some((from, f(from).value))
    else if from == to then None
    else Leftmost(f, from + 1, to)
  }

  // ---------------------------------------------------------------------------
  // Stable sorting by a key, largest key first
  // ---------------------------------------------------------------------------

  predicate SortedDesc<T>(s: seq<T>, key: T -> int) {
    forall i, j :: 0 <= i < j < |s| ==> key(s[i]) >= key(s[j])
  }

  /** Insert `x` in front of the first element whose key is not larger. */
  function InsertDesc<T>(x: T, s: seq<T>, key: T -> int): (r: seq<T>)
    ensures |r| == |s| + 1
    decreases |s|
  {
    if s == [] || key(s[0]) <= key(x) then [x] + s
    else [s[0]] + InsertDesc(x, s[1..], key)
  }

  /** Insertion sort, largest key first; equal keys keep their input order. */
  function SortDesc<T>(s: seq<T>, key: T -> int): (r: seq<T>)
    ensures |r| == |s|
    decreases |s|
  {
    if s == [] then [] else InsertDesc(s[0], SortDesc(s[1..], key), key)
  }

  /** Inserting splits the sorted sequence between larger and not larger keys. */
  lemma {:induction false} InsertDescSplit<T>(x: T, s: seq<T>, key: T -> int) returns (j: nat)
    ensures j <= |s| && InsertDesc(x, s, key) == s[..j] + [x] + s[j..]
    ensures forall i :: 0 <= i < j ==> key(s[i]) > key(x)
    ensures j < |s| ==> key(s[j]) <= key(x)
    decreases |s|
  {
    if s == [] || key(s[0]) <= key(x) {
      j := 0;
    } else {
      var k := InsertDescSplit(x, s[1..], key);
      j := k + 1;
      assert s[..j] == [s[0]] + s[1..][..k];
      assert s[j..] == s[1..][k..];
    }
  }

  lemma InsertDescSorted<T>(x: T, s: seq<T>, key: T -> int)
    requires SortedDesc(s, key)
    ensures SortedDesc(InsertDesc(x, s, key), key)
  {
    var j := InsertDescSplit(x, s, key);
    var r := InsertDesc(x, s, key);
    forall a, b | 0 <= a < b < |r|
      ensures key(r[a]) >= key(r[b])
    {
      if a < j && b < j {
        assert r[a] == s[a] && r[b] == s[b];
      } else if a < j {
        assert r[a] == s[a];
        if b > j {
          assert r[b] == s[b - 1];
          assert key(s[j]) <= key(x);
        }
      } else if a == j {
        assert r[b] == s[b - 1];
      } else {
        assert r[a] == s[a - 1] && r[b] == s[b - 1];
      }
    }
  }

  lemma InsertDescMultiset<T>(x: T, s: seq<T>, key: T -> int)
    ensures multiset(InsertDesc(x, s, key)) == multiset{x} + multiset(s)
  {
    var j := InsertDescSplit(x, s, key);
    assert s == s[..j] + s[j..];
  }

  /** The sort orders by key and is a permutation of its input. */
  lemma {:induction false} SortDescSpec<T>(s: seq<T>, key: T -> int)
    ensures SortedDesc(SortDesc(s, key), key)
    ensures multiset(SortDesc(s, key)) == multiset(s)
    decreases |s|
  {
    if s != [] {
      SortDescSpec(s[1..], key);
      InsertDescSorted(s[0], SortDesc(s[1..], key), key);
      InsertDescMultiset(s[0], SortDesc(s[1..], key), key);
      assert s == [s[0]] + s[1..];
    }
  }

  /** Filtering an insertion: `x` lands behind every element with a larger key. */
  lemma {:induction false} InsertDescFilter<T>(x: T, s: seq<T>, key: T -> int, p: T -> bool)
    requires p(x) ==> forall i :: 0 <= i < |s| && key(s[i]) > key(x) ==> !p(s[i])
    ensures Filter(InsertDesc(x, s, key), p) == (if p(x) then [x] else []) + Filter(s, p)
    decreases |s|
  {
    if s == [] || key(s[0]) <= key(x) {
      assert ([x] + s)[1..] == s;
    } else {
      var rest := InsertDesc(x, s[1..], key);
      InsertDescFilter(x, s[1..], key, p);
      assert ([s[0]] + rest)[1..] == rest;
    }
  }

  /** The elements whose key is `k`. */
  function HasKey<T>(key: T -> int, k: int): T -> bool {
    y => key(y) == k
  }

  /** Stability: among elements with equal keys the sort keeps input order. */
  lemma {:induction false} SortDescStable<T>(s: seq<T>, key: T -> int, k: int)
    ensures Filter(SortDesc(s, key), HasKey(key, k)) == Filter(s, HasKey(key, k))
    decreases |s|
  {
    if s != [] {
      SortDescStable(s[1..], key, k);
      SortDescSpec(s[1..], key);
      InsertDescFilter(s[0], SortDesc(s[1..], key), key, HasKey(key, k));
    }
  }
}
