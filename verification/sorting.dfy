/** Kotlin's `sortedBy { key }` and `sorted()` on strings: a stable sort
    by `String.compareTo`, modelled as an insertion sort on sequences. */
module Sorting {
  import opened Text

  /** Neighbours are in order of their keys. */
  predicate Sorted<T>(s: seq<T>, key: T -> string) {
    forall i :: 0 < i < |s| ==> LessEq(key(s[i - 1]), key(s[i]))
  }

  /** Every element comes no later than every element after it. */
  predicate SortedPairwise<T>(s: seq<T>, key: T -> string) {
    forall i, j :: 0 <= i < j < |s| ==> LessEq(key(s[i]), key(s[j]))
  }

  /** The elements of `s` whose key is `k`, in their order in `s`. */
  function WithKey<T>(s: seq<T>, key: T -> string, k: string): (r: seq<T>)
    ensures |r| <= |s|
    ensures forall i :: 0 <= i < |r| ==> key(r[i]) == k
    decreases |s|
  {
    if |s| == 0 then []
    else (if key(s[0]) == k then [s[0]] else []) + WithKey(s[1..], key, k)
  }

  /** `x` goes after every element whose key is not greater than its own. */
  function Insert<T>(x: T, t: seq<T>, key: T -> string): (r: seq<T>)
    ensures |r| == |t| + 1
    ensures multiset(r) == multiset(t) + multiset{x}
    ensures r[0] == x || (|t| > 0 && r[0] == t[0])
    decreases |t|
  {
    if |t| == 0 then [x]
    else if Less(key(x), key(t[0])) then [x] + t
    else
      assert t == [t[0]] + t[1..];
      [t[0]] + Insert(x, t[1..], key)
  }

  /** `sortedBy(key)` */
  function SortBy<T>(s: seq<T>, key: T -> string): (r: seq<T>)
    ensures |r| == |s|
    ensures multiset(r) == multiset(s)
    decreases |s|
  {
    if |s| == 0 then []
    else
      assert s == s[..|s| - 1] + [s[|s| - 1]];
      Insert(s[|s| - 1], SortBy(s[..|s| - 1], key), key)
  }

  // ---------------------------------------------------------------------
  // Properties

  lemma {:induction false} InsertSorted<T>(x: T, t: seq<T>, key: T -> string)
    requires Sorted(t, key)
    ensures Sorted(Insert(x, t, key), key)
    decreases |t|
  {
    if |t| > 0 && !Less(key(x), key(t[0])) {
      InsertSorted(x, t[1..], key);
      var r := Insert(x, t[1..], key);
      if key(x) != key(t[0]) { LessTotal(key(x), key(t[0])); }
      assert LessEq(key(t[0]), key(r[0]));
    }
  }

  /** The result of `SortBy` is in key order and is a permutation of the
      input. */
  lemma {:induction false} SortBySorted<T>(s: seq<T>, key: T -> string)
    ensures Sorted(SortBy(s, key), key)
    ensures multiset(SortBy(s, key)) == multiset(s)
    decreases |s|
  {
    if |s| > 0 {
      SortBySorted(s[..|s| - 1], key);
      InsertSorted(s[|s| - 1], SortBy(s[..|s| - 1], key), key);
    }
  }

  lemma LessEqTransitive(a: string, b: string, c: string)
    requires LessEq(a, b) && LessEq(b, c)
    ensures LessEq(a, c)
  {
    if a != b && b != c { LessTransitive(a, b, c); }
  }

  /** Order between neighbours gives order between any two elements. */
  lemma {:induction false} SortedAllPairs<T>(s: seq<T>, key: T -> string)
    requires Sorted(s, key)
    ensures SortedPairwise(s, key)
    decreases |s|
  {
    if |s| > 1 {
      SortedAllPairs(s[1..], key);
      forall j | 1 < j < |s| ensures LessEq(key(s[0]), key(s[j])) {
        assert LessEq(key(s[1..][0]), key(s[1..][j - 1]));
        LessEqTransitive(key(s[0]), key(s[1]), key(s[j]));
      }
    }
  }

  lemma {:induction false} WithKeyAppend<T>(a: seq<T>, b: seq<T>, key: T -> string, k: string)
    ensures WithKey(a + b, key, k) == WithKey(a, key, k) + WithKey(b, key, k)
    decreases |a|
  {
    if |a| > 0 {
      assert (a + b)[1..] == a[1..] + b;
      WithKeyAppend(a[1..], b, key, k);
    } else {
      assert a + b == b;
    }
  }

  /** A sorted sequence whose first key is greater than `k` holds no
      element with key `k`. */
  lemma {:induction false} WithKeyAbove<T>(t: seq<T>, key: T -> string, k: string)
    requires Sorted(t, key) && |t| > 0 && Less(k, key(t[0]))
    ensures WithKey(t, key, k) == []
    decreases |t|
  {
    if key(t[0]) == k { LessIrreflexive(k); }
    if |t| > 1 {
      if key(t[0]) != key(t[1]) { LessTransitive(k, key(t[0]), key(t[1])); }
      WithKeyAbove(t[1..], key, k);
    }
  }

  /** An element placed in front of every greater key. */
  lemma InsertFrontWithKey<T>(x: T, t: seq<T>, key: T -> string, k: string)
    requires Sorted(t, key) && |t| > 0 && Less(key(x), key(t[0]))
    ensures WithKey([x] + t, key, k) == WithKey(t, key, k) + WithKey([x], key, k)
  {
    WithKeyAppend([x], t, key, k);
    if key(x) == k { WithKeyAbove(t, key, k); }
  }

  lemma {:induction false} InsertWithKey<T>(x: T, t: seq<T>, key: T -> string, k: string)
    requires Sorted(t, key)
    ensures WithKey(Insert(x, t, key), key, k) == WithKey(t, key, k) + WithKey([x], key, k)
    decreases |t|
  {
    if |t| == 0 {
    } else if Less(key(x), key(t[0])) {
      InsertFrontWithKey(x, t, key, k);
    } else {
      var t0, t1 := [t[0]], t[1..];
      assert Sorted(t1, key) by {
        forall i | 0 < i < |t1| ensures LessEq(key(t1[i - 1]), key(t1[i])) {
          assert t1[i - 1] == t[i] && t1[i] == t[i + 1];
        }
      }
      InsertWithKey(x, t1, key, k);
      assert t == t0 + t1;
      ConsWithKey(t0, t1, Insert(x, t1, key), WithKey([x], key, k), key, k);
    }
  }

  lemma ConsWithKey<T>(t0: seq<T>, t1: seq<T>, r1: seq<T>, wx: seq<T>, key: T -> string, k: string)
    requires WithKey(r1, key, k) == WithKey(t1, key, k) + wx
    ensures WithKey(t0 + r1, key, k) == WithKey(t0 + t1, key, k) + wx
  {
    var a, b, c := WithKey(t0, key, k), WithKey(t1, key, k), WithKey(r1, key, k);
    calc {
      WithKey(t0 + r1, key, k);
      { WithKeyAppend(t0, r1, key, k); }
      a + c;
      a + (b + wx);
      (a + b) + wx;
      { WithKeyAppend(t0, t1, key, k); }
      WithKey(t0 + t1, key, k) + wx;
    }
  }

  /** `SortBy` is stable: the elements sharing a key keep their order. */
  lemma {:induction false} SortByStable<T>(s: seq<T>, key: T -> string, k: string)
    ensures WithKey(SortBy(s, key), key, k) == WithKey(s, key, k)
    decreases |s|
  {
    if |s| > 0 {
      var init := s[..|s| - 1];
      SortByStable(init, key, k);
      SortBySorted(init, key);
      InsertWithKey(s[|s| - 1], SortBy(init, key), key, k);
      assert s == init + [s[|s| - 1]];
      WithKeyAppend(init, [s[|s| - 1]], key, k);
    }
  }

  /** No two elements share a value of `f`. */
  predicate DistinctBy<T>(s: seq<T>, f: T -> string) {
    forall i, j :: 0 <= i < j < |s| ==> f(s[i]) != f(s[j])
  }

  lemma {:induction false} InsertDistinct<T>(x: T, t: seq<T>, key: T -> string, f: T -> string)
    requires DistinctBy(t, f) && forall y :: y in t ==> f(y) != f(x)
    ensures DistinctBy(Insert(x, t, key), f)
    decreases |t|
  {
    if |t| > 0 && !Less(key(x), key(t[0])) {
      var r := Insert(x, t[1..], key);
      assert DistinctBy(t[1..], f) by {
        forall i, j | 0 <= i < j < |t[1..]| ensures f(t[1..][i]) != f(t[1..][j]) {
          assert t[1..][i] == t[i + 1] && t[1..][j] == t[j + 1];
        }
      }
      InsertDistinct(x, t[1..], key, f);
      forall y | y in r ensures f(y) != f(t[0]) {
        assert y in multiset(r);
        if y != x {
          var q :| 0 <= q < |t[1..]| && t[1..][q] == y;
          assert t[q + 1] == y;
        }
      }
    }
  }

  /** Sorting keeps values of `f` distinct. */
  lemma {:induction false} SortByDistinct<T>(s: seq<T>, key: T -> string, f: T -> string)
    requires DistinctBy(s, f)
    ensures DistinctBy(SortBy(s, key), f)
    decreases |s|
  {
    if |s| > 0 {
      var init, x := s[..|s| - 1], s[|s| - 1];
      assert DistinctBy(init, f) by {
        forall i, j | 0 <= i < j < |init| ensures f(init[i]) != f(init[j]) {
          assert init[i] == s[i] && init[j] == s[j];
        }
      }
      SortByDistinct(init, key, f);
      var t := SortBy(init, key);
      forall y | y in t ensures f(y) != f(x) {
        assert y in multiset(init);
        var q :| 0 <= q < |init| && init[q] == y;
        assert s[q] == y;
      }
      InsertDistinct(x, t, key, f);
    }
  }
}
