/**
 * Generic facts about sequences that the appointment tree relies on.
 *
 * The source sorts its arrays with the JavaScript runtime's `Array.prototype.sort`
 * and a comparator of the form `(a, b) => key(a) - key(b)`. That sort is stable,
 * so it is modelled here by a stable insertion sort on an integer key, `SortBy`,
 * whose result is proved sorted, a permutation of its input and stable (for every
 * key value, the elements carrying it keep their relative order).
 * `SumBy` and `CountIf` model the `reduce` and `filter(..).length` idioms.
 */
module Sequences {

  // ---------------------------------------------------------------------------
  // Ordering and stable sorting
  // ---------------------------------------------------------------------------

  /** The elements of `s` are in non-decreasing order of `key`. */
  ghost predicate SortedBy<T>(s: seq<T>, key: T -> int) {
    forall i, j :: 0 <= i < j < |s| ==> key(s[i]) <= key(s[j])
  }

  /** The subsequence of the elements of `s` whose key is `k`. */
  function WithKey<T>(s: seq<T>, key: T -> int, k: int): (r: seq<T>)
    ensures |r| <= |s|
    ensures forall i :: 0 <= i < |r| ==> r[i] in s && key(r[i]) == k
  {
    if s == [] then []
    else (if key(s[0]) == k then [s[0]] else []) + WithKey(s[1..], key, k)
  }

  /**
   * Inserts `x` into `s` just before the first element whose key is strictly
   * greater than that of `x`: after every element with an equal key.
   */
  function InsertBy<T>(x: T, s: seq<T>, key: T -> int): (r: seq<T>)
    ensures |r| == |s| + 1
    ensures multiset(r) == multiset(s) + multiset{x}
  {
    if s == [] then [x]
    else if key(x) < key(s[0]) then [x] + s
    else
      assert s == [s[0]] + s[1..];
      [s[0]] + InsertBy(x, s[1..], key)
  }

  /** Stable sort of `s` by `key`: each element in turn is inserted after its equals. */
  function SortBy<T>(s: seq<T>, key: T -> int): (r: seq<T>)
    ensures multiset(r) == multiset(s)
    ensures |r| == |s|
  {
    if s == [] then []
    else
      var r := InsertBy(s[|s| - 1], SortBy(s[..|s| - 1], key), key);
      assert s == s[..|s| - 1] + [s[|s| - 1]];
      r
  }

  lemma InsertByMember<T>(x: T, s: seq<T>, key: T -> int, y: T)
    ensures y in InsertBy(x, s, key) <==> y == x || y in s
  {
    var r := InsertBy(x, s, key);
    assert y in r <==> y in multiset(r);
    assert y in s <==> y in multiset(s);
  }

  lemma {:induction false} InsertBySorted<T>(x: T, s: seq<T>, key: T -> int)
    requires SortedBy(s, key)
    ensures SortedBy(InsertBy(x, s, key), key)
  {
    if s != [] && key(x) >= key(s[0]) {
      var t := InsertBy(x, s[1..], key);
      InsertBySorted(x, s[1..], key);
      var r := [s[0]] + t;
      forall i, j | 0 <= i < j < |r| ensures key(r[i]) <= key(r[j]) {
        if i == 0 {
          assert r[j] in t;
          InsertByMember(x, s[1..], key, r[j]);
          if r[j] != x {
            assert r[j] in s[1..];
            var m :| 0 <= m < |s[1..]| && s[1..][m] == r[j];
            assert s[m + 1] == r[j];
          }
        }
      }
    }
  }

  /** `SortBy` orders its result. */
  lemma {:induction false} SortBySorted<T>(s: seq<T>, key: T -> int)
    ensures SortedBy(SortBy(s, key), key)
  {
    if s != [] {
      SortBySorted(s[..|s| - 1], key);
      InsertBySorted(s[|s| - 1], SortBy(s[..|s| - 1], key), key);
    }
  }

  /** When every key in `s` is at most that of `x`, insertion appends. */
  lemma {:induction false} InsertByLast<T>(x: T, s: seq<T>, key: T -> int)
    requires forall i :: 0 <= i < |s| ==> key(s[i]) <= key(x)
    ensures InsertBy(x, s, key) == s + [x]
  {
    if s != [] {
      InsertByLast(x, s[1..], key);
      assert [s[0]] + (s[1..] + [x]) == s + [x];
    }
  }

  /** Sorting an already sorted sequence changes nothing. */
  lemma {:induction false} SortByIdentity<T>(s: seq<T>, key: T -> int)
    requires SortedBy(s, key)
    ensures SortBy(s, key) == s
  {
    if s != [] {
      var init := s[..|s| - 1];
      SortByIdentity(init, key);
      InsertByLast(s[|s| - 1], init, key);
      assert init + [s[|s| - 1]] == s;
    }
  }

  /**
   * Pushing onto a sorted sequence and then sorting is the same as inserting
   * the new element after all the elements whose key is not greater.
   */
  lemma PushThenSort<T>(s: seq<T>, x: T, key: T -> int)
    requires SortedBy(s, key)
    ensures SortBy(s + [x], key) == InsertBy(x, s, key)
  {
    assert (s + [x])[..|s|] == s;
    SortByIdentity(s, key);
  }

  lemma {:induction false} WithKeyConcat<T>(a: seq<T>, b: seq<T>, key: T -> int, k: int)
    ensures WithKey(a + b, key, k) == WithKey(a, key, k) + WithKey(b, key, k)
  {
    if a == [] {
      assert a + b == b;
    } else {
      assert (a + b)[1..] == a[1..] + b;
      WithKeyConcat(a[1..], b, key, k);
    }
  }

  lemma SortedTail<T>(s: seq<T>, key: T -> int)
    requires s != [] && SortedBy(s, key)
    ensures SortedBy(s[1..], key)
    ensures forall i :: 0 <= i < |s| ==> key(s[0]) <= key(s[i])
  {
    forall i, j | 0 <= i < j < |s[1..]| ensures key(s[1..][i]) <= key(s[1..][j]) {
      assert s[1..][i] == s[i + 1] && s[1..][j] == s[j + 1];
    }
  }

  lemma {:induction false} WithKeyNone<T>(s: seq<T>, key: T -> int, k: int)
    requires forall i :: 0 <= i < |s| ==> key(s[i]) != k
    ensures WithKey(s, key, k) == []
  {
    if s != [] {
      assert forall i :: 0 <= i < |s[1..]| ==> s[1..][i] == s[i + 1];
      WithKeyNone(s[1..], key, k);
    }
  }

  lemma InsertByWithKeyFront<T>(x: T, s: seq<T>, key: T -> int, k: int)
    requires s != [] && SortedBy(s, key) && key(x) < key(s[0])
    ensures WithKey([x] + s, key, k) == WithKey(s, key, k) + (if key(x) == k then [x] else [])
  {
    SortedTail(s, key);
    if key(x) == k {
      WithKeyNone(s, key, k);
    }
    WithKeyConcat([x], s, key, k);
  }

  lemma InsertByWithKeyStep<T>(h: T, s: seq<T>, t: seq<T>, x: T, key: T -> int, k: int)
    requires WithKey(t, key, k) == WithKey(s, key, k) + (if key(x) == k then [x] else [])
    ensures WithKey([h] + t, key, k) == WithKey([h] + s, key, k) + (if key(x) == k then [x] else [])
  {
    WithKeyConcat([h], t, key, k);
    WithKeyConcat([h], s, key, k);
  }

  lemma {:induction false} InsertByWithKey<T>(x: T, s: seq<T>, key: T -> int, k: int)
    requires SortedBy(s, key)
    ensures WithKey(InsertBy(x, s, key), key, k)
         == WithKey(s, key, k) + (if key(x) == k then [x] else [])
  {
    if s == [] {
      assert InsertBy(x, s, key) == [x];
    } else if key(x) < key(s[0]) {
      assert InsertBy(x, s, key) == [x] + s;
      InsertByWithKeyFront(x, s, key, k);
    } else {
      SortedTail(s, key);
      var t := InsertBy(x, s[1..], key);
      assert InsertBy(x, s, key) == [s[0]] + t;
      InsertByWithKey(x, s[1..], key, k);
      InsertByWithKeyStep(s[0], s[1..], t, x, key, k);
      assert [s[0]] + s[1..] == s;
    }
  }

  /**
   * Stability: for every key value, the elements carrying it appear in the
   * sorted result in the order they had in the input.
   */
  lemma {:induction false} SortByStable<T>(s: seq<T>, key: T -> int, k: int)
    ensures WithKey(SortBy(s, key), key, k) == WithKey(s, key, k)
  {
    if s != [] {
      var init, x := s[..|s| - 1], s[|s| - 1];
      assert s == init + [x];
      assert SortBy(s, key) == InsertBy(x, SortBy(init, key), key);
      SortByStable(init, key, k);
      SortBySorted(init, key);
      InsertByWithKey(x, SortBy(init, key), key, k);
      WithKeyConcat(init, [x], key, k);
    }
  }

  // ---------------------------------------------------------------------------
  // Distinct keys
  // ---------------------------------------------------------------------------

  /** No two elements of `s` share a value of `f`. */
  ghost predicate DistinctBy<T, K>(s: seq<T>, f: T -> K) {
    forall i, j :: 0 <= i < j < |s| ==> f(s[i]) != f(s[j])
  }

  lemma DistinctByCons<T, K>(h: T, s: seq<T>, f: T -> K)
    requires DistinctBy(s, f)
    requires forall y :: y in s ==> f(y) != f(h)
    ensures DistinctBy([h] + s, f)
  {
    var r := [h] + s;
    forall i, j | 0 <= i < j < |r| ensures f(r[i]) != f(r[j]) {
      assert r[j] == s[j - 1];
      if i > 0 { assert r[i] == s[i - 1]; }
    }
  }

  lemma DistinctBySnoc<T, K>(s: seq<T>, x: T, f: T -> K)
    requires DistinctBy(s, f)
    requires forall i :: 0 <= i < |s| ==> f(s[i]) != f(x)
    ensures DistinctBy(s + [x], f)
  {
    var r := s + [x];
    forall i, j | 0 <= i < j < |r| ensures f(r[i]) != f(r[j]) {
      assert r[i] == s[i];
      if j < |s| { assert r[j] == s[j]; }
    }
  }

  lemma {:induction false} InsertByDistinct<T, K>(x: T, s: seq<T>, key: T -> int, f: T -> K)
    requires DistinctBy(s, f)
    requires forall y :: y in s ==> f(y) != f(x)
    ensures DistinctBy(InsertBy(x, s, key), f)
  {
    if s == [] {
    } else if key(x) < key(s[0]) {
      DistinctByCons(x, s, f);
    } else {
      assert DistinctBy(s[1..], f) by {
        forall i, j | 0 <= i < j < |s[1..]| ensures f(s[1..][i]) != f(s[1..][j]) {
          assert s[1..][i] == s[i + 1] && s[1..][j] == s[j + 1];
        }
      }
      InsertByDistinct(x, s[1..], key, f);
      forall y | y in InsertBy(x, s[1..], key) ensures f(y) != f(s[0]) {
        InsertByMember(x, s[1..], key, y);
        if y != x {
          assert y in s[1..];
          var m :| 0 <= m < |s[1..]| && s[1..][m] == y;
          assert s[m + 1] == y;
        }
      }
      DistinctByCons(s[0], InsertBy(x, s[1..], key), f);
    }
  }

  /** Pushing an element with a fresh `f`-value and sorting keeps `f` distinct. */
  lemma {:induction false} SortByDistinct<T, K>(s: seq<T>, key: T -> int, f: T -> K)
    requires DistinctBy(s, f)
    ensures DistinctBy(SortBy(s, key), f)
  {
    if s != [] {
      var init, x := s[..|s| - 1], s[|s| - 1];
      assert DistinctBy(init, f);
      SortByDistinct(init, key, f);
      forall y | y in SortBy(init, key) ensures f(y) != f(x) {
        assert y in multiset(SortBy(init, key));
        var m :| 0 <= m < |init| && init[m] == y;
      }
      InsertByDistinct(x, SortBy(init, key), key, f);
    }
  }

  /** Sortedness depends only on the keys. */
  lemma SortedBySameKeys<T>(s: seq<T>, u: seq<T>, key: T -> int)
    requires |s| == |u| && forall i :: 0 <= i < |s| ==> key(s[i]) == key(u[i])
    ensures SortedBy(s, key) <==> SortedBy(u, key)
  {
  }

  /** Distinctness depends only on the identity values. */
  lemma DistinctBySameKeys<T, K>(s: seq<T>, u: seq<T>, f: T -> K)
    requires |s| == |u| && forall i :: 0 <= i < |s| ==> f(s[i]) == f(u[i])
    ensures DistinctBy(s, f) <==> DistinctBy(u, f)
  {
  }

  // ---------------------------------------------------------------------------
  // Sums and counts (`reduce` and `filter(..).length`)
  // ---------------------------------------------------------------------------

  /** The sum of `f` over the elements of `s`. */
  function SumBy<T>(s: seq<T>, f: T -> nat): nat {
    if s == [] then 0 else f(s[0]) + SumBy(s[1..], f)
  }

  lemma {:induction false} SumByConcat<T>(a: seq<T>, b: seq<T>, f: T -> nat)
    ensures SumBy(a + b, f) == SumBy(a, f) + SumBy(b, f)
  {
    if a == [] {
      assert a + b == b;
    } else {
      assert (a + b)[1..] == a[1..] + b;
      SumByConcat(a[1..], b, f);
    }
  }

  /** Replacing one element changes the sum by the difference of the two values. */
  lemma SumByUpdate<T>(s: seq<T>, i: nat, y: T, f: T -> nat)
    requires i < |s|
    ensures SumBy(s[i := y], f) + f(s[i]) == SumBy(s, f) + f(y)
  {
    assert s == s[..i] + [s[i]] + s[i + 1..];
    assert s[i := y] == s[..i] + [y] + s[i + 1..];
    SumByConcat(s[..i] + [s[i]], s[i + 1..], f);
    SumByConcat(s[..i], [s[i]], f);
    SumByConcat(s[..i] + [y], s[i + 1..], f);
    SumByConcat(s[..i], [y], f);
  }

  lemma {:induction false} SumByInsert<T>(x: T, s: seq<T>, key: T -> int, f: T -> nat)
    ensures SumBy(InsertBy(x, s, key), f) == SumBy(s, f) + f(x)
  {
    if s != [] && key(x) >= key(s[0]) {
      SumByInsert(x, s[1..], key, f);
    }
  }

  /** Sorting does not change a sum. */
  lemma {:induction false} SumBySortBy<T>(s: seq<T>, key: T -> int, f: T -> nat)
    ensures SumBy(SortBy(s, key), f) == SumBy(s, f)
  {
    if s != [] {
      var init, x := s[..|s| - 1], s[|s| - 1];
      assert SumBy(s, f) == SumBy(init, f) + f(x) by {
        SumByConcat(init, [x], f);
        assert SumBy([x], f) == f(x) by { assert [x][1..] == []; }
        assert init + [x] == s;
      }
      SumBySortBy(init, key, f);
      SumByInsert(x, SortBy(init, key), key, f);
    }
  }

  /** A sum is zero exactly when every term is. */
  lemma {:induction false} SumByZero<T>(s: seq<T>, f: T -> nat)
    ensures SumBy(s, f) == 0 <==> forall i :: 0 <= i < |s| ==> f(s[i]) == 0
  {
    if s != [] {
      SumByZero(s[1..], f);
      assert forall i :: 1 <= i < |s| ==> s[i] == s[1..][i - 1];
    }
  }

  /**
   * Term-wise smaller sums are smaller, and equal exactly when every term is.
   */
  lemma {:induction false} SumByMono<T>(s: seq<T>, f: T -> nat, g: T -> nat)
    requires forall i :: 0 <= i < |s| ==> f(s[i]) <= g(s[i])
    ensures SumBy(s, f) <= SumBy(s, g)
    ensures SumBy(s, f) == SumBy(s, g) <==> forall i :: 0 <= i < |s| ==> f(s[i]) == g(s[i])
  {
    if s != [] {
      assert forall i :: 1 <= i < |s| ==> s[i] == s[1..][i - 1];
      SumByMono(s[1..], f, g);
    }
  }

  /** Sums of term-wise equal sequences are equal. */
  lemma {:induction false} SumBySameTerms<T>(s: seq<T>, u: seq<T>, f: T -> nat)
    requires |s| == |u| && forall i :: 0 <= i < |s| ==> f(s[i]) == f(u[i])
    ensures SumBy(s, f) == SumBy(u, f)
  {
    if s != [] {
      assert forall i :: 1 <= i < |s| ==> s[i] == s[1..][i - 1] && u[i] == u[1..][i - 1];
      SumBySameTerms(s[1..], u[1..], f);
    }
  }

  /** Three elements in key order form a sorted list. */
  lemma SortedTriple<T>(x: T, y: T, z: T, key: T -> int)
    requires key(x) <= key(y) <= key(z)
    ensures SortedBy([x, y, z], key)
  {
  }

  /** Three elements with pairwise different keys form a list without repeated keys. */
  lemma DistinctTriple<T, K>(x: T, y: T, z: T, f: T -> K)
    requires f(x) != f(y) && f(x) != f(z) && f(y) != f(z)
    ensures DistinctBy([x, y, z], f)
  {
  }

  /** The sum over a list of two elements. */
  lemma SumByPair<T>(x: T, y: T, f: T -> nat)
    ensures SumBy([x, y], f) == f(x) + f(y)
  {
    assert SumBy([y], f) == f(y) + SumBy([], f) by { assert [y][1..] == []; }
    assert SumBy([x, y], f) == f(x) + SumBy([y], f) by { assert [x, y][1..] == [y]; }
  }

  /** The sum over a list of three elements. */
  lemma SumByTriple<T>(x: T, y: T, z: T, f: T -> nat)
    ensures SumBy([x, y, z], f) == f(x) + f(y) + f(z)
  {
    assert SumBy([x, y, z], f) == f(x) + SumBy([y, z], f) by { assert [x, y, z][1..] == [y, z]; }
    SumByPair(y, z, f);
  }

  /** A sum whose terms vanish everywhere but at `i` is the term at `i`. */
  lemma {:induction false} SumBySingle<T>(s: seq<T>, i: nat, f: T -> nat)
    requires i < |s|
    requires forall j :: 0 <= j < |s| && j != i ==> f(s[j]) == 0
    ensures SumBy(s, f) == f(s[i])
  {
    assert forall j :: 1 <= j < |s| ==> s[j] == s[1..][j - 1];
    if i == 0 {
      SumByZero(s[1..], f);
    } else {
      SumBySingle(s[1..], i - 1, f);
    }
  }

  /** The number of elements of `s` that satisfy `p`. */
  function CountIf<T>(s: seq<T>, p: T -> bool): (n: nat)
    ensures n <= |s|
  {
    if s == [] then 0 else (if p(s[0]) then 1 else 0) + CountIf(s[1..], p)
  }

  /** The positions of `s` whose element satisfies `p`. */
  ghost function IndicesWhere<T>(s: seq<T>, p: T -> bool): set<int> {
    set k | 0 <= k < |s| && p(s[k])
  }

  /** `filter(p).length` counts exactly the positions whose element satisfies `p`. */
  lemma {:induction false} CountIfIndices<T>(s: seq<T>, p: T -> bool)
    ensures CountIf(s, p) == |IndicesWhere(s, p)|
  {
    if s != [] {
      var n := |s| - 1;
      var init, x := s[..n], s[n];
      CountIfIndices(init, p);
      CountIfConcat(init, [x], p);
      assert init + [x] == s;
      assert CountIf([x], p) == (if p(x) then 1 else 0) by { assert [x][1..] == []; }
      if p(x) {
        assert IndicesWhere(s, p) == IndicesWhere(init, p) + {n};
      } else {
        assert IndicesWhere(s, p) == IndicesWhere(init, p);
      }
    }
  }

  lemma {:induction false} CountIfConcat<T>(a: seq<T>, b: seq<T>, p: T -> bool)
    ensures CountIf(a + b, p) == CountIf(a, p) + CountIf(b, p)
  {
    if a == [] {
      assert a + b == b;
    } else {
      assert (a + b)[1..] == a[1..] + b;
      CountIfConcat(a[1..], b, p);
    }
  }

  /** The count reaches the length exactly when every element satisfies `p`. */
  lemma {:induction false} CountIfAll<T>(s: seq<T>, p: T -> bool)
    ensures CountIf(s, p) == |s| <==> forall i :: 0 <= i < |s| ==> p(s[i])
  {
    if s != [] {
      CountIfAll(s[1..], p);
      assert forall i :: 1 <= i < |s| ==> s[i] == s[1..][i - 1];
    }
  }

  /** The count is zero exactly when no element satisfies `p`. */
  lemma {:induction false} CountIfNone<T>(s: seq<T>, p: T -> bool)
    ensures CountIf(s, p) == 0 <==> forall i :: 0 <= i < |s| ==> !p(s[i])
  {
    if s != [] {
      CountIfNone(s[1..], p);
      assert forall i :: 1 <= i < |s| ==> s[i] == s[1..][i - 1];
    }
  }
}
