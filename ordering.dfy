/** Sorting into a strictly increasing sequence of distinct values, generic in
    the order.  Used for the pivot's axes (sorted distinct integers) and for
    the sorted distinct names listed when a selection matches nothing. */
module Ordering {

  ghost predicate StrictTotalOrder<T(!new)>(less: (T, T) -> bool)
  {
    && (forall a :: !less(a, a))
    && (forall a, b, c :: less(a, b) && less(b, c) ==> less(a, c))
    && (forall a, b :: a == b || less(a, b) || less(b, a))
  }

  predicate StrictlySorted<T>(s: seq<T>, less: (T, T) -> bool)
  {
    forall i, j :: 0 <= i < j < |s| ==> less(s[i], s[j])
  }

  /** Inserts x at its place in s, or leaves s as it is when x is already there. */
  function Insert<T(==)>(x: T, s: seq<T>, less: (T, T) -> bool): seq<T>
  {
    if s == [] then [x]
    else if x == s[0] then s
    else if less(x, s[0]) then [x] + s
    else [s[0]] + Insert(x, s[1..], less)
  }

  /** The distinct values of xs in increasing order (Python's sorted(set(xs))). */
  function SortedSet<T(==)>(xs: seq<T>, less: (T, T) -> bool): seq<T>
  {
    if xs == [] then [] else Insert(xs[0], SortedSet(xs[1..], less), less)
  }

  /** The first n elements of s, or all of s when it is shorter (Python's s[:n]). */
  function Take<T>(s: seq<T>, n: nat): (r: seq<T>)
    ensures |r| <= n && r <= s
    ensures |s| <= n ==> r == s
  {
    if |s| <= n then s else s[..n]
  }

  lemma {:induction false} InsertSorted<T(!new)>(x: T, s: seq<T>, less: (T, T) -> bool)
    requires StrictTotalOrder(less) && StrictlySorted(s, less)
    ensures StrictlySorted(Insert(x, s, less), less)
    ensures forall y :: y in Insert(x, s, less) <==> y == x || y in s
  {
    if s != [] && x != s[0] && !less(x, s[0]) {
      InsertSorted(x, s[1..], less);
      var r := Insert(x, s[1..], less);
      assert less(s[0], x);
      forall y | y in r ensures less(s[0], y) {
        if y != x {
          var k :| 0 < k < |s| && s[k] == y;
          assert less(s[0], s[k]);
        }
      }
      forall i, j | 0 <= i < j < |[s[0]] + r| ensures less(([s[0]] + r)[i], ([s[0]] + r)[j]) {
        if i == 0 {
          assert ([s[0]] + r)[j] == r[j - 1];
          assert r[j - 1] in r;
        } else {
          assert ([s[0]] + r)[i] == r[i - 1];
        }
      }
    } else if s != [] && x != s[0] {
      var r := [x] + s;
      forall i, j | 0 <= i < j < |r| ensures less(r[i], r[j]) {
        if i == 0 && j > 1 {
          assert less(s[0], s[j - 1]);
        }
      }
    }
  }

  /** SortedSet yields exactly the values of xs, strictly increasing. */
  lemma {:induction false} SortedSetSpec<T(!new)>(xs: seq<T>, less: (T, T) -> bool)
    requires StrictTotalOrder(less)
    ensures StrictlySorted(SortedSet(xs, less), less)
    ensures forall y :: y in SortedSet(xs, less) <==> y in xs
  {
    if xs != [] {
      SortedSetSpec(xs[1..], less);
      InsertSorted(xs[0], SortedSet(xs[1..], less), less);
      assert forall y :: y in xs <==> y == xs[0] || y in xs[1..];
    }
  }

  /** A strictly sorted sequence lists no value twice. */
  lemma StrictlySortedDistinct<T(!new)>(s: seq<T>, less: (T, T) -> bool)
    requires StrictTotalOrder(less) && StrictlySorted(s, less)
    ensures forall i, j :: 0 <= i < |s| && 0 <= j < |s| && i != j ==> s[i] != s[j]
  {
    forall i, j | 0 <= i < |s| && 0 <= j < |s| && i != j ensures s[i] != s[j] {
      if i < j { assert less(s[i], s[j]); } else { assert less(s[j], s[i]); }
    }
  }
}
