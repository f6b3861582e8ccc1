/**
 * Orders and the "distinct values in sorted order" primitive that pandas provides as
 * `Series.unique()` followed by a sort (and `astype("category")`, whose categories are the
 * sorted distinct values).
 */
module Ordering {

  /** `lt` is a strict total order: irreflexive, transitive and connected. */
  ghost predicate StrictTotalOrder<T(!new)>(lt: (T, T) -> bool) {
    && (forall a :: !lt(a, a))
    && (forall a, b, c :: lt(a, b) && lt(b, c) ==> lt(a, c))
    && (forall a, b :: a != b ==> lt(a, b) || lt(b, a))
  }

  /** Strictly increasing under `lt` (so in particular without repetitions). */
  ghost predicate Sorted<T>(lt: (T, T) -> bool, s: seq<T>) {
    forall i, j :: 0 <= i < j < |s| ==> lt(s[i], s[j])
  }

  ghost predicate Distinct<T>(s: seq<T>) {
    forall i, j :: 0 <= i < j < |s| ==> s[i] != s[j]
  }

  function Elems<T>(s: seq<T>): set<T> {
    set x | x in s
  }

  /** A sequence without repetitions has as many elements as its set. */
  lemma {:induction false} DistinctCard<T>(s: seq<T>)
    requires Distinct(s)
    ensures |Elems(s)| == |s|
  {
    if s != [] {
      DistinctCard(s[1..]);
      assert Elems(s) == {s[0]} + Elems(s[1..]);
      assert s[0] !in Elems(s[1..]);
    }
  }

  /** Integer order, as Python compares ints. */
  predicate IntLess(a: int, b: int) { a < b }

  /** Reversed integer order: `sort_values(ascending=False)`. */
  predicate IntGreater(a: int, b: int) { a > b }

  /** Python's string comparison: lexicographic on code points, a proper prefix first. */
  predicate StrLess(a: string, b: string)
    ensures StrLess(a, b) ==> a != b
  {
    if |a| == 0 then |b| > 0
    else if |b| == 0 then false
    else if a[0] != b[0] then a[0] < b[0]
    else StrLess(a[1..], b[1..])
  }

  /** A proper prefix sorts first; a string never sorts before one of its prefixes. */
  lemma {:induction false} StrLessPrefix(a: string, b: string)
    ensures a < b ==> StrLess(a, b)
    ensures b <= a ==> !StrLess(a, b)
  {
    if |a| > 0 && |b| > 0 && a[0] == b[0] {
      StrLessPrefix(a[1..], b[1..]);
      assert a < b ==> a[1..] < b[1..];
      assert b <= a ==> b[1..] <= a[1..];
    }
  }

  lemma IntOrdersAreStrictTotal()
    ensures StrictTotalOrder(IntLess) && StrictTotalOrder(IntGreater)
  {
  }

  lemma {:induction false} StrLessIrreflexive(a: string)
    ensures !StrLess(a, a)
  {
    if |a| > 0 { StrLessIrreflexive(a[1..]); }
  }

  lemma {:induction false} StrLessTransitive(a: string, b: string, c: string)
    requires StrLess(a, b) && StrLess(b, c)
    ensures StrLess(a, c)
  {
    if |a| > 0 && a[0] == b[0] && b[0] == c[0] {
      StrLessTransitive(a[1..], b[1..], c[1..]);
    }
  }

  lemma {:induction false} StrLessConnected(a: string, b: string)
    requires a != b
    ensures StrLess(a, b) || StrLess(b, a)
  {
    if |a| > 0 && |b| > 0 && a[0] == b[0] {
      assert a == [a[0]] + a[1..] && b == [b[0]] + b[1..];
      StrLessConnected(a[1..], b[1..]);
    }
  }

  /** Python's string order is a strict total order. */
  lemma StrLessIsStrictTotal()
    ensures StrictTotalOrder(StrLess)
  {
    forall a ensures !StrLess(a, a) { StrLessIrreflexive(a); }
    forall a, b, c | StrLess(a, b) && StrLess(b, c) ensures StrLess(a, c) {
      StrLessTransitive(a, b, c);
    }
    forall a, b | a != b ensures StrLess(a, b) || StrLess(b, a) { StrLessConnected(a, b); }
  }

  /** Inserts `x` into the sorted `c` unless it is already there. */
  function Insert<T(==,!new)>(lt: (T, T) -> bool, x: T, c: seq<T>): (r: seq<T>)
    requires StrictTotalOrder(lt) && Sorted(lt, c)
    ensures Sorted(lt, r)
    ensures Elems(r) == Elems(c) + {x}
  {
    if c == [] then [x]
    else if x == c[0] then c
    else if lt(x, c[0]) then [x] + c
    else
      var rest := Insert(lt, x, c[1..]);
      assert c == [c[0]] + c[1..];
      assert lt(c[0], x);
      assert forall y :: y in rest ==> lt(c[0], y) by {
        forall y | y in rest ensures lt(c[0], y) {
          assert y in Elems(rest);
          if y != x {
            var j :| 0 <= j < |c[1..]| && c[1..][j] == y;
            assert c[j + 1] == y;
          }
        }
      }
      assert Elems([c[0]] + rest) == {c[0]} + Elems(rest);
      assert Elems(c) == {c[0]} + Elems(c[1..]);
      [c[0]] + rest
  }

  /** The distinct values of `s` in increasing `lt` order. */
  function SortedDistinct<T(==,!new)>(lt: (T, T) -> bool, s: seq<T>): (r: seq<T>)
    requires StrictTotalOrder(lt)
    ensures Sorted(lt, r)
    ensures forall x :: x in r <==> x in s
    ensures |r| <= |s|
  {
    if s == [] then []
    else
      var rest := SortedDistinct(lt, s[1..]);
      var r := Insert(lt, s[0], rest);
      assert forall x :: x in r <==> x in Elems(r);
      assert |Elems(r)| <= |Elems(rest)| + 1;
      SortedDenotesDistinct(lt, r);
      SortedDenotesDistinct(lt, rest);
      DistinctCard(r);
      DistinctCard(rest);
      r
  }

  lemma SortedDenotesDistinct<T(!new)>(lt: (T, T) -> bool, s: seq<T>)
    requires StrictTotalOrder(lt) && Sorted(lt, s)
    ensures Distinct(s)
  {
  }

  /** Position of `x` in `c`. */
  function IndexOf<T(==)>(c: seq<T>, x: T): (i: nat)
    requires x in c
    ensures i < |c| && c[i] == x
    ensures forall j :: 0 <= j < i ==> c[j] != x
  {
    if c[0] == x then 0 else 1 + IndexOf(c[1..], x)
  }

  /** In a sorted sequence positions and values are ordered alike. */
  lemma SortedPositions<T(!new)>(lt: (T, T) -> bool, c: seq<T>, i: nat, j: nat)
    requires StrictTotalOrder(lt) && Sorted(lt, c) && i < |c| && j < |c|
    ensures lt(c[i], c[j]) <==> i < j
    ensures c[i] == c[j] <==> i == j
  {
  }

  /**
   * The position of `v` among the sorted distinct values of `s` is the number of distinct
   * values of `s` below `v`.
   */
  lemma {:induction false} RankIsCountBelow<T(!new)>(lt: (T, T) -> bool, s: seq<T>, v: T)
    requires StrictTotalOrder(lt) && v in s
    ensures |set y | y in s && lt(y, v)| == IndexOf(SortedDistinct(lt, s), v)
  {
    var c := SortedDistinct(lt, s);
    var p := IndexOf(c, v);
    var below := set y | y in s && lt(y, v);
    assert below == Elems(c[..p]) by {
      forall y | y in below ensures y in Elems(c[..p]) {
        var q := IndexOf(c, y);
        SortedPositions(lt, c, q, p);
        assert c[..p][q] == y;
      }
      forall y | y in Elems(c[..p]) ensures y in below {
        var q :| 0 <= q < p && c[..p][q] == y;
        SortedPositions(lt, c, q, p);
      }
    }
    SortedDenotesDistinct(lt, c);
    DistinctCard(c[..p]);
  }
}
