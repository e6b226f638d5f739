/** Sorted, duplicate-free key lists, as produced by a group-by over a table
    (`DataFrame.groupby` sorts its keys; the dashboard sorts `Object.keys`
    numerically). The order is a parameter so that one definition serves
    year keys, `(year, genre)` keys and the dashboard's numeric years. */
module Sorting {

  /** `lt` is a strict total order: irreflexive, transitive and connected. */
  ghost predicate StrictTotal<T(!new)>(lt: (T, T) -> bool)
  {
    && (forall a :: !lt(a, a))
    && (forall a, b, c :: lt(a, b) && lt(b, c) ==> lt(a, c))
    && (forall a, b :: a != b ==> lt(a, b) || lt(b, a))
  }

  /** Every earlier element is below every later one. */
  predicate Ascending<T>(xs: seq<T>, lt: (T, T) -> bool)
  {
    forall i, j :: 0 <= i < j < |xs| ==> lt(xs[i], xs[j])
  }

  /** Insert `x` into an ascending list unless it is already there. */
  function InsertUnique<T(!new, ==)>(xs: seq<T>, x: T, lt: (T, T) -> bool): (r: seq<T>)
    requires StrictTotal(lt)
    requires Ascending(xs, lt)
    ensures Ascending(r, lt)
    ensures forall y :: y in r <==> y in xs || y == x
    ensures |r| <= |xs| + 1
  {
    if |xs| == 0 then [x]
    else if x == xs[0] then xs
    else if lt(x, xs[0]) then [x] + xs
    else
      var rest := InsertUnique(xs[1..], x, lt);
      assert forall j :: 0 <= j < |rest| ==> lt(xs[0], rest[j]) by {
        forall j | 0 <= j < |rest| ensures lt(xs[0], rest[j]) {
          assert rest[j] in rest;
          if rest[j] != x {
            var k :| 0 <= k < |xs[1..]| && xs[1..][k] == rest[j];
            assert xs[k + 1] == rest[j];
          }
        }
      }
      [xs[0]] + rest
  }

  /** The distinct elements of `xs`, in ascending order. */
  function SortedDistinct<T(!new, ==)>(xs: seq<T>, lt: (T, T) -> bool): (r: seq<T>)
    requires StrictTotal(lt)
    ensures Ascending(r, lt)
    ensures forall y :: y in r <==> y in xs
    decreases |xs|
  {
    if |xs| == 0 then []
    else
      var r := InsertUnique(SortedDistinct(xs[..|xs| - 1], lt), xs[|xs| - 1], lt);
      assert xs == xs[..|xs| - 1] + [xs[|xs| - 1]];
      r
  }

  /** An ascending list has no repeated element. */
  lemma AscendingDistinct<T(!new)>(xs: seq<T>, lt: (T, T) -> bool, i: nat, j: nat)
    requires StrictTotal(lt)
    requires Ascending(xs, lt)
    requires i < |xs| && j < |xs| && xs[i] == xs[j]
    ensures i == j
  {
  }

  /** The head of an ascending list is below every other element of it. */
  lemma LeastHead<T(!new)>(xs: seq<T>, lt: (T, T) -> bool, y: T)
    requires Ascending(xs, lt)
    requires y in xs
    ensures y == xs[0] || lt(xs[0], y)
  {
    var k :| 0 <= k < |xs| && xs[k] == y;
    if k > 0 {
      assert lt(xs[0], xs[k]);
    }
  }

  /** Two ascending lists with the same elements are equal: the sorted,
      duplicate-free listing of a set is unique. */
  lemma {:induction false} AscendingUnique<T(!new)>(xs: seq<T>, ys: seq<T>, lt: (T, T) -> bool)
    requires StrictTotal(lt)
    requires Ascending(xs, lt) && Ascending(ys, lt)
    requires forall y :: y in xs <==> y in ys
    ensures xs == ys
  {
    if |xs| > 0 {
      assert xs[0] in ys;
    }
    if |ys| > 0 {
      assert ys[0] in xs;
    }
    if |xs| > 0 && |ys| > 0 {
      // both heads are the least element
      LeastHead(xs, lt, ys[0]);
      LeastHead(ys, lt, xs[0]);
      assert xs[0] == ys[0];
      forall y ensures y in xs[1..] <==> y in ys[1..] {
        if y in xs[1..] {
          var k :| 0 <= k < |xs[1..]| && xs[1..][k] == y;
          assert lt(xs[0], xs[k + 1]);
          assert y != ys[0];
          assert xs[k + 1] in xs;
          assert y in ys;
          var m :| 0 <= m < |ys| && ys[m] == y;
          assert ys[1..][m - 1] == y;
        }
        if y in ys[1..] {
          var k :| 0 <= k < |ys[1..]| && ys[1..][k] == y;
          assert lt(ys[0], ys[k + 1]);
          assert y != xs[0];
          assert ys[k + 1] in ys;
          assert y in xs;
          var m :| 0 <= m < |xs| && xs[m] == y;
          assert xs[1..][m - 1] == y;
        }
      }
      AscendingUnique(xs[1..], ys[1..], lt);
      assert xs == [xs[0]] + xs[1..];
      assert ys == [ys[0]] + ys[1..];
    }
  }
}
