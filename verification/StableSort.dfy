/** `Array.prototype.sort` with a comparator: a stable sort (ECMA-262, section 23.1.3.30). The
    comparator is given as the strict order `before(x, y)`, "comparing x with y gives less than zero". */
module StableSort {
  import opened Keyed

  ghost predicate StrictWeakOrder<T(!new)>(before: (T, T) -> bool) {
    && (forall x :: !before(x, x))
    && (forall x, y, z :: before(x, y) && before(y, z) ==> before(x, z))
    && (forall x, y, z :: before(x, z) ==> before(x, y) || before(y, z))
  }

  function Insert<T>(sorted: seq<T>, x: T, before: (T, T) -> bool): seq<T> {
    if sorted == [] then [x]
    else if before(x, sorted[0]) then [x] + sorted
    else [sorted[0]] + Insert(sorted[1..], x, before)
  }

  function Sort<T>(xs: seq<T>, before: (T, T) -> bool): (sorted: seq<T>) {
    if xs == [] then [] else Insert(Sort(xs[..|xs| - 1], before), xs[|xs| - 1], before)
  }

  lemma SortSingle<T>(x: T, before: (T, T) -> bool)
    ensures Sort([x], before) == [x]
  {
    assert [x][..0] == [];
  }

  ghost predicate Sorted<T>(xs: seq<T>, before: (T, T) -> bool) {
    forall i, j :: 0 <= i < j < |xs| ==> !before(xs[j], xs[i])
  }

  lemma {:induction false} InsertPermutes<T>(sorted: seq<T>, x: T, before: (T, T) -> bool)
    ensures multiset(Insert(sorted, x, before)) == multiset(sorted) + multiset{x}
  {
    if sorted != [] {
      assert sorted == [sorted[0]] + sorted[1..];
      InsertPermutes(sorted[1..], x, before);
    }
  }

  lemma Irreflexive<T(!new)>(x: T, before: (T, T) -> bool)
    requires StrictWeakOrder(before)
    ensures !before(x, x)
  {
  }

  lemma BeatsTheUnbeaten<T(!new)>(x: T, y: T, z: T, before: (T, T) -> bool)
    requires StrictWeakOrder(before) && before(x, z) && !before(y, z)
    ensures before(x, y) && !before(y, x)
  {
  }

  lemma {:induction false} InsertSorts<T(!new)>(sorted: seq<T>, x: T, before: (T, T) -> bool)
    requires StrictWeakOrder(before) && Sorted(sorted, before)
    ensures Sorted(Insert(sorted, x, before), before)
  {
    hide StrictWeakOrder;
    if sorted != [] {
      var r := Insert(sorted, x, before);
      if before(x, sorted[0]) {
        Irreflexive(sorted[0], before);
        forall j | 0 <= j < |sorted| ensures !before(sorted[j], x) {
          BeatsTheUnbeaten(x, sorted[j], sorted[0], before);
        }
        assert forall j :: 1 <= j < |r| ==> r[j] == sorted[j - 1];
      } else {
        var rest := Insert(sorted[1..], x, before);
        InsertSorts(sorted[1..], x, before);
        InsertPermutes(sorted[1..], x, before);
        forall j | 0 <= j < |rest| ensures !before(rest[j], sorted[0]) {
          assert rest[j] in multiset(rest);
        }
      }
    }
  }

  /** Sorting rearranges and orders. */
  lemma {:induction false} SortCorrect<T(!new)>(xs: seq<T>, before: (T, T) -> bool)
    requires StrictWeakOrder(before)
    ensures multiset(Sort(xs, before)) == multiset(xs)
    ensures Sorted(Sort(xs, before), before)
  {
    if xs != [] {
      var front, x := xs[..|xs| - 1], xs[|xs| - 1];
      assert xs == front + [x];
      SortCorrect(front, before);
      InsertPermutes(Sort(front, before), x, before);
      InsertSorts(Sort(front, before), x, before);
    }
  }

  lemma {:induction false} InsertStable<T(!new)>(sorted: seq<T>, x: T, before: (T, T) -> bool, alike: T -> bool)
    requires StrictWeakOrder(before) && Sorted(sorted, before)
    requires forall y, z :: alike(y) && alike(z) ==> !before(y, z)
    ensures Kept(Insert(sorted, x, before), alike) == Kept(sorted, alike) + (if alike(x) then [x] else [])
  {
    if sorted == [] {
      assert Insert(sorted, x, before) == [x] && [x][..0] == [];
    } else {
      var first, rest := sorted[0], sorted[1..];
      assert sorted == [first] + rest;
      KeptConcat([first], rest, alike);
      if before(x, first) {
        KeptConcat([x], sorted, alike);
        assert [x][..0] == [];
        if alike(x) {
          forall j | 0 <= j < |sorted| ensures !alike(sorted[j]) {
            assert j > 0 ==> !before(sorted[j], first);
          }
          KeptNothing(sorted, alike);
        }
      } else {
        InsertStable(rest, x, before, alike);
        KeptConcat([first], Insert(rest, x, before), alike);
      }
    }
  }

  lemma {:induction false} KeptNothing<T>(s: seq<T>, keep: T -> bool)
    requires forall i :: 0 <= i < |s| ==> !keep(s[i])
    ensures Kept(s, keep) == []
  {
    if s != [] {
      KeptNothing(s[..|s| - 1], keep);
    }
  }

  /** Elements that compare equal keep their order, throughout the list. */
  lemma {:induction false} SortStable<T(!new)>(xs: seq<T>, before: (T, T) -> bool, alike: T -> bool)
    requires StrictWeakOrder(before) && forall y, z :: alike(y) && alike(z) ==> !before(y, z)
    ensures Kept(Sort(xs, before), alike) == Kept(xs, alike)
  {
    if xs != [] {
      var front, x := xs[..|xs| - 1], xs[|xs| - 1];
      SortCorrect(front, before);
      SortStable(front, before, alike);
      InsertStable(Sort(front, before), x, before, alike);
    }
  }

  /** Elements that compare equal stand by rank. */
  ghost predicate TiesByRank<T(!new)>(xs: seq<T>, before: (T, T) -> bool, rank: T -> int) {
    forall i, j :: 0 <= i < j < |xs| && !before(xs[i], xs[j]) ==> rank(xs[i]) < rank(xs[j])
  }

  lemma {:induction false} InsertKeepsTies<T(!new)>(sorted: seq<T>, x: T, before: (T, T) -> bool, rank: T -> int)
    requires StrictWeakOrder(before) && Sorted(sorted, before) && TiesByRank(sorted, before, rank)
    requires forall i :: 0 <= i < |sorted| ==> rank(sorted[i]) < rank(x)
    ensures TiesByRank(Insert(sorted, x, before), before, rank)
  {
    if sorted != [] {
      var first, rest := sorted[0], sorted[1..];
      if before(x, first) {
        forall j | 0 <= j < |sorted| ensures before(x, sorted[j]) {
          assert j > 0 ==> !before(sorted[j], first);
        }
      } else {
        InsertKeepsTies(rest, x, before, rank);
        InsertPermutes(rest, x, before);
        var after := Insert(rest, x, before);
        forall j | 0 <= j < |after| && !before(first, after[j]) ensures rank(first) < rank(after[j]) {
          assert after[j] in multiset(after);
          if after[j] != x {
            var k :| 0 <= k < |rest| && rest[k] == after[j];
            assert sorted[k + 1] == after[j];
          }
        }
      }
    }
  }

  /** Elements of rising rank that compare equal stand by rank after sorting. */
  lemma {:induction false} SortKeepsTies<T(!new)>(xs: seq<T>, before: (T, T) -> bool, rank: T -> int)
    requires StrictWeakOrder(before) && forall i, j :: 0 <= i < j < |xs| ==> rank(xs[i]) < rank(xs[j])
    ensures TiesByRank(Sort(xs, before), before, rank)
  {
    if xs != [] {
      var front, x := xs[..|xs| - 1], xs[|xs| - 1];
      SortKeepsTies(front, before, rank);
      SortCorrect(front, before);
      forall i | 0 <= i < |Sort(front, before)| ensures rank(Sort(front, before)[i]) < rank(x) {
        assert Sort(front, before)[i] in multiset(front);
      }
      InsertKeepsTies(Sort(front, before), x, before, rank);
    }
  }

  /** The earliest of the best elements. */
  ghost predicate FirstBest<T>(xs: seq<T>, i: nat, before: (T, T) -> bool)
    requires i < |xs|
  {
    && (forall j :: 0 <= j < |xs| ==> !before(xs[j], xs[i]))
    && (forall j :: 0 <= j < i ==> before(xs[i], xs[j]))
  }

  /** The head after one more element. */
  lemma HeadOfSort<T>(xs: seq<T>, before: (T, T) -> bool)
    requires |xs| > 1
    ensures var front, x := Sort(xs[..|xs| - 1], before), xs[|xs| - 1];
            front != [] && Sort(xs, before) != []
            && Sort(xs, before)[0] == if before(x, front[0]) then x else front[0]
  {
    SortLength(xs[..|xs| - 1], before);
  }

  lemma {:induction false} SortLength<T>(xs: seq<T>, before: (T, T) -> bool)
    ensures |Sort(xs, before)| == |xs|
  {
    if xs != [] {
      var front := Sort(xs[..|xs| - 1], before);
      SortLength(xs[..|xs| - 1], before);
      InsertPermutes(front, xs[|xs| - 1], before);
      assert |multiset(Sort(xs, before))| == |multiset(front)| + 1;
    }
  }

  /** The earliest best element after one more. */
  lemma FirstBestSnoc<T(!new)>(front: seq<T>, x: T, k: nat, before: (T, T) -> bool)
    requires StrictWeakOrder(before) && k < |front| && FirstBest(front, k, before)
    ensures FirstBest(front + [x], if before(x, front[k]) then |front| else k, before)
  {
    hide StrictWeakOrder;
    var xs := front + [x];
    assert forall j :: 0 <= j < |front| ==> xs[j] == front[j];
    Irreflexive(x, before);
    if before(x, front[k]) {
      forall j | 0 <= j < |front| ensures before(x, front[j]) && !before(front[j], x) {
        BeatsTheUnbeaten(x, front[j], front[k], before);
      }
    }
  }

  /** Stability at the front: the first element of the result is the earliest best element. */
  lemma {:induction false} HeadIsFirstBest<T(!new)>(xs: seq<T>, before: (T, T) -> bool) returns (i: nat)
    requires xs != [] && StrictWeakOrder(before)
    ensures Sort(xs, before) != [] && i < |xs| && Sort(xs, before)[0] == xs[i] && FirstBest(xs, i, before)
  {
    hide Insert, Sort, StrictWeakOrder, FirstBest;
    var n := |xs| - 1;
    if n == 0 {
      i := 0;
      assert xs == [xs[0]];
      SortSingle(xs[0], before);
      OnlyIsFirstBest(xs[0], before);
    } else {
      var front := xs[..n];
      var k := HeadIsFirstBest(front, before);
      i := if before(xs[n], front[k]) then n else k;
      assert xs == front + [xs[n]];
      HeadOfSort(xs, before);
      FirstBestSnoc(front, xs[n], k, before);
    }
  }

  lemma OnlyIsFirstBest<T(!new)>(x: T, before: (T, T) -> bool)
    requires StrictWeakOrder(before)
    ensures FirstBest([x], 0, before)
  {
  }
}
