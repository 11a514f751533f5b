/** sort.SliceStable: the sort behind every ordered list of the index. */
module StableSort {
  /** An element goes behind everything it is not less than. */
  function Insert<T>(sorted: seq<T>, x: T, less: (T, T) -> bool): seq<T> {
    if sorted == [] then [x]
    else if less(x, sorted[|sorted| - 1]) then Insert(sorted[..|sorted| - 1], x, less) + [sorted[|sorted| - 1]]
    else sorted + [x]
  }

  function SortStable<T>(list: seq<T>, less: (T, T) -> bool): seq<T> {
    if list == [] then [] else Insert(SortStable(list[..|list| - 1], less), list[|list| - 1], less)
  }

  lemma {:induction false} InsertKeeps<T>(sorted: seq<T>, x: T, less: (T, T) -> bool, y: T)
    ensures y in Insert(sorted, x, less) <==> y == x || y in sorted
  {
    if sorted != [] && less(x, sorted[|sorted| - 1]) {
      var init := sorted[..|sorted| - 1];
      assert sorted == init + [sorted[|sorted| - 1]];
      InsertKeeps(init, x, less, y);
    }
  }

  lemma {:induction false} SortKeeps<T>(list: seq<T>, less: (T, T) -> bool, y: T)
    ensures y in SortStable(list, less) <==> y in list
  {
    if list != [] {
      var init := list[..|list| - 1];
      assert list == init + [list[|list| - 1]];
      SortKeeps(init, less, y);
      InsertKeeps(SortStable(init, less), list[|list| - 1], less, y);
    }
  }

  // ---- What sorting gives.

  /** A strict order in which being neither less nor greater is an equivalence. */
  ghost predicate Orders<T(!new)>(less: (T, T) -> bool) {
    && (forall x, y {:trigger less(x, y), less(y, x)} :: less(x, y) ==> !less(y, x))
    && (forall x, y, z {:trigger less(x, y), less(y, z)} :: less(x, z) ==> less(x, y) || less(y, z))
  }

  ghost predicate Sorted<T>(list: seq<T>, less: (T, T) -> bool) {
    forall i, j {:trigger list[i], list[j]} :: 0 <= i < j < |list| ==> !less(list[j], list[i])
  }

  lemma {:induction false} InsertSorts<T(!new)>(sorted: seq<T>, x: T, less: (T, T) -> bool)
    requires Orders(less) && Sorted(sorted, less)
    ensures Sorted(Insert(sorted, x, less), less)
  {
    if sorted != [] {
      var init, last := sorted[..|sorted| - 1], sorted[|sorted| - 1];
      var r := Insert(sorted, x, less);
      if less(x, last) {
        InsertSorts(init, x, less);
        var front := Insert(init, x, less);
        forall i | 0 <= i < |front| ensures !less(last, front[i]) {
          assert front[i] in front;
          InsertKeeps(init, x, less, front[i]);
          if front[i] != x {
            var k :| 0 <= k < |init| && init[k] == front[i];
            assert sorted[k] == front[i] && sorted[|sorted| - 1] == last;
          }
        }
      } else {
        forall i | 0 <= i < |sorted| ensures !less(x, sorted[i]) {
          assert !less(x, last) && (i < |init| ==> !less(last, sorted[i]));
        }
      }
    }
  }

  lemma {:induction false} SortSorts<T(!new)>(list: seq<T>, less: (T, T) -> bool)
    requires Orders(less)
    ensures Sorted(SortStable(list, less), less)
  {
    if list != [] {
      SortSorts(list[..|list| - 1], less);
      InsertSorts(SortStable(list[..|list| - 1], less), list[|list| - 1], less);
    }
  }

  lemma {:induction false} InsertPermutes<T>(sorted: seq<T>, x: T, less: (T, T) -> bool)
    ensures multiset(Insert(sorted, x, less)) == multiset(sorted) + multiset{x}
  {
    if sorted != [] {
      var init, last := sorted[..|sorted| - 1], sorted[|sorted| - 1];
      assert sorted == init + [last];
      if less(x, last) {
        InsertPermutes(init, x, less);
      }
    }
  }

  lemma {:induction false} SortPermutes<T>(list: seq<T>, less: (T, T) -> bool)
    ensures multiset(SortStable(list, less)) == multiset(list)
  {
    if list != [] {
      var init, last := list[..|list| - 1], list[|list| - 1];
      assert list == init + [last];
      SortPermutes(init, less);
      InsertPermutes(SortStable(init, less), last, less);
    }
  }

  /** The elements that pass a test, in order. */
  function Passing<T>(list: seq<T>, test: T -> bool): seq<T> {
    if list == [] then []
    else Passing(list[..|list| - 1], test) + if test(list[|list| - 1]) then [list[|list| - 1]] else []
  }

  /** The test does not tell elements apart that the order does. */
  ghost predicate Alike<T(!new)>(test: T -> bool, less: (T, T) -> bool) {
    forall x, y {:trigger test(x), test(y)} :: test(x) && test(y) ==> !less(x, y)
  }

  lemma {:induction false} InsertStays<T(!new)>(sorted: seq<T>, x: T, less: (T, T) -> bool, test: T -> bool)
    requires Alike(test, less)
    ensures Passing(Insert(sorted, x, less), test) == Passing(sorted, test) + if test(x) then [x] else []
  {
    var r := Insert(sorted, x, less);
    if sorted == [] {
      assert r[..0] == [];
    } else {
      var init, last := sorted[..|sorted| - 1], sorted[|sorted| - 1];
      if less(x, last) {
        InsertStays(init, x, less, test);
        assert r[..|r| - 1] == Insert(init, x, less);
      } else {
        assert r[..|r| - 1] == sorted;
      }
    }
  }

  /** Elements that are neither less nor greater keep their order. */
  lemma {:induction false} SortStays<T(!new)>(list: seq<T>, less: (T, T) -> bool, test: T -> bool)
    requires Alike(test, less)
    ensures Passing(SortStable(list, less), test) == Passing(list, test)
  {
    if list != [] {
      SortStays(list[..|list| - 1], less, test);
      InsertStays(SortStable(list[..|list| - 1], less), list[|list| - 1], less, test);
    }
  }
}
