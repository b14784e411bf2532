/**
 * `Vec::sort_by`, the library's stable sort, as `src/lib.rs` uses it on the
 * judgments and on the run. The specification is stable insertion sort; the
 * in-place method is proved to compute it, and the lemmas prove that it
 * yields an ordered permutation of its input.
 */
module Sorting {

  /** `le(a, b)`: `a` may stay before `b` (the comparator did not answer `Greater`). */
  ghost predicate Total<T(!new)>(le: (T, T) -> bool) {
    forall a, b :: le(a, b) || le(b, a)
  }

  ghost predicate Transitive<T(!new)>(le: (T, T) -> bool) {
    forall a, b, c :: le(a, b) && le(b, c) ==> le(a, c)
  }

  /** Every element may stay before every later one. */
  ghost predicate SortedBy<T>(s: seq<T>, le: (T, T) -> bool) {
    forall i, j :: 0 <= i < j < |s| ==> le(s[i], s[j])
  }

  /** Every element may stay before its right neighbour. */
  ghost predicate NeighboursSortedBy<T>(s: seq<T>, le: (T, T) -> bool) {
    forall i :: 0 < i < |s| ==> le(s[i - 1], s[i])
  }

  /** Puts `x` into `s` behind every element that may stay before it, keeping equal elements in arrival order. */
  function Insert<T>(s: seq<T>, x: T, le: (T, T) -> bool): seq<T>
    decreases |s|
  {
    if s == [] then [x]
    else if le(s[|s| - 1], x) then s + [x]
    else Insert(s[..|s| - 1], x, le) + [s[|s| - 1]]
  }

  /** Stable insertion sort of `xs` under `le`. */
  function InsertionSort<T>(xs: seq<T>, le: (T, T) -> bool): seq<T>
    decreases |xs|
  {
    if xs == [] then []
    else Insert(InsertionSort(xs[..|xs| - 1], le), xs[|xs| - 1], le)
  }

  lemma {:induction false} InsertPermutes<T>(s: seq<T>, x: T, le: (T, T) -> bool)
    ensures multiset(Insert(s, x, le)) == multiset(s) + multiset{x}
    decreases |s|
  {
    if s != [] && !le(s[|s| - 1], x) {
      InsertPermutes(s[..|s| - 1], x, le);
      assert s == s[..|s| - 1] + [s[|s| - 1]];
    }
  }

  /** Sorting only reorders: the result holds the same elements, as often as the input. */
  lemma {:induction false} InsertionSortPermutes<T>(xs: seq<T>, le: (T, T) -> bool)
    ensures multiset(InsertionSort(xs, le)) == multiset(xs)
    decreases |xs|
  {
    if xs != [] {
      InsertionSortPermutes(xs[..|xs| - 1], le);
      InsertPermutes(InsertionSort(xs[..|xs| - 1], le), xs[|xs| - 1], le);
      assert xs == xs[..|xs| - 1] + [xs[|xs| - 1]];
    }
  }

  lemma {:induction false} InsertKeepsNeighboursSorted<T(!new)>(s: seq<T>, x: T, le: (T, T) -> bool)
    requires Total(le)
    requires NeighboursSortedBy(s, le)
    ensures NeighboursSortedBy(Insert(s, x, le), le)
    ensures |Insert(s, x, le)| == |s| + 1
    ensures s != [] ==> Insert(s, x, le)[|s|] == if le(s[|s| - 1], x) then x else s[|s| - 1]
    decreases |s|
  {
    if s != [] && !le(s[|s| - 1], x) {
      var init := s[..|s| - 1];
      InsertKeepsNeighboursSorted(init, x, le);
      var r := Insert(init, x, le);
      assert le(x, s[|s| - 1]);
      if init != [] {
        assert r[|init|] == if le(init[|init| - 1], x) then x else init[|init| - 1];
        assert le(init[|init| - 1], s[|s| - 1]);
      }
    }
  }

  lemma {:induction false} NeighboursSortedIsSorted<T(!new)>(s: seq<T>, le: (T, T) -> bool)
    requires Transitive(le)
    requires NeighboursSortedBy(s, le)
    ensures SortedBy(s, le)
    decreases |s|
  {
    if s != [] {
      var init := s[..|s| - 1];
      NeighboursSortedIsSorted(init, le);
      forall i, j | 0 <= i < j < |s| ensures le(s[i], s[j]) {
        if j == |s| - 1 && i < j - 1 {
          assert le(init[i], init[j - 1]);
        }
      }
    }
  }

  /** For a total, transitive `le`, the result is ordered: every element may stay before every later one. */
  lemma {:induction false} InsertionSortSorts<T(!new)>(xs: seq<T>, le: (T, T) -> bool)
    requires Total(le) && Transitive(le)
    ensures SortedBy(InsertionSort(xs, le), le)
  {
    InsertionSortNeighbours(xs, le);
    NeighboursSortedIsSorted(InsertionSort(xs, le), le);
  }

  lemma {:induction false} InsertionSortNeighbours<T(!new)>(xs: seq<T>, le: (T, T) -> bool)
    requires Total(le)
    ensures NeighboursSortedBy(InsertionSort(xs, le), le)
    decreases |xs|
  {
    if xs != [] {
      InsertionSortNeighbours(xs[..|xs| - 1], le);
      InsertKeepsNeighboursSorted(InsertionSort(xs[..|xs| - 1], le), xs[|xs| - 1], le);
    }
  }

  /** The sort is stable: input that is already in order comes back unchanged. */
  lemma {:induction false} InsertionSortSorted<T>(xs: seq<T>, le: (T, T) -> bool)
    requires SortedBy(xs, le)
    ensures InsertionSort(xs, le) == xs
    decreases |xs|
  {
    if xs != [] {
      var init := xs[..|xs| - 1];
      assert forall i :: 0 <= i < |init| ==> init[i] == xs[i];
      InsertionSortSorted(init, le);
      assert xs == init + [xs[|xs| - 1]];
      if init != [] {
        assert le(init[|init| - 1], xs[|xs| - 1]);
      }
    }
  }

  /**
   * Sorts `a` in place: each element in turn is swapped leftwards past the
   * elements that must not stay before it.
   */
  method SortBy<T>(a: array<T>, le: (T, T) -> bool)
    modifies a
    ensures a[..] == InsertionSort(old(a[..]), le)
  {
    ghost var input := a[..];
    var i := 0;
    while i < a.Length
      invariant 0 <= i <= a.Length
      invariant a[..i] == InsertionSort(input[..i], le)
      invariant a[i..] == input[i..]
    {
      SinkLast(a, i, le);
      assert input[..i + 1][..i] == input[..i];
      assert a[i + 1..] == input[i + 1..];
      i := i + 1;
    }
    assert input[..a.Length] == input;
  }

  /** One step of `SortBy`: `a[i]` is inserted into the already sorted `a[..i]`. */
  method SinkLast<T>(a: array<T>, i: nat, le: (T, T) -> bool)
    requires i < a.Length
    modifies a
    ensures a[..i + 1] == Insert(old(a[..i]), old(a[i]), le)
    ensures a[i + 1..] == old(a[i + 1..])
  {
    ghost var sorted := a[..i];
    ghost var rest := a[i + 1..];
    var x := a[i];
    var j := i;
    ghost var pre := sorted;
    ghost var post: seq<T> := [];
    assert a[..] == pre + [x] + post + rest;
    while j > 0 && !le(a[j - 1], a[j])
      invariant 0 <= j <= i
      invariant |pre| == j && |post| == i - j
      invariant a[..] == pre + [x] + post + rest
      invariant Insert(sorted, x, le) == Insert(pre, x, le) + post
    {
      var y := a[j - 1];
      SwapShape(pre, x, post, rest);
      a[j - 1], a[j] := x, y;
      pre, post := pre[..j - 1], [y] + post;
      j := j - 1;
    }
    SinkDone(sorted, x, pre, post, rest, le);
  }

  /** Where `SinkLast` stops, `x` is in its place and the rest of the array is untouched. */
  lemma SinkDone<T>(sorted: seq<T>, x: T, pre: seq<T>, post: seq<T>, rest: seq<T>, le: (T, T) -> bool)
    requires Insert(sorted, x, le) == Insert(pre, x, le) + post
    requires pre == [] || le(pre[|pre| - 1], x)
    ensures (pre + [x] + post + rest)[..|pre| + 1 + |post|] == Insert(sorted, x, le)
    ensures (pre + [x] + post + rest)[|pre| + 1 + |post|..] == rest
  {
  }

  /** How one swap of `SinkLast` moves `x` a place to the left. */
  lemma SwapShape<T>(pre: seq<T>, x: T, post: seq<T>, rest: seq<T>)
    requires pre != []
    ensures (pre + [x] + post + rest)[|pre| - 1 := x][|pre| := pre[|pre| - 1]]
            == pre[..|pre| - 1] + [x] + ([pre[|pre| - 1]] + post) + rest
  {
  }
}
