/** The stream steps the services apply to their lists: `filter(...)`,
    `sorted(...)` with a Java-style comparator (negative, zero or positive
    answer), and `reversed()`. */
module Streams {
  import opened Wrappers

  /** `indexOf` of a list or a string: the first index holding `x`, or -1. */
  function IndexOf<T(==)>(s: seq<T>, x: T): (r: int)
    ensures r == -1 <==> x !in s
    ensures r != -1 ==> 0 <= r < |s| && s[r] == x && forall j :: 0 <= j < r ==> s[j] != x
  {
    if |s| == 0 then -1
    else if s[0] == x then 0
    else
      var k := IndexOf(s[1..], x);
      assert s == [s[0]] + s[1..];
      if k == -1 then -1 else k + 1
  }

  function Reverse<T>(s: seq<T>): (r: seq<T>)
    ensures |r| == |s|
    ensures forall i :: 0 <= i < |s| ==> r[i] == s[|s| - 1 - i]
    ensures multiset(r) == multiset(s)
  {
    if |s| == 0 then []
    else
      assert s == [s[0]] + s[1..];
      Reverse(s[1..]) + [s[0]]
  }

  /** Insertion of `x` into `t`, moving it left past every element that the
      comparator puts strictly after it (a stable insertion step). */
  function Insert<T>(t: seq<T>, x: T, cmp: (T, T) -> int): (r: seq<T>)
    ensures |r| == |t| + 1
    ensures multiset(r) == multiset(t) + multiset{x}
    ensures r[|r| - 1] == x || (|t| > 0 && r[|r| - 1] == t[|t| - 1])
  {
    if |t| == 0 then [x]
    else if cmp(t[|t| - 1], x) <= 0 then t + [x]
    else
      assert t == t[..|t| - 1] + [t[|t| - 1]];
      Insert(t[..|t| - 1], x, cmp) + [t[|t| - 1]]
  }

  /** Stable insertion sort. */
  function InsertionSort<T>(s: seq<T>, cmp: (T, T) -> int): (r: seq<T>)
    ensures |r| == |s|
    ensures multiset(r) == multiset(s)
  {
    if |s| == 0 then []
    else
      assert s == s[..|s| - 1] + [s[|s| - 1]];
      Insert(InsertionSort(s[..|s| - 1], cmp), s[|s| - 1], cmp)
  }

  /** Every neighbouring pair is in comparator order. */
  ghost predicate AdjacentSorted<T>(s: seq<T>, cmp: (T, T) -> int) {
    forall i :: 0 <= i < |s| - 1 ==> cmp(s[i], s[i + 1]) <= 0
  }

  /** Every pair is in comparator order. */
  ghost predicate Sorted<T>(s: seq<T>, cmp: (T, T) -> int) {
    forall i, j :: 0 <= i < j < |s| ==> cmp(s[i], s[j]) <= 0
  }

  /** "a after b" implies "b before a": the one property of a comparator that
      insertion sort needs for neighbouring pairs to come out in order. */
  ghost predicate SignAntisymmetric<T(!new)>(cmp: (T, T) -> int) {
    forall a, b :: cmp(a, b) > 0 ==> cmp(b, a) < 0
  }

  ghost predicate NonPositiveTransitive<T(!new)>(cmp: (T, T) -> int) {
    forall a, b, c :: cmp(a, b) <= 0 && cmp(b, c) <= 0 ==> cmp(a, c) <= 0
  }

  lemma {:induction false} InsertAdjacentSorted<T(!new)>(t: seq<T>, x: T, cmp: (T, T) -> int)
    requires SignAntisymmetric(cmp)
    requires AdjacentSorted(t, cmp)
    ensures AdjacentSorted(Insert(t, x, cmp), cmp)
  {
    if |t| > 0 && cmp(t[|t| - 1], x) > 0 {
      var init := t[..|t| - 1];
      InsertAdjacentSorted(init, x, cmp);
      var u := Insert(init, x, cmp);
      assert cmp(x, t[|t| - 1]) < 0;
      assert |init| > 0 ==> cmp(init[|init| - 1], t[|t| - 1]) <= 0;
      assert cmp(u[|u| - 1], t[|t| - 1]) <= 0;
    }
  }

  lemma {:induction false} InsertionSortAdjacentSorted<T(!new)>(s: seq<T>, cmp: (T, T) -> int)
    requires SignAntisymmetric(cmp)
    ensures AdjacentSorted(InsertionSort(s, cmp), cmp)
  {
    if |s| > 0 {
      InsertionSortAdjacentSorted(s[..|s| - 1], cmp);
      InsertAdjacentSorted(InsertionSort(s[..|s| - 1], cmp), s[|s| - 1], cmp);
    }
  }

  lemma {:induction false} AdjacentSortedIsSorted<T(!new)>(s: seq<T>, cmp: (T, T) -> int)
    requires NonPositiveTransitive(cmp)
    requires AdjacentSorted(s, cmp)
    ensures Sorted(s, cmp)
  {
    if |s| > 1 {
      var init := s[..|s| - 1];
      assert AdjacentSorted(init, cmp);
      AdjacentSortedIsSorted(init, cmp);
      forall i | 0 <= i < |s| - 1 ensures cmp(s[i], s[|s| - 1]) <= 0 {
        if i < |s| - 2 {
          assert cmp(s[i], s[|s| - 2]) <= 0;
        }
      }
    }
  }

  /** Sortedness and permutation, for a comparator that is a total preorder. */
  lemma InsertionSortSorted<T(!new)>(s: seq<T>, cmp: (T, T) -> int)
    requires SignAntisymmetric(cmp) && NonPositiveTransitive(cmp)
    ensures Sorted(InsertionSort(s, cmp), cmp)
    ensures multiset(InsertionSort(s, cmp)) == multiset(s)
  {
    InsertionSortAdjacentSorted(s, cmp);
    AdjacentSortedIsSorted(InsertionSort(s, cmp), cmp);
  }

  /** Inserting `x` keeps the order of the elements satisfying `p`, when the
      comparator never puts one of them after another: `x` goes after all of
      them if it satisfies `p` itself. */
  lemma {:induction false} InsertStable<T>(t: seq<T>, x: T, cmp: (T, T) -> int, p: T -> bool)
    requires forall a, b :: p(a) && p(b) ==> cmp(a, b) <= 0
    ensures Filter(Insert(t, x, cmp), p) == if p(x) then Filter(t, p) + [x] else Filter(t, p)
    decreases |t|
  {
    if |t| > 0 {
      var init, last := t[..|t| - 1], t[|t| - 1];
      assert t == init + [last];
      FilterSnoc(init, last, p);
      if cmp(last, x) <= 0 {
        FilterSnoc(t, x, p);
      } else {
        InsertStable(init, x, cmp, p);
        FilterSnoc(Insert(init, x, cmp), last, p);
      }
    }
  }

  /** The sort is stable: elements the comparator rates as equal (any set of
      them that it never orders strictly) keep their relative order. */
  lemma {:induction false} InsertionSortStable<T>(s: seq<T>, cmp: (T, T) -> int, p: T -> bool)
    requires forall a, b :: p(a) && p(b) ==> cmp(a, b) <= 0
    ensures Filter(InsertionSort(s, cmp), p) == Filter(s, p)
    decreases |s|
  {
    if |s| > 0 {
      var init, last := s[..|s| - 1], s[|s| - 1];
      assert s == init + [last];
      var sorted := InsertionSort(init, cmp);
      InsertionSortStable(init, cmp, p);
      InsertStable(sorted, last, cmp, p);
      FilterSnoc(init, last, p);
    }
  }

  /** Reversing a sequence in comparator order puts every neighbouring pair
      the other way round. */
  lemma ReverseAdjacentSorted<T>(s: seq<T>, cmp: (T, T) -> int)
    requires AdjacentSorted(s, cmp)
    ensures forall i :: 0 <= i < |s| - 1 ==> cmp(Reverse(s)[i + 1], Reverse(s)[i]) <= 0
  {
    var r := Reverse(s);
    forall i | 0 <= i < |s| - 1
      ensures cmp(r[i + 1], r[i]) <= 0
    {
      var n := |s|;
      assert r[i + 1] == s[n - 2 - i] && r[i] == s[n - 1 - i];
      assert n - 1 - i == (n - 2 - i) + 1;
    }
  }

  /** `filter(p)`: the elements that satisfy `p`, in order. */
  function Filter<T>(s: seq<T>, p: T -> bool): (r: seq<T>)
    ensures |r| <= |s|
    ensures forall i :: 0 <= i < |r| ==> r[i] in s && p(r[i])
    ensures forall i :: 0 <= i < |s| && p(s[i]) ==> s[i] in r
  {
    if |s| == 0 then []
    else
      var init := s[..|s| - 1];
      assert s == init + [s[|s| - 1]];
      if p(s[|s| - 1]) then Filter(init, p) + [s[|s| - 1]] else Filter(init, p)
  }

  /** Filtering two lists one after the other. */
  lemma {:induction false} FilterAppend<T>(a: seq<T>, b: seq<T>, p: T -> bool)
    ensures Filter(a + b, p) == Filter(a, p) + Filter(b, p)
    decreases |b|
  {
    if |b| == 0 {
      assert a + b == a;
    } else {
      var b' := b[..|b| - 1];
      assert (a + b)[..|a + b| - 1] == a + b';
      FilterAppend(a, b', p);
    }
  }

  /** A filter that keeps everything is the identity. */
  lemma {:induction false} FilterAll<T>(s: seq<T>, p: T -> bool)
    requires forall i :: 0 <= i < |s| ==> p(s[i])
    ensures Filter(s, p) == s
  {
    if |s| > 0 {
      var init := s[..|s| - 1];
      assert forall i :: 0 <= i < |init| ==> init[i] == s[i];
      FilterAll(init, p);
      assert s == init + [s[|s| - 1]];
    }
  }

  /** A filter that keeps nothing is empty. */
  lemma {:induction false} FilterNone<T>(s: seq<T>, p: T -> bool)
    requires forall i :: 0 <= i < |s| ==> !p(s[i])
    ensures Filter(s, p) == []
  {
    if |s| > 0 {
      var init := s[..|s| - 1];
      assert forall i :: 0 <= i < |init| ==> init[i] == s[i];
      FilterNone(init, p);
    }
  }

  /** Two filters that agree on every element keep the same elements. */
  lemma {:induction false} FilterAgree<T>(s: seq<T>, p: T -> bool, q: T -> bool)
    requires forall i :: 0 <= i < |s| ==> p(s[i]) == q(s[i])
    ensures Filter(s, p) == Filter(s, q)
  {
    if |s| > 0 {
      var init := s[..|s| - 1];
      assert forall i :: 0 <= i < |init| ==> init[i] == s[i];
      FilterAgree(init, p, q);
    }
  }

  /** The largest index of an element satisfying `p`, or -1. */
  function LastWhere<T>(s: seq<T>, p: T -> bool): (r: int)
    ensures -1 <= r < |s|
    ensures r == -1 <==> forall j :: 0 <= j < |s| ==> !p(s[j])
    ensures r != -1 ==> (p(s[r]) && forall j :: r < j < |s| ==> !p(s[j]))
  {
    if |s| == 0 then -1
    else if p(s[|s| - 1]) then |s| - 1
    else LastWhere(s[..|s| - 1], p)
  }

  /** The first of the reversed filter is the last element satisfying `p`. */
  lemma FirstOfReversedFilter<T>(s: seq<T>, p: T -> bool)
    ensures |Reverse(Filter(s, p))| == 0 <==> LastWhere(s, p) == -1
    ensures |Reverse(Filter(s, p))| > 0 ==> Reverse(Filter(s, p))[0] == s[LastWhere(s, p)]
  {
    LastOfFilter(s, p);
  }

  /** The last element a filter keeps is the last element satisfying `p`. */
  lemma {:induction false} LastOfFilter<T>(s: seq<T>, p: T -> bool)
    ensures |Filter(s, p)| == 0 <==> LastWhere(s, p) == -1
    ensures |Filter(s, p)| > 0 ==> Filter(s, p)[|Filter(s, p)| - 1] == s[LastWhere(s, p)]
  {
    if |s| > 0 {
      var init := s[..|s| - 1];
      if !p(s[|s| - 1]) {
        LastOfFilter(init, p);
        var k := LastWhere(init, p);
        assert k != -1 ==> s[k] == init[k];
      }
    }
  }
  /** Filtering a list with one more element at the end. */
  lemma FilterSnoc<T>(s: seq<T>, x: T, p: T -> bool)
    ensures Filter(s + [x], p) == if p(x) then Filter(s, p) + [x] else Filter(s, p)
  {
    assert (s + [x])[..|s|] == s;
  }

  /** A loop that keeps the values `f` yields, in order, skipping `None`. */
  function Collect<A, B>(s: seq<A>, f: A -> Option<B>): (r: seq<B>)
    ensures |r| <= |s|
  {
    if |s| == 0 then []
    else
      var init, y := Collect(s[..|s| - 1], f), f(s[|s| - 1]);
      if y.Some? then init + [y.value] else init
  }

  /** Every value `f` yields is kept. */
  lemma {:induction false} CollectKept<A, B>(s: seq<A>, f: A -> Option<B>, i: nat)
    requires i < |s| && f(s[i]).Some?
    ensures f(s[i]).value in Collect(s, f)
  {
    var init := s[..|s| - 1];
    if i < |s| - 1 {
      assert init[i] == s[i];
      CollectKept(init, f, i);
    }
  }

  /** Every kept value was yielded by some element. */
  lemma {:induction false} CollectOrigin<A, B>(s: seq<A>, f: A -> Option<B>, k: nat) returns (i: nat)
    requires k < |Collect(s, f)|
    ensures i < |s| && f(s[i]) == Some(Collect(s, f)[k])
  {
    var init := s[..|s| - 1];
    if k < |Collect(init, f)| {
      i := CollectOrigin(init, f, k);
      assert init[i] == s[i];
    } else {
      i := |s| - 1;
    }
  }

  /** A relation that holds between every earlier and later element still
      holds after filtering, which keeps the order. */
  lemma {:induction false} FilterPairwise<T>(s: seq<T>, p: T -> bool, rel: (T, T) -> bool)
    requires forall i, j :: 0 <= i < j < |s| ==> rel(s[i], s[j])
    ensures forall i, j :: 0 <= i < j < |Filter(s, p)| ==> rel(Filter(s, p)[i], Filter(s, p)[j])
  {
    if |s| > 0 {
      var init, x := s[..|s| - 1], s[|s| - 1];
      FilterPairwise(init, p, rel);
      var fi := Filter(init, p);
      if p(x) {
        forall k | 0 <= k < |fi| ensures rel(fi[k], x) {
          assert fi[k] in init;
          var w :| 0 <= w < |init| && init[w] == fi[k];
          assert rel(s[w], s[|s| - 1]);
        }
        assert Filter(s, p) == fi + [x];
      }
    }
  }

  /** The elements both predicates accept. */
  function Both<T>(p: T -> bool, q: T -> bool): T -> bool {
    (x: T) => p(x) && q(x)
  }

  /** Two filters in a row are one filter by the conjunction. */
  lemma {:induction false} FilterFilter<T>(s: seq<T>, p: T -> bool, q: T -> bool)
    ensures Filter(Filter(s, p), q) == Filter(s, Both(p, q))
  {
    if |s| > 0 {
      var init := s[..|s| - 1];
      var x := s[|s| - 1];
      FilterFilter(init, p, q);
      if p(x) {
        var f := Filter(init, p) + [x];
        assert f[..|f| - 1] == Filter(init, p);
      }
    }
  }

  /** What a filter keeps, newest first: the elements of `s` that satisfy
      `p`, and every such element. */
  lemma ReversedFilter<T>(s: seq<T>, p: T -> bool)
    ensures forall i :: 0 <= i < |Reverse(Filter(s, p))| ==> Reverse(Filter(s, p))[i] in s && p(Reverse(Filter(s, p))[i])
    ensures forall i :: 0 <= i < |s| && p(s[i]) ==> s[i] in Reverse(Filter(s, p))
  {
    var kept := Filter(s, p);
    var r := Reverse(kept);
    forall i | 0 <= i < |s| && p(s[i]) ensures s[i] in r {
      var j :| 0 <= j < |kept| && kept[j] == s[i];
      assert r[|kept| - 1 - j] == kept[j];
    }
  }

  /** The last match within the first `n` elements: the element at `n - 1`
      when it matches, else the last match within the first `n - 1`. */
  lemma LastWherePrefix<T>(s: seq<T>, n: nat, p: T -> bool)
    requires 0 < n <= |s|
    ensures LastWhere(s[..n], p) == if p(s[n - 1]) then n - 1 else LastWhere(s[..n - 1], p)
  {
    assert s[..n][n - 1] == s[n - 1];
    assert s[..n][..n - 1] == s[..n - 1];
  }
}
