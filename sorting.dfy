/**
  Comparator-driven stable sorting, the semantics of `Array.prototype.sort`
  with a comparison function (section 23.1.3.30 of ECMA-262, which requires
  the sort to be stable). A comparator returns a negative number, zero or a
  positive number; `c(x, y) > 0` means that `y` belongs before `x`.

  The reference definition is insertion sort (`InsertionSort`). It is proved
  sorted, a permutation and stable, and `StableSortIsInsertionSort` shows that
  every sorted, stable rearrangement of a sequence is exactly that sequence,
  so any stable sort an engine uses gives the same result.
*/
module Sorting {

  /** `x` may stay before `y`. */
  ghost predicate AtMost<T>(c: (T, T) -> int, x: T, y: T)
  {
    c(x, y) <= 0
  }

  /**
    What ECMA-262 calls a consistent comparator: antisymmetric in sign and
    transitive. Transitivity is stated on `AtMost` so that it is only used
    where a proof names it (see `Transitive`).
  */
  ghost predicate Consistent<T(!new)>(c: (T, T) -> int)
  {
    && (forall x, y :: c(x, y) < 0 <==> c(y, x) > 0)
    && (forall x, y, z {:trigger AtMost(c, x, y), AtMost(c, y, z)} ::
          AtMost(c, x, y) && AtMost(c, y, z) ==> AtMost(c, x, z))
  }

  /** Transitivity of a consistent comparator, for the three elements a proof names. */
  lemma Transitive<T(!new)>(c: (T, T) -> int, x: T, y: T, z: T)
    requires Consistent(c)
    ensures c(x, y) <= 0 && c(y, z) <= 0 ==> c(x, z) <= 0
  {
    if c(x, y) <= 0 && c(y, z) <= 0 {
      assert AtMost(c, x, y) && AtMost(c, y, z);
    }
  }

  /** Adjacent elements are in order: each compares at most equal to the next. */
  ghost predicate Sorted<T>(s: seq<T>, c: (T, T) -> int)
  {
    forall i :: 0 < i < |s| ==> c(s[i - 1], s[i]) <= 0
  }

  /** The elements of `s` that compare equal to `y`, in their order in `s`. */
  function EquivalentTo<T>(s: seq<T>, c: (T, T) -> int, y: T): (r: seq<T>)
    ensures |r| <= |s|
  {
    if s == [] then []
    else (if c(s[0], y) == 0 then [s[0]] else []) + EquivalentTo(s[1..], c, y)
  }

  /** `r` keeps every class of equal elements of `s` in its original order. */
  ghost predicate Stable<T(!new)>(r: seq<T>, s: seq<T>, c: (T, T) -> int)
  {
    forall y :: EquivalentTo(r, c, y) == EquivalentTo(s, c, y)
  }

  /** Inserts `x` after the last element of `s` that is not greater than it. */
  function Insert<T>(x: T, s: seq<T>, c: (T, T) -> int): (r: seq<T>)
    ensures |r| == |s| + 1
  {
    if s == [] then [x]
    else if c(s[|s| - 1], x) > 0 then
      Insert(x, s[..|s| - 1], c) + [s[|s| - 1]]
    else s + [x]
  }

  /** Insertion sort: the reference result of a stable sort with comparator `c`. */
  function InsertionSort<T>(s: seq<T>, c: (T, T) -> int): (r: seq<T>)
    ensures |r| == |s|
  {
    if s == [] then []
    else Insert(s[|s| - 1], InsertionSort(s[..|s| - 1], c), c)
  }

  /** `Insert` puts `x` at some position `m`: everything after it is strictly greater, the element before it is not. */
  lemma {:induction false} InsertSplit<T>(x: T, s: seq<T>, c: (T, T) -> int) returns (m: nat)
    ensures m <= |s|
    ensures Insert(x, s, c) == s[..m] + [x] + s[m..]
    ensures forall k :: m <= k < |s| ==> c(s[k], x) > 0
    ensures 0 < m ==> c(s[m - 1], x) <= 0
  {
    if s == [] {
      m := 0;
    } else if c(s[|s| - 1], x) > 0 {
      var front := s[..|s| - 1];
      m := InsertSplit(x, front, c);
      assert forall k :: 0 <= k < |front| ==> front[k] == s[k];
      assert Insert(x, s, c) == Insert(x, front, c) + [s[|s| - 1]];
      assert front[..m] == s[..m];
      assert front[m..] + [s[|s| - 1]] == s[m..];
    } else {
      m := |s|;
      assert s[..m] == s && s[m..] == [];
    }
  }

  /** Inserting adds exactly `x` to the multiset of elements. */
  lemma InsertPermutes<T>(x: T, s: seq<T>, c: (T, T) -> int)
    ensures multiset(Insert(x, s, c)) == multiset(s) + multiset{x}
  {
    var m := InsertSplit(x, s, c);
    var front, back := s[..m], s[m..];
    assert s == front + back;
    assert multiset(s) == multiset(front) + multiset(back);
    assert multiset(front + [x]) == multiset(front) + multiset{x};
    assert multiset(front + [x] + back) == multiset(front + [x]) + multiset(back);
  }

  /** Insertion sort rearranges its input: same elements, same multiplicities. */
  lemma {:induction false} InsertionSortPermutes<T>(s: seq<T>, c: (T, T) -> int)
    ensures multiset(InsertionSort(s, c)) == multiset(s)
  {
    if s != [] {
      InsertionSortPermutes(s[..|s| - 1], c);
      InsertPermutes(s[|s| - 1], InsertionSort(s[..|s| - 1], c), c);
      assert s == s[..|s| - 1] + [s[|s| - 1]];
    }
  }

  /** The classes of a concatenation are the concatenated classes. */
  lemma {:induction false} EquivalentToAppend<T>(a: seq<T>, b: seq<T>, c: (T, T) -> int, y: T)
    ensures EquivalentTo(a + b, c, y) == EquivalentTo(a, c, y) + EquivalentTo(b, c, y)
  {
    if a == [] {
      assert a + b == b;
    } else {
      var head := if c(a[0], y) == 0 then [a[0]] else [];
      assert (a + b)[0] == a[0];
      assert (a + b)[1..] == a[1..] + b;
      assert EquivalentTo(a + b, c, y) == head + EquivalentTo(a[1..] + b, c, y);
      EquivalentToAppend(a[1..], b, c, y);
      assert EquivalentTo(a, c, y) == head + EquivalentTo(a[1..], c, y);
    }
  }

  /** The class of `y` in a one-element sequence. */
  lemma EquivalentToSingleton<T>(x: T, c: (T, T) -> int, y: T)
    ensures EquivalentTo([x], c, y) == if c(x, y) == 0 then [x] else []
  {
    assert [x][1..] == [];
  }

  /** Every member of a class is an element of the sequence and equal to `y`. */
  lemma {:induction false} EquivalentToMembers<T>(s: seq<T>, c: (T, T) -> int, y: T, k: nat)
    requires k < |EquivalentTo(s, c, y)|
    ensures EquivalentTo(s, c, y)[k] in s && c(EquivalentTo(s, c, y)[k], y) == 0
  {
    if c(s[0], y) == 0 {
      if k > 0 {
        EquivalentToMembers(s[1..], c, y, k - 1);
      }
    } else {
      EquivalentToMembers(s[1..], c, y, k);
    }
  }

  /** In a sorted sequence every element compares at most equal to every later one. */
  lemma {:induction false} SortedPairwise<T(!new)>(s: seq<T>, c: (T, T) -> int, i: nat, j: nat)
    requires Consistent(c)
    requires Sorted(s, c)
    requires i <= j < |s|
    ensures c(s[i], s[j]) <= 0
    decreases j - i
  {
    if i == j {
      assert !(c(s[i], s[i]) < 0);
    } else {
      SortedPairwise(s, c, i, j - 1);
      Transitive(c, s[i], s[j - 1], s[j]);
    }
  }

  /** Inserting into a sorted sequence keeps it sorted. */
  lemma InsertSorted<T(!new)>(x: T, s: seq<T>, c: (T, T) -> int)
    requires Consistent(c)
    requires Sorted(s, c)
    ensures Sorted(Insert(x, s, c), c)
  {
    var m := InsertSplit(x, s, c);
    var r := Insert(x, s, c);
    forall i | 0 < i < |r|
      ensures c(r[i - 1], r[i]) <= 0
    {
      if i < m {
        assert r[i - 1] == s[i - 1] && r[i] == s[i];
      } else if i == m {
        assert r[i - 1] == s[m - 1] && r[i] == x;
      } else if i == m + 1 {
        assert r[i - 1] == x && r[i] == s[m];
        assert c(s[m], x) > 0;
      } else {
        assert r[i - 1] == s[i - 2] && r[i] == s[i - 1];
      }
    }
  }

  /** The result of insertion sort is sorted. */
  lemma {:induction false} InsertionSortSorted<T(!new)>(s: seq<T>, c: (T, T) -> int)
    requires Consistent(c)
    ensures Sorted(InsertionSort(s, c), c)
  {
    if s != [] {
      InsertionSortSorted(s[..|s| - 1], c);
      InsertSorted(s[|s| - 1], InsertionSort(s[..|s| - 1], c), c);
    }
  }

  /** When every element of `t` is strictly greater than `x` and `x` is equal to `y`, none of `t` is equal to `y`. */
  lemma {:induction false} NoneEquivalentAbove<T(!new)>(x: T, t: seq<T>, c: (T, T) -> int, y: T)
    requires Consistent(c)
    requires c(x, y) == 0
    requires forall k :: 0 <= k < |t| ==> c(t[k], x) > 0
    ensures EquivalentTo(t, c, y) == []
  {
    if t != [] {
      Transitive(c, t[0], y, x);
      NoneEquivalentAbove(x, t[1..], c, y);
    }
  }

  /** Moving `x` across `back` changes no class when `back` holds nothing equal to the class of `x`. */
  lemma MoveAcross<T>(front: seq<T>, x: T, back: seq<T>, c: (T, T) -> int, y: T)
    requires c(x, y) == 0 ==> EquivalentTo(back, c, y) == []
    ensures EquivalentTo(front + [x] + back, c, y) == EquivalentTo(front + back + [x], c, y)
  {
    EquivalentToAppend(front + [x], back, c, y);
    EquivalentToAppend(front, [x], c, y);
    EquivalentToAppend(front + back, [x], c, y);
    EquivalentToAppend(front, back, c, y);
    EquivalentToSingleton(x, c, y);
  }

  /** Inserting `x` is, class by class, appending `x`: it passes no element that compares equal to it. */
  lemma InsertKeepsClasses<T(!new)>(x: T, s: seq<T>, c: (T, T) -> int, y: T)
    requires Consistent(c)
    ensures EquivalentTo(Insert(x, s, c), c, y) == EquivalentTo(s + [x], c, y)
  {
    var m := InsertSplit(x, s, c);
    var front, back := s[..m], s[m..];
    assert s == front + back;
    if c(x, y) == 0 {
      NoneEquivalentAbove(x, back, c, y);
    }
    MoveAcross(front, x, back, c, y);
  }

  /** Insertion sort is stable: each class of equal elements keeps its order. */
  lemma {:induction false} InsertionSortStable<T(!new)>(s: seq<T>, c: (T, T) -> int, y: T)
    requires Consistent(c)
    ensures EquivalentTo(InsertionSort(s, c), c, y) == EquivalentTo(s, c, y)
  {
    if s != [] {
      var front, x := s[..|s| - 1], s[|s| - 1];
      var sortedFront := InsertionSort(front, c);
      assert InsertionSort(s, c) == Insert(x, sortedFront, c);
      InsertionSortStable(front, c, y);
      InsertKeepsClasses(x, sortedFront, c, y);
      EquivalentToAppend(sortedFront, [x], c, y);
      EquivalentToAppend(front, [x], c, y);
      assert s == front + [x];
    }
  }

  /** The first elements of two sorted sequences with the same classes compare equal. */
  lemma FirstElementsEquivalent<T(!new)>(r1: seq<T>, r2: seq<T>, c: (T, T) -> int)
    requires Consistent(c)
    requires r1 != [] && r2 != []
    requires Sorted(r2, c)
    requires EquivalentTo(r1, c, r1[0]) == EquivalentTo(r2, c, r1[0])
    ensures c(r2[0], r1[0]) <= 0
  {
    var a := r1[0];
    assert c(a, a) == 0;
    assert EquivalentTo(r1, c, a) == [a] + EquivalentTo(r1[1..], c, a);
    EquivalentToMembers(r2, c, a, 0);
    var e := EquivalentTo(r2, c, a)[0];
    var i :| 0 <= i < |r2| && r2[i] == e;
    SortedPairwise(r2, c, 0, i);
    Transitive(c, r2[0], e, a);
  }

  /** One unfolding of `EquivalentTo`. */
  lemma EquivalentToCons<T>(s: seq<T>, c: (T, T) -> int, y: T)
    requires s != []
    ensures EquivalentTo(s, c, y) == (if c(s[0], y) == 0 then [s[0]] else []) + EquivalentTo(s[1..], c, y)
  {
  }

  /** Two elements that compare equal compare the same way with `y`. */
  lemma SameClass<T(!new)>(c: (T, T) -> int, a: T, b: T, y: T)
    requires Consistent(c)
    requires c(a, b) == 0
    ensures c(a, y) == 0 <==> c(b, y) == 0
  {
    Transitive(c, a, b, y);
    Transitive(c, b, a, y);
    Transitive(c, y, a, b);
    Transitive(c, y, b, a);
  }

  /** Two sorted sequences with the same classes, in the same orders, are equal. */
  lemma {:induction false} SortedWithSameClassesAreEqual<T(!new)>(r1: seq<T>, r2: seq<T>, c: (T, T) -> int)
    requires Consistent(c)
    requires Sorted(r1, c) && Sorted(r2, c)
    requires forall y :: EquivalentTo(r1, c, y) == EquivalentTo(r2, c, y)
    ensures r1 == r2
  {
    if r1 != [] && r2 != [] {
      var a, b := r1[0], r2[0];
      FirstElementsEquivalent(r1, r2, c);
      FirstElementsEquivalent(r2, r1, c);
      assert c(a, a) == 0 && c(b, a) == 0;
      EquivalentToCons(r1, c, a);
      EquivalentToCons(r2, c, a);
      assert EquivalentTo(r1, c, a)[0] == a && EquivalentTo(r2, c, a)[0] == b;
      forall y
        ensures EquivalentTo(r1[1..], c, y) == EquivalentTo(r2[1..], c, y)
      {
        EquivalentToCons(r1, c, y);
        EquivalentToCons(r2, c, y);
        var head := if c(a, y) == 0 then [a] else [];
        assert EquivalentTo(r1[1..], c, y) == (head + EquivalentTo(r1[1..], c, y))[|head|..];
        assert EquivalentTo(r2[1..], c, y) == (head + EquivalentTo(r2[1..], c, y))[|head|..];
      }
      SortedWithSameClassesAreEqual(r1[1..], r2[1..], c);
      assert r1 == [a] + r1[1..] && r2 == [b] + r2[1..];
    } else if r1 != [] {
      assert c(r1[0], r1[0]) == 0;
      EquivalentToCons(r1, c, r1[0]);
    } else if r2 != [] {
      assert c(r2[0], r2[0]) == 0;
      EquivalentToCons(r2, c, r2[0]);
    }
  }

  /** Any sorted, stable rearrangement of `s` is `InsertionSort(s, c)`. */
  lemma StableSortIsInsertionSort<T(!new)>(r: seq<T>, s: seq<T>, c: (T, T) -> int)
    requires Consistent(c)
    requires Sorted(r, c) && Stable(r, s, c)
    ensures r == InsertionSort(s, c)
  {
    InsertionSortSorted(s, c);
    forall y
      ensures EquivalentTo(r, c, y) == EquivalentTo(InsertionSort(s, c), c, y)
    {
      InsertionSortStable(s, c, y);
    }
    SortedWithSameClassesAreEqual(r, InsertionSort(s, c), c);
  }

  /** Sorting an already sorted sequence changes nothing; in particular sorting twice is sorting once. */
  lemma InsertionSortOfSorted<T(!new)>(s: seq<T>, c: (T, T) -> int)
    requires Consistent(c)
    requires Sorted(s, c)
    ensures InsertionSort(s, c) == s
  {
    StableSortIsInsertionSort(s, s, c);
  }

  /** One step of the inner loop of `SortInPlace`: swapping `x` with the element before it. */
  lemma SwapStep<T>(p: seq<T>, x: T, j: nat, rest: seq<T>)
    requires 0 < j <= |p|
    ensures (p[..j] + [x] + p[j..] + rest)[j - 1 := x][j := p[j - 1]]
         == p[..j - 1] + [x] + p[j - 1..] + rest
  {
    var before := p[..j] + [x] + p[j..] + rest;
    var after := p[..j - 1] + [x] + p[j - 1..] + rest;
    assert |before| == |after|;
    forall k | 0 <= k < |after|
      ensures before[j - 1 := x][j := p[j - 1]][k] == after[k]
    {
      if k < j - 1 {
        assert before[k] == p[k] && after[k] == p[k];
      } else if k > j {
        assert before[k] == after[k];
      }
    }
  }

  /** Insertion sort of one more element is inserting that element into the sorted front. */
  lemma InsertionSortSnoc<T>(s: seq<T>, i: nat, c: (T, T) -> int)
    requires i < |s|
    ensures InsertionSort(s[..i + 1], c) == Insert(s[i], InsertionSort(s[..i], c), c)
  {
    assert s[..i + 1][..i] == s[..i];
  }

  /** Moving `x` past `p[j - 1]`, which is strictly greater than it. */
  lemma InsertPassesOne<T>(x: T, p: seq<T>, j: nat, c: (T, T) -> int)
    requires 0 < j <= |p|
    requires c(p[j - 1], x) > 0
    ensures Insert(x, p[..j], c) + p[j..] == Insert(x, p[..j - 1], c) + p[j - 1..]
  {
    assert p[..j][..j - 1] == p[..j - 1];
    assert [p[j - 1]] + p[j..] == p[j - 1..];
  }

  /** `x` stops right after `p[..j]` when nothing before it is strictly greater. */
  lemma InsertStops<T>(x: T, p: seq<T>, j: nat, c: (T, T) -> int)
    requires j <= |p|
    requires j == 0 || c(p[j - 1], x) <= 0
    ensures Insert(x, p[..j], c) == p[..j] + [x]
  {
  }

  /**
    The inner loop of `SortInPlace`: `a[i]` moves left past the elements of
    the sorted front `a[..i]` that compare strictly greater than it.
  */
  method SinkLast<T>(a: array<T>, i: nat, c: (T, T) -> int, ghost prefix: seq<T>, ghost rest: seq<T>)
    requires i == |prefix| < a.Length
    requires a[..] == prefix + [a[i]] + rest
    modifies a
    ensures a[..] == Insert(old(a[i]), prefix, c) + rest
  {
    ghost var x := a[i];
    var j := i;
    assert prefix[..j] == prefix && prefix[j..] == [];
    while 0 < j && c(a[j - 1], a[j]) > 0
      invariant 0 <= j <= i == |prefix|
      invariant a[..] == prefix[..j] + [x] + prefix[j..] + rest
      invariant Insert(x, prefix, c) == Insert(x, prefix[..j], c) + prefix[j..]
    {
      assert a[j - 1] == prefix[j - 1] && a[j] == x;
      InsertPassesOne(x, prefix, j, c);
      SwapStep(prefix, x, j, rest);
      a[j - 1], a[j] := a[j], a[j - 1];
      j := j - 1;
    }
    assert a[j] == x && (j == 0 || a[j - 1] == prefix[j - 1]);
    InsertStops(x, prefix, j, c);
  }

  /** One pass of the outer loop of `SortInPlace`: the sorted front grows by the element after it. */
  method ExtendFront<T>(a: array<T>, i: nat, c: (T, T) -> int, ghost original: seq<T>)
    requires i < a.Length == |original|
    requires a[..] == InsertionSort(original[..i], c) + original[i..]
    modifies a
    ensures a[..] == InsertionSort(original[..i + 1], c) + original[i + 1..]
  {
    ghost var front := InsertionSort(original[..i], c);
    ghost var rest := original[i + 1..];
    assert original[i..] == [original[i]] + rest;
    assert a[..] == front + [original[i]] + rest;
    assert a[i] == original[i];
    SinkLast(a, i, c, front, rest);
    InsertionSortSnoc(original, i, c);
  }

  /** Sorts `a` in place by insertion: element by element, `SinkLast` extends the sorted front. */
  method SortInPlace<T>(a: array<T>, c: (T, T) -> int)
    modifies a
    ensures a[..] == InsertionSort(old(a[..]), c)
  {
    ghost var original := a[..];
    var i := 0;
    while i < a.Length
      invariant 0 <= i <= a.Length
      invariant a[..] == InsertionSort(original[..i], c) + original[i..]
    {
      ExtendFront(a, i, c, original);
      i := i + 1;
    }
    assert original[..a.Length] == original;
  }
}
