/**
  In-place sorting of a slice by a caller-supplied "less" function.

  `Sort` wraps the slice and the comparator in the adapter `SliceFn`, whose
  `Len`, `Less` and `Swap` are the only operations the sorting routine may
  use, and `Swap` is the only one that changes the slice.  The routine
  behind the adapter (Go's `sort.Sort`) is not part of this model; an
  insertion sort written against the same three operations stands in
  for it, and only what any such routine guarantees is stated.
 */
module Sorting {
  import opened Slices

  // ---------------------------------------------------------------------
  // Orders
  //
  // Each property is asked of `cmp` only on the values of a multiset `m`:
  // the elements a sort actually compares.  Element types may hold
  // references, and a comparator need only be consistent on those values.

  /** `cmp` never relates two values of `m` both ways. */
  ghost predicate AsymmetricOn<T>(cmp: (T, T) -> bool, m: multiset<T>)
  {
    forall x, y {:trigger cmp(x, y), cmp(y, x)} | x in m && y in m :: cmp(x, y) ==> !cmp(y, x)
  }

  /** Neither value is less than the other. */
  predicate Incomparable<T>(cmp: (T, T) -> bool, x: T, y: T)
  {
    !cmp(x, y) && !cmp(y, x)
  }

  /** On the values of `m`, `cmp` is irreflexive, transitive, and has
      transitive incomparability: the kind of comparator a sort expects. */
  ghost predicate StrictWeakOrderOn<T>(cmp: (T, T) -> bool, m: multiset<T>)
  {
    && (forall x {:trigger cmp(x, x)} | x in m :: !cmp(x, x))
    && (forall x, y, z {:trigger cmp(x, y), cmp(y, z)} | x in m && y in m && z in m :: cmp(x, y) && cmp(y, z) ==> cmp(x, z))
    && (forall x, y, z {:trigger Incomparable(cmp, x, y), Incomparable(cmp, y, z)} | x in m && y in m && z in m ::
          Incomparable(cmp, x, y) && Incomparable(cmp, y, z) ==> Incomparable(cmp, x, z))
  }

  /** A strict weak order on `m` in which only equal values are incomparable. */
  ghost predicate StrictTotalOrderOn<T>(cmp: (T, T) -> bool, m: multiset<T>)
  {
    && StrictWeakOrderOn(cmp, m)
    && forall x, y {:trigger cmp(x, y)} | x in m && y in m :: x != y ==> cmp(x, y) || cmp(y, x)
  }

  /** `s` is in order by `cmp`: no element is less than the one before it. */
  predicate Ordered<T>(s: seq<T>, cmp: (T, T) -> bool)
  {
    forall k :: 0 < k < |s| ==> !cmp(s[k], s[k - 1])
  }

  lemma StrictWeakOrderIsAsymmetric<T>(cmp: (T, T) -> bool, m: multiset<T>)
    requires StrictWeakOrderOn(cmp, m)
    ensures AsymmetricOn(cmp, m)
  {
    forall x, y | x in m && y in m ensures cmp(x, y) ==> !cmp(y, x) {
      assert cmp(x, y) && cmp(y, x) ==> cmp(x, x);
    }
  }

  /** "Not less than" is transitive on the values of a strict weak order. */
  lemma NotLessTransitive<T>(cmp: (T, T) -> bool, m: multiset<T>, a: T, b: T, c: T)
    requires StrictWeakOrderOn(cmp, m)
    requires a in m && b in m && c in m
    requires !cmp(b, a) && !cmp(c, b)
    ensures !cmp(c, a)
  {
    assert cmp(c, a) && cmp(a, b) ==> cmp(c, b);
    assert cmp(b, c) && cmp(c, a) ==> cmp(b, a);
    assert Incomparable(cmp, a, b) && Incomparable(cmp, b, c) ==> Incomparable(cmp, a, c);
  }

  /** When `cmp` is a strict weak order on its elements, order between
      neighbours gives order between every pair: no later element is less
      than an earlier one. */
  lemma {:induction false} OrderedAllPairs<T>(s: seq<T>, cmp: (T, T) -> bool)
    requires StrictWeakOrderOn(cmp, multiset(s))
    requires Ordered(s, cmp)
    ensures forall i, j :: 0 <= i < j < |s| ==> !cmp(s[j], s[i])
  {
    forall i, j | 0 <= i < j < |s| ensures !cmp(s[j], s[i]) {
      OrderedPair(s, cmp, i, j);
    }
  }

  lemma {:induction false} OrderedPair<T>(s: seq<T>, cmp: (T, T) -> bool, i: int, j: int)
    requires StrictWeakOrderOn(cmp, multiset(s))
    requires Ordered(s, cmp)
    requires 0 <= i < j < |s|
    ensures !cmp(s[j], s[i])
    decreases j - i
  {
    if i + 1 < j {
      OrderedPair(s, cmp, i, j - 1);
      assert s[i] in multiset(s) && s[j - 1] in multiset(s) && s[j] in multiset(s);
      NotLessTransitive(cmp, multiset(s), s[i], s[j - 1], s[j]);
    }
  }

  /** No element of an ordered sequence is less than its first element. */
  lemma {:induction false} HeadIsLeast<T>(s: seq<T>, cmp: (T, T) -> bool, x: T)
    requires StrictWeakOrderOn(cmp, multiset(s))
    requires Ordered(s, cmp)
    requires x in s
    ensures !cmp(x, s[0])
  {
    var i :| 0 <= i < |s| && s[i] == x;
    if i > 0 {
      OrderedPair(s, cmp, 0, i);
    }
  }

  /** A strict total order on a multiset stays one on every sub-multiset. */
  lemma StrictTotalOrderOnSub<T>(cmp: (T, T) -> bool, m: multiset<T>, n: multiset<T>)
    requires StrictTotalOrderOn(cmp, m)
    requires n <= m
    ensures StrictTotalOrderOn(cmp, n)
  {
    assert forall x | x in n :: x in m;
  }

  /** Two non-empty ordered permutations of each other, under a strict
      total order, start with the same element: each head is one of the
      other sequence's elements and so not less than its head. */
  lemma HeadsEqual<T>(a: seq<T>, b: seq<T>, cmp: (T, T) -> bool)
    requires multiset(a) == multiset(b)
    requires StrictTotalOrderOn(cmp, multiset(a))
    requires Ordered(a, cmp) && Ordered(b, cmp)
    requires a != []
    ensures b != [] && a[0] == b[0]
  {
    assert a[0] in multiset(a);
    assert b[0] in multiset(b);
    HeadIsLeast(a, cmp, b[0]);
    HeadIsLeast(b, cmp, a[0]);
  }

  /** Removing equal heads from two permutations of each other leaves
      permutations of each other, drawn from the same values. */
  lemma TailsPermutation<T>(a: seq<T>, b: seq<T>)
    requires multiset(a) == multiset(b)
    requires a != [] && b != [] && a[0] == b[0]
    ensures multiset(a[1..]) == multiset(b[1..])
    ensures multiset(a[1..]) <= multiset(a)
  {
    assert a == [a[0]] + a[1..];
    assert b == [b[0]] + b[1..];
    assert multiset(a[1..]) == multiset(a) - multiset{a[0]};
    assert multiset(b[1..]) == multiset(b) - multiset{b[0]};
  }

  /** Dropping the first element keeps a sequence in order. */
  lemma OrderedTail<T>(s: seq<T>, cmp: (T, T) -> bool)
    requires Ordered(s, cmp) && s != []
    ensures Ordered(s[1..], cmp)
  {
    assert forall k :: 0 < k < |s| - 1 ==> s[1..][k] == s[k + 1] && s[1..][k - 1] == s[k];
  }

  /** When `cmp` is a strict total order on their elements, two ordered
      permutations of each other are equal: a multiset has exactly one
      ordering.  In particular sorting a slice that is already in order
      leaves it as it is. */
  lemma {:induction false} OrderedPermutationUnique<T>(a: seq<T>, b: seq<T>, cmp: (T, T) -> bool)
    requires multiset(a) == multiset(b)
    requires StrictTotalOrderOn(cmp, multiset(a))
    requires Ordered(a, cmp) && Ordered(b, cmp)
    ensures a == b
  {
    if a == [] {
      assert |b| == |multiset(b)| == 0;
    } else {
      HeadsEqual(a, b, cmp);
      TailsPermutation(a, b);
      StrictTotalOrderOnSub(cmp, multiset(a), multiset(a[1..]));
      OrderedTail(a, cmp);
      OrderedTail(b, cmp);
      OrderedPermutationUnique(a[1..], b[1..], cmp);
      assert a == [a[0]] + a[1..] == [b[0]] + b[1..] == b;
    }
  }

  // ---------------------------------------------------------------------
  // The adapter

  /** The value `Sort` hands to the sorting routine: the caller's slice
      (shared, not copied) and the comparator. */
  datatype SliceFn<!T> = SliceFn(s: array?<T>, cmp: (T, T) -> bool)
  {
    /** `Len()`: the length of the slice; zero for nil. */
    function Len(): (n: nat)
      reads s
      ensures n == |Elems(s)|
    {
      if s == null then 0 else s.Length
    }

    /** `Less(i, j)`: whether element i is less than element j by `cmp`. */
    function Less(i: int, j: int): (b: bool)
      requires 0 <= i < Len() && 0 <= j < Len()
      reads s
      ensures b <==> cmp(Elems(s)[i], Elems(s)[j])
    {
      cmp(s[i], s[j])
    }

    /** `Swap(i, j)`: exchanges elements i and j of the shared slice and
        leaves every other element, and so the multiset, as it was. */
    method Swap(i: int, j: int)
      requires 0 <= i < Len() && 0 <= j < Len()
      modifies s
      ensures Elems(s) == old(Elems(s))[i := old(Elems(s))[j]][j := old(Elems(s))[i]]
      ensures multiset(Elems(s)) == multiset(old(Elems(s)))
    {
      s[i], s[j] := s[j], s[i];
    }
  }

  // ---------------------------------------------------------------------
  // Sorting

  /** The state of one insertion round on the slice contents `a`: the
      element being inserted sits at `j`, having passed positions `j + 1`
      to `i` (it is less than its right neighbour); for an asymmetric
      `cmp` the elements before it, and those it has passed, are in order,
      and so is the pair it separates. */
  ghost predicate Sifting<T>(a: seq<T>, j: int, i: int, cmp: (T, T) -> bool, asym: bool)
  {
    && 0 <= j <= i < |a|
    && (asym ==> Ordered(a[..j], cmp) && Ordered(a[j + 1..i + 1], cmp))
    && (asym && 0 < j < i ==> !cmp(a[j + 1], a[j - 1]))
    && (j < i ==> cmp(a[j], a[j + 1]))
  }

  /** One swap of the round keeps its state, one position further left,
      and does not touch the elements after `i`. */
  lemma SiftStep<T>(a: seq<T>, j: int, i: int, cmp: (T, T) -> bool, asym: bool)
    requires Sifting(a, j, i, cmp, asym)
    requires 0 < j && cmp(a[j], a[j - 1])
    ensures Sifting(a[j := a[j - 1]][j - 1 := a[j]], j - 1, i, cmp, asym)
    ensures a[j := a[j - 1]][j - 1 := a[j]][i + 1..] == a[i + 1..]
  {
    var b := a[j := a[j - 1]][j - 1 := a[j]];
    if asym {
      assert b[..j - 1] == a[..j - 1] == a[..j][..j - 1];
      var c, d := b[j..i + 1], a[j + 1..i + 1];
      forall k | 0 < k < |c| ensures !cmp(c[k], c[k - 1]) {
        if k == 1 {
          assert c[k] == a[j + 1] && c[k - 1] == a[j - 1];
        } else {
          assert c[k] == d[k - 1] && c[k - 1] == d[k - 2];
        }
      }
      if 0 < j - 1 {
        assert a[j - 1] == a[..j][j - 1] && a[j - 2] == a[..j][j - 2];
      }
    }
  }

  /** When the round stops, the first `i + 1` elements are in order,
      provided `cmp` is asymmetric on the slice's values. */
  lemma SiftDone<T>(a: seq<T>, j: int, i: int, cmp: (T, T) -> bool, m: multiset<T>)
    requires Sifting(a, j, i, cmp, true)
    requires multiset(a) == m && AsymmetricOn(cmp, m)
    requires j == 0 || !cmp(a[j], a[j - 1])
    ensures Ordered(a[..i + 1], cmp)
  {
    if j < i {
      assert a[j] in multiset(a) && a[j + 1] in multiset(a);
      assert !cmp(a[j + 1], a[j]);
    }
    var c, p, d := a[..i + 1], a[..j], a[j + 1..i + 1];
    forall k | 0 < k < |c| ensures !cmp(c[k], c[k - 1]) {
      if k < j {
        assert c[k] == p[k] && c[k - 1] == p[k - 1];
      } else if j + 1 < k {
        assert c[k] == d[k - j - 1] && c[k - 1] == d[k - j - 2];
      }
    }
  }

  /** One round of the insertion sort: moves element `i` left by
      adjacent swaps while it is less than its left neighbour.  The
      multiset is kept and the elements after `i` are not touched; if the
      first `i` elements were in order and `cmp` is asymmetric on the
      slice's values, the first `i + 1` are in order afterwards. */
  method InsertAt<T>(data: SliceFn<T>, i: nat, ghost asym: bool)
    requires i < data.Len()
    requires asym ==> AsymmetricOn(data.cmp, multiset(Elems(data.s)))
    requires asym ==> Ordered(Elems(data.s)[..i], data.cmp)
    modifies data.s
    ensures multiset(Elems(data.s)) == multiset(old(Elems(data.s)))
    ensures Elems(data.s)[i + 1..] == old(Elems(data.s))[i + 1..]
    ensures asym ==> Ordered(Elems(data.s)[..i + 1], data.cmp)
  {
    ghost var m := multiset(Elems(data.s));
    var j := i;
    while j > 0 && data.Less(j, j - 1)
      invariant Sifting(Elems(data.s), j, i, data.cmp, asym)
      invariant multiset(Elems(data.s)) == multiset(old(Elems(data.s)))
      invariant Elems(data.s)[i + 1..] == old(Elems(data.s))[i + 1..]
      decreases j
    {
      ghost var a := Elems(data.s);
      data.Swap(j, j - 1);
      SiftStep(a, j, i, data.cmp, asym);
      j := j - 1;
    }
    if asym {
      SiftDone(Elems(data.s), j, i, data.cmp, m);
    }
  }

  /** An in-place sort that reaches the slice only through `data`'s
      `Len`, `Less` and `Swap`.  Whatever `cmp` is, the slice ends as a
      permutation of what it was; if `cmp` is asymmetric on the slice's
      values, it ends in order. */
  method InsertionSort<T>(data: SliceFn<T>)
    modifies data.s
    ensures multiset(Elems(data.s)) == multiset(old(Elems(data.s)))
    ensures AsymmetricOn(data.cmp, multiset(old(Elems(data.s)))) ==> Ordered(Elems(data.s), data.cmp)
  {
    ghost var asym := AsymmetricOn(data.cmp, multiset(Elems(data.s)));
    var n := data.Len();
    var i := 0;
    while i < n
      invariant 0 <= i <= n == |Elems(data.s)|
      invariant multiset(Elems(data.s)) == multiset(old(Elems(data.s)))
      invariant asym ==> Ordered(Elems(data.s)[..i], data.cmp)
    {
      InsertAt(data, i, asym);
      i := i + 1;
    }
    assert Elems(data.s)[..n] == Elems(data.s);
  }

  /** `Sort(s, cmp)`: sorts the caller's slice in place.  The slice keeps
      its length and its multiset of elements whatever `cmp` is; when
      `cmp` is a strict weak order on the slice's values the result is in
      order by `cmp`.  The order of elements that compare equal is not
      specified. */
  method Sort<T>(s: array?<T>, cmp: (T, T) -> bool)
    modifies s
    ensures |Elems(s)| == |old(Elems(s))|
    ensures multiset(Elems(s)) == multiset(old(Elems(s)))
    ensures StrictWeakOrderOn(cmp, multiset(old(Elems(s)))) ==> Ordered(Elems(s), cmp)
  {
    if StrictWeakOrderOn(cmp, multiset(Elems(s))) {
      StrictWeakOrderIsAsymmetric(cmp, multiset(Elems(s)));
    }
    InsertionSort(SliceFn(s, cmp));
  }

  /** Sorting a slice that is already in order by a strict total order on
      its values leaves it unchanged. */
  method SortOrdered<T>(s: array?<T>, cmp: (T, T) -> bool)
    requires StrictTotalOrderOn(cmp, multiset(Elems(s)))
    requires Ordered(Elems(s), cmp)
    modifies s
    ensures Elems(s) == old(Elems(s))
  {
    ghost var before := Elems(s);
    Sort(s, cmp);
    OrderedPermutationUnique(Elems(s), before, cmp);
  }

  // ---------------------------------------------------------------------
  // The package's own cases

  function IntLess(a: int, b: int): bool { a < b }
  function IntGreater(a: int, b: int): bool { a > b }

  /** `<` on integers is a strict total order on any values. */
  lemma IntLessIsTotal(m: multiset<int>)
    ensures StrictTotalOrderOn(IntLess, m)
  {
  }

  /** `>` on integers is a strict total order on any values. */
  lemma IntGreaterIsTotal(m: multiset<int>)
    ensures StrictTotalOrderOn(IntGreater, m)
  {
  }

  /** Any ordering of [4, 3, 5] that is in order by `<` is [3, 4, 5]. */
  lemma AscendingCase(r: seq<int>)
    requires multiset(r) == multiset([4, 3, 5])
    requires Ordered(r, IntLess)
    ensures r == [3, 4, 5]
  {
    IntLessIsTotal(multiset(r));
    assert multiset([4, 3, 5]) == multiset([3, 4, 5]);
    OrderedPermutationUnique(r, [3, 4, 5], IntLess);
  }

  /** Any ordering of [4, 3, 5] that is in order by `>` is [5, 4, 3]. */
  lemma DescendingCase(r: seq<int>)
    requires multiset(r) == multiset([4, 3, 5])
    requires Ordered(r, IntGreater)
    ensures r == [5, 4, 3]
  {
    IntGreaterIsTotal(multiset(r));
    assert multiset([4, 3, 5]) == multiset([5, 4, 3]);
    OrderedPermutationUnique(r, [5, 4, 3], IntGreater);
  }

  /** [4, 3, 5] sorted in place with `<` becomes [3, 4, 5]. */
  method SortAscendingExample() returns (s: array<int>)
    ensures s[..] == [3, 4, 5]
  {
    s := new int[3];
    s[0], s[1], s[2] := 4, 3, 5;
    assert Elems(s) == [4, 3, 5];
    Sort(s, IntLess);
    assert Ordered(Elems(s), IntLess) by { IntLessIsTotal(multiset([4, 3, 5])); }
    AscendingCase(Elems(s));
  }

  /** [4, 3, 5] sorted in place with `>` becomes [5, 4, 3]. */
  method SortDescendingExample() returns (s: array<int>)
    ensures s[..] == [5, 4, 3]
  {
    s := new int[3];
    s[0], s[1], s[2] := 4, 3, 5;
    assert Elems(s) == [4, 3, 5];
    Sort(s, IntGreater);
    assert Ordered(Elems(s), IntGreater) by { IntGreaterIsTotal(multiset([4, 3, 5])); }
    DescendingCase(Elems(s));
  }
}
