/**
  The comparison, search and copy routines of the generic slice package.

  A Go slice `[]T` is modelled as an `array?<T>`: `null` is the nil slice,
  which every routine reads as a slice of length zero, while `Clone` keeps
  nil and empty apart.  Predicates and comparators supplied by the caller
  are total, side-effect-free Dafny functions.
 */
module Slices {

  /** The elements of slice `s` in index order; the nil slice has none. */
  function Elems<T>(s: array?<T>): (r: seq<T>)
    reads s
    ensures s == null ==> r == []
    ensures s != null ==> |r| == s.Length && forall k :: 0 <= k < s.Length ==> r[k] == s[k]
  {
    if s == null then [] else s[..]
  }

  // ---------------------------------------------------------------------
  // Equality

  /** Reference definition of EqualFunc: equal lengths, and `eq` holds
      pair by pair, read from the front. */
  function AllPairs<T1, T2>(a: seq<T1>, b: seq<T2>, eq: (T1, T2) -> bool): bool
  {
    if |a| != |b| then false
    else if a == [] then true
    else eq(a[0], b[0]) && AllPairs(a[1..], b[1..], eq)
  }

  /** AllPairs holds exactly when the lengths agree and every pair at the
      same index satisfies `eq`. */
  lemma {:induction false} AllPairsIff<T1, T2>(a: seq<T1>, b: seq<T2>, eq: (T1, T2) -> bool)
    ensures AllPairs(a, b, eq) <==> |a| == |b| && forall k :: 0 <= k < |a| ==> eq(a[k], b[k])
  {
    if |a| == |b| && a != [] {
      AllPairsIff(a[1..], b[1..], eq);
      if forall k :: 0 <= k < |a| ==> eq(a[k], b[k]) {
        assert forall k :: 0 <= k < |a| - 1 ==> eq(a[1..][k], b[1..][k]) by {
          forall k | 0 <= k < |a| - 1 ensures eq(a[1..][k], b[1..][k]) {
            assert a[1..][k] == a[k + 1] && b[1..][k] == b[k + 1];
          }
        }
      }
      if AllPairs(a, b, eq) {
        forall k | 0 <= k < |a| ensures eq(a[k], b[k]) {
          if k > 0 {
            assert a[k] == a[1..][k - 1] && b[k] == b[1..][k - 1];
          }
        }
      }
    }
  }

  /** `EqualFunc(s1, s2, eq)`: false when the lengths differ, otherwise
      `eq` is applied to the pairs in index order and the scan stops at
      the first pair it rejects.  The ghost result `calls` is the number
      of times `eq` was applied. */
  method EqualFunc<T1, T2>(s1: array?<T1>, s2: array?<T2>, eq: (T1, T2) -> bool)
    returns (r: bool, ghost calls: nat)
    ensures r == AllPairs(Elems(s1), Elems(s2), eq)
    ensures |Elems(s1)| != |Elems(s2)| ==> calls == 0
    ensures r ==> calls == |Elems(s1)|
    ensures !r && |Elems(s1)| == |Elems(s2)| ==>
              0 < calls <= |Elems(s1)|
              && !eq(Elems(s1)[calls - 1], Elems(s2)[calls - 1])
              && forall k :: 0 <= k < calls - 1 ==> eq(Elems(s1)[k], Elems(s2)[k])
  {
    AllPairsIff(Elems(s1), Elems(s2), eq);
    var n1 := if s1 == null then 0 else s1.Length;
    var n2 := if s2 == null then 0 else s2.Length;
    if n1 != n2 {
      return false, 0;
    }
    calls := 0;
    var i := 0;
    while i < n1
      invariant 0 <= i <= n1
      invariant calls == i
      invariant forall k :: 0 <= k < i ==> eq(Elems(s1)[k], Elems(s2)[k])
    {
      calls := calls + 1;
      if !eq(s1[i], s2[i]) {
        return false, calls;
      }
      i := i + 1;
    }
    return true, calls;
  }

  /** Intrinsic equality, the comparator `Equal` hands to `EqualFunc`. */
  function Identical<T(==)>(a: T, b: T): bool
  {
    a == b
  }

  /** `Equal(s1, s2)`: the two slices have the same length and the same
      elements in the same order (nil and empty are equal). */
  method Equal<T(==)>(s1: array?<T>, s2: array?<T>) returns (r: bool)
    ensures r <==> Elems(s1) == Elems(s2)
  {
    ghost var calls;
    r, calls := EqualFunc(s1, s2, Identical);
    AllPairsIff(Elems(s1), Elems(s2), Identical);
  }

  // ---------------------------------------------------------------------
  // Search

  /** Reference definition of IndexFunc: the position of the first element
      of `s` satisfying `f`, or -1 when there is none. */
  function FirstIndex<T>(s: seq<T>, f: T -> bool): int
  {
    if s == [] then -1
    else if f(s[0]) then 0
    else
      var r := FirstIndex(s[1..], f);
      if r == -1 then -1 else r + 1
  }

  /** FirstIndex lies in [-1, |s|); it is -1 exactly when no element
      satisfies `f`; otherwise it picks a satisfying element with no
      satisfying element before it. */
  lemma {:induction false} FirstIndexSpec<T>(s: seq<T>, f: T -> bool)
    ensures -1 <= FirstIndex(s, f) < |s|
    ensures FirstIndex(s, f) == -1 <==> forall k :: 0 <= k < |s| ==> !f(s[k])
    ensures 0 <= FirstIndex(s, f) ==>
              f(s[FirstIndex(s, f)]) && forall j :: 0 <= j < FirstIndex(s, f) ==> !f(s[j])
  {
    if s != [] && !f(s[0]) {
      FirstIndexSpec(s[1..], f);
      forall k | 0 < k < |s| ensures s[k] == s[1..][k - 1] { }
    }
  }

  /** `IndexFunc(s, f)`: scans `s` from the left and returns the first
      index whose element satisfies `f`, or -1. */
  method IndexFunc<T>(s: array?<T>, f: T -> bool) returns (i: int)
    ensures i == FirstIndex(Elems(s), f)
  {
    FirstIndexSpec(Elems(s), f);
    var n := if s == null then 0 else s.Length;
    i := 0;
    while i < n
      invariant 0 <= i <= n
      invariant forall k :: 0 <= k < i ==> !f(Elems(s)[k])
    {
      if f(s[i]) {
        return i;
      }
      i := i + 1;
    }
    return -1;
  }

  /** The predicate `Index` hands to `IndexFunc`: "is equal to v". */
  function EqualTo<T(==)>(v: T): T -> bool
  {
    x => v == x
  }

  /** `Index(s, v)`: the smallest index holding `v`, or -1 when `v` does
      not occur in `s`. */
  method Index<T(==)>(s: array?<T>, v: T) returns (i: int)
    ensures -1 <= i < |Elems(s)|
    ensures i == -1 <==> v !in Elems(s)
    ensures 0 <= i ==> Elems(s)[i] == v && v !in Elems(s)[..i]
  {
    i := IndexFunc(s, EqualTo(v));
    FirstIndexSpec(Elems(s), EqualTo(v));
  }

  /** `Contains(s, v)`: `v` occurs in `s`, decided as `Index(s, v) != -1`. */
  method Contains<T(==)>(s: array?<T>, v: T) returns (r: bool)
    ensures r <==> v in Elems(s)
    ensures r <==> exists k :: 0 <= k < |Elems(s)| && Elems(s)[k] == v
  {
    var i := Index(s, v);
    r := i != -1;
  }

  // ---------------------------------------------------------------------
  // Copy

  /** `Clone(s)`: nil for nil; otherwise a newly allocated slice of the same
      length holding the same elements in order.  Being fresh, it shares no
      storage with `s`. */
  method Clone<T(0)>(s: array?<T>) returns (c: array?<T>)
    ensures c == null <==> s == null
    ensures c != null ==> fresh(c) && Elems(c) == Elems(s)
  {
    if s == null {
      return null;
    }
    var cloned := new T[s.Length];
    for i := 0 to s.Length
      invariant cloned[..i] == s[..i]
    {
      cloned[i] := s[i];
    }
    return cloned;
  }

  /** A caller that clones `s` and overwrites one element of the clone:
      the clone changes, the original does not. */
  method CloneThenWrite<T(0)>(s: array<T>, k: int, x: T) returns (c: array?<T>)
    requires 0 <= k < s.Length
    ensures unchanged(s)
    ensures c != null && fresh(c) && Elems(c) == Elems(s)[k := x]
  {
    c := Clone(s);
    c[k] := x;
  }
}
