# Generic slice utilities, modelled in Dafny

This project models the Go package `slice`, a small set of generic helpers
over slices: element-wise equality (`Equal`, `EqualFunc`), linear search
(`Index`, `IndexFunc`, `Contains`), copying (`Clone`) and in-place sorting
by a caller-supplied "less" function (`Sort`, via the adapter `sliceFn`).

- `slice.dfy`, module `Slices`, models `slice.go`. A Go slice `[]T` is an
  `array?<T>`, and `null` stands for the nil slice. `Elems(s)` reads a
  slice as a sequence, with nil read as empty, the way Go's `len` and
  `range` treat it. `Clone` keeps nil and empty apart.
  - `EqualFunc` and `IndexFunc` are methods with the source's index loops
    and early returns.
  - Each one is proved equal to a recursive reference function:
    `AllPairs` and `FirstIndex`.
  - Lemmas characterise those functions.
  - `EqualFunc` also returns a ghost count of how many times it applied
    `eq`. This count shows the short-circuit: zero calls when the lengths
    differ, and a stop right after the first rejected pair.
  - `Equal`, `Index` and `Contains` are the same compositions of calls as
    in the source.
  - `Clone` allocates a new array and fills it in a loop.
- `sort.dfy`, module `Sorting`, models `sort.go`. The adapter `sliceFn` is
  a Go value struct that holds the caller's slice header. It becomes the
  datatype `SliceFn`, which holds the caller's array:
  - `Len` and `Less` are functions that read the array.
  - `Swap` is a method that modifies it.
  - `Sort` wraps the slice exactly as the source does and hands it to a
    sorting routine. That routine reaches the slice only through `Len`,
    `Less` and `Swap`.
  - Go's `sort.Sort` is not part of this model. An insertion sort built
    from those three operations stands in for it.
  - `Sort`'s contract states only what any such routine guarantees: the
    result is a permutation, and it is ordered when `cmp` is a strict weak
    order. It says nothing about tie order.
  - The order properties are asked of `cmp` only on the values the slice
    holds, so any element type is allowed, pointers and nested slices
    included.

Predicates and comparators are total, side-effect-free Dafny functions.

## Model

| member | source | states |
|---|---|---|
| `Slices.AllPairsIff` | slice.go:19-30 | the reference relation of EqualFunc holds iff the lengths are equal and `eq(s1[k], s2[k])` holds at every index k (both directions) |
| `Slices.EqualFunc` | slice.go:19-30 | the result is the reference relation on the two slices' elements (nil read as empty); when the lengths differ it returns false after zero applications of `eq`; when it returns false on equal lengths, it stopped right after the first index where `eq` failed, with `eq` true at every earlier index; when it returns true, `eq` was applied once per index |
| `Slices.Equal` | slice.go:8-12 | true iff the two slices have the same elements in the same order, so different lengths or one mismatched element give false; nil and empty are equal |
| `Slices.FirstIndexSpec` | slice.go:39-48 | the reference search result lies in [-1, len(s)); it is -1 iff no element satisfies `f` (including for an empty slice); otherwise `f` holds at that index and fails at every earlier index |
| `Slices.IndexFunc` | slice.go:41-48 | the left-to-right scan with early return yields exactly the reference first-match index |
| `Slices.Index` | slice.go:32-37 | the result is in [-1, len(s)); it is -1 iff `v` does not occur in `s`; otherwise `s[i] == v` and `v` does not occur before i |
| `Slices.Contains` | slice.go:50-53 | true iff `v` occurs in `s` (some k has `s[k] == v`), decided as `Index(s, v) != -1` |
| `Slices.Clone` | slice.go:55-67 | nil gives nil; a non-nil slice gives a newly allocated slice, distinct from the input even when empty, with the same length and the same elements in order |
| `Slices.CloneThenWrite` | example_test.go:59-68 | after cloning and writing one element of the clone, the original is unchanged and the clone equals the original with that one element replaced |
| `Sorting.StrictWeakOrderIsAsymmetric` | sort.go:16-19 | a comparator that is a strict weak order on some values never relates two of them both ways |
| `Sorting.NotLessTransitive` | sort.go:16-19 | on the values of a strict weak order, "not less than" is transitive |
| `Sorting.OrderedAllPairs` | sort.go:16-19 | when `cmp` is a strict weak order on a slice's values, a slice with no element less than its predecessor has no later element less than any earlier one |
| `Sorting.HeadIsLeast` | sort.go:16-19 | when `cmp` is a strict weak order on a slice's values, no element of the ordered slice is less than its first element |
| `Sorting.OrderedPermutationUnique` | sort.go:16-19 | when `cmp` is a strict total order on their values, two ordered sequences with the same multiset are equal, so the outcome of Sort is determined by its contract |
| `Sorting.SliceFn.Len` | sort.go:12 | the adapter's length is the number of elements of the slice, 0 for nil |
| `Sorting.SliceFn.Less` | sort.go:14 | `Less(i, j)` is `cmp` applied to elements i and j; being a function, it changes nothing |
| `Sorting.SliceFn.Swap` | sort.go:13 | elements i and j of the shared array are exchanged; every other element is as before, so the multiset is kept |
| `Sorting.InsertAt` | sort.go:13-14 | one insertion round made only of `Less` and `Swap` keeps the multiset, leaves every element after position i as it was and, when `cmp` is asymmetric on the slice's values, extends the ordered prefix by one element |
| `Sorting.InsertionSort` | sort.go:12-14 | a sort that reaches the slice only through `Len`, `Less` and `Swap` leaves a permutation of the input, ordered whenever `cmp` is asymmetric on the slice's values |
| `Sorting.Sort` | sort.go:16-20 | in place on the caller's array, for any element type: length and multiset kept for any `cmp`; when `cmp` is a strict weak order on the slice's values, no k has `cmp(s[k+1], s[k])`; tie order unspecified |
| `Sorting.SortOrdered` | sort.go:16-20 | sorting a slice already in order by a comparator that is a strict total order on its values leaves it unchanged |
| `Sorting.IntLessIsTotal` | slice_test.go:207-212 | `<` on integers is a strict total order |
| `Sorting.IntGreaterIsTotal` | slice_test.go:213-218 | `>` on integers is a strict total order |
| `Sorting.AscendingCase` | slice_test.go:207-212 | the only ordering of [4, 3, 5] that is in order by `<` is [3, 4, 5] |
| `Sorting.DescendingCase` | slice_test.go:213-218 | the only ordering of [4, 3, 5] that is in order by `>` is [5, 4, 3] |
| `Sorting.SortAscendingExample` | slice_test.go:200-226 | sorting the array [4, 3, 5] in place with `<` leaves it holding [3, 4, 5] |
| `Sorting.SortDescendingExample` | slice_test.go:200-226 | sorting the array [4, 3, 5] in place with `>` leaves it holding [5, 4, 3] |

## Left out

- Go's `sort.Sort` algorithm is not part of this model. `InsertionSort` stands in for it and uses the same `Len`/`Less`/`Swap` interface. Only the guarantees that hold for any such routine are stated. Stability and the order of equal elements are not specified.
- `Sort`: sortedness is promised only when `cmp` is a strict weak order, as the package requires of its callers. For other comparators only the permutation is promised. The idempotence of `Sort` is proved only for strict total orders (`SortOrdered`), because with ties an unstable sort may reorder equal elements.
- Go slices are views with an offset and a capacity into a backing array. The model uses whole arrays, so subslicing and capacity are not modelled.
- Floating-point NaN, which `Equal` never considers equal to itself, is not modelled. Elements compare with Dafny's `==`, which is reflexive.
- Predicates and comparators are pure total functions. Panics or side effects inside `eq`, `f` or `cmp` are not modelled.
- `Insert` and `Delete` are not implemented in `slice.go` or `sort.go`, the two files this model covers.
- The tests' `fmt` output and harness plumbing are not modelled. Their expected values are used as concrete cases (the `Sort` cases above).
