/** `Array.prototype.sort(compareFn)`. The language standard requires the
    sort to be stable (ECMA-262, 2023 edition, section 23.1.3.30). `Sort` is
    a stable sort by insertion: for a consistent comparator its result is a
    permutation of the input, ordered by the comparator, with every group
    of ties in input order. `SortInPlace` is the in-place algorithm on an
    array, proved to produce `Sort`'s result. */
module Sorting {
  import opened Seqs

  /** The comparator's sign flips when its arguments are swapped. */
  ghost predicate FlipsAt<T>(cmp: (T, T) -> real, a: T, b: T) {
    cmp(a, b) > 0.0 <==> cmp(b, a) < 0.0
  }

  /** "Not after" is transitive through `b`. */
  ghost predicate ChainsAt<T>(cmp: (T, T) -> real, a: T, b: T, c: T) {
    cmp(a, b) <= 0.0 && cmp(b, c) <= 0.0 ==> cmp(a, c) <= 0.0
  }

  /** A comparator the standard calls consistent. Its two laws are stated
      through FlipsAt and ChainsAt, which proofs instantiate explicitly. */
  ghost predicate Consistent<T(!new)>(cmp: (T, T) -> real) {
    && (forall a, b :: FlipsAt(cmp, a, b))
    && (forall a, b, c :: ChainsAt(cmp, a, b, c))
  }

  /** No element is placed after one that the comparator puts before it. */
  ghost predicate Sorted<T>(cmp: (T, T) -> real, s: seq<T>) {
    forall i, j :: 0 <= i < j < |s| ==> cmp(s[i], s[j]) <= 0.0
  }

  /** The test "compares equal to `z`". */
  function TiedWith<T>(cmp: (T, T) -> real, z: T): T -> bool {
    y => cmp(z, y) == 0.0
  }

  /** The elements of `s` that compare equal to `z`, in their order in `s`. */
  function Ties<T(==,!new)>(cmp: (T, T) -> real, s: seq<T>, z: T): seq<T> {
    Filter(s, TiedWith(cmp, z))
  }

  /** Inserts `x` into `t` after every element that does not compare greater than it. */
  function Insert<T(!new)>(cmp: (T, T) -> real, t: seq<T>, x: T): (r: seq<T>)
    ensures |r| == |t| + 1
    decreases |t|
  {
    if t == [] then [x]
    else if cmp(t[|t| - 1], x) > 0.0 then Insert(cmp, t[..|t| - 1], x) + [t[|t| - 1]]
    else t + [x]
  }

  /** The stably sorted arrangement of `s`. */
  function Sort<T(!new)>(cmp: (T, T) -> real, s: seq<T>): (r: seq<T>)
    ensures |r| == |s|
    decreases |s|
  {
    if s == [] then [] else Insert(cmp, Sort(cmp, s[..|s| - 1]), s[|s| - 1])
  }

  lemma {:induction false} InsertPermutes<T(!new)>(cmp: (T, T) -> real, t: seq<T>, x: T)
    ensures multiset(Insert(cmp, t, x)) == multiset(t) + multiset{x}
    decreases |t|
  {
    if t != [] {
      assert t == t[..|t| - 1] + [t[|t| - 1]];
      if cmp(t[|t| - 1], x) > 0.0 {
        InsertPermutes(cmp, t[..|t| - 1], x);
      }
    }
  }

  /** `Sort` rearranges its input: the result is a permutation of `s`. */
  lemma {:induction false} SortPermutes<T(!new)>(cmp: (T, T) -> real, s: seq<T>)
    ensures multiset(Sort(cmp, s)) == multiset(s)
    decreases |s|
  {
    if s != [] {
      assert s == s[..|s| - 1] + [s[|s| - 1]];
      SortPermutes(cmp, s[..|s| - 1]);
      InsertPermutes(cmp, Sort(cmp, s[..|s| - 1]), s[|s| - 1]);
    }
  }

  lemma {:induction false} InsertSorted<T(!new)>(cmp: (T, T) -> real, t: seq<T>, x: T)
    requires Consistent(cmp) && Sorted(cmp, t)
    ensures Sorted(cmp, Insert(cmp, t, x))
    decreases |t|
  {
    if t != [] {
      var init, last := t[..|t| - 1], t[|t| - 1];
      if cmp(last, x) > 0.0 {
        InsertSorted(cmp, init, x);
        InsertPermutes(cmp, init, x);
        var u := Insert(cmp, init, x);
        forall i | 0 <= i < |u| ensures cmp(u[i], last) <= 0.0 {
          assert u[i] in multiset(u);
          if u[i] == x {
            assert FlipsAt(cmp, last, x);
          } else {
            assert u[i] in multiset(init);
            var k :| 0 <= k < |init| && init[k] == u[i];
            assert t[k] == u[i];
            assert cmp(t[k], t[|t| - 1]) <= 0.0;
          }
        }
      } else {
        forall i | 0 <= i < |t| ensures cmp(t[i], x) <= 0.0 {
          if i < |t| - 1 {
            assert cmp(t[i], last) <= 0.0;
            assert ChainsAt(cmp, t[i], last, x);
          }
        }
      }
    }
  }

  /** `Sort` orders its result. */
  lemma {:induction false} SortSorted<T(!new)>(cmp: (T, T) -> real, s: seq<T>)
    requires Consistent(cmp)
    ensures Sorted(cmp, Sort(cmp, s))
    decreases |s|
  {
    if s != [] {
      SortSorted(cmp, s[..|s| - 1]);
      InsertSorted(cmp, Sort(cmp, s[..|s| - 1]), s[|s| - 1]);
    }
  }

  /** Inserting `x` keeps each group of ties in the order of `t + [x]`. */
  lemma {:induction false} InsertTies<T(!new)>(cmp: (T, T) -> real, t: seq<T>, x: T, z: T)
    requires Consistent(cmp)
    ensures Ties(cmp, Insert(cmp, t, x), z) == Ties(cmp, t + [x], z)
    decreases |t|
  {
    if t != [] {
      var init, last := t[..|t| - 1], t[|t| - 1];
      assert t == init + [last];
      if cmp(last, x) > 0.0 {
        var p := TiedWith(cmp, z);
        // x and last are not tied, so at most one of them is tied with z
        assert !(p(x) && p(last)) by {
          assert FlipsAt(cmp, last, z);
          assert ChainsAt(cmp, last, z, x);
        }
        calc {
          Ties(cmp, Insert(cmp, t, x), z);
          Filter(Insert(cmp, init, x) + [last], p);
          { FilterAppend(Insert(cmp, init, x), [last], p); }
          Filter(Insert(cmp, init, x), p) + Filter([last], p);
          { InsertTies(cmp, init, x, z); }
          Filter(init + [x], p) + Filter([last], p);
          { FilterAppend(init, [x], p); }
          Filter(init, p) + Filter([x], p) + Filter([last], p);
          { FilterSwap(x, last, p); }
          Filter(init, p) + Filter([last], p) + Filter([x], p);
          { FilterAppend(init, [last], p); }
          Filter(t, p) + Filter([x], p);
          { FilterAppend(t, [x], p); }
          Ties(cmp, t + [x], z);
        }
      }
    }
  }

  lemma FilterSwap<T(!new)>(x: T, y: T, p: T -> bool)
    requires !(p(x) && p(y))
    ensures Filter([x], p) + Filter([y], p) == Filter([y], p) + Filter([x], p)
  {
    assert [x][1..] == [] && [y][1..] == [];
  }

  /** `Sort` is stable: each group of ties keeps its order in `s`. */
  lemma {:induction false} SortStable<T(!new)>(cmp: (T, T) -> real, s: seq<T>, z: T)
    requires Consistent(cmp)
    ensures Ties(cmp, Sort(cmp, s), z) == Ties(cmp, s, z)
    decreases |s|
  {
    if s != [] {
      var init, last := s[..|s| - 1], s[|s| - 1];
      assert s == init + [last];
      SortStable(cmp, init, z);
      InsertTies(cmp, Sort(cmp, init), last, z);
      FilterAppend(Sort(cmp, init), [last], TiedWith(cmp, z));
      FilterAppend(init, [last], TiedWith(cmp, z));
    }
  }

  /** `x` is inserted right after the last element of `t` that does not
      compare greater than it: position `j`, when every element from `j`
      on compares greater. */
  lemma {:induction false} InsertAt<T(!new)>(cmp: (T, T) -> real, t: seq<T>, x: T, j: nat)
    requires j <= |t|
    requires j == 0 || cmp(t[j - 1], x) <= 0.0
    requires forall k :: j <= k < |t| ==> cmp(t[k], x) > 0.0
    ensures Insert(cmp, t, x) == t[..j] + [x] + t[j..]
    decreases |t|
  {
    if j == |t| {
      assert t[..j] == t && t[j..] == [];
    } else {
      var init, last := t[..|t| - 1], t[|t| - 1];
      assert cmp(last, x) > 0.0;
      assert Insert(cmp, t, x) == Insert(cmp, init, x) + [last];
      assert forall k :: 0 <= k < |init| ==> init[k] == t[k];
      InsertAt(cmp, init, x, j);
      assert init[..j] == t[..j];
      assert init[j..] + [last] == t[j..];
      assert Insert(cmp, t, x) == init[..j] + [x] + (init[j..] + [last]);
    }
  }

  /** A sequence that holds `t[..j]`, then `x`, then the rest of `t`. */
  lemma PlacedAt<T>(u: seq<T>, t: seq<T>, x: T, j: nat)
    requires j <= |t| && |u| == |t| + 1
    requires forall k :: 0 <= k < j ==> u[k] == t[k]
    requires u[j] == x
    requires forall k :: j < k < |u| ==> u[k] == t[k - 1]
    ensures u == t[..j] + [x] + t[j..]
  {
  }

  /** Moves `a[i]` left past every element of `a[..i]` that compares greater than it. */
  method InsertInPlace<T(!new)>(a: array<T>, cmp: (T, T) -> real, i: nat)
    requires i < a.Length
    modifies a
    ensures a[..i + 1] == Insert(cmp, old(a[..i]), old(a[i]))
    ensures a[i + 1..] == old(a[i + 1..])
  {
    var x := a[i];
    ghost var t := a[..i];
    var j := i;
    while j > 0 && cmp(a[j - 1], x) > 0.0
      invariant 0 <= j <= i
      invariant forall k :: 0 <= k < j ==> a[k] == t[k]
      invariant forall k :: j < k <= i ==> a[k] == t[k - 1]
      invariant forall k :: i < k < a.Length ==> a[k] == old(a[k])
      invariant forall k :: j <= k < i ==> cmp(t[k], x) > 0.0
    {
      a[j] := a[j - 1];
      j := j - 1;
    }
    a[j] := x;
    InsertAt(cmp, t, x, j);
    PlacedAt(a[..i + 1], t, x, j);
  }

  /** Stable insertion sort of an array, in place. */
  method SortInPlace<T(!new)>(a: array<T>, cmp: (T, T) -> real)
    modifies a
    ensures a[..] == Sort(cmp, old(a[..]))
  {
    ghost var s := a[..];
    var i := 0;
    while i < a.Length
      invariant 0 <= i <= a.Length
      invariant a[..i] == Sort(cmp, s[..i])
      invariant a[i..] == s[i..]
    {
      InsertInPlace(a, cmp, i);
      assert s[..i + 1] == s[..i] + [s[i]];
      i := i + 1;
    }
    assert a[..] == a[..a.Length] && s == s[..a.Length];
  }
}
