/**
 * `LayeredGraph::compute_median` of src/sugiyama.rs: sort the list, then
 * take its middle element (odd length) or the mean of its two middle
 * elements (even length). The caller only ever uses `as usize` of the
 * non-negative `f64` result, so the mean is modelled by its floor. The
 * source indexes an empty vector on an empty list, which panics; that
 * outcome is `None` here.
 */
module Median {
  import opened Wrappers

  ghost predicate Sorted(xs: seq<nat>) {
    forall i, j :: 0 <= i < j < |xs| ==> xs[i] <= xs[j]
  }

  lemma SortedCons(h: nat, t: seq<nat>)
    requires Sorted(t) && forall y :: y in t ==> h <= y
    ensures Sorted([h] + t)
  {
    forall i, j | 0 <= i < j < |[h] + t| ensures ([h] + t)[i] <= ([h] + t)[j] {
      assert ([h] + t)[j] == t[j - 1] && t[j - 1] in t;
      if i > 0 {
        assert ([h] + t)[i] == t[i - 1];
      }
    }
  }

  lemma SortedSlice(s: seq<nat>, i: nat, j: nat)
    requires Sorted(s) && i <= j <= |s|
    ensures Sorted(s[i..j])
  {
    forall a, b | 0 <= a < b < j - i ensures s[i..j][a] <= s[i..j][b] {
      assert s[i..j][a] == s[i + a] && s[i..j][b] == s[i + b];
    }
  }

  lemma SortedHead(xs: seq<nat>)
    requires Sorted(xs)
    ensures forall y :: y in xs ==> xs[0] <= y
  {
    forall y | y in xs ensures xs[0] <= y {
      var i :| 0 <= i < |xs| && xs[i] == y;
    }
  }

  function Insert(x: nat, xs: seq<nat>): (r: seq<nat>)
    requires Sorted(xs)
    ensures Sorted(r)
    ensures |r| == |xs| + 1
    ensures multiset(r) == multiset(xs) + multiset{x}
  {
    if xs == [] || x <= xs[0] then
      SortedHead(xs);
      SortedCons(x, xs);
      [x] + xs
    else
      assert xs == [xs[0]] + xs[1..];
      SortedSlice(xs, 1, |xs|);
      var rest := Insert(x, xs[1..]);
      InsertAbove(x, xs, rest);
      SortedCons(xs[0], rest);
      [xs[0]] + rest
  }

  lemma InsertAbove(x: nat, xs: seq<nat>, rest: seq<nat>)
    requires Sorted(xs) && xs != [] && xs[0] < x
    requires multiset(rest) == multiset(xs[1..]) + multiset{x}
    ensures forall y :: y in rest ==> xs[0] <= y
  {
    SortedHead(xs);
    forall y | y in rest ensures xs[0] <= y {
      assert y in multiset(rest);
      if y != x {
        assert y in multiset(xs[1..]);
        assert y in xs;
      }
    }
  }

  /** `numbers.sort()`: the same numbers in ascending order. */
  function Sort(xs: seq<nat>): (r: seq<nat>)
    ensures Sorted(r)
    ensures |r| == |xs|
    ensures multiset(r) == multiset(xs)
  {
    if xs == [] then []
    else
      assert xs == [xs[0]] + xs[1..];
      Insert(xs[0], Sort(xs[1..]))
  }

  /**
   * The median (its floor for an even length), or `None` where the source
   * panics on an empty list.
   */
  function ComputeMedian(numbers: seq<nat>): (r: Option<nat>)
    ensures r.None? <==> numbers == []
    ensures r.Some? ==> exists i :: 0 <= i < |numbers| && numbers[i] <= r.value
    ensures r.Some? ==> exists i :: 0 <= i < |numbers| && r.value <= numbers[i]
    ensures r.Some? && |numbers| % 2 == 1 ==> r.value in numbers
  {
    var sorted := Sort(numbers);
    var len := |sorted|;
    var middle := len / 2;
    if len == 0 then None
    else
      assert multiset(sorted) == multiset(numbers);
      assert sorted[middle] in multiset(numbers);
      if len % 2 == 0 then
        assert sorted[middle - 1] in multiset(numbers);
        Some((sorted[middle] + sorted[middle - 1]) / 2)
      else
        Some(sorted[middle])
  }

  /** Strictly below or strictly above a value. */
  datatype Side = Below | Above

  predicate On(side: Side, x: nat, m: nat) {
    match side
    case Below => x < m
    case Above => x > m
  }

  /** How many of `xs` lie strictly on `side` of `m`. */
  function Count(xs: seq<nat>, side: Side, m: nat): (c: nat)
    ensures c <= |xs|
  {
    if xs == [] then 0 else (if On(side, xs[0], m) then 1 else 0) + Count(xs[1..], side, m)
  }

  lemma {:induction false} CountAppend(a: seq<nat>, b: seq<nat>, side: Side, m: nat)
    ensures Count(a + b, side, m) == Count(a, side, m) + Count(b, side, m)
  {
    if a != [] {
      assert (a + b)[1..] == a[1..] + b;
      CountAppend(a[1..], b, side, m);
    } else {
      assert a + b == b;
    }
  }

  /** Taking element `k` out of a list takes it out of the count. */
  lemma CountRemove(ys: seq<nat>, k: nat, side: Side, m: nat)
    requires k < |ys|
    ensures Count(ys, side, m) == Count(ys[..k] + ys[k + 1..], side, m) + (if On(side, ys[k], m) then 1 else 0)
  {
    var a, b := ys[..k], ys[k + 1..];
    assert ys == a + ([ys[k]] + b);
    assert ([ys[k]] + b)[1..] == b;
    CountAppend(a, [ys[k]] + b, side, m);
    CountAppend(a, b, side, m);
  }

  /** A count depends only on the numbers, not on their order. */
  lemma {:induction false} CountPermutation(xs: seq<nat>, ys: seq<nat>, side: Side, m: nat)
    requires multiset(xs) == multiset(ys)
    ensures Count(xs, side, m) == Count(ys, side, m)
  {
    if xs == [] {
      assert |ys| == |multiset(ys)| == 0;
    } else {
      var x := xs[0];
      assert xs == [x] + xs[1..];
      assert x in multiset(ys);
      var k :| 0 <= k < |ys| && ys[k] == x;
      var ys' := ys[..k] + ys[k + 1..];
      assert ys == ys[..k] + [x] + ys[k + 1..];
      assert multiset(ys) == multiset(ys[..k]) + multiset{x} + multiset(ys[k + 1..]);
      assert multiset(xs) == multiset{x} + multiset(xs[1..]);
      calc {
        multiset(ys');
        multiset(ys[..k]) + multiset(ys[k + 1..]);
        multiset(ys) - multiset{x};
        multiset(xs) - multiset{x};
        multiset(xs[1..]);
      }
      CountPermutation(xs[1..], ys', side, m);
      CountRemove(ys, k, side, m);
    }
  }

  /** In a sorted list, no element from index `k` on is below `m` once `xs[k]` is not. */
  lemma {:induction false} NoneBelow(xs: seq<nat>, m: nat)
    requires Sorted(xs) && (xs == [] || m <= xs[0])
    ensures Count(xs, Below, m) == 0
  {
    if xs != [] {
      SortedSlice(xs, 1, |xs|);
      if |xs| > 1 {
        assert xs[0] <= xs[1];
      }
      NoneBelow(xs[1..], m);
    }
  }

  /** In a sorted list whose last element is at most `m`, none is above `m`. */
  lemma {:induction false} NoneAbove(xs: seq<nat>, m: nat)
    requires Sorted(xs) && (xs == [] || xs[|xs| - 1] <= m)
    ensures Count(xs, Above, m) == 0
  {
    if xs != [] {
      SortedSlice(xs, 1, |xs|);
      if |xs| > 1 {
        assert xs[1..][|xs| - 2] == xs[|xs| - 1];
      }
      NoneAbove(xs[1..], m);
    }
  }

  /** In a sorted list, at most `k` elements lie below a value that `s[k]` is not below. */
  lemma SortedBelow(s: seq<nat>, k: nat, m: nat)
    requires Sorted(s) && k < |s| && m <= s[k]
    ensures Count(s, Below, m) <= k
  {
    assert s == s[..k] + s[k..];
    CountAppend(s[..k], s[k..], Below, m);
    SortedSlice(s, k, |s|);
    NoneBelow(s[k..], m);
  }

  /** In a sorted list, at most `|s| - k - 1` elements lie above a value that `s[k]` is not above. */
  lemma SortedAbove(s: seq<nat>, k: nat, m: nat)
    requires Sorted(s) && k < |s| && s[k] <= m
    ensures Count(s, Above, m) <= |s| - k - 1
  {
    assert s == s[..k + 1] + s[k + 1..];
    CountAppend(s[..k + 1], s[k + 1..], Above, m);
    SortedSlice(s, 0, k + 1);
    NoneAbove(s[..k + 1], m);
  }

  /** The middle element, or the floor of the mean of the two middle elements, splits a sorted list in halves. */
  lemma SortedSplits(s: seq<nat>, m: nat)
    requires Sorted(s) && s != []
    requires m == if |s| % 2 == 0 then (s[|s| / 2] + s[|s| / 2 - 1]) / 2 else s[|s| / 2]
    ensures Count(s, Below, m) <= |s| / 2 && Count(s, Above, m) <= |s| / 2
  {
    var mid := |s| / 2;
    if |s| % 2 == 1 {
      SortedBelow(s, mid, m);
      SortedAbove(s, mid, m);
    } else {
      assert s[mid - 1] <= s[mid];
      SortedBelow(s, mid, m);
      SortedAbove(s, mid - 1, m);
    }
  }

  /**
   * The median splits the list in halves: at most half of the numbers lie
   * strictly below it and at most half strictly above it.
   */
  lemma MedianSplits(numbers: seq<nat>)
    requires numbers != []
    ensures var m := ComputeMedian(numbers).value;
      && Count(numbers, Below, m) <= |numbers| / 2
      && Count(numbers, Above, m) <= |numbers| / 2
  {
    var s := Sort(numbers);
    var m := ComputeMedian(numbers).value;
    SortedSplits(s, m);
    CountPermutation(numbers, s, Below, m);
    CountPermutation(numbers, s, Above, m);
  }

  /** Two sorted lists holding the same numbers are the same list: sorting has one answer. */
  lemma {:induction false} SortedUnique(a: seq<nat>, b: seq<nat>)
    requires Sorted(a) && Sorted(b) && multiset(a) == multiset(b)
    ensures a == b
    decreases |a|
  {
    assert |a| == |multiset(a)| == |multiset(b)| == |b|;
    if a != [] {
      SameHead(a, b);
      SameTail(a, b);
      SortedSlice(a, 1, |a|);
      SortedSlice(b, 1, |b|);
      SortedUnique(a[1..], b[1..]);
      assert a == [a[0]] + a[1..] && b == [b[0]] + b[1..];
    }
  }

  /** Both lists start with the smallest of their common numbers. */
  lemma SameHead(a: seq<nat>, b: seq<nat>)
    requires Sorted(a) && Sorted(b) && multiset(a) == multiset(b) && a != [] && b != []
    ensures a[0] == b[0]
  {
    assert a[0] in multiset(b) && b[0] in multiset(a);
    SortedHead(a);
    SortedHead(b);
  }

  /** Taking one equal head off two permutations leaves permutations. */
  lemma SameTail(a: seq<nat>, b: seq<nat>)
    requires multiset(a) == multiset(b) && a != [] && b != [] && a[0] == b[0]
    ensures multiset(a[1..]) == multiset(b[1..])
  {
    assert a == [a[0]] + a[1..] && b == [b[0]] + b[1..];
    assert multiset(a) == multiset{a[0]} + multiset(a[1..]);
    assert multiset(b) == multiset{b[0]} + multiset(b[1..]);
    assert multiset(a[1..]) == multiset(a) - multiset{a[0]};
    assert multiset(b[1..]) == multiset(b) - multiset{b[0]};
  }

  /**
   * The median read off any sorted arrangement `s` of the numbers: its
   * middle element for an odd length, and the floor of the mean of its two
   * middle elements for an even length.
   */
  lemma MedianOfSorted(numbers: seq<nat>, s: seq<nat>)
    requires Sorted(s) && multiset(s) == multiset(numbers) && s != []
    ensures ComputeMedian(numbers) == Some(if |s| % 2 == 0 then (s[|s| / 2 - 1] + s[|s| / 2]) / 2 else s[|s| / 2])
  {
    SortedUnique(Sort(numbers), s);
  }
}
