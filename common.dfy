/**
 * Shared vocabulary of the model: missing values (NaN), the errors the
 * Python code can raise, Python's slicing and indexing rules, numpy's
 * boolean-mask indexing, and the two kinds of sorting the pipeline uses
 * (`list.sort()` and `sorted(set(...))`).
 */
module Common {

  /** `None` stands for a NaN entry of a float array. */
  datatype Option<+T> = None | Some(value: T)

  /** The exceptions the modelled code can raise. */
  datatype Error =
    | IndexError      // list or tensor index out of range
    | ValueError      // `list.remove` of an absent value, `max()` of an empty array
    | ShapeError      // a tensor copy whose shapes do not broadcast
    | ZeroDivisionError  // `//` or `%` by zero
    | AttributeError  // reading an attribute that was never set

  datatype Result<+T> = Ok(value: T) | Err(error: Error)

  function Abs(x: int): nat { if x < 0 then -x else x }

  predicate StrictlyIncreasing(s: seq<int>) {
    forall i, j :: 0 <= i < j < |s| ==> s[i] < s[j]
  }

  predicate NonDecreasing(s: seq<int>) {
    forall i, j :: 0 <= i < j < |s| ==> s[i] <= s[j]
  }

  predicate NoDuplicates(s: seq<int>) {
    forall i, j :: 0 <= i < j < |s| ==> s[i] != s[j]
  }

  // ---------------------------------------------------------------------
  // Python slicing and indexing
  // ---------------------------------------------------------------------

  /** A slice bound as Python normalises it for a sequence of length n:
      a negative bound counts from the end, then the bound is clamped. */
  function SliceBound(i: int, n: nat): (b: nat)
    ensures b <= n
    ensures 0 <= i <= n ==> b == i
    ensures i < 0 <= i + n ==> b == i + n
    ensures i + n < 0 ==> b == 0
    ensures n < i ==> b == n
  {
    if i < 0 then (if i + n < 0 then 0 else i + n) else if i > n then n else i
  }

  /** `s[start:stop]`. */
  function PySlice<T>(s: seq<T>, start: int, stop: int): seq<T> {
    var a, b := SliceBound(start, |s|), SliceBound(stop, |s|);
    if a <= b then s[a..b] else []
  }

  /** Number of elements of `x[start:stop]` for an axis of length n. */
  function SliceLength(start: int, stop: int, n: nat): (len: nat)
    ensures len <= n
  {
    var a, b := SliceBound(start, n), SliceBound(stop, n);
    if a <= b then b - a else 0
  }

  /** `s[i]`, where a negative index counts from the end and anything
      else out of range raises IndexError. */
  function PyIndex<T>(s: seq<T>, i: int): (r: Option<T>)
    ensures r.Some? <==> -|s| <= i < |s|
    ensures 0 <= i < |s| ==> r == Some(s[i])
    ensures -|s| <= i < 0 ==> r == Some(s[i + |s|])
  {
    if 0 <= i < |s| then Some(s[i])
    else if -|s| <= i < 0 then Some(s[i + |s|])
    else None
  }

  /** An integer index i is accepted on an axis of length n (numpy and
      torch raise IndexError otherwise). */
  predicate ColOk(i: int, n: nat) { -(n as int) <= i < n }

  /** The position an accepted index denotes: negative counts from the end. */
  function Col(i: int, n: nat): (c: nat)
    requires ColOk(i, n)
    ensures c < n
    ensures 0 <= i ==> c == i
  {
    if i < 0 then i + n else i
  }

  /** `s[:k]` and `s[k:]` with the same k split s into two halves, whatever
      the sign or size of k (the train/test split of one year relies on it). */
  lemma {:induction false} SliceSplit<T>(s: seq<T>, k: int)
    ensures PySlice(s, 0, k) + PySlice(s, k, |s|) == s
  {
    var b := SliceBound(k, |s|);
    assert PySlice(s, 0, k) == s[..b];
    assert PySlice(s, k, |s|) == s[b..];
  }

  // ---------------------------------------------------------------------
  // numpy boolean-mask indexing: xs[mask]
  // ---------------------------------------------------------------------

  /** Number of true entries of a mask. */
  function Count(mask: seq<bool>): (c: nat)
    ensures c <= |mask|
  {
    if mask == [] then 0
    else Count(mask[..|mask| - 1]) + (if mask[|mask| - 1] then 1 else 0)
  }

  /** The positions a mask keeps, in increasing order: `np.flatnonzero(mask)`. */
  function KeptIndices(mask: seq<bool>): (r: seq<nat>)
    ensures |r| == Count(mask)
    ensures forall k :: 0 <= k < |r| ==> r[k] < |mask| && mask[r[k]]
    ensures forall k, l :: 0 <= k < l < |r| ==> r[k] < r[l]
    ensures forall i :: 0 <= i < |mask| && mask[i] ==> i in r
  {
    if mask == [] then []
    else
      var n := |mask| - 1;
      var front := KeptIndices(mask[..n]);
      assert forall i :: 0 <= i < n && mask[..n][i] ==> i in front;
      front + (if mask[n] then [n] else [])
  }

  /** `xs[mask]`: the entries a mask keeps, in their original order. Every
      array filtered with the same mask is related to its source through the
      same `KeptIndices(mask)`, which is how "one shared mask" is stated. */
  function Select<T>(xs: seq<T>, mask: seq<bool>): (r: seq<T>)
    requires |xs| == |mask|
    ensures |r| == |KeptIndices(mask)|
    ensures forall k :: 0 <= k < |r| ==> r[k] == xs[KeptIndices(mask)[k]]
  {
    if mask == [] then []
    else
      var n := |mask| - 1;
      Select(xs[..n], mask[..n]) + (if mask[n] then [xs[n]] else [])
  }

  /** Element-wise `np.logical_and`. */
  function And(a: seq<bool>, b: seq<bool>): (r: seq<bool>)
    requires |a| == |b|
    ensures |r| == |a| && forall i :: 0 <= i < |r| ==> (r[i] <==> a[i] && b[i])
  {
    seq(|a|, i requires 0 <= i < |a| => a[i] && b[i])
  }

  /** Selecting with a, then with the part of b that a keeps, is the same as
      selecting once with a AND b: `x[a][b[a]] == x[a & b]`. */
  lemma {:induction false} SelectTwice<T>(xs: seq<T>, a: seq<bool>, b: seq<bool>)
    requires |xs| == |a| == |b|
    ensures Select(Select(xs, a), Select(b, a)) == Select(xs, And(a, b))
  {
    if a != [] {
      var n := |a| - 1;
      assert And(a, b)[..n] == And(a[..n], b[..n]);
      SelectTwice(xs[..n], a[..n], b[..n]);
      if a[n] {
        var left := Select(xs, a);
        var mb := Select(b, a);
        assert left == Select(xs[..n], a[..n]) + [xs[n]];
        assert mb == Select(b[..n], a[..n]) + [b[n]];
        assert left[..|left| - 1] == Select(xs[..n], a[..n]);
        assert mb[..|mb| - 1] == Select(b[..n], a[..n]);
      } else {
        assert Select(xs, a) == Select(xs[..n], a[..n]);
        assert Select(b, a) == Select(b[..n], a[..n]);
      }
    }
  }

  // ---------------------------------------------------------------------
  // list.sort()
  // ---------------------------------------------------------------------

  lemma SortedAppend(s: seq<int>, x: int)
    requires NonDecreasing(s)
    requires forall y :: y in s ==> y <= x
    ensures NonDecreasing(s + [x])
  {
    forall i, j | 0 <= i < j < |s| + 1 ensures (s + [x])[i] <= (s + [x])[j] {
      if j == |s| { assert s[i] in s; }
    }
  }

  lemma SortedPrepend(x: int, s: seq<int>)
    requires NonDecreasing(s)
    requires forall y :: y in s ==> x <= y
    ensures NonDecreasing([x] + s)
  {
    forall i, j | 0 <= i < j < |s| + 1 ensures ([x] + s)[i] <= ([x] + s)[j] {
      if i == 0 { assert s[j - 1] in s; }
    }
  }

  lemma StrictAppend(s: seq<int>, x: int)
    requires StrictlyIncreasing(s)
    requires forall y :: y in s ==> y < x
    ensures StrictlyIncreasing(s + [x])
  {
    forall i, j | 0 <= i < j < |s| + 1 ensures (s + [x])[i] < (s + [x])[j] {
      if j == |s| { assert s[i] in s; }
    }
  }

  lemma StrictPrepend(x: int, s: seq<int>)
    requires StrictlyIncreasing(s)
    requires forall y :: y in s ==> x < y
    ensures StrictlyIncreasing([x] + s)
  {
    forall i, j | 0 <= i < j < |s| + 1 ensures ([x] + s)[i] < ([x] + s)[j] {
      if i == 0 { assert s[j - 1] in s; }
    }
  }

  /** Inserts x into a sorted list after the entries that are <= x. */
  function Insert(s: seq<int>, x: int): (r: seq<int>)
    requires NonDecreasing(s)
    ensures NonDecreasing(r)
    ensures multiset(r) == multiset(s) + multiset{x}
    ensures forall y :: y in r <==> y in s || y == x
  {
    if s == [] then [x]
    else if s[|s| - 1] <= x then
      assert forall y :: y in s ==> y <= x by {
        forall y | y in s ensures y <= x {
          var i :| 0 <= i < |s| && s[i] == y;
        }
      }
      SortedAppend(s, x);
      s + [x]
    else
      var n := |s| - 1;
      assert s == s[..n] + [s[n]];
      var front := Insert(s[..n], x);
      assert forall y :: y in s[..n] ==> y <= s[n];
      SortedAppend(front, s[n]);
      front + [s[n]]
  }

  /** `list.sort()` on integers: an insertion sort. */
  function Sort(s: seq<int>): (r: seq<int>)
    ensures NonDecreasing(r)
    ensures multiset(r) == multiset(s)
    ensures |r| == |s|
  {
    if s == [] then []
    else
      var n := |s| - 1;
      assert s == s[..n] + [s[n]];
      var r := Insert(Sort(s[..n]), s[n]);
      assert |r| == |multiset(r)|;
      r
  }

  /** Sorting keeps exactly the values of the list. */
  lemma SortMembers(s: seq<int>)
    ensures forall x :: x in Sort(s) <==> x in s
  {
    forall x ensures x in Sort(s) <==> x in s {
      assert multiset(Sort(s))[x] == multiset(s)[x];
    }
  }

  /** A value no smaller than the last entry is inserted at the end. */
  lemma InsertAtEnd(s: seq<int>, x: int)
    requires NonDecreasing(s) && (s != [] ==> s[|s| - 1] <= x)
    ensures Insert(s, x) == s + [x]
  {
  }

  /** Sorting a list that is already sorted leaves it as it is. */
  lemma {:induction false} SortSorted(s: seq<int>)
    requires NonDecreasing(s)
    ensures Sort(s) == s
  {
    if s != [] {
      var n := |s| - 1;
      var front := s[..n];
      assert s == front + [s[n]];
      assert NonDecreasing(front) by {
        forall i, j | 0 <= i < j < |front| ensures front[i] <= front[j] {
          assert front[i] == s[i] && front[j] == s[j];
        }
      }
      SortSorted(front);
      assert front != [] ==> front[|front| - 1] <= s[n] by {
        if front != [] { assert front[n - 1] == s[n - 1]; }
      }
      InsertAtEnd(front, s[n]);
    }
  }

  /** `list.remove(x)`: deletes the first occurrence; ValueError when absent. */
  function RemoveFirst(s: seq<int>, x: int): (r: Option<seq<int>>)
    ensures r.Some? <==> x in s
    ensures r.Some? ==> multiset(r.value) == multiset(s) - multiset{x}
    ensures r.Some? ==> |r.value| == |s| - 1
  {
    if s == [] then None
    else if s[0] == x then
      assert s == [s[0]] + s[1..];
      Some(s[1..])
    else
      match RemoveFirst(s[1..], x)
      case None => None
      case Some(t) =>
        assert s == [s[0]] + s[1..];
        Some([s[0]] + t)
  }

  /** Removing an element keeps a sorted list sorted. */
  lemma {:induction false} RemoveFirstSorted(s: seq<int>, x: int)
    requires NonDecreasing(s) && x in s
    ensures NonDecreasing(RemoveFirst(s, x).value)
  {
    if s[0] != x {
      var t := RemoveFirst(s[1..], x).value;
      assert NonDecreasing(s[1..]);
      RemoveFirstSorted(s[1..], x);
      forall y | y in t ensures y in s[1..] {
        assert y in multiset(t);
        assert multiset(t)[y] <= multiset(s[1..])[y];
      }
      assert forall y :: y in s[1..] ==> s[0] <= y;
      SortedPrepend(s[0], t);
    } else {
      assert NonDecreasing(s[1..]);
    }
  }

  /** Removing an element keeps a strictly increasing list strictly increasing. */
  lemma {:induction false} RemoveFirstStrict(s: seq<int>, x: int)
    requires StrictlyIncreasing(s) && x in s
    ensures StrictlyIncreasing(RemoveFirst(s, x).value)
    ensures forall y :: y in RemoveFirst(s, x).value <==> y in s && y != x
  {
    if s[0] != x {
      var t := RemoveFirst(s[1..], x).value;
      assert StrictlyIncreasing(s[1..]);
      RemoveFirstStrict(s[1..], x);
      assert s == [s[0]] + s[1..];
      assert forall y :: y in s[1..] ==> s[0] < y;
      StrictPrepend(s[0], t);
    } else {
      assert StrictlyIncreasing(s[1..]);
      assert forall y :: y in s[1..] ==> x < y;
      assert s == [s[0]] + s[1..];
    }
  }

  /** Two strictly increasing lists, every entry of the first below every
      entry of the second, concatenate to a strictly increasing list. */
  lemma StrictConcat(a: seq<int>, b: seq<int>)
    requires StrictlyIncreasing(a) && StrictlyIncreasing(b)
    requires forall x, y :: x in a && y in b ==> x < y
    ensures StrictlyIncreasing(a + b)
  {
    forall i, j | 0 <= i < j < |a + b| ensures (a + b)[i] < (a + b)[j] {
      if i < |a| && |a| <= j {
        assert a[i] in a && b[j - |a|] in b;
      }
    }
  }

  // ---------------------------------------------------------------------
  // sorted(set(...))
  // ---------------------------------------------------------------------

  /** Adds x to a strictly increasing list unless it is already there. */
  function InsertUnique(s: seq<int>, x: int): (r: seq<int>)
    requires StrictlyIncreasing(s)
    ensures StrictlyIncreasing(r)
    ensures forall y :: y in r <==> y in s || y == x
  {
    if s == [] then [x]
    else if s[|s| - 1] < x then
      assert forall y :: y in s ==> y < x by {
        forall y | y in s ensures y < x {
          var i :| 0 <= i < |s| && s[i] == y;
        }
      }
      StrictAppend(s, x);
      s + [x]
    else if s[|s| - 1] == x then s
    else
      var n := |s| - 1;
      assert s == s[..n] + [s[n]];
      var front := InsertUnique(s[..n], x);
      assert forall y :: y in s[..n] ==> y < s[n];
      StrictAppend(front, s[n]);
      front + [s[n]]
  }

  /** `l = list(set(l)); l.sort()`: the distinct values of l in increasing order. */
  function SortedSet(s: seq<int>): (r: seq<int>)
    ensures StrictlyIncreasing(r)
    ensures forall y :: y in r <==> y in s
  {
    if s == [] then []
    else
      var n := |s| - 1;
      assert s == s[..n] + [s[n]];
      InsertUnique(SortedSet(s[..n]), s[n])
  }
}
