/**
 * `subdivide_train_test_time_indexes`: splitting the hourly time indices,
 * grouped per year from 2001 on, into a training and a test list. The last
 * 31 days (744 hours) of the year before the first test year go to the test
 * list, the first 24 hours of the record are removed from the training list
 * (they have no full 25-step input window), and both lists are sorted.
 */
module TimeSplit {
  import opened Common

  /** The first year of `idx_time_years`. */
  const FirstYear: int := 2001
  /** `31 * 24`: hours moved from the year before the test years to the test list. */
  const LastMonthHours: int := 744
  /** Time steps removed from the start of the training list. */
  const WarmupSteps: nat := 24
  /** Default `first_test_year` and `end_year`. */
  const DefaultFirstTestYear: int := 2016
  const DefaultEndYear: int := 2016

  datatype Split = Split(train: seq<int>, test: seq<int>)

  /** The years one after the other (`for y in ys: l += y`). */
  function Flatten(ys: seq<seq<int>>): seq<int> {
    if ys == [] then [] else Flatten(ys[..|ys| - 1]) + ys[|ys| - 1]
  }

  /** `idx_time_years[y - 2001]` appended for y in lo .. hi-1, or None when
      one of those indexings raises IndexError. */
  function YearsFrom(years: seq<seq<int>>, lo: int, hi: int): Option<seq<int>>
    decreases hi - lo
  {
    if hi <= lo then Some([])
    else match YearsFrom(years, lo, hi - 1)
      case None => None
      case Some(front) =>
        match PyIndex(years, hi - 1 - FirstYear)
        case None => None
        case Some(y) => Some(front + y)
  }

  /** `for i in range(lo, hi): l.remove(i)`, None when some i is missing. */
  function RemoveRange(s: seq<int>, lo: int, hi: int): Option<seq<int>>
    decreases hi - lo
  {
    if hi <= lo then Some(s)
    else match RemoveFirst(s, lo)
      case None => None
      case Some(t) => RemoveRange(t, lo + 1, hi)
  }

  /** Index of the year before the first test year in `idx_time_years`. */
  function LastTrainYear(firstTestYear: int): int { firstTestYear - FirstYear - 1 }

  /** The unsorted training list before the warm-up steps are removed. */
  function RawTrain(years: seq<seq<int>>, firstTestYear: int, split: seq<int>): seq<int> {
    Flatten(PySlice(years, 0, LastTrainYear(firstTestYear))) + PySlice(split, 0, -LastMonthHours)
  }

  /** What the function returns: Err(IndexError) when a year index is out of
      range, Err(ValueError) when one of the first 24 steps is missing from
      the training list, and otherwise both sorted lists. */
  function Subdivide(years: seq<seq<int>>, firstTestYear: int, endYear: int): (r: Result<Split>)
    ensures r.Err? ==> r.error in {IndexError, ValueError}
    ensures r.Ok? ==> NonDecreasing(r.value.test)
  {
    match PyIndex(years, LastTrainYear(firstTestYear))
    case None => Err(IndexError)
    case Some(split) =>
      match YearsFrom(years, firstTestYear, endYear + 1)
      case None => Err(IndexError)
      case Some(tail) =>
        var test := PySlice(split, -LastMonthHours, |split|) + tail;
        match RemoveRange(Sort(RawTrain(years, firstTestYear, split)), 0, WarmupSteps)
        case None => Err(ValueError)
        case Some(train) => Ok(Split(train, Sort(test)))
  }

  /** The function as the loops write it: the years before the split
      year are appended one by one, the test years likewise, and the first
      24 steps are removed from the sorted training list one at a time. */
  method SubdivideTrainTestTimeIndexes(years: seq<seq<int>>, firstTestYear: int, endYear: int)
    returns (r: Result<Split>)
    ensures r == Subdivide(years, firstTestYear, endYear)
  {
    var idxFirstTestYear := firstTestYear - FirstYear;
    var train := AppendYears(PySlice(years, 0, idxFirstTestYear - 1));
    var split := PyIndex(years, idxFirstTestYear - 1);
    if split.None? {
      return Err(IndexError);
    }
    train := train + PySlice(split.value, 0, -LastMonthHours);
    var test := PySlice(split.value, -LastMonthHours, |split.value|);
    var tail := AppendTestYears(years, firstTestYear, endYear);
    if tail.None? {
      return Err(IndexError);
    }
    test := test + tail.value;
    assert train == RawTrain(years, firstTestYear, split.value);
    train := Sort(train);
    test := Sort(test);
    var kept := RemoveWarmup(train);
    if kept.None? {
      return Err(ValueError);
    }
    r := Ok(Split(kept.value, test));
  }

  /** `for y in years: train += y`. */
  method AppendYears(before: seq<seq<int>>) returns (train: seq<int>)
    ensures train == Flatten(before)
  {
    train := [];
    var k := 0;
    while k < |before|
      invariant 0 <= k <= |before|
      invariant train == Flatten(before[..k])
    {
      assert before[..k + 1][..k] == before[..k];
      train := train + before[k];
      k := k + 1;
    }
    assert before[..k] == before;
  }

  /** The years firstTestYear .. endYear, one after the other; None at the
      first year that cannot be indexed. */
  method AppendTestYears(years: seq<seq<int>>, firstTestYear: int, endYear: int) returns (tail: Option<seq<int>>)
    ensures tail == YearsFrom(years, firstTestYear, endYear + 1)
  {
    var y := firstTestYear;
    var acc: seq<int> := [];
    while y < endYear + 1
      invariant firstTestYear <= y || endYear + 1 <= firstTestYear
      invariant y <= endYear + 1 || y == firstTestYear
      invariant YearsFrom(years, firstTestYear, y) == Some(acc)
      decreases endYear + 1 - y
    {
      var year := PyIndex(years, y - FirstYear);
      if year.None? {
        YearsFromFails(years, firstTestYear, y + 1, endYear + 1);
        return None;
      }
      acc := acc + year.value;
      y := y + 1;
    }
    if endYear + 1 < firstTestYear {
      assert YearsFrom(years, firstTestYear, endYear + 1) == Some([]);
    }
    tail := Some(acc);
  }

  /** `for i in range(24): train.remove(i)`; None where `remove` raises. */
  method RemoveWarmup(sorted: seq<int>) returns (r: Option<seq<int>>)
    ensures r == RemoveRange(sorted, 0, WarmupSteps)
  {
    var train := sorted;
    var i := 0;
    while i < WarmupSteps
      invariant 0 <= i <= WarmupSteps
      invariant RemoveRange(sorted, 0, WarmupSteps) == RemoveRange(train, i, WarmupSteps)
    {
      var removed := RemoveFirst(train, i);
      if removed.None? {
        assert RemoveRange(train, i, WarmupSteps).None?;
        return None;
      }
      assert RemoveRange(train, i, WarmupSteps) == RemoveRange(removed.value, i + 1, WarmupSteps);
      train := removed.value;
      i := i + 1;
    }
    r := Some(train);
  }

  /** Once one year in lo .. hi-1 cannot be indexed, neither can the range. */
  lemma {:induction false} YearsFromFails(years: seq<seq<int>>, lo: int, bad: int, hi: int)
    requires lo < bad <= hi && YearsFrom(years, lo, bad) == None
    ensures YearsFrom(years, lo, hi) == None
    decreases hi - bad
  {
    if bad < hi {
      YearsFromFails(years, lo, bad, hi - 1);
    }
  }

  /** Removing one copy of x leaves every other value present or absent. */
  lemma {:induction false} RemoveFirstKeeps(s: seq<int>, x: int, y: int)
    requires x in s && y != x
    ensures y in RemoveFirst(s, x).value <==> y in s
  {
    assert multiset(RemoveFirst(s, x).value)[y] == multiset(s)[y];
  }

  /** Removing lo .. hi-1 one after the other succeeds exactly when every
      one of them is present. */
  lemma {:induction false} RemoveRangeSome(s: seq<int>, lo: int, hi: int)
    ensures RemoveRange(s, lo, hi).Some? <==> forall i :: lo <= i < hi ==> i in s
    decreases hi - lo
  {
    if lo < hi {
      if lo !in s {
        assert RemoveFirst(s, lo).None?;
        assert RemoveRange(s, lo, hi).None?;
      } else {
        var t := RemoveFirst(s, lo).value;
        assert RemoveRange(s, lo, hi) == RemoveRange(t, lo + 1, hi);
        RemoveRangeSome(t, lo + 1, hi);
        forall i | lo < i < hi ensures i in t <==> i in s {
          RemoveFirstKeeps(s, lo, i);
        }
      }
    }
  }

  /** A successful removal takes exactly one copy of each of lo .. hi-1 and
      keeps a sorted list sorted. */
  lemma {:induction false} RemoveRangeValue(s: seq<int>, lo: int, hi: int)
    requires RemoveRange(s, lo, hi).Some?
    ensures forall x :: multiset(RemoveRange(s, lo, hi).value)[x] + (if lo <= x < hi then 1 else 0) == multiset(s)[x]
    ensures NonDecreasing(s) ==> NonDecreasing(RemoveRange(s, lo, hi).value)
  {
    RemoveRangeCounts(s, lo, hi);
    if NonDecreasing(s) {
      RemoveRangeSorted(s, lo, hi);
    }
  }

  lemma {:induction false} RemoveRangeCounts(s: seq<int>, lo: int, hi: int)
    requires RemoveRange(s, lo, hi).Some?
    ensures forall x :: multiset(RemoveRange(s, lo, hi).value)[x] + (if lo <= x < hi then 1 else 0) == multiset(s)[x]
    decreases hi - lo
  {
    if lo < hi {
      var t := RemoveFirst(s, lo).value;
      assert RemoveRange(s, lo, hi) == RemoveRange(t, lo + 1, hi);
      RemoveRangeCounts(t, lo + 1, hi);
      assert multiset(t) == multiset(s) - multiset{lo};
      forall x ensures multiset(t)[x] + (if x == lo then 1 else 0) == multiset(s)[x] {
      }
    }
  }

  lemma {:induction false} RemoveRangeSorted(s: seq<int>, lo: int, hi: int)
    requires RemoveRange(s, lo, hi).Some? && NonDecreasing(s)
    ensures NonDecreasing(RemoveRange(s, lo, hi).value)
    decreases hi - lo
  {
    if lo < hi {
      var t := RemoveFirst(s, lo).value;
      assert RemoveRange(s, lo, hi) == RemoveRange(t, lo + 1, hi);
      RemoveFirstSorted(s, lo);
      RemoveRangeSorted(t, lo + 1, hi);
    }
  }

  /** The year before the first test year, and the test years after it. */
  function SplitYear(years: seq<seq<int>>, firstTestYear: int): seq<int>
    requires PyIndex(years, LastTrainYear(firstTestYear)).Some?
  {
    PyIndex(years, LastTrainYear(firstTestYear)).value
  }

  /** The unsorted test list. */
  function RawTest(years: seq<seq<int>>, firstTestYear: int, endYear: int): seq<int>
    requires PyIndex(years, LastTrainYear(firstTestYear)).Some?
    requires YearsFrom(years, firstTestYear, endYear + 1).Some?
  {
    var split := SplitYear(years, firstTestYear);
    PySlice(split, -LastMonthHours, |split|) + YearsFrom(years, firstTestYear, endYear + 1).value
  }

  /** A successful split: every year indexing succeeded, the test list is
      the sorted raw test list, and the training list is the sorted raw
      training list with the warm-up steps removed. */
  lemma {:induction false} SubdivideOk(years: seq<seq<int>>, firstTestYear: int, endYear: int)
    requires Subdivide(years, firstTestYear, endYear).Ok?
    ensures PyIndex(years, LastTrainYear(firstTestYear)).Some?
    ensures YearsFrom(years, firstTestYear, endYear + 1).Some?
    ensures var raw := RawTrain(years, firstTestYear, SplitYear(years, firstTestYear));
            && RemoveRange(Sort(raw), 0, WarmupSteps).Some?
            && Subdivide(years, firstTestYear, endYear).value ==
                 Split(RemoveRange(Sort(raw), 0, WarmupSteps).value, Sort(RawTest(years, firstTestYear, endYear)))
  {
  }

  /** Both lists come out sorted; the test list is a permutation of the last
      744 hours of the year before the first test year followed by every test
      year, and the training list holds the earlier years plus the rest of
      that year, less one copy of each of the first 24 steps. */
  lemma {:induction false} SubdivideSpec(years: seq<seq<int>>, firstTestYear: int, endYear: int)
    requires Subdivide(years, firstTestYear, endYear).Ok?
    ensures PyIndex(years, LastTrainYear(firstTestYear)).Some?
    ensures YearsFrom(years, firstTestYear, endYear + 1).Some?
    ensures var sp := Subdivide(years, firstTestYear, endYear).value;
            && NonDecreasing(sp.train) && NonDecreasing(sp.test)
            && multiset(sp.test) == multiset(RawTest(years, firstTestYear, endYear))
            && forall x :: multiset(sp.train)[x] + (if 0 <= x < WarmupSteps then 1 else 0) ==
                 multiset(RawTrain(years, firstTestYear, SplitYear(years, firstTestYear)))[x]
  {
    SubdivideOk(years, firstTestYear, endYear);
    var sorted := Sort(RawTrain(years, firstTestYear, SplitYear(years, firstTestYear)));
    RemoveRangeValue(sorted, 0, WarmupSteps);
  }

  /** The split fails only with IndexError (a year index out of range) or
      ValueError (a warm-up step missing). */
  lemma {:induction false} SubdivideErrors(years: seq<seq<int>>, firstTestYear: int, endYear: int)
    ensures Subdivide(years, firstTestYear, endYear).Err? ==>
              Subdivide(years, firstTestYear, endYear).error in {IndexError, ValueError}
    ensures Subdivide(years, firstTestYear, endYear) == Err(IndexError) <==>
              PyIndex(years, LastTrainYear(firstTestYear)).None? || YearsFrom(years, firstTestYear, endYear + 1).None?
  {
  }

  /** The warm-up steps can be removed from the sorted training list exactly
      when each of them is in the raw list. */
  lemma {:induction false} WarmupPresent(raw: seq<int>)
    ensures RemoveRange(Sort(raw), 0, WarmupSteps).Some? <==> forall i :: 0 <= i < WarmupSteps ==> i in raw
  {
    RemoveRangeSome(Sort(raw), 0, WarmupSteps);
    SortMembers(raw);
  }

  /** The split fails with ValueError exactly when the year indexings succeed
      but one of the first 24 time steps is not in the training years. */
  lemma {:induction false} SubdivideValueError(years: seq<seq<int>>, firstTestYear: int, endYear: int)
    requires PyIndex(years, LastTrainYear(firstTestYear)).Some?
    requires YearsFrom(years, firstTestYear, endYear + 1).Some?
    ensures var raw := RawTrain(years, firstTestYear, PyIndex(years, LastTrainYear(firstTestYear)).value);
      Subdivide(years, firstTestYear, endYear) == Err(ValueError) <==> exists i :: 0 <= i < WarmupSteps && i !in raw
  {
    var raw := RawTrain(years, firstTestYear, PyIndex(years, LastTrainYear(firstTestYear)).value);
    WarmupPresent(raw);
  }

  /** When the training years hold distinct non-negative time indices, every
      index left for training is at least 24: each step has a full 25-step
      input window behind it. */
  lemma {:induction false} TrainAfterWarmup(years: seq<seq<int>>, firstTestYear: int, endYear: int)
    requires Subdivide(years, firstTestYear, endYear).Ok?
    requires var raw := RawTrain(years, firstTestYear, PyIndex(years, LastTrainYear(firstTestYear)).value);
             NoDuplicates(raw) && forall t :: t in raw ==> 0 <= t
    ensures forall t :: t in Subdivide(years, firstTestYear, endYear).value.train ==> WarmupSteps <= t
  {
    SubdivideOk(years, firstTestYear, endYear);
    var raw := RawTrain(years, firstTestYear, SplitYear(years, firstTestYear));
    var train := Subdivide(years, firstTestYear, endYear).value.train;
    SubdivideSpec(years, firstTestYear, endYear);
    forall t | t in train ensures WarmupSteps <= t {
      assert multiset(train)[t] >= 1;
      assert multiset(train)[t] + (if 0 <= t < WarmupSteps then 1 else 0) == multiset(raw)[t];
      assert t in raw;
      if t < WarmupSteps {
        NoDuplicatesCount(raw, t);
      }
    }
  }

  /** In a list without repeats a value occurs at most once. */
  lemma {:induction false} NoDuplicatesCount(s: seq<int>, x: int)
    requires NoDuplicates(s)
    ensures multiset(s)[x] <= 1
  {
    if s != [] {
      var n := |s| - 1;
      assert s == s[..n] + [s[n]];
      NoDuplicatesCount(s[..n], x);
      if s[n] == x {
        assert x !in s[..n];
      }
    }
  }

  /** With the default years (test year 2016, sixteen years from 2001 on) the
      training list is drawn from 2001 to 2014 and 2015 without its last
      744 hours, and the test list from the last 744 hours of 2015 and all of
      2016. */
  lemma {:induction false} DefaultYears(years: seq<seq<int>>)
    requires |years| == 16
    ensures YearsFrom(years, DefaultFirstTestYear, DefaultEndYear + 1) == Some(years[15])
    ensures RawTrain(years, DefaultFirstTestYear, years[14]) == Flatten(years[..14]) + PySlice(years[14], 0, -LastMonthHours)
    ensures PyIndex(years, LastTrainYear(DefaultFirstTestYear)) == Some(years[14])
  {
    assert YearsFrom(years, DefaultFirstTestYear, DefaultEndYear) == Some([]);
    assert [] + years[15] == years[15];
    assert PySlice(years, 0, 14) == years[..14];
  }
}
