/**
 * The example lists written by preprocessing. An example is a (time step,
 * cell) pair flattened to `t * space_low_res_dim + s`. `idx_test` and
 * `idx_train_ae` pair every example cell with every test or training step;
 * `idx_train_cl` keeps the pairs where some node of the cell has an
 * observation at that step, and `idx_train_reg` those where some node also
 * has a regression target of at least the threshold.
 */
module Indices {
  import opened Common
  import opened IndexCodec
  import opened Targets

  // ---------------------------------------------------------------------
  // idx_test and idx_train_ae
  // ---------------------------------------------------------------------

  /** `[t * space + s for t in times]`: one cell at every given step. */
  function CellExamples(s: int, times: seq<int>, space: nat): (r: seq<int>)
    ensures |r| == |times| && forall k :: 0 <= k < |times| ==> r[k] == Encode(times[k], s, space)
  {
    seq(|times|, k requires 0 <= k < |times| => Encode(times[k], s, space))
  }

  /** The comprehension over cells 0 .. d-1, cell-major. */
  function ExamplesUpTo(d: nat, valid: seq<int>, times: seq<int>, space: nat): seq<int> {
    if d == 0 then []
    else ExamplesUpTo(d - 1, valid, times, space) + (if d - 1 in valid then CellExamples(d - 1, times, space) else [])
  }

  /** `[t * space + s for s in range(space) for t in times if s in valid]`. */
  function ExampleIndices(valid: seq<int>, times: seq<int>, space: nat): (r: seq<int>)
    ensures |r| == CellsBelow(space, valid) * |times|
  {
    ExamplesUpToLength(space, valid, times, space);
    ExamplesUpTo(space, valid, times, space)
  }

  /** Number of listed cells below d. */
  function CellsBelow(d: nat, valid: seq<int>): nat {
    if d == 0 then 0 else CellsBelow(d - 1, valid) + (if d - 1 in valid then 1 else 0)
  }

  /** An example number splits into its step and cell. */
  function StepOf(k: int, space: nat): int requires space > 0 { DivMod(k, space).0 }
  function CellOf(k: int, space: nat): int requires space > 0 { DivMod(k, space).1 }

  /** k is the number of some listed cell below d at one of the steps. */
  predicate Listed(d: nat, valid: seq<int>, times: seq<int>, space: nat, k: int) {
    exists s, t :: 0 <= s < d && s in valid && t in times && k == Encode(t, s, space)
  }

  /** The comprehension lists |times| numbers per listed cell. */
  lemma {:induction false} ExamplesUpToLength(d: nat, valid: seq<int>, times: seq<int>, space: nat)
    ensures |ExamplesUpTo(d, valid, times, space)| == CellsBelow(d, valid) * |times|
  {
    if d > 0 {
      ExamplesUpToLength(d - 1, valid, times, space);
      if d - 1 in valid {
        MulStep(CellsBelow(d - 1, valid), |times|);
      }
    }
  }

  lemma MulStep(a: nat, b: nat)
    ensures (a + 1) * b == a * b + b
  {
  }

  /** The comprehension lists exactly the (step, listed cell) numbers. */
  lemma {:induction false} ExamplesUpToSpec(d: nat, valid: seq<int>, times: seq<int>, space: nat)
    ensures |ExamplesUpTo(d, valid, times, space)| == CellsBelow(d, valid) * |times|
    ensures forall k :: k in ExamplesUpTo(d, valid, times, space) <==> Listed(d, valid, times, space, k)
  {
    ExamplesUpToLength(d, valid, times, space);
    if d > 0 {
      ExamplesUpToSpec(d - 1, valid, times, space);
      var front := ExamplesUpTo(d - 1, valid, times, space);
      var s := d - 1;
      var block := if s in valid then CellExamples(s, times, space) else [];
      assert ExamplesUpTo(d, valid, times, space) == front + block;
      forall k | k in front + block ensures Listed(d, valid, times, space, k) {
        if k in front {
          var s', t :| 0 <= s' < d - 1 && s' in valid && t in times && k == Encode(t, s', space);
        } else {
          var j :| 0 <= j < |block| && block[j] == k;
          assert times[j] in times;
        }
      }
      forall k | Listed(d, valid, times, space, k) ensures k in front + block {
        var s', t :| 0 <= s' < d && s' in valid && t in times && k == Encode(t, s', space);
        if s' == s {
          var j :| 0 <= j < |times| && times[j] == t;
          assert block[j] == k;
        } else {
          assert Listed(d - 1, valid, times, space, k);
        }
      }
    }
  }

  /** `idx_test` / `idx_train_ae` list every (step, example cell) pair once
      per occurrence of the step: |valid| * |times| numbers when the example
      cells are distinct cells of the grid, each of which decodes back to an
      example cell and one of the given steps. */
  lemma {:induction false} ExampleIndicesSpec(valid: seq<int>, times: seq<int>, space: nat)
    requires space > 0
    requires StrictlyIncreasing(valid) && forall s :: s in valid ==> 0 <= s < space
    ensures |ExampleIndices(valid, times, space)| == |valid| * |times|
    ensures forall k :: k in ExampleIndices(valid, times, space) ==>
              CellOf(k, space) in valid && StepOf(k, space) in times
    ensures forall s, t :: s in valid && t in times ==> Encode(t, s, space) in ExampleIndices(valid, times, space)
    ensures forall i, j :: 0 <= i < j < |ExampleIndices(valid, times, space)| ==>
              CellOf(ExampleIndices(valid, times, space)[i], space) <= CellOf(ExampleIndices(valid, times, space)[j], space)
    ensures InBlockOrder(ExampleIndices(valid, times, space), valid, times, space)
  {
    ExampleIndicesMembers(valid, times, space);
    ExampleIndicesOrder(valid, times, space);
    ExampleIndicesPositions(valid, times, space);
  }

  lemma ExampleIndicesOrder(valid: seq<int>, times: seq<int>, space: nat)
    requires space > 0
    ensures forall i, j :: 0 <= i < j < |ExampleIndices(valid, times, space)| ==>
              CellOf(ExampleIndices(valid, times, space)[i], space) <= CellOf(ExampleIndices(valid, times, space)[j], space)
  {
    ExamplesUpToOrder(space, valid, times, space);
  }

  lemma {:induction false} ExampleIndicesMembers(valid: seq<int>, times: seq<int>, space: nat)
    requires space > 0
    requires StrictlyIncreasing(valid) && forall s :: s in valid ==> 0 <= s < space
    ensures |ExampleIndices(valid, times, space)| == |valid| * |times|
    ensures forall k :: k in ExampleIndices(valid, times, space) ==>
              CellOf(k, space) in valid && StepOf(k, space) in times
    ensures forall s, t :: s in valid && t in times ==> Encode(t, s, space) in ExampleIndices(valid, times, space)
  {
    ExamplesUpToSpec(space, valid, times, space);
    CellsBelowCount(space, valid);
    forall k | k in ExampleIndices(valid, times, space)
      ensures CellOf(k, space) in valid && StepOf(k, space) in times
    {
      var s, t :| 0 <= s < space && s in valid && t in times && k == Encode(t, s, space);
      DivModUnique(t, s, space);
    }
  }

  lemma ExampleIndicesPositions(valid: seq<int>, times: seq<int>, space: nat)
    requires forall s :: s in valid ==> 0 <= s < space
    ensures InBlockOrder(ExampleIndices(valid, times, space), valid, times, space)
  {
    forall s, k | s in valid && 0 <= s && 0 <= k < |times|
      ensures Slot(s, k, valid, times) < |ExampleIndices(valid, times, space)|
      ensures ExampleIndices(valid, times, space)[Slot(s, k, valid, times)] == Encode(times[k], s, space)
    {
      ExamplesUpToPosition(space, valid, times, space, s, k);
    }
  }

  /** The numbers of cells 0 .. c-1 of the grid. */
  predicate CellsUnder(r: seq<int>, space: nat, c: int)
    requires space > 0
  {
    forall i :: 0 <= i < |r| ==> 0 <= CellOf(r[i], space) < c
  }

  /** Cell-major order: the cell of an example never decreases along the list. */
  predicate CellMajor(r: seq<int>, space: nat)
    requires space > 0
  {
    forall i, j :: 0 <= i < j < |r| ==> CellOf(r[i], space) <= CellOf(r[j], space)
  }

  /** Appending the numbers of cell c to a cell-major list of cells below c
      keeps it cell-major. */
  lemma AppendCellBlock(a: seq<int>, b: seq<int>, space: nat, c: int)
    requires space > 0 && 0 <= c
    requires CellsUnder(a, space, c) && CellMajor(a, space)
    requires forall k :: 0 <= k < |b| ==> CellOf(b[k], space) == c
    ensures CellsUnder(a + b, space, c + 1) && CellMajor(a + b, space)
  {
    forall i | 0 <= i < |a + b| ensures 0 <= CellOf((a + b)[i], space) < c + 1 {
      if i < |a| { assert (a + b)[i] == a[i]; } else { assert (a + b)[i] == b[i - |a|]; }
    }
    forall i, j | 0 <= i < j < |a + b| ensures CellOf((a + b)[i], space) <= CellOf((a + b)[j], space) {
      if j < |a| {
        assert (a + b)[i] == a[i] && (a + b)[j] == a[j];
      } else if i < |a| {
        assert (a + b)[i] == a[i] && (a + b)[j] == b[j - |a|];
      } else {
        assert (a + b)[i] == b[i - |a|] && (a + b)[j] == b[j - |a|];
      }
    }
  }

  /** The comprehension over cells 0 .. d-1 is cell-major. */
  lemma {:induction false} ExamplesUpToOrder(d: nat, valid: seq<int>, times: seq<int>, space: nat)
    requires 0 < space && d <= space
    ensures CellsUnder(ExamplesUpTo(d, valid, times, space), space, d)
    ensures CellMajor(ExamplesUpTo(d, valid, times, space), space)
  {
    if d > 0 {
      ExamplesUpToOrder(d - 1, valid, times, space);
      var block := if d - 1 in valid then CellExamples(d - 1, times, space) else [];
      forall k | 0 <= k < |block| ensures CellOf(block[k], space) == d - 1 {
        DivModUnique(times[k], d - 1, space);
      }
      AppendCellBlock(ExamplesUpTo(d - 1, valid, times, space), block, space, d - 1);
    }
  }

  /** The position of (times[k], s) in the example list: the blocks of the
      listed cells below s come first, each |times| long. */
  function Slot(s: nat, k: int, valid: seq<int>, times: seq<int>): int {
    CellsBelow(s, valid) * |times| + k
  }

  /** Every (times[k], s) with s a listed cell sits at its slot. */
  predicate InBlockOrder(r: seq<int>, valid: seq<int>, times: seq<int>, space: nat)
  {
    forall s, k :: s in valid && 0 <= s && 0 <= k < |times| ==>
      && Slot(s, k, valid, times) < |r|
      && r[Slot(s, k, valid, times)] == Encode(times[k], s, space)
  }

  /** Cell s's block starts after the blocks of the listed cells below it:
      the number of (times[k], s) sits at CellsBelow(s) * |times| + k. */
  lemma {:induction false} ExamplesUpToPosition(d: nat, valid: seq<int>, times: seq<int>, space: nat, s: int, k: int)
    requires 0 <= s < d && s in valid && 0 <= k < |times|
    ensures CellsBelow(s, valid) * |times| + k < |ExamplesUpTo(d, valid, times, space)|
    ensures ExamplesUpTo(d, valid, times, space)[CellsBelow(s, valid) * |times| + k] == Encode(times[k], s, space)
  {
    var front := ExamplesUpTo(d - 1, valid, times, space);
    var block := if d - 1 in valid then CellExamples(d - 1, times, space) else [];
    assert ExamplesUpTo(d, valid, times, space) == front + block;
    if s < d - 1 {
      ExamplesUpToPosition(d - 1, valid, times, space, s, k);
    } else {
      ExamplesUpToLength(d - 1, valid, times, space);
    }
  }

  /** For distinct cells below `space`, counting the listed cells below
      `space` counts them all. */
  lemma {:induction false} CellsBelowCount(space: nat, valid: seq<int>)
    requires StrictlyIncreasing(valid) && forall s :: s in valid ==> 0 <= s < space
    ensures CellsBelow(space, valid) == |valid|
  {
    CellsBelowPrefix(space, valid);
    assert |valid| == |set s | s in valid|  by { DistinctCard(valid); }
    assert (set s | 0 <= s < space && s in valid) == (set s | s in valid);
  }

  /** CellsBelow(d) counts the listed cells below d. */
  lemma {:induction false} CellsBelowPrefix(d: nat, valid: seq<int>)
    ensures CellsBelow(d, valid) == |set s | 0 <= s < d && s in valid|
  {
    if d > 0 {
      CellsBelowPrefix(d - 1, valid);
      var below := set s | 0 <= s < d - 1 && s in valid;
      if d - 1 in valid {
        assert (set s | 0 <= s < d && s in valid) == below + {d - 1};
      } else {
        assert (set s | 0 <= s < d && s in valid) == below;
      }
    }
  }

  /** A strictly increasing list has as many elements as distinct values. */
  lemma {:induction false} DistinctCard(s: seq<int>)
    requires StrictlyIncreasing(s)
    ensures |set x | x in s| == |s|
  {
    if s != [] {
      var n := |s| - 1;
      DistinctCard(s[..n]);
      assert (set x | x in s) == (set x | x in s[..n]) + {s[n]};
      assert s[n] !in s[..n];
    }
  }

  // ---------------------------------------------------------------------
  // idx_train_cl and idx_train_reg
  // ---------------------------------------------------------------------

  /** A (node, step) boolean matrix. */
  type Flags = seq<seq<bool>>

  /** `~np.isnan(pr_sel_train_cl)`. */
  function MaskClTable(cl: Table): (m: Flags)
    ensures |m| == |cl| && forall n :: 0 <= n < |cl| ==> |m[n]| == |cl[n]|
    ensures forall n, t :: 0 <= n < |cl| && 0 <= t < |cl[n]| ==> m[n][t] == MaskCl(cl[n][t])
  {
    seq(|cl|, n requires 0 <= n < |cl| => seq(|cl[n]|, t requires 0 <= t < |cl[n]| => MaskCl(cl[n][t])))
  }

  /** `~np.isnan(pr_sel_train_reg) & (pr_sel_train_reg >= threshold)`. */
  function MaskRegTable(reg: Table): (m: Flags)
    ensures |m| == |reg| && forall n :: 0 <= n < |reg| ==> |m[n]| == |reg[n]|
    ensures forall n, t :: 0 <= n < |reg| && 0 <= t < |reg[n]| ==> m[n][t] == MaskReg(reg[n][t])
  {
    seq(|reg|, n requires 0 <= n < |reg| => seq(|reg[n]|, t requires 0 <= t < |reg[n]| => MaskReg(reg[n][t])))
  }

  /** Shapes the loop relies on: one row per node, `cols` steps per row. */
  predicate Shaped(m: Flags, nodes: nat, cols: nat) {
    |m| == nodes && forall n :: 0 <= n < |m| ==> |m[n]| == cols
  }

  /** `not (~m[np.in1d(cell_idx_array, s), t]).all()`: some node whose
      (signed) cell number is s has its flag set at step t. */
  predicate Hit(m: Flags, cellIdx: seq<int>, cols: nat, s: int, t: int)
    requires Shaped(m, |cellIdx|, cols) && ColOk(t, cols)
  {
    exists n :: 0 <= n < |cellIdx| && cellIdx[n] == s && m[n][Col(t, cols)]
  }

  /** The data the index loop reads. */
  datatype Inputs = Inputs(cellIdx: seq<int>, valid: seq<int>, train: seq<int>,
                           maskCl: Flags, maskReg: Flags, cols: nat, space: nat)

  predicate WellFormed(x: Inputs) {
    Shaped(x.maskCl, |x.cellIdx|, x.cols) && Shaped(x.maskReg, |x.cellIdx|, x.cols)
  }

  /** Every training step is a valid column. */
  predicate StepsOk(x: Inputs) { forall t :: t in x.train ==> ColOk(t, x.cols) }

  /** Steps of ts (in order) at which cell s is kept for classification. */
  function ClSteps(x: Inputs, s: int, ts: seq<int>): seq<int>
    requires WellFormed(x) && forall t :: t in ts ==> ColOk(t, x.cols)
  {
    if ts == [] then []
    else
      var t := ts[|ts| - 1];
      ClSteps(x, s, ts[..|ts| - 1]) + (if Hit(x.maskCl, x.cellIdx, x.cols, s, t) then [Encode(t, s, x.space)] else [])
  }

  /** Steps of ts at which cell s is kept for regression: the check sits
      inside the classification check. */
  function RegSteps(x: Inputs, s: int, ts: seq<int>): seq<int>
    requires WellFormed(x) && forall t :: t in ts ==> ColOk(t, x.cols)
  {
    if ts == [] then []
    else
      var t := ts[|ts| - 1];
      RegSteps(x, s, ts[..|ts| - 1]) +
        (if Hit(x.maskCl, x.cellIdx, x.cols, s, t) && Hit(x.maskReg, x.cellIdx, x.cols, s, t)
         then [Encode(t, s, x.space)] else [])
  }

  /** Both lists after cells 0 .. d-1. */
  function TrainUpTo(x: Inputs, d: nat): (seq<int>, seq<int>)
    requires WellFormed(x) && StepsOk(x)
  {
    if d == 0 then ([], [])
    else
      var (cl, reg) := TrainUpTo(x, d - 1);
      var s := d - 1;
      if s in x.valid then (cl + ClSteps(x, s, x.train), reg + RegSteps(x, s, x.train))
      else (cl, reg)
  }

  /** Some example cell is visited by the loop. */
  predicate AnyExampleCell(x: Inputs) { exists s :: 0 <= s < x.space && s in x.valid }

  /** `idx_train_cl` and `idx_train_reg`; IndexError when an example cell is
      reached and some training step is not a column of the target. */
  function TrainIndices(x: Inputs): (r: Result<(seq<int>, seq<int>)>)
    requires WellFormed(x)
    ensures r.Err? ==> r.error == IndexError && !StepsOk(x)
    ensures r.Ok? && !StepsOk(x) ==> r.value == ([], [])
  {
    if AnyExampleCell(x) && !StepsOk(x) then Err(IndexError)
    else if !StepsOk(x) then Ok(([], []))
    else Ok(TrainUpTo(x, x.space))
  }

  /** The inner loop over the training steps for one example cell s: the
      numbers it appends to each list, or None when it reaches a step that
      is not a column (the IndexError of the script). */
  method CellSteps(x: Inputs, s: int) returns (r: Option<(seq<int>, seq<int>)>)
    requires WellFormed(x)
    ensures r.Some? <==> StepsOk(x)
    ensures r.Some? ==> r.value == (ClSteps(x, s, x.train), RegSteps(x, s, x.train))
  {
    var cl: seq<int> := [];
    var reg: seq<int> := [];
    var i := 0;
    while i < |x.train|
      invariant 0 <= i <= |x.train|
      invariant forall t :: t in x.train[..i] ==> ColOk(t, x.cols)
      invariant cl == ClSteps(x, s, x.train[..i]) && reg == RegSteps(x, s, x.train[..i])
    {
      var t := x.train[i];
      if !ColOk(t, x.cols) {
        return None;
      }
      assert x.train[..i + 1][..i] == x.train[..i];
      if Hit(x.maskCl, x.cellIdx, x.cols, s, t) {
        var k := t * x.space + s;
        cl := cl + [k];
        if Hit(x.maskReg, x.cellIdx, x.cols, s, t) {
          reg := reg + [k];
        }
      }
      i := i + 1;
    }
    assert x.train[..i] == x.train;
    r := Some((cl, reg));
  }

  /** The index loop of the preprocessing script. */
  method BuildTrainIndices(x: Inputs) returns (r: Result<(seq<int>, seq<int>)>)
    requires WellFormed(x)
    ensures r == TrainIndices(x)
  {
    var idxTrainCl: seq<int> := [];
    var idxTrainReg: seq<int> := [];
    var s := 0;
    while s < x.space
      invariant 0 <= s <= x.space
      invariant (exists s' :: 0 <= s' < s && s' in x.valid) ==> StepsOk(x)
      invariant StepsOk(x) ==> (idxTrainCl, idxTrainReg) == TrainUpTo(x, s)
      invariant !StepsOk(x) ==> idxTrainCl == [] && idxTrainReg == []
    {
      if s in x.valid {
        var rows := CellSteps(x, s);
        if rows.None? {
          assert AnyExampleCell(x);
          return Err(IndexError);
        }
        idxTrainCl, idxTrainReg := idxTrainCl + rows.value.0, idxTrainReg + rows.value.1;
      }
      s := s + 1;
    }
    if !StepsOk(x) {
      assert !AnyExampleCell(x);
    }
    r := Ok((idxTrainCl, idxTrainReg));
  }

  /** The steps kept for one cell are exactly the given steps at which some
      node of the cell has its classification flag set. */
  lemma {:induction false} ClStepsSpec(x: Inputs, s: int, ts: seq<int>)
    requires WellFormed(x) && forall t :: t in ts ==> ColOk(t, x.cols)
    ensures forall k :: k in ClSteps(x, s, ts) <==>
              exists t :: t in ts && Hit(x.maskCl, x.cellIdx, x.cols, s, t) && k == Encode(t, s, x.space)
  {
    if ts != [] {
      var n := |ts| - 1;
      ClStepsSpec(x, s, ts[..n]);
      assert ts == ts[..n] + [ts[n]];
    }
  }

  /** The same for regression: both flags of some node of the cell (not
      necessarily the same node) are set. */
  lemma {:induction false} RegStepsSpec(x: Inputs, s: int, ts: seq<int>)
    requires WellFormed(x) && forall t :: t in ts ==> ColOk(t, x.cols)
    ensures forall k :: k in RegSteps(x, s, ts) <==>
              exists t :: t in ts && Hit(x.maskCl, x.cellIdx, x.cols, s, t) && Hit(x.maskReg, x.cellIdx, x.cols, s, t)
                          && k == Encode(t, s, x.space)
  {
    if ts != [] {
      var n := |ts| - 1;
      RegStepsSpec(x, s, ts[..n]);
      assert ts == ts[..n] + [ts[n]];
    }
  }

  /** Classification condition at a (step, cell) pair. */
  predicate ClKept(x: Inputs, s: int, t: int)
    requires WellFormed(x) && StepsOk(x)
  {
    0 <= s < x.space && s in x.valid && t in x.train && Hit(x.maskCl, x.cellIdx, x.cols, s, t)
  }

  /** Regression condition at a (step, cell) pair. */
  predicate RegKept(x: Inputs, s: int, t: int)
    requires WellFormed(x) && StepsOk(x)
  {
    ClKept(x, s, t) && Hit(x.maskReg, x.cellIdx, x.cols, s, t)
  }

  lemma {:induction false} TrainUpToSpec(x: Inputs, d: nat)
    requires WellFormed(x) && StepsOk(x) && d <= x.space
    ensures forall k :: k in TrainUpTo(x, d).0 <==> exists s, t :: s < d && ClKept(x, s, t) && k == Encode(t, s, x.space)
    ensures forall k :: k in TrainUpTo(x, d).1 <==> exists s, t :: s < d && RegKept(x, s, t) && k == Encode(t, s, x.space)
  {
    if d > 0 {
      var s := d - 1;
      TrainUpToSpec(x, s);
      ClStepsSpec(x, s, x.train);
      RegStepsSpec(x, s, x.train);
    }
  }

  /** The loop fails, with IndexError, exactly when there is an example
      cell and some training step is not a column of the target matrices. */
  lemma {:induction false} TrainIndicesErrors(x: Inputs)
    requires WellFormed(x)
    requires forall s :: s in x.valid ==> 0 <= s < x.space
    ensures TrainIndices(x).Err? <==> x.valid != [] && !StepsOk(x)
    ensures TrainIndices(x).Err? ==> TrainIndices(x).error == IndexError
  {
    if x.valid != [] {
      var s := x.valid[0];
      assert s in x.valid;
      assert 0 <= s < x.space;
      assert AnyExampleCell(x);
    }
  }

  /** `idx_train_cl` lists exactly the numbers of the (step, example cell)
      pairs at which some node of the cell has an observation, and
      `idx_train_reg` those at which some node also has a regression
      target of at least the threshold. */
  lemma {:induction false} TrainIndicesSpec(x: Inputs)
    requires WellFormed(x) && TrainIndices(x).Ok?
    ensures forall k :: k in TrainIndices(x).value.0 <==>
              StepsOk(x) && exists s, t :: ClKept(x, s, t) && k == Encode(t, s, x.space)
    ensures forall k :: k in TrainIndices(x).value.1 <==>
              StepsOk(x) && exists s, t :: RegKept(x, s, t) && k == Encode(t, s, x.space)
    ensures var cl := TrainIndices(x).value.0;
            forall i, j :: 0 <= i < j < |cl| ==> x.space > 0 && CellOf(cl[i], x.space) <= CellOf(cl[j], x.space)
    ensures var reg := TrainIndices(x).value.1;
            forall i, j :: 0 <= i < j < |reg| ==> x.space > 0 && CellOf(reg[i], x.space) <= CellOf(reg[j], x.space)
  {
    if StepsOk(x) {
      TrainUpToSpec(x, x.space);
      if x.space > 0 {
        TrainUpToOrder(x, x.space);
      }
    }
  }

  /** Every number a cell's step loop appends is a number of that cell. */
  lemma {:induction false} StepsOfCell(x: Inputs, s: int, ts: seq<int>)
    requires WellFormed(x) && (forall t :: t in ts ==> ColOk(t, x.cols)) && 0 <= s < x.space
    ensures forall i :: 0 <= i < |ClSteps(x, s, ts)| ==> CellOf(ClSteps(x, s, ts)[i], x.space) == s
    ensures forall i :: 0 <= i < |RegSteps(x, s, ts)| ==> CellOf(RegSteps(x, s, ts)[i], x.space) == s
  {
    if ts != [] {
      var n := |ts| - 1;
      assert forall t :: t in ts[..n] ==> t in ts;
      StepsOfCell(x, s, ts[..n]);
      DivModUnique(ts[n], s, x.space);
    }
  }

  /** After cells 0 .. d-1 both lists are cell-major: the loop over s is
      the outer one. */
  lemma {:induction false} TrainUpToOrder(x: Inputs, d: nat)
    requires WellFormed(x) && StepsOk(x) && 0 < x.space && d <= x.space
    ensures CellsUnder(TrainUpTo(x, d).0, x.space, d) && CellMajor(TrainUpTo(x, d).0, x.space)
    ensures CellsUnder(TrainUpTo(x, d).1, x.space, d) && CellMajor(TrainUpTo(x, d).1, x.space)
  {
    if d > 0 {
      var s := d - 1;
      TrainUpToOrder(x, s);
      var (cl, reg) := TrainUpTo(x, s);
      if s in x.valid {
        StepsOfCell(x, s, x.train);
        AppendCellBlock(cl, ClSteps(x, s, x.train), x.space, s);
        AppendCellBlock(reg, RegSteps(x, s, x.train), x.space, s);
      }
    }
  }

  /** Decoding a listed number gives back a pair that satisfies the
      condition it was listed under. */
  lemma {:induction false} TrainIndicesDecode(x: Inputs)
    requires WellFormed(x) && x.space > 0 && TrainIndices(x).Ok?
    ensures forall k :: k in TrainIndices(x).value.0 ==> ClKept(x, CellOf(k, x.space), StepOf(k, x.space))
    ensures forall k :: k in TrainIndices(x).value.1 ==> RegKept(x, CellOf(k, x.space), StepOf(k, x.space))
  {
    TrainIndicesSpec(x);
    var (cl, reg) := TrainIndices(x).value;
    forall k | k in cl
      ensures ClKept(x, CellOf(k, x.space), StepOf(k, x.space))
    {
      var s, t :| ClKept(x, s, t) && k == Encode(t, s, x.space);
      DivModUnique(t, s, x.space);
    }
    forall k | k in reg
      ensures RegKept(x, CellOf(k, x.space), StepOf(k, x.space))
    {
      var s, t :| RegKept(x, s, t) && k == Encode(t, s, x.space);
      DivModUnique(t, s, x.space);
    }
  }

  /** `idx_train_reg` is part of `idx_train_cl`, which is part of
      `idx_train_ae`. */
  lemma {:induction false} TrainIndicesNested(x: Inputs)
    requires WellFormed(x) && TrainIndices(x).Ok?
    ensures forall k :: k in TrainIndices(x).value.1 ==> k in TrainIndices(x).value.0
    ensures forall k :: k in TrainIndices(x).value.0 ==> k in ExampleIndices(x.valid, x.train, x.space)
  {
    if StepsOk(x) {
      TrainUpToSpec(x, x.space);
      ExamplesUpToSpec(x.space, x.valid, x.train, x.space);
    }
  }

  /** When a regression flag implies the classification flag of the same
      node and step, as it does for the masks of the target matrices, the
      classification test around the regression test changes nothing. */
  lemma {:induction false} RegOnlyNeedsRegFlag(x: Inputs, s: int, t: int)
    requires WellFormed(x) && StepsOk(x)
    requires forall n, c :: 0 <= n < |x.cellIdx| && 0 <= c < x.cols && x.maskReg[n][c] ==> x.maskCl[n][c]
    ensures RegKept(x, s, t) <==>
              0 <= s < x.space && s in x.valid && t in x.train && Hit(x.maskReg, x.cellIdx, x.cols, s, t)
  {
    if 0 <= s < x.space && s in x.valid && t in x.train && Hit(x.maskReg, x.cellIdx, x.cols, s, t) {
      var n :| 0 <= n < |x.cellIdx| && x.cellIdx[n] == s && x.maskReg[n][Col(t, x.cols)];
      assert x.maskCl[n][Col(t, x.cols)];
    }
  }

  /** The masks of the training targets satisfy that condition. */
  lemma {:induction false} TargetFlagsNested(pr: Table, nNodes: nat, train: seq<int>, test: seq<int>, log1p: real -> real)
    requires Rectangular(pr, nNodes) && train != [] && test != []
    ensures var tg := BuildTargets(pr, nNodes, train, test, log1p).value;
            var mCl, mReg := MaskClTable(tg.cl), MaskRegTable(tg.reg);
            |mCl| == |mReg| == nNodes &&
            forall n, c :: 0 <= n < nNodes && 0 <= c < |mReg[n]| ==> c < |mCl[n]| && (mReg[n][c] ==> mCl[n][c])
  {
    var tg := BuildTargets(pr, nNodes, train, test, log1p).value;
    TargetsShape(pr, nNodes, train, test, log1p);
    forall n, c | 0 <= n < nNodes && 0 <= c < |tg.reg[n]|
      ensures MaskReg(tg.reg[n][c]) ==> MaskCl(tg.cl[n][c])
    {
      var prT := Transpose(pr, nNodes);
      var prTrain := SliceColumns(prT, |pr|, 0, Max(train) + 1);
      RegImpliesCl(prTrain[n][c], log1p);
    }
  }
}
