/**
 * The classification and regression targets: precipitation is transposed to
 * (node, time), cut to the training and test periods, and turned into a
 * 0/1 "it rained" target (NaN where there is no observation) and a
 * log1p(pr) target that is NaN below the 0.1 mm threshold.
 */
module Targets {
  import opened Common

  /** `threshold = 0.1` mm. */
  const Threshold: real := 0.1

  /** A (row, column) matrix whose entries may be NaN (`None`). */
  type Table = seq<seq<Option<real>>>

  /** Every row has n entries. */
  predicate Rectangular(m: Table, n: nat) {
    forall r :: 0 <= r < |m| ==> |m[r]| == n
  }

  /** `pr.swapaxes(0, 1)`: (time, node) to (node, time). */
  function Transpose(pr: Table, nNodes: nat): (r: Table)
    requires Rectangular(pr, nNodes)
    ensures |r| == nNodes && Rectangular(r, |pr|)
    ensures forall n, t :: 0 <= n < nNodes && 0 <= t < |pr| ==> r[n][t] == pr[t][n]
  {
    seq(nNodes, n requires 0 <= n < nNodes => seq(|pr|, t requires 0 <= t < |pr| => pr[t][n]))
  }

  /** `m[:, start:stop]`: the same Python slice of every row. */
  function SliceColumns(m: Table, cols: nat, start: int, stop: int): (r: Table)
    requires Rectangular(m, cols)
    ensures |r| == |m| && Rectangular(r, SliceLength(start, stop, cols))
    ensures forall n :: 0 <= n < |m| ==> r[n] == PySlice(m[n], start, stop)
  {
    seq(|m|, n requires 0 <= n < |m| => PySlice(m[n], start, stop))
  }

  /** Largest and smallest entry of a non-empty list of time indices
      (`max`, `min`). The edge module has its own maximum over real
      offsets: the two element types share no ordered type here. */
  function Max(s: seq<int>): (m: int)
    requires s != []
    ensures m in s && forall x :: x in s ==> x <= m
  {
    if |s| == 1 then s[0]
    else
      assert s == [s[0]] + s[1..];
      var m := Max(s[1..]); if s[0] >= m then s[0] else m
  }

  function Min(s: seq<int>): (m: int)
    requires s != []
    ensures m in s && forall x :: x in s ==> m <= x
  {
    if |s| == 1 then s[0]
    else
      assert s == [s[0]] + s[1..];
      var m := Min(s[1..]); if s[0] <= m then s[0] else m
  }

  /** `np.where(pr >= threshold, 1, 0)` with NaN put back where pr is NaN. */
  function ClTarget(v: Option<real>): Option<real> {
    match v
    case None => None
    case Some(x) => Some(if x >= Threshold then 1.0 else 0.0)
  }

  /** `np.where(pr >= threshold, np.log1p(pr), np.nan)`; a NaN compares false. */
  function RegTarget(v: Option<real>, log1p: real -> real): Option<real> {
    match v
    case Some(x) => if x >= Threshold then Some(log1p(x)) else None
    case None => None
  }

  function MapGrid(m: Table, f: Option<real> -> Option<real>): (r: Table)
    ensures |r| == |m|
    ensures forall n :: 0 <= n < |m| ==> |r[n]| == |m[n]| && forall t :: 0 <= t < |m[n]| ==> r[n][t] == f(m[n][t])
  {
    seq(|m|, n requires 0 <= n < |m| => seq(|m[n]|, t requires 0 <= t < |m[n]| => f(m[n][t])))
  }

  /** The three target matrices, each (node, time). */
  datatype Targets = Targets(cl: Table, reg: Table, test: Table)

  /** The target block of the preprocessing script: Err(ValueError) when the
      training or test list is empty (`max` of an empty list). */
  function BuildTargets(pr: Table, nNodes: nat, train: seq<int>, test: seq<int>, log1p: real -> real): (r: Result<Targets>)
    requires Rectangular(pr, nNodes)
    ensures r.Err? ==> r.error == ValueError
    ensures r.Ok? ==> |r.value.cl| == |r.value.reg| == |r.value.test| == nNodes
  {
    if train == [] || test == [] then Err(ValueError)
    else
      var prT := Transpose(pr, nNodes);
      var prTrain := SliceColumns(prT, |pr|, 0, Max(train) + 1);
      Ok(Targets(MapGrid(prTrain, ClTarget),
                 MapGrid(prTrain, v => RegTarget(v, log1p)),
                 SliceColumns(prT, |pr|, Min(test), Max(test) + 1)))
  }

  /** `~np.isnan(pr_sel_train_cl)`. */
  predicate MaskCl(v: Option<real>) { v.Some? }

  /** `~np.isnan(pr_sel_train_reg) & (pr_sel_train_reg >= threshold)`: note
      that the log1p value, not the precipitation, is compared with 0.1. */
  predicate MaskReg(v: Option<real>) { v.Some? && v.value >= Threshold }

  /** The targets exist exactly when both lists are non-empty; every
      matrix then has one row per node, the training matrices the columns
      0 .. max(train) of the record and the test matrix the columns
      min(test) .. max(test). */
  lemma {:induction false} TargetsShape(pr: Table, nNodes: nat, train: seq<int>, test: seq<int>, log1p: real -> real)
    requires Rectangular(pr, nNodes)
    ensures BuildTargets(pr, nNodes, train, test, log1p).Ok? <==> train != [] && test != []
    ensures BuildTargets(pr, nNodes, train, test, log1p).Err? ==> BuildTargets(pr, nNodes, train, test, log1p).error == ValueError
    ensures BuildTargets(pr, nNodes, train, test, log1p).Ok? ==>
      var tg := BuildTargets(pr, nNodes, train, test, log1p).value;
      && |tg.cl| == |tg.reg| == |tg.test| == nNodes
      && Rectangular(tg.cl, SliceLength(0, Max(train) + 1, |pr|))
      && Rectangular(tg.reg, SliceLength(0, Max(train) + 1, |pr|))
      && Rectangular(tg.test, SliceLength(Min(test), Max(test) + 1, |pr|))
  {
  }

  /** For a time step t in 0 .. max(train) inside the record, the targets of
      node n at t are read off pr[t][n]: the classification target is NaN
      exactly where pr is, and otherwise 1 when pr >= 0.1 and 0 when not;
      the regression target is log1p(pr) when pr >= 0.1 and NaN otherwise. */
  lemma {:induction false} TrainEntry(pr: Table, nNodes: nat, train: seq<int>, test: seq<int>, log1p: real -> real,
                                      n: nat, t: nat)
    requires Rectangular(pr, nNodes) && train != [] && test != []
    requires n < nNodes && t <= Max(train) && t < |pr|
    ensures var tg := BuildTargets(pr, nNodes, train, test, log1p).value;
      && t < |tg.cl[n]| && t < |tg.reg[n]|
      && (tg.cl[n][t].Some? <==> pr[t][n].Some?)
      && (tg.cl[n][t].Some? ==> (tg.cl[n][t].value == 1.0 <==> pr[t][n].value >= Threshold))
      && (tg.cl[n][t].Some? ==> (tg.cl[n][t].value == 0.0 <==> pr[t][n].value < Threshold))
      && (tg.reg[n][t].Some? <==> pr[t][n].Some? && pr[t][n].value >= Threshold)
      && (tg.reg[n][t].Some? ==> tg.reg[n][t].value == log1p(pr[t][n].value))
  {
    var prT := Transpose(pr, nNodes);
    assert PySlice(prT[n], 0, Max(train) + 1)[t] == pr[t][n];
  }

  /** Column k of the test matrix is time step min(test) + k of the record,
      for the steps up to max(test) that the record holds. */
  lemma {:induction false} TestEntry(pr: Table, nNodes: nat, train: seq<int>, test: seq<int>, log1p: real -> real,
                                     n: nat, k: nat)
    requires Rectangular(pr, nNodes) && train != [] && test != []
    requires n < nNodes && 0 <= Min(test) && Min(test) + k <= Max(test) && Min(test) + k < |pr|
    ensures var tg := BuildTargets(pr, nNodes, train, test, log1p).value;
      k < |tg.test[n]| && tg.test[n][k] == pr[Min(test) + k][n]
  {
    var prT := Transpose(pr, nNodes);
    assert PySlice(prT[n], Min(test), Max(test) + 1)[k] == pr[Min(test) + k][n];
  }

  /** A time step that counts for regression also counts for classification. */
  lemma {:induction false} RegImpliesCl(v: Option<real>, log1p: real -> real)
    ensures MaskReg(RegTarget(v, log1p)) ==> MaskCl(ClTarget(v))
    ensures MaskCl(ClTarget(v)) <==> v.Some?
    ensures MaskReg(RegTarget(v, log1p)) <==> v.Some? && v.value >= Threshold && log1p(v.value) >= Threshold
  {
  }
}
