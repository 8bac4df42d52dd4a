/**
 * How the stages fit together: every example that preprocessing lists for
 * classification training is one a dataset can cut a full input window
 * for, because example cells are interior cells and training steps come
 * after the 24-step warm-up.
 */
module Pipeline {
  import opened Common
  import IndexCodec
  import W = Window
  import Cells
  import TimeSplit
  import Indices
  import Datasets

  /** An `idx_train_cl` number names an interior example cell of the grid
      and a training step. */
  lemma {:induction false} TrainExampleCell(g: Cells.Grid, h: W.Nodes, x: Indices.Inputs, k: int)
    requires W.WellShaped(h) && Indices.WellFormed(x)
    requires x.space == Cells.Space(g) && x.valid == Cells.ValidExamplesSpace(g, h)
    requires Indices.TrainIndices(x).Ok? && k in Indices.TrainIndices(x).value.0
    ensures x.space > 0
    ensures Indices.CellOf(k, x.space) in x.valid && Indices.StepOf(k, x.space) in x.train
    ensures Cells.IsCell(g, Indices.CellOf(k, x.space)) && Cells.InteriorCell(g, Indices.CellOf(k, x.space))
  {
    Indices.TrainIndicesSpec(x);
    assert x.space > 0;
    Indices.TrainIndicesDecode(x);
    Cells.ValidExamplesSpaceSpec(g, h);
  }

  /** Its decoding, as the datasets compute it, is that cell's row and
      column and a step after the warm-up. */
  lemma {:induction false} TrainExampleKey(g: Cells.Grid, h: W.Nodes, years: seq<seq<int>>, firstTestYear: int,
                                           endYear: int, x: Indices.Inputs, k: int)
    requires W.WellShaped(h) && Indices.WellFormed(x)
    requires x.space == Cells.Space(g) && x.valid == Cells.ValidExamplesSpace(g, h)
    requires TimeSplit.Subdivide(years, firstTestYear, endYear).Ok?
    requires var raw := TimeSplit.RawTrain(years, firstTestYear, PyIndex(years, TimeSplit.LastTrainYear(firstTestYear)).value);
             NoDuplicates(raw) && forall t :: t in raw ==> 0 <= t
    requires x.train == TimeSplit.Subdivide(years, firstTestYear, endYear).value.train
    requires Indices.TrainIndices(x).Ok? && k in Indices.TrainIndices(x).value.0
    ensures Cells.LatDim(g) > 0 && Cells.LonDim(g) > 0
    ensures var key := IndexCodec.Decode(k, Cells.LatDim(g), Cells.LonDim(g));
            && key.spaceIdx in x.valid && key.timeIdx in x.train
            && TimeSplit.WarmupSteps <= key.timeIdx
            && IndexCodec.Interior(key.latIdx, key.lonIdx, Cells.LatDim(g), Cells.LonDim(g))
  {
    TrainExampleCell(g, h, x, k);
    var key := IndexCodec.Decode(k, Cells.LatDim(g), Cells.LonDim(g));
    assert key.spaceIdx == Indices.CellOf(k, x.space) && key.timeIdx == Indices.StepOf(k, x.space);
    IndexCodec.RowColCellIndex(key.latIdx, key.lonIdx, Cells.LatDim(g), Cells.LonDim(g));
    TimeSplit.TrainAfterWarmup(years, firstTestYear, endYear);
  }

  /** An `idx_train_cl` number, read by a dataset over the same grid with
      the default padding, decodes to an interior example cell and a
      training step of at least 24, so the (25, 6, 6) window around it is
      filled without broadcasting when the stored input holds that step and
      two extra rows and columns around the grid. */
  lemma {:induction false} TrainExampleWindow(g: Cells.Grid, h: W.Nodes, years: seq<seq<int>>, firstTestYear: int,
                                              endYear: int, x: Indices.Inputs, d: Datasets.Dataset<int>, idx: int)
    requires W.WellShaped(h) && Indices.WellFormed(x)
    requires x.space == Cells.Space(g) && x.valid == Cells.ValidExamplesSpace(g, h)
    requires TimeSplit.Subdivide(years, firstTestYear, endYear).Ok?
    requires var raw := TimeSplit.RawTrain(years, firstTestYear, PyIndex(years, TimeSplit.LastTrainYear(firstTestYear)).value);
             NoDuplicates(raw) && forall t :: t in raw ==> 0 <= t
    requires x.train == TimeSplit.Subdivide(years, firstTestYear, endYear).value.train
    requires Indices.TrainIndices(x).Ok?
    requires d.cfg == Datasets.Config(IndexCodec.DefaultPad, Cells.LatDim(g), Cells.LonDim(g))
    requires 0 <= idx < Datasets.Length(d) && d.idxToKey[idx] in Indices.TrainIndices(x).value.0
    requires forall t :: t in x.train ==> t < d.input.steps
    requires Cells.LatDim(g) + 4 <= d.input.lats && Cells.LonDim(g) + 4 <= d.input.lons
    ensures Datasets.AeItem(d, idx).Ok?
    ensures var key := Datasets.DecodeFlat(d.cfg, d.idxToKey[idx]).value;
            && key.spaceIdx in x.valid && key.timeIdx in x.train
            && TimeSplit.WarmupSteps <= key.timeIdx
            && IndexCodec.Interior(key.latIdx, key.lonIdx, Cells.LatDim(g), Cells.LonDim(g))
            && Datasets.AeItem(d, idx).value == IndexCodec.InputWindow(key.timeIdx, key.latIdx, key.lonIdx, IndexCodec.DefaultPad)
  {
    var k := d.idxToKey[idx];
    TrainExampleKey(g, h, years, firstTestYear, endYear, x, k);
    var key := IndexCodec.Decode(k, Cells.LatDim(g), Cells.LonDim(g));
    assert Datasets.DecodeFlat(d.cfg, k) == Ok(key);
    Datasets.AeItemFits(d, idx, key.timeIdx, key.latIdx, key.lonIdx);
  }
}
