/**
 * `Dataset_pr_gnn` of local_single: the target nodes of an example are the
 * nodes of the cell's subgraph, narrowed by the stored training mask at
 * the example's time step.
 */
module DatasetSingle {
  import opened Common
  import opened IndexCodec
  import opened Targets
  import opened Datasets

  /** The window, `subgraph["train_mask"]` and `subgraph["y"]`. */
  datatype GnnSample = GnnSample(window: Window, trainMask: seq<bool>, y: seq<Option<real>>)

  /** `Dataset_pr_gnn.__getitem__`: `train_mask = mask_target[:, time_idx][mask_1_cell]`
      and `y = target[mask_1_cell, time_idx][train_mask]`. */
  function GnnItem(d: Dataset<int>, subgraphs: seq<Subgraph>, maskTarget: seq<seq<bool>>, mCols: nat,
                   target: Table, tCols: nat, idx: int): (r: Result<GnnSample>)
    requires forall n :: 0 <= n < |maskTarget| ==> |maskTarget[n]| == mCols
    requires Rectangular(target, tCols)
    ensures r.Err? ==> r.error in {IndexError, ZeroDivisionError, ShapeError}
    ensures (r.Err? && r.error == IndexError) <== !(-(Length(d) as int) <= idx < Length(d))
    ensures r.Ok? ==> CopyFits(r.value.window, d.input)
    ensures r.Ok? ==> |r.value.trainMask| <= |maskTarget| == |target| && |r.value.y| == Count(r.value.trainMask)
  {
    match KeyAt(d, idx)
    case Err(e) => Err(e)
    case Ok(k) =>
      match WindowOfKey(d, k)
      case Err(e) => Err(e)
      case Ok((key, w)) =>
        match PyIndex(subgraphs, key.spaceIdx)
        case None => Err(IndexError)
        case Some(sg) =>
          match MaskedColumn(maskTarget, mCols, sg.mask1Cell, key.timeIdx)
          case Err(e) => Err(e)
          case Ok(trainMask) =>
            match MaskedColumn(target, tCols, sg.mask1Cell, key.timeIdx)
            case Err(e) => Err(e)
            case Ok(y) => Ok(GnnSample(w, trainMask, Select(y, trainMask)))
  }

  /** For an example number built from step t and cell c: the item exists
      when the cell's node mask covers both matrices and t is a column of
      both. `train_mask` then has one flag per node of the subgraph, and `y`
      has one entry per set flag: the targets at t of exactly the nodes that
      are in the cell's subgraph AND marked in `mask_target` at t, in node
      order. */
  lemma {:induction false} GnnItemSpec(d: Dataset<int>, subgraphs: seq<Subgraph>, maskTarget: seq<seq<bool>>, mCols: nat,
                                       target: Table, tCols: nat, idx: int, t: int, c: int)
    requires forall n :: 0 <= n < |maskTarget| ==> |maskTarget[n]| == mCols
    requires Rectangular(target, tCols)
    requires 0 <= idx < Length(d) && 0 <= c < SpaceOf(d.cfg) && c < |subgraphs|
    requires d.idxToKey[idx] == Encode(t, c, SpaceOf(d.cfg))
    requires WindowOfKey(d, d.idxToKey[idx]).Ok?
    ensures var r := GnnItem(d, subgraphs, maskTarget, mCols, target, tCols, idx);
            var m1 := subgraphs[c].mask1Cell;
            && (r.Ok? <==> |m1| == |maskTarget| == |target| && ColOk(t, mCols) && ColOk(t, tCols))
            && (r.Ok? ==>
                  var markedAt := Column(maskTarget, Col(t, mCols), mCols);
                  var keep := And(m1, markedAt);
                  && |r.value.trainMask| == Count(m1)
                  && r.value.trainMask == Select(markedAt, m1)
                  && |r.value.y| == Count(r.value.trainMask)
                  && r.value.y == Select(Column(target, Col(t, tCols), tCols), keep))
  {
    KeyOfExample(d, idx, t, c);
    var r := GnnItem(d, subgraphs, maskTarget, mCols, target, tCols, idx);
    if r.Ok? {
      var m1 := subgraphs[c].mask1Cell;
      SelectTwice(Column(target, Col(t, tCols), tCols), m1, Column(maskTarget, Col(t, mCols), mCols));
    }
  }
}
