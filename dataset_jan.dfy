/**
 * The dataset classes that exist only in local_single_jan: its
 * `Dataset_pr_gnn`, which picks the target nodes by comparing the stored
 * cell numbers with the example's cell, and `Dataset_pr_ft_gnn`, which
 * reads an encoding for the 3x3 block of cells around the example.
 */
module DatasetJan {
  import opened Common
  import opened IndexCodec
  import opened Targets
  import opened Datasets

  /** `self.cell_idxs == space_idx`. */
  function CellMask(cellIdxs: seq<int>, s: int): (m: seq<bool>)
    ensures |m| == |cellIdxs| && forall n :: 0 <= n < |m| ==> (m[n] <==> cellIdxs[n] == s)
  {
    seq(|cellIdxs|, n requires 0 <= n < |cellIdxs| => cellIdxs[n] == s)
  }

  /** The window and `subgraph["y"]` of one example. */
  datatype GnnSample = GnnSample(window: Window, y: seq<Option<real>>)

  /** `Dataset_pr_gnn.__getitem__`: the subgraph of the cell must exist
      (its edges and features are not modelled) and `y` is column time_idx
      of the target rows whose stored cell number equals the cell. */
  function GnnItem(d: Dataset<int>, nSubgraphs: nat, target: Table, cols: nat, cellIdxs: seq<int>, idx: int): (r: Result<GnnSample>)
    requires Rectangular(target, cols)
    ensures r.Err? ==> r.error in {IndexError, ZeroDivisionError, ShapeError}
    ensures (r.Err? && r.error == IndexError) <== !(-(Length(d) as int) <= idx < Length(d))
    ensures r.Ok? ==> CopyFits(r.value.window, d.input)
    ensures r.Ok? ==> |r.value.y| <= |target| && |cellIdxs| == |target|
  {
    match KeyAt(d, idx)
    case Err(e) => Err(e)
    case Ok(k) =>
      match WindowOfKey(d, k)
      case Err(e) => Err(e)
      case Ok((key, w)) =>
        if !ColOk(key.spaceIdx, nSubgraphs) then Err(IndexError)
        else
          match MaskedColumn(target, cols, CellMask(cellIdxs, key.spaceIdx), key.timeIdx)
          case Err(e) => Err(e)
          case Ok(y) => Ok(GnnSample(w, y))
  }

  /** For an example number built from step t and cell c: the item exists
      when the cell numbers cover every target row and t is a column; `y`
      then holds, in node order, the targets at t of exactly the nodes whose
      stored cell number is c (nodes stored with -c, whose cell was not an
      example, are not among them). */
  lemma {:induction false} GnnItemSpec(d: Dataset<int>, nSubgraphs: nat, target: Table, cols: nat, cellIdxs: seq<int>,
                                       idx: int, t: int, c: int)
    requires Rectangular(target, cols)
    requires 0 <= idx < Length(d) && 0 <= c < SpaceOf(d.cfg) && c < nSubgraphs
    requires d.idxToKey[idx] == Encode(t, c, SpaceOf(d.cfg))
    requires WindowOfKey(d, d.idxToKey[idx]).Ok?
    ensures var r := GnnItem(d, nSubgraphs, target, cols, cellIdxs, idx);
            && (r.Ok? <==> |cellIdxs| == |target| && ColOk(t, cols))
            && (r.Ok? ==>
                  var nodes := KeptIndices(CellMask(cellIdxs, c));
                  && |r.value.y| == |nodes|
                  && (forall n :: 0 <= n < |cellIdxs| ==> (n in nodes <==> cellIdxs[n] == c))
                  && forall k :: 0 <= k < |nodes| ==> r.value.y[k] == target[nodes[k]][Col(t, cols)])
  {
    KeyOfExample(d, idx, t, c);
  }

  // ---------------------------------------------------------------------
  // Dataset_pr_ft_gnn
  // ---------------------------------------------------------------------

  /** `cell_idx_list`: the 3x3 block of cell numbers around the example's
      row and column, row-major. */
  function FtCells(cfg: Config, key: Key): seq<int> {
    Neighbourhood(key.latIdx, key.lonIdx, cfg.lonDim)
  }

  /** The block has nine cells, its centre (entry 4) is the example's own
      cell, and around an interior cell every entry is a cell of the grid. */
  lemma {:induction false} FtCellsSpec(cfg: Config, k: int)
    requires DecodeFlat(cfg, k).Ok?
    ensures var key := DecodeFlat(cfg, k).value;
            var cells := FtCells(cfg, key);
            && |cells| == 9
            && cells[4] == key.spaceIdx
            && (forall n :: 0 <= n < 9 ==>
                  cells[n] == CellIndex(key.latIdx - 1 + n / 3, key.lonIdx - 1 + n % 3, cfg.lonDim))
            && (Interior(key.latIdx, key.lonIdx, cfg.latDim, cfg.lonDim) ==>
                  forall c :: c in cells ==> 0 <= c < SpaceOf(cfg))
  {
    var key := DecodeFlat(cfg, k).value;
    NeighbourhoodInGrid(key.latIdx, key.lonIdx, cfg.latDim, cfg.lonDim);
  }

  /** The (cell, step) positions of `self.input` that fill the encoding
      rows, one per cell of the block; IndexError at the first cell or step
      outside the leading axes (nCells, nSteps) of the input. */
  function FtReads(cells: seq<int>, timeIdx: int, nCells: nat, nSteps: nat): (r: Result<seq<(nat, nat)>>)
    ensures r.Ok? <==> (forall c :: c in cells ==> ColOk(c, nCells)) && (cells != [] ==> ColOk(timeIdx, nSteps))
    ensures r.Err? ==> r.error == IndexError
    ensures r.Ok? ==> |r.value| == |cells|
    ensures r.Ok? ==> forall i :: 0 <= i < |cells| ==> r.value[i] == (Col(cells[i], nCells), Col(timeIdx, nSteps))
  {
    if cells == [] then Ok([])
    else
      var n := |cells| - 1;
      match FtReads(cells[..n], timeIdx, nCells, nSteps)
      case Err(e) => Err(e)
      case Ok(front) =>
        if ColOk(cells[n], nCells) && ColOk(timeIdx, nSteps) then
          Ok(front + [(Col(cells[n], nCells), Col(timeIdx, nSteps))])
        else
          assert cells[n] in cells;
          Err(IndexError)
  }

  /** The encoding loop: `for i, s in enumerate(cell_idx_list):
      encoding[i, :] = self.input[s, time_idx, :]`, recording the position
      each row is read from. */
  method FillEncoding(cells: seq<int>, timeIdx: int, nCells: nat, nSteps: nat) returns (r: Result<seq<(nat, nat)>>)
    ensures r == FtReads(cells, timeIdx, nCells, nSteps)
  {
    var rows: seq<(nat, nat)> := [];
    var i := 0;
    while i < |cells|
      invariant 0 <= i <= |cells|
      invariant FtReads(cells[..i], timeIdx, nCells, nSteps) == Ok(rows)
    {
      assert cells[..i + 1][..i] == cells[..i];
      if !(ColOk(cells[i], nCells) && ColOk(timeIdx, nSteps)) {
        FtReadsPrefixFails(cells, i + 1, timeIdx, nCells, nSteps);
        return Err(IndexError);
      }
      rows := rows + [(Col(cells[i], nCells), Col(timeIdx, nSteps))];
      i := i + 1;
    }
    assert cells[..i] == cells;
    r := Ok(rows);
  }

  /** A failure on a prefix is a failure of the whole list. */
  lemma {:induction false} FtReadsPrefixFails(cells: seq<int>, i: nat, timeIdx: int, nCells: nat, nSteps: nat)
    requires i <= |cells| && FtReads(cells[..i], timeIdx, nCells, nSteps).Err?
    ensures FtReads(cells, timeIdx, nCells, nSteps).Err?
  {
    if forall c :: c in cells ==> ColOk(c, nCells) {
      assert forall c :: c in cells[..i] ==> c in cells;
    }
  }

  /** `Dataset_pr_ft_gnn.__getitem__`: what it raises. After the encoding
      it reads `self.mask_9_cells`, which neither it nor the `Dataset_pr_gnn`
      constructor it inherits ever sets, so every call ends in an exception. */
  function FtGnnItem(d: Dataset<int>, nCells: nat, nSteps: nat, idx: int): (raised: Error)
    ensures raised in {IndexError, ZeroDivisionError, AttributeError}
    ensures raised == IndexError <== !(-(Length(d) as int) <= idx < Length(d))
  {
    match KeyAt(d, idx)
    case Err(e) => e
    case Ok(k) =>
      match DecodeFlat(d.cfg, k)
      case Err(e) => e
      case Ok(key) =>
        match FtReads(FtCells(d.cfg, key), key.timeIdx, nCells, nSteps)
        case Err(e) => e
        case Ok(_) => AttributeError
  }

  /** The exception is AttributeError exactly when the key, its decoding and
      all nine encoding reads succeed; before that it is the IndexError or
      ZeroDivisionError of the step that failed. */
  lemma {:induction false} FtGnnItemRaises(d: Dataset<int>, nCells: nat, nSteps: nat, idx: int)
    ensures var raised := FtGnnItem(d, nCells, nSteps, idx);
      && (raised == AttributeError <==>
            && KeyAt(d, idx).Ok?
            && DecodeFlat(d.cfg, KeyAt(d, idx).value).Ok?
            && (forall c :: c in FtCells(d.cfg, DecodeFlat(d.cfg, KeyAt(d, idx).value).value) ==> ColOk(c, nCells))
            && ColOk(DecodeFlat(d.cfg, KeyAt(d, idx).value).value.timeIdx, nSteps))
      && (raised == ZeroDivisionError <==> KeyAt(d, idx).Ok? && (d.cfg.latDim == 0 || d.cfg.lonDim == 0))
      && raised in {IndexError, ZeroDivisionError, AttributeError}
  {
    if KeyAt(d, idx).Ok? && DecodeFlat(d.cfg, KeyAt(d, idx).value).Ok? {
      var key := DecodeFlat(d.cfg, KeyAt(d, idx).value).value;
      assert |FtCells(d.cfg, key)| == 9;
    }
  }
}
