/**
 * What the dataset classes shared by both training scripts do with one
 * example: look up its key, split it into a time step, a cell and the
 * cell's row and column, and cut the input window around them. Covered
 * here: `Dataset_pr` (configuration and `__len__`), `Dataset_pr_ae`,
 * `Dataset_e` and `Dataset_pr_test`, whose `__getitem__` bodies are the
 * same in local_single and local_single_jan. The `Dataset_pr` constructors
 * of the two folders differ in argument order and defaults; `Config` holds
 * the values either one stores. The two `Dataset_pr_gnn` variants differ
 * and live in their own modules.
 */
module Datasets {
  import opened Common
  import opened IndexCodec
  import opened Targets

  /** The constructor arguments of `Dataset_pr`. */
  datatype Config = Config(pad: int, latDim: nat, lonDim: nat)

  /** `Dataset_pr(args, pad=2, lat_dim=16, lon_dim=31)` in local_single_jan;
      local_single has no defaults for the grid size. */
  const JanDefaults: Config := Config(DefaultPad, DefaultLatDim, DefaultLonDim)

  /** `space_low_res_dim`. */
  function SpaceOf(cfg: Config): nat { SpaceDim(cfg.latDim, cfg.lonDim) }

  /** A loaded dataset: its configuration, the pickled example list and the
      shape of the stored input tensor. K is `int` for flat example numbers
      and a (cell, step) pair for `Dataset_e`. */
  datatype Dataset<K> = Dataset(cfg: Config, idxToKey: seq<K>, input: InputShape)

  /** `__len__`: `self.length = len(idx_to_key)` after loading. */
  function Length<K>(d: Dataset<K>): nat { |d.idxToKey| }

  /** `k = self.idx_to_key[idx]`: every index below `__len__` has a key,
      negative ones count from the end, anything else is an IndexError. */
  function KeyAt<K>(d: Dataset<K>, idx: int): (r: Result<K>)
    ensures r.Ok? <==> -(Length(d) as int) <= idx < Length(d)
    ensures r.Err? ==> r.error == IndexError
    ensures 0 <= idx < Length(d) ==> r == Ok(d.idxToKey[idx])
    ensures r.Ok? ==> r.value in d.idxToKey
  {
    match PyIndex(d.idxToKey, idx)
    case Some(k) => Ok(k)
    case None => Err(IndexError)
  }

  /** `time_idx, space_idx = k // space, k % space` and then
      `lat_idx, lon_idx = space_idx // lon_dim, space_idx % lon_dim`;
      ZeroDivisionError on an empty grid, as Python ints raise it. */
  function DecodeFlat(cfg: Config, k: int): (r: Result<Key>)
    ensures r.Ok? <==> cfg.latDim > 0 && cfg.lonDim > 0
    ensures r.Err? ==> r.error == ZeroDivisionError
    ensures r.Ok? ==> var key := r.value;
      && Encode(key.timeIdx, key.spaceIdx, SpaceOf(cfg)) == k
      && 0 <= key.spaceIdx < SpaceOf(cfg)
      && CellIndex(key.latIdx, key.lonIdx, cfg.lonDim) == key.spaceIdx
      && 0 <= key.latIdx < cfg.latDim && 0 <= key.lonIdx < cfg.lonDim
  {
    if SpaceOf(cfg) == 0 then Err(ZeroDivisionError)
    else Ok(Decode(k, cfg.latDim, cfg.lonDim))
  }

  /** `input[:] = self.input[window]`: the copy into the (25, 5, 5, 6, 6)
      buffer fails unless every sliced axis broadcasts. */
  function FetchWindow(cfg: Config, shape: InputShape, timeIdx: int, latIdx: int, lonIdx: int): (r: Result<Window>)
    ensures r.Ok? <==> CopyFits(InputWindow(timeIdx, latIdx, lonIdx, cfg.pad), shape)
    ensures r.Ok? ==> r.value == InputWindow(timeIdx, latIdx, lonIdx, cfg.pad)
    ensures r.Err? ==> r.error == ShapeError
  {
    var w := InputWindow(timeIdx, latIdx, lonIdx, cfg.pad);
    if CopyFits(w, shape) then Ok(w) else Err(ShapeError)
  }

  /** The window of a flat example number (shared first half of every
      `__getitem__` that decodes `k // space_low_res_dim`). */
  function WindowOfKey(d: Dataset<int>, k: int): (r: Result<(Key, Window)>)
    ensures r.Err? ==> r.error in {ZeroDivisionError, ShapeError}
    ensures r.Ok? ==> var (key, w) := r.value;
      && Encode(key.timeIdx, key.spaceIdx, SpaceOf(d.cfg)) == k
      && 0 <= key.latIdx < d.cfg.latDim && 0 <= key.lonIdx < d.cfg.lonDim
      && w == InputWindow(key.timeIdx, key.latIdx, key.lonIdx, d.cfg.pad)
      && CopyFits(w, d.input)
  {
    match DecodeFlat(d.cfg, k)
    case Err(e) => Err(e)
    case Ok(key) =>
      match FetchWindow(d.cfg, d.input, key.timeIdx, key.latIdx, key.lonIdx)
      case Err(e) => Err(e)
      case Ok(w) => Ok((key, w))
  }

  /** `Dataset_pr_ae.__getitem__`: the input window of example idx. */
  function AeItem(d: Dataset<int>, idx: int): (r: Result<Window>)
    ensures r.Err? ==> r.error in {IndexError, ZeroDivisionError, ShapeError}
    ensures (r.Err? && r.error == IndexError) <==> !(-(Length(d) as int) <= idx < Length(d))
    ensures r.Ok? ==> CopyFits(r.value, d.input) && r.value.timeStop - r.value.timeStart == WindowSteps
  {
    match KeyAt(d, idx)
    case Err(e) => Err(e)
    case Ok(k) =>
      match WindowOfKey(d, k)
      case Err(e) => Err(e)
      case Ok((_, w)) => Ok(w)
  }

  /** `Dataset_e.__getitem__`: the key is a (cell, step) pair; it is
      returned with the window. Only the cell is split, so ZeroDivisionError
      needs `lon_dim == 0` here. */
  function EItem(d: Dataset<(int, int)>, idx: int): (r: Result<(Window, (int, int))>)
    ensures r.Err? ==> r.error in {IndexError, ZeroDivisionError, ShapeError}
    ensures (r.Err? && r.error == IndexError) <==> !(-(Length(d) as int) <= idx < Length(d))
    ensures r.Ok? ==> r.value.1 in d.idxToKey && CopyFits(r.value.0, d.input)
    ensures r.Ok? ==> d.cfg.lonDim > 0 && r.value.0.timeStop - r.value.0.timeStart == WindowSteps
  {
    match KeyAt(d, idx)
    case Err(e) => Err(e)
    case Ok(k) =>
      var (spaceIdx, timeIdx) := k;
      if d.cfg.lonDim == 0 then Err(ZeroDivisionError)
      else
        var (latIdx, lonIdx) := SplitCell(spaceIdx, d.cfg.lonDim);
        match FetchWindow(d.cfg, d.input, timeIdx, latIdx, lonIdx)
        case Err(e) => Err(e)
        case Ok(w) => Ok((w, k))
  }

  /** An example number made by preprocessing from time step t and cell
      (i, j) of the grid gives back exactly that step, cell, row and column,
      and `Dataset_pr_ae` cuts the window around them. */
  lemma {:induction false} AeItemOfExample(d: Dataset<int>, idx: int, t: int, i: int, j: int)
    requires 0 <= idx < Length(d)
    requires 0 <= i < d.cfg.latDim && 0 <= j < d.cfg.lonDim
    requires d.idxToKey[idx] == Encode(t, CellIndex(i, j, d.cfg.lonDim), SpaceOf(d.cfg))
    ensures DecodeFlat(d.cfg, d.idxToKey[idx]) == Ok(Key(t, CellIndex(i, j, d.cfg.lonDim), i, j))
    ensures AeItem(d, idx).Ok? <==> CopyFits(InputWindow(t, i, j, d.cfg.pad), d.input)
    ensures AeItem(d, idx).Ok? ==> AeItem(d, idx).value == InputWindow(t, i, j, d.cfg.pad)
    ensures AeItem(d, idx).Err? ==> AeItem(d, idx).error == ShapeError
  {
    DecodeEncode(t, i, j, d.cfg.latDim, d.cfg.lonDim);
  }

  /** With the default padding, an example at a step >= 24 of the stored
      input, in an interior cell, fills the buffer exactly when the stored
      grid has two extra rows and columns on every side. */
  lemma {:induction false} AeItemFits(d: Dataset<int>, idx: int, t: int, i: int, j: int)
    requires 0 <= idx < Length(d) && d.cfg.pad == DefaultPad
    requires Interior(i, j, d.cfg.latDim, d.cfg.lonDim)
    requires d.idxToKey[idx] == Encode(t, CellIndex(i, j, d.cfg.lonDim), SpaceOf(d.cfg))
    requires 24 <= t < d.input.steps
    requires d.cfg.latDim + 4 <= d.input.lats && d.cfg.lonDim + 4 <= d.input.lons
    ensures AeItem(d, idx) == Ok(InputWindow(t, i, j, DefaultPad))
    ensures var w := AeItem(d, idx).value;
            && SliceLength(w.timeStart, w.timeStop, d.input.steps) == WindowSteps
            && SliceLength(w.latStart, w.latStop, d.input.lats) == WindowWidth
            && SliceLength(w.lonStart, w.lonStop, d.input.lons) == WindowWidth
  {
    AeItemOfExample(d, idx, t, i, j);
    WindowFits(t, i, j, d.input);
  }

  /** `Dataset_e` reads the pair as (cell, step): the window is cut around
      the step and the cell's row and column, the key comes back unchanged,
      and for a cell of the grid the window is the one `Dataset_pr_ae`
      cuts for the flat number of the same (step, cell). */
  lemma {:induction false} EItemSpec(d: Dataset<(int, int)>, idx: int, flat: Dataset<int>, idx': int)
    requires 0 <= idx < Length(d) && 0 <= idx' < Length(flat)
    requires flat.cfg == d.cfg && flat.input == d.input
    requires 0 <= d.idxToKey[idx].0 < SpaceOf(d.cfg)
    requires flat.idxToKey[idx'] == Encode(d.idxToKey[idx].1, d.idxToKey[idx].0, SpaceOf(d.cfg))
    ensures EItem(d, idx).Ok? ==> EItem(d, idx).value.1 == d.idxToKey[idx]
    ensures EItem(d, idx).Ok? <==> AeItem(flat, idx').Ok?
    ensures EItem(d, idx).Ok? ==> EItem(d, idx).value.0 == AeItem(flat, idx').value
  {
    var (s, t) := d.idxToKey[idx];
    var (i, j) := SplitCell(s, d.cfg.lonDim);
    RowColCellIndex(i, j, d.cfg.latDim, d.cfg.lonDim);
    AeItemOfExample(flat, idx', t, RowCol(s, d.cfg.latDim, d.cfg.lonDim).0, RowCol(s, d.cfg.latDim, d.cfg.lonDim).1);
  }

  // ---------------------------------------------------------------------
  // Dataset_pr_test
  // ---------------------------------------------------------------------

  /** The one field of a pickled subgraph the datasets read. */
  datatype Subgraph = Subgraph(mask1Cell: seq<bool>)

  /** Column c of a (node, time) matrix. */
  function Column<T>(m: seq<seq<T>>, c: nat, cols: nat): (r: seq<T>)
    requires forall n :: 0 <= n < |m| ==> |m[n]| == cols
    requires c < cols
    ensures |r| == |m| && forall n :: 0 <= n < |m| ==> r[n] == m[n][c]
  {
    seq(|m|, n requires 0 <= n < |m| => m[n][c])
  }

  /** `m[mask, c]` on a (node, time) tensor: IndexError unless the mask
      covers every node and c is a column. */
  function MaskedColumn<T>(m: seq<seq<T>>, cols: nat, mask: seq<bool>, c: int): (r: Result<seq<T>>)
    requires forall n :: 0 <= n < |m| ==> |m[n]| == cols
    ensures r.Ok? <==> |mask| == |m| && ColOk(c, cols)
    ensures r.Err? ==> r.error == IndexError
    ensures r.Ok? ==> |r.value| == Count(mask)
    ensures r.Ok? ==> forall k :: 0 <= k < |r.value| ==> r.value[k] == m[KeptIndices(mask)[k]][Col(c, cols)]
  {
    if |mask| == |m| && ColOk(c, cols) then Ok(Select(Column(m, Col(c, cols), cols), mask))
    else Err(IndexError)
  }

  /** What `Dataset_pr_test.__getitem__` returns: the window, the step
      relative to the test period (`subgraph["time_idx"]`) and the targets
      of the nodes of the cell (`subgraph["y"]`). */
  datatype TestSample = TestSample(window: Window, timeIdx: int, y: seq<Option<real>>)

  /** `Dataset_pr_test.__getitem__`; `testY` is `test_graph.y`, a (node,
      time) matrix with `cols` columns. */
  function TestItem(d: Dataset<int>, timeMin: int, subgraphs: seq<Subgraph>, testY: Table, cols: nat, idx: int): (r: Result<TestSample>)
    requires Rectangular(testY, cols)
    ensures r.Err? ==> r.error in {IndexError, ZeroDivisionError, ShapeError}
    ensures (r.Err? && r.error == IndexError) <== !(-(Length(d) as int) <= idx < Length(d))
    ensures r.Ok? ==> CopyFits(r.value.window, d.input) && ColOk(r.value.timeIdx, cols)
    ensures r.Ok? ==> |r.value.y| <= |testY|
  {
    match KeyAt(d, idx)
    case Err(e) => Err(e)
    case Ok(k) =>
      match WindowOfKey(d, k)
      case Err(e) => Err(e)
      case Ok((key, w)) =>
        match PyIndex(subgraphs, key.spaceIdx)
        case None => Err(IndexError)
        case Some(sg) =>
          match MaskedColumn(testY, cols, sg.mask1Cell, key.timeIdx - timeMin)
          case Err(e) => Err(e)
          case Ok(y) => Ok(TestSample(w, key.timeIdx - timeMin, y))
  }

  /** The key of an example number built from step t and cell c decodes to
      that step and cell. */
  lemma {:induction false} KeyOfExample(d: Dataset<int>, idx: int, t: int, c: int)
    requires 0 <= idx < Length(d) && 0 <= c < SpaceOf(d.cfg)
    requires d.idxToKey[idx] == Encode(t, c, SpaceOf(d.cfg))
    requires WindowOfKey(d, d.idxToKey[idx]).Ok?
    ensures KeyAt(d, idx) == Ok(d.idxToKey[idx])
    ensures WindowOfKey(d, d.idxToKey[idx]).value.0.timeIdx == t
    ensures WindowOfKey(d, d.idxToKey[idx]).value.0.spaceIdx == c
  {
    DivModUnique(t, c, SpaceOf(d.cfg));
  }

  /** For an example number built from step t and cell c, the test sample
      has the step counted from the start of the test period, and `y` holds,
      in node order, column t - time_min of the nodes the cell's subgraph
      marks as its own. */
  lemma {:induction false} TestItemSpec(d: Dataset<int>, timeMin: int, subgraphs: seq<Subgraph>, testY: Table, cols: nat,
                                        idx: int, t: int, c: int)
    requires Rectangular(testY, cols)
    requires 0 <= idx < Length(d) && 0 <= c < SpaceOf(d.cfg) && c < |subgraphs|
    requires d.idxToKey[idx] == Encode(t, c, SpaceOf(d.cfg))
    requires WindowOfKey(d, d.idxToKey[idx]).Ok?
    ensures var r := TestItem(d, timeMin, subgraphs, testY, cols, idx);
            var mask := subgraphs[c].mask1Cell;
            && (r.Ok? <==> |mask| == |testY| && ColOk(t - timeMin, cols))
            && (r.Ok? ==>
                  && r.value.timeIdx == t - timeMin
                  && |r.value.y| == Count(mask)
                  && forall k :: 0 <= k < |r.value.y| ==> r.value.y[k] == testY[KeptIndices(mask)[k]][Col(t - timeMin, cols)])
  {
    KeyOfExample(d, idx, t, c);
  }
}
