/**
 * How a training example is addressed. Preprocessing numbers the cells of
 * the low-resolution grid row-major and flattens a (time, cell) pair into
 * one integer; the dataset classes split that integer back into a time
 * step, a cell, and the cell's row and column, and from those cut a fixed
 * window out of the low-resolution input.
 */
module IndexCodec {
  import opened Common

  /** Grid size and padding the datasets use when none is given. */
  const DefaultLatDim: nat := 16
  const DefaultLonDim: nat := 31
  const DefaultPad: int := 2

  /** Length of the time axis of the input window, and its lat/lon width
      (the buffer is `torch.zeros((25, 5, 5, 6, 6))`). */
  const WindowSteps: nat := 25
  const WindowWidth: nat := 6

  /** `space_low_res_dim = lat_dim * lon_dim`. */
  function SpaceDim(latDim: nat, lonDim: nat): nat { latDim * lonDim }

  /** Row-major cell number: `cell_idx = i * lon_dim + j`. */
  function CellIndex(i: int, j: int, lonDim: nat): int { i * lonDim + j }

  /** Flat example number: `k = t * space_low_res_dim + s`. */
  function Encode(t: int, s: int, space: nat): int { t * space + s }

  /** Splits a number by a positive divisor into quotient and remainder.
      Python's `//` and `%` floor; for a positive divisor that is exactly
      Dafny's Euclidean `/` and `%`, negative numbers included. */
  function DivMod(x: int, d: nat): (r: (int, int))
    requires d > 0
    ensures r.0 * d + r.1 == x
    ensures 0 <= r.1 < d
  {
    (x / d, x % d)
  }

  /** The quotient and remainder of `q * d + r` are q and r when 0 <= r < d. */
  lemma {:induction false} DivModUnique(q: int, r: int, d: nat)
    requires d > 0 && 0 <= r < d
    ensures DivMod(q * d + r, d) == (q, r)
  {
    var x := q * d + r;
    var (q', r') := DivMod(x, d);
    assert (q - q') * d == r' - r;
    if q' < q {
      assert (q - q') * d >= d by { MulMono(q - q', 1, d); }
    } else if q' > q {
      assert (q' - q) * d >= d by { MulMono(q' - q, 1, d); }
    }
  }

  lemma MulMono(a: int, b: int, d: nat)
    requires a >= b
    ensures a * d >= b * d
  {
    assert a * d - b * d == (a - b) * d;
  }

  /** A decoded example: `time_idx`, `space_idx`, `lat_idx`, `lon_idx`. */
  datatype Key = Key(timeIdx: int, spaceIdx: int, latIdx: int, lonIdx: int)

  /** Splits a cell number into row (`lat_idx`) and column (`lon_idx`). */
  function SplitCell(spaceIdx: int, lonDim: nat): (rc: (int, int))
    requires lonDim > 0
    ensures CellIndex(rc.0, rc.1, lonDim) == spaceIdx
    ensures 0 <= rc.1 < lonDim
    ensures 0 <= spaceIdx ==> 0 <= rc.0
  {
    var (q, r) := DivMod(spaceIdx, lonDim);
    assert 0 <= spaceIdx ==> 0 <= q by {
      if spaceIdx >= 0 && q < 0 { MulMono(-1, q, lonDim); }
    }
    (q, r)
  }

  /** Row and column of a cell of a latDim x lonDim grid. */
  function RowCol(c: int, latDim: nat, lonDim: nat): (rc: (int, int))
    requires 0 <= c < SpaceDim(latDim, lonDim)
    ensures 0 <= rc.0 < latDim && 0 <= rc.1 < lonDim
    ensures CellIndex(rc.0, rc.1, lonDim) == c
  {
    assert lonDim > 0;
    var (i, j) := SplitCell(c, lonDim);
    assert i < latDim by {
      if i >= latDim { MulMono(i, latDim, lonDim); }
    }
    (i, j)
  }

  /** Numbering a cell row-major and splitting the number again gives back
      its row and column. */
  lemma {:induction false} RowColCellIndex(i: int, j: int, latDim: nat, lonDim: nat)
    requires 0 <= i < latDim && 0 <= j < lonDim
    ensures 0 <= CellIndex(i, j, lonDim) < SpaceDim(latDim, lonDim)
    ensures RowCol(CellIndex(i, j, lonDim), latDim, lonDim) == (i, j)
  {
    MulMono(latDim - 1, i, lonDim);
    assert (latDim - 1) * lonDim + lonDim == latDim * lonDim;
    MulMono(i, 0, lonDim);
    DivModUnique(i, j, lonDim);
  }

  /** `__getitem__`'s decoding of a flat example number `k`. */
  function Decode(k: int, latDim: nat, lonDim: nat): (r: Key)
    requires latDim > 0 && lonDim > 0
    ensures Encode(r.timeIdx, r.spaceIdx, SpaceDim(latDim, lonDim)) == k
    ensures 0 <= r.spaceIdx < SpaceDim(latDim, lonDim)
    ensures CellIndex(r.latIdx, r.lonIdx, lonDim) == r.spaceIdx
    ensures 0 <= r.latIdx < latDim && 0 <= r.lonIdx < lonDim
  {
    var (t, s) := DivMod(k, SpaceDim(latDim, lonDim));
    var (i, j) := SplitCell(s, lonDim);
    assert i < latDim by {
      if i >= latDim { MulMono(i, latDim, lonDim); }
    }
    Key(t, s, i, j)
  }

  /** Decoding inverts the encoding of preprocessing: an example number built
      from time step t and cell (i, j) decodes to exactly t, the cell and its
      row and column. */
  lemma {:induction false} DecodeEncode(t: int, i: int, j: int, latDim: nat, lonDim: nat)
    requires 0 <= i < latDim && 0 <= j < lonDim
    ensures 0 <= CellIndex(i, j, lonDim) < SpaceDim(latDim, lonDim)
    ensures Decode(Encode(t, CellIndex(i, j, lonDim), SpaceDim(latDim, lonDim)), latDim, lonDim)
         == Key(t, CellIndex(i, j, lonDim), i, j)
  {
    var s := CellIndex(i, j, lonDim);
    MulMono(latDim - 1, i, lonDim);
    assert (latDim - 1) * lonDim + lonDim == latDim * lonDim;
    assert 0 <= s < SpaceDim(latDim, lonDim) by { MulMono(i, 0, lonDim); }
    DivModUnique(t, s, SpaceDim(latDim, lonDim));
    DivModUnique(i, j, lonDim);
  }

  /** The 3x3 block of cell numbers around row i, column j, row-major:
      `[ii * lon_dim + jj for ii in range(i-1, i+2) for jj in range(j-1, j+2)]`. */
  function Neighbourhood(i: int, j: int, lonDim: nat): (r: seq<int>)
    ensures |r| == 9
    ensures forall n :: 0 <= n < 9 ==> r[n] == CellIndex(i - 1 + n / 3, j - 1 + n % 3, lonDim)
  {
    [CellIndex(i - 1, j - 1, lonDim), CellIndex(i - 1, j, lonDim), CellIndex(i - 1, j + 1, lonDim),
     CellIndex(i, j - 1, lonDim),     CellIndex(i, j, lonDim),     CellIndex(i, j + 1, lonDim),
     CellIndex(i + 1, j - 1, lonDim), CellIndex(i + 1, j, lonDim), CellIndex(i + 1, j + 1, lonDim)]
  }

  /** A cell with a full ring of neighbours: not in the first or last row or column. */
  predicate Interior(i: int, j: int, latDim: nat, lonDim: nat) {
    1 <= i <= latDim - 2 && 1 <= j <= lonDim - 2
  }

  /** The centre of the block is the cell itself, and around an interior cell
      all nine numbers are cells of the grid. */
  lemma {:induction false} NeighbourhoodInGrid(i: int, j: int, latDim: nat, lonDim: nat)
    ensures Neighbourhood(i, j, lonDim)[4] == CellIndex(i, j, lonDim)
    ensures Interior(i, j, latDim, lonDim) ==>
      forall c :: c in Neighbourhood(i, j, lonDim) ==> 0 <= c < SpaceDim(latDim, lonDim)
  {
    if Interior(i, j, latDim, lonDim) {
      forall a, b | i - 1 <= a <= i + 1 && j - 1 <= b <= j + 1
        ensures 0 <= CellIndex(a, b, lonDim) < SpaceDim(latDim, lonDim)
      {
        CellInGrid(a, b, latDim, lonDim);
      }
    }
  }

  /** A row and column of the grid number a cell of the grid. */
  lemma CellInGrid(i: int, j: int, latDim: nat, lonDim: nat)
    requires 0 <= i < latDim && 0 <= j < lonDim
    ensures 0 <= CellIndex(i, j, lonDim) < SpaceDim(latDim, lonDim)
  {
    MulMono(latDim - 1, i, lonDim);
    assert (latDim - 1) * lonDim + lonDim == latDim * lonDim;
    MulMono(i, 0, lonDim);
  }

  // ---------------------------------------------------------------------
  // The input window
  // ---------------------------------------------------------------------

  /** Raw Python slice bounds of the input window. */
  datatype Window = Window(timeStart: int, timeStop: int,
                           latStart: int, latStop: int,
                           lonStart: int, lonStop: int)

  /** `input[time_idx-24 : time_idx+1, :, :, lat_idx-pad+2 : lat_idx+pad+4,
      lon_idx-pad+2 : lon_idx+pad+4]`. */
  function InputWindow(timeIdx: int, latIdx: int, lonIdx: int, pad: int): (w: Window)
    ensures w.timeStop - w.timeStart == WindowSteps
    ensures w.latStop - w.latStart == 2 * pad + 2 && w.lonStop - w.lonStart == 2 * pad + 2
  {
    Window(timeIdx - 24, timeIdx + 1, latIdx - pad + 2, latIdx + pad + 4, lonIdx - pad + 2, lonIdx + pad + 4)
  }

  /** Lengths of the time, lat and lon axes of the stored input tensor (the
      variable and level axes are taken to be the buffer's 5 and 5). */
  datatype InputShape = InputShape(steps: nat, lats: nat, lons: nat)

  /** Torch broadcasting of one axis into the buffer: equal length, or 1. */
  predicate Broadcasts(len: nat, target: nat) { len == target || len == 1 }

  /** `input[:] = self.input[...]` succeeds iff every sliced axis broadcasts. */
  predicate CopyFits(w: Window, shape: InputShape) {
    && Broadcasts(SliceLength(w.timeStart, w.timeStop, shape.steps), WindowSteps)
    && Broadcasts(SliceLength(w.latStart, w.latStop, shape.lats), WindowWidth)
    && Broadcasts(SliceLength(w.lonStart, w.lonStop, shape.lons), WindowWidth)
  }

  /** For a non-negative time step the 25-step slice has all 25 steps exactly
      when the step is at least 24 and inside the stored time axis: earlier
      steps wrap around to the end of the axis (Python slicing) and come up short. */
  lemma {:induction false} TimeSliceExact(timeIdx: int, steps: nat)
    requires 0 <= timeIdx
    ensures SliceLength(timeIdx - 24, timeIdx + 1, steps) == WindowSteps <==> 24 <= timeIdx < steps
  {
    var a, b := SliceBound(timeIdx - 24, steps), SliceBound(timeIdx + 1, steps);
    if timeIdx < 24 {
      // the start wraps to the end of the axis, or is clamped to 0
      assert b <= timeIdx + 1;
      if timeIdx - 24 + steps >= 0 {
        assert a == timeIdx - 24 + steps;
      } else {
        assert a == 0;
      }
    } else if steps <= timeIdx {
      assert b == steps;
    }
  }

  /** A lat/lon slice that starts at or after 0 and ends inside the axis has
      width 2*pad+2 (for any pad that does not make the slice empty), so it
      fills the 6-wide buffer exactly when pad is 2. */
  lemma {:induction false} SpaceSliceWidth(idx: int, pad: int, n: nat)
    requires -1 <= pad
    requires 0 <= idx - pad + 2 && idx + pad + 4 <= n
    ensures SliceLength(idx - pad + 2, idx + pad + 4, n) == 2 * pad + 2
    ensures SliceLength(idx - pad + 2, idx + pad + 4, n) == WindowWidth <==> pad == 2
  {
  }

  /** With the default padding, a window around a time step >= 24 that lies
      inside the stored input copies without broadcasting. */
  lemma {:induction false} WindowFits(timeIdx: int, latIdx: int, lonIdx: int, shape: InputShape)
    requires 24 <= timeIdx < shape.steps
    requires 0 <= latIdx && latIdx + WindowWidth <= shape.lats
    requires 0 <= lonIdx && lonIdx + WindowWidth <= shape.lons
    ensures var w := InputWindow(timeIdx, latIdx, lonIdx, DefaultPad);
            && CopyFits(w, shape)
            && SliceLength(w.timeStart, w.timeStop, shape.steps) == WindowSteps
            && SliceLength(w.latStart, w.latStop, shape.lats) == WindowWidth
            && SliceLength(w.lonStart, w.lonStop, shape.lons) == WindowWidth
  {
    TimeSliceExact(timeIdx, shape.steps);
    SpaceSliceWidth(latIdx, DefaultPad, shape.lats);
    SpaceSliceWidth(lonIdx, DefaultPad, shape.lons);
  }
}
