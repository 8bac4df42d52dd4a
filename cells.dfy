/**
 * Mapping high-resolution nodes to the cells of the low-resolution grid:
 * `select_nodes` for one cell, and the row-major scan over all cells that
 * builds the two membership matrices, the signed cell number of every node,
 * `valid_examples_space` and `graph_cells_space`.
 *
 * Cell bounds are closed on both ends, as the code has them, so a node on
 * the border between two cells belongs to both 1-cell masks and keeps the
 * number of the cell scanned last.
 */
module Cells {
  import opened Common
  import opened IndexCodec
  import opened Window

  // ---------------------------------------------------------------------
  // One cell
  // ---------------------------------------------------------------------

  /** 1-cell box: `[lon_c, lon_c + offset] x [lat_c, lat_c + offset]`. */
  predicate InCellBox(lonCentre: real, latCentre: real, offset: real, x: real, y: real) {
    lonCentre <= x <= lonCentre + offset && latCentre <= y <= latCentre + offset
  }

  /** 9-cell membership: the box padded by offset9 on every side, OR'd with
      the 1-cell box. */
  predicate InNineBox(lonCentre: real, latCentre: real, offset: real, offset9: real, x: real, y: real) {
    || InCellBox(lonCentre, latCentre, offset, x, y)
    || (lonCentre - offset9 <= x <= lonCentre + offset + offset9
        && latCentre - offset9 <= y <= latCentre + offset + offset9)
  }

  /** `np.all(np.isnan(pr[:, n]))`: node n has no precipitation value at all
      (true, as numpy has it, when there are no time steps). */
  predicate AllNaN(h: Nodes, n: nat)
    requires WellShaped(h) && n < |h.lon|
  {
    forall t :: 0 <= t < |h.pr| ==> h.pr[t][n].None?
  }

  /** Some node of the 1-cell box has at least one non-NaN value. */
  predicate BoxHasData(lonCentre: real, latCentre: real, offset: real, h: Nodes)
    requires WellShaped(h)
  {
    exists n :: 0 <= n < |h.lon| && InCellBox(lonCentre, latCentre, offset, h.lon[n], h.lat[n]) && !AllNaN(h, n)
  }

  /** `select_nodes`: writes row cellIdx of both membership matrices, gives
      every member node the cell number (negated when its own series is all
      NaN; negating cell 0 changes nothing) and reports whether some member
      has data. Other rows and non-member nodes are left as they were. */
  method SelectNodes(lonCentre: real, latCentre: real, h: Nodes, cellIdx: int,
                     cellIdxArray: array<int>, mask1: array2<bool>, mask9: array2<bool>,
                     offset: real, offset9: real)
    returns (flagValidExample: bool)
    requires WellShaped(h)
    requires cellIdxArray.Length == |h.lon| == mask1.Length1 == mask9.Length1
    requires 0 <= cellIdx < mask1.Length0 && cellIdx < mask9.Length0
    requires mask1 != mask9
    modifies cellIdxArray, mask1, mask9
    ensures forall c, n :: 0 <= c < mask1.Length0 && 0 <= n < mask1.Length1 ==>
              mask1[c, n] == if c == cellIdx then InCellBox(lonCentre, latCentre, offset, h.lon[n], h.lat[n])
                             else old(mask1[c, n])
    ensures forall c, n :: 0 <= c < mask9.Length0 && 0 <= n < mask9.Length1 ==>
              mask9[c, n] == if c == cellIdx then InNineBox(lonCentre, latCentre, offset, offset9, h.lon[n], h.lat[n])
                             else old(mask9[c, n])
    ensures forall n :: 0 <= n < cellIdxArray.Length ==>
              cellIdxArray[n] == if InCellBox(lonCentre, latCentre, offset, h.lon[n], h.lat[n])
                                 then (if AllNaN(h, n) then -cellIdx else cellIdx)
                                 else old(cellIdxArray[n])
    ensures flagValidExample <==> BoxHasData(lonCentre, latCentre, offset, h)
    ensures forall n :: 0 <= n < mask1.Length1 && mask1[cellIdx, n] ==> mask9[cellIdx, n]
  {
    forall n | 0 <= n < mask1.Length1 {
      mask1[cellIdx, n] := InCellBox(lonCentre, latCentre, offset, h.lon[n], h.lat[n]);
    }
    forall n | 0 <= n < mask9.Length1 {
      mask9[cellIdx, n] := InNineBox(lonCentre, latCentre, offset, offset9, h.lon[n], h.lat[n]);
    }
    forall n | 0 <= n < cellIdxArray.Length && InCellBox(lonCentre, latCentre, offset, h.lon[n], h.lat[n]) {
      cellIdxArray[n] := cellIdx;
    }
    flagValidExample := false;
    var n := 0;
    while n < cellIdxArray.Length
      modifies cellIdxArray
      invariant 0 <= n <= cellIdxArray.Length
      invariant forall m :: 0 <= m < cellIdxArray.Length ==>
                  cellIdxArray[m] == if InCellBox(lonCentre, latCentre, offset, h.lon[m], h.lat[m])
                                     then (if m < n && AllNaN(h, m) then -cellIdx else cellIdx)
                                     else old(cellIdxArray[m])
      invariant flagValidExample <==>
                  exists m :: 0 <= m < n && InCellBox(lonCentre, latCentre, offset, h.lon[m], h.lat[m]) && !AllNaN(h, m)
    {
      if InCellBox(lonCentre, latCentre, offset, h.lon[n], h.lat[n]) {
        if AllNaN(h, n) {
          cellIdxArray[n] := cellIdxArray[n] * -1;
        } else {
          flagValidExample := true;
        }
      }
      n := n + 1;
    }
  }

  // ---------------------------------------------------------------------
  // The grid
  // ---------------------------------------------------------------------

  /** The low-resolution grid: the lower-left corners of its columns
      (`lon_low_res_array`) and rows (`lat_low_res_array`), the cell size
      (`interval`) and the 9-cell padding (`offset_9_cells`). */
  datatype Grid = Grid(lonGrid: seq<real>, latGrid: seq<real>, interval: real, offset9: real)

  function LonDim(g: Grid): nat { |g.lonGrid| }
  function LatDim(g: Grid): nat { |g.latGrid| }
  function Space(g: Grid): nat { SpaceDim(LatDim(g), LonDim(g)) }

  predicate IsCell(g: Grid, c: int) { 0 <= c < Space(g) }

  /** Node n lies in the 1-cell box of cell c. */
  predicate InCell(g: Grid, h: Nodes, c: int, n: nat)
    requires WellShaped(h) && IsCell(g, c) && n < |h.lon|
  {
    var (i, j) := RowCol(c, LatDim(g), LonDim(g));
    InCellBox(g.lonGrid[j], g.latGrid[i], g.interval, h.lon[n], h.lat[n])
  }

  /** Node n lies in the 9-cell box of cell c. */
  predicate InNineCells(g: Grid, h: Nodes, c: int, n: nat)
    requires WellShaped(h) && IsCell(g, c) && n < |h.lon|
  {
    var (i, j) := RowCol(c, LatDim(g), LonDim(g));
    InNineBox(g.lonGrid[j], g.latGrid[i], g.interval, g.offset9, h.lon[n], h.lat[n])
  }

  /** The flag `select_nodes` returns for cell c. */
  predicate HasData(g: Grid, h: Nodes, c: int)
    requires WellShaped(h) && IsCell(g, c)
  {
    var (i, j) := RowCol(c, LatDim(g), LonDim(g));
    BoxHasData(g.lonGrid[j], g.latGrid[i], g.interval, h)
  }

  /** A cell outside the first and last row and column. */
  predicate InteriorCell(g: Grid, c: int)
    requires IsCell(g, c)
  {
    var (i, j) := RowCol(c, LatDim(g), LonDim(g));
    Interior(i, j, LatDim(g), LonDim(g))
  }

  /** The 3x3 block of cell numbers centred on cell c. */
  function NeighbourhoodOf(g: Grid, c: int): seq<int>
    requires IsCell(g, c)
  {
    var (i, j) := RowCol(c, LatDim(g), LonDim(g));
    Neighbourhood(i, j, LonDim(g))
  }

  // ---------------------------------------------------------------------
  // The initial list of example cells
  // ---------------------------------------------------------------------

  /** `[ii * lon_dim + jj for jj in range(1, lon_dim - 1)]`. */
  function InteriorRow(ii: int, lonDim: nat): seq<int> {
    seq(if lonDim >= 2 then lonDim - 2 else 0, k => CellIndex(ii, k + 1, lonDim))
  }

  /** Rows lo .. hi-1 of the interior, one after the other. */
  function InteriorRows(lo: int, hi: int, lonDim: nat): seq<int>
    decreases hi - lo
  {
    if lo >= hi then [] else InteriorRow(lo, lonDim) + InteriorRows(lo + 1, hi, lonDim)
  }

  /** The initial `valid_examples_space`: every interior cell, row-major. */
  function InteriorCells(latDim: nat, lonDim: nat): seq<int> {
    InteriorRows(1, latDim - 1, lonDim)
  }

  /** Cell x lies in rows lo .. hi-1 and is not in the first or last column. */
  predicate InRows(x: int, lo: int, hi: int, lonDim: nat)
    requires lonDim > 0
  {
    lo <= x / lonDim < hi && 1 <= x % lonDim <= lonDim - 2
  }

  /** Cells of different rows are ordered by their rows. */
  lemma RowOrder(x: int, y: int, lonDim: nat)
    requires lonDim > 0 && x / lonDim < y / lonDim
    ensures x < y
  {
    MulMono(y / lonDim, x / lonDim + 1, lonDim);
  }

  lemma {:induction false} InteriorRowSpec(ii: int, lonDim: nat)
    requires lonDim > 0
    ensures StrictlyIncreasing(InteriorRow(ii, lonDim))
    ensures forall x :: x in InteriorRow(ii, lonDim) <==> InRows(x, ii, ii + 1, lonDim)
  {
    var row := InteriorRow(ii, lonDim);
    forall x | x in row ensures InRows(x, ii, ii + 1, lonDim) {
      var k :| 0 <= k < |row| && row[k] == x;
      DivModUnique(ii, k + 1, lonDim);
    }
    forall x | InRows(x, ii, ii + 1, lonDim) ensures x in row {
      assert x == ii * lonDim + x % lonDim;
      assert row[x % lonDim - 1] == x;
    }
  }

  lemma {:induction false} InteriorRowsSpec(lo: int, hi: int, lonDim: nat)
    requires lonDim > 0
    ensures StrictlyIncreasing(InteriorRows(lo, hi, lonDim))
    ensures forall x :: x in InteriorRows(lo, hi, lonDim) <==> InRows(x, lo, hi, lonDim)
    decreases hi - lo
  {
    if lo < hi {
      var row := InteriorRow(lo, lonDim);
      var rest := InteriorRows(lo + 1, hi, lonDim);
      InteriorRowSpec(lo, lonDim);
      InteriorRowsSpec(lo + 1, hi, lonDim);
      forall x, y | x in row && y in rest ensures x < y {
        RowOrder(x, y, lonDim);
      }
      StrictConcat(row, rest);
    }
  }

  /** A grid narrower than three columns has no interior cells. */
  lemma {:induction false} NarrowRows(lo: int, hi: int, lonDim: nat)
    requires lonDim < 3
    ensures InteriorRows(lo, hi, lonDim) == []
    decreases hi - lo
  {
    if lo < hi {
      NarrowRows(lo + 1, hi, lonDim);
    }
  }

  /** The comprehension lists exactly the interior cells, in increasing order. */
  lemma {:induction false} InteriorCellsSpec(g: Grid)
    ensures StrictlyIncreasing(InteriorCells(LatDim(g), LonDim(g)))
    ensures forall x :: x in InteriorCells(LatDim(g), LonDim(g)) <==> IsCell(g, x) && InteriorCell(g, x)
  {
    var latDim, lonDim := LatDim(g), LonDim(g);
    if lonDim == 0 {
      NarrowRows(1, latDim as int - 1, lonDim);
    } else {
      InteriorRowsSpec(1, latDim as int - 1, lonDim);
      DivModUnique(latDim, 0, lonDim);
      DivModUnique(0, 0, lonDim);
      forall x | x in InteriorCells(latDim, lonDim) ensures IsCell(g, x) {
        RowOrder(0, x, lonDim);
        RowOrder(x, latDim * lonDim, lonDim);
      }
    }
  }

  // ---------------------------------------------------------------------
  // What the scan computes, cell by cell
  // ---------------------------------------------------------------------

  /** `cell_idx_array[n]` after the first d cells of the scan. */
  function Assigned(g: Grid, h: Nodes, d: nat, n: nat): (r: int)
    requires WellShaped(h) && d <= Space(g) && n < |h.lon|
    ensures r == 0 || Abs(r) < d
  {
    if d == 0 then 0
    else if InCell(g, h, d - 1, n) then (if AllNaN(h, n) then -(d - 1) else d - 1)
    else Assigned(g, h, d - 1, n)
  }

  /** A node keeps the number of the last scanned cell whose box holds it,
      negative when its own series is all NaN. */
  lemma {:induction false} AssignedIsLastCell(g: Grid, h: Nodes, d: nat, n: nat, c: int)
    requires WellShaped(h) && d <= Space(g) && n < |h.lon|
    requires 0 <= c < d && InCell(g, h, c, n)
    requires forall c' :: c < c' < d ==> !InCell(g, h, c', n)
    ensures Assigned(g, h, d, n) == if AllNaN(h, n) then -c else c
  {
    if c < d - 1 {
      AssignedIsLastCell(g, h, d - 1, n, c);
    }
  }

  /** A node that no scanned box holds keeps its initial 0. */
  lemma {:induction false} AssignedUnowned(g: Grid, h: Nodes, d: nat, n: nat)
    requires WellShaped(h) && d <= Space(g) && n < |h.lon|
    requires forall c :: 0 <= c < d ==> !InCell(g, h, c, n)
    ensures Assigned(g, h, d, n) == 0
  {
    if d > 0 {
      AssignedUnowned(g, h, d - 1, n);
    }
  }

  /** The absolute value of a node's entry is a cell holding the node, and
      the sign says whether the node has data. */
  lemma {:induction false} AssignedCellHoldsNode(g: Grid, h: Nodes, d: nat, n: nat)
    requires WellShaped(h) && d <= Space(g) && n < |h.lon|
    ensures Abs(Assigned(g, h, d, n)) < d || Assigned(g, h, d, n) == 0
    ensures Assigned(g, h, d, n) != 0 ==> InCell(g, h, Abs(Assigned(g, h, d, n)), n)
    ensures Assigned(g, h, d, n) < 0 ==> AllNaN(h, n)
    ensures Assigned(g, h, d, n) > 0 ==> !AllNaN(h, n)
  {
    if d > 0 && !InCell(g, h, d - 1, n) {
      AssignedCellHoldsNode(g, h, d - 1, n);
    }
  }

  /** The two lists the scan accumulates: `valid_examples_space` and the
      unsorted, repeated `graph_cells_space`. */
  datatype Spaces = Spaces(valid: seq<int>, acc: seq<int>)

  /** Element-wise `abs`. */
  function AbsAll(s: seq<int>): (r: seq<int>)
    ensures |r| == |s| && forall k :: 0 <= k < |s| ==> r[k] == Abs(s[k])
  {
    seq(|s|, k requires 0 <= k < |s| => Abs(s[k]))
  }

  /** The two lists after the first d cells of the scan: a cell still listed
      as an example either adds its 3x3 block (it has data) or is removed. */
  function ScanSpaces(g: Grid, h: Nodes, d: nat): (r: Spaces)
    requires WellShaped(h) && d <= Space(g)
    ensures forall k :: 0 <= k < |r.acc| ==> 0 <= r.acc[k]
  {
    if d == 0 then Spaces(InteriorCells(LatDim(g), LonDim(g)), [])
    else
      var st := ScanSpaces(g, h, d - 1);
      var c := d - 1;
      if c in st.valid then
        if HasData(g, h, c) then Spaces(st.valid, st.acc + AbsAll(NeighbourhoodOf(g, c)))
        else Spaces(RemoveFirst(st.valid, c).value, st.acc)
      else st
  }

  /** `valid_examples_space` after `valid_examples_space.sort()`. */
  function ValidExamplesSpace(g: Grid, h: Nodes): (r: seq<int>)
    requires WellShaped(h)
    ensures NonDecreasing(r)
    ensures forall c :: c in r ==> IsCell(g, c) && InteriorCell(g, c) && HasData(g, h, c)
  {
    var valid := ScanSpaces(g, h, Space(g)).valid;
    ScanSpacesValid(g, h, Space(g));
    assert forall c :: c in Sort(valid) ==> c in multiset(Sort(valid));
    Sort(valid)
  }

  /** `graph_cells_space` after `list(set(...))` and `.sort()`. */
  function GraphCellsSpace(g: Grid, h: Nodes): seq<int>
    requires WellShaped(h)
  {
    SortedSet(ScanSpaces(g, h, Space(g)).acc)
  }

  /** After d cells, the example list is increasing and holds the interior
      cells not yet scanned plus the scanned interior cells that have data. */
  lemma {:induction false} ScanSpacesValid(g: Grid, h: Nodes, d: nat)
    requires WellShaped(h) && d <= Space(g)
    ensures StrictlyIncreasing(ScanSpaces(g, h, d).valid)
    ensures forall c :: c in ScanSpaces(g, h, d).valid <==>
              IsCell(g, c) && InteriorCell(g, c) && (c >= d || HasData(g, h, c))
  {
    if d == 0 {
      InteriorCellsSpec(g);
    } else {
      ScanSpacesValid(g, h, d - 1);
      var st := ScanSpaces(g, h, d - 1);
      var c := d - 1;
      if c in st.valid && !HasData(g, h, c) {
        RemoveFirstStrict(st.valid, c);
        assert ScanSpaces(g, h, d).valid == RemoveFirst(st.valid, c).value;
      } else {
        assert ScanSpaces(g, h, d).valid == st.valid;
      }
    }
  }

  /** A cell that ends up in `valid_examples_space`. */
  predicate ExampleCell(g: Grid, h: Nodes, v: int)
    requires WellShaped(h)
  {
    IsCell(g, v) && InteriorCell(g, v) && HasData(g, h, v)
  }

  /** Around an interior cell, `abs` leaves the 3x3 block unchanged. */
  lemma InteriorBlockAbs(g: Grid, c: int)
    requires IsCell(g, c) && InteriorCell(g, c)
    ensures AbsAll(NeighbourhoodOf(g, c)) == NeighbourhoodOf(g, c)
  {
    var (i, j) := RowCol(c, LatDim(g), LonDim(g));
    NeighbourhoodInGrid(i, j, LatDim(g), LonDim(g));
  }

  /** x lies in the 3x3 block of some example cell below d. */
  predicate Covered(g: Grid, h: Nodes, d: nat, x: int)
    requires WellShaped(h)
  {
    exists v :: 0 <= v < d && ExampleCell(g, h, v) && x in NeighbourhoodOf(g, v)
  }

  /** Cell c adds its 3x3 block to `graph_cells_space` exactly when it is an
      example cell. */
  lemma {:induction false} AccUnfold(g: Grid, h: Nodes, d: nat)
    requires WellShaped(h) && 0 < d <= Space(g)
    ensures ScanSpaces(g, h, d).acc ==
              if ExampleCell(g, h, d - 1) then ScanSpaces(g, h, d - 1).acc + NeighbourhoodOf(g, d - 1)
              else ScanSpaces(g, h, d - 1).acc
  {
    ScanSpacesValid(g, h, d - 1);
    var st := ScanSpaces(g, h, d - 1);
    var c := d - 1;
    assert c in st.valid <==> IsCell(g, c) && InteriorCell(g, c);
    if ExampleCell(g, h, c) {
      InteriorBlockAbs(g, c);
      assert ScanSpaces(g, h, d).acc == st.acc + AbsAll(NeighbourhoodOf(g, c));
    } else {
      assert ScanSpaces(g, h, d).acc == st.acc;
    }
  }

  /** One step of the scan keeps the description of the accumulated list. */
  lemma AccStep(g: Grid, h: Nodes, c: nat, prev: seq<int>, acc: seq<int>)
    requires WellShaped(h) && c < Space(g)
    requires if ExampleCell(g, h, c) then acc == prev + NeighbourhoodOf(g, c) else acc == prev
    requires forall x :: x in prev <==> Covered(g, h, c, x)
    ensures forall x :: x in acc <==> Covered(g, h, c + 1, x)
  {
    forall x | x in acc ensures Covered(g, h, c + 1, x) {
      if x !in prev {
        assert ExampleCell(g, h, c) && x in NeighbourhoodOf(g, c);
      } else {
        var v :| 0 <= v < c && ExampleCell(g, h, v) && x in NeighbourhoodOf(g, v);
        assert 0 <= v < c + 1;
      }
    }
    forall x | Covered(g, h, c + 1, x) ensures x in acc {
      var v :| 0 <= v < c + 1 && ExampleCell(g, h, v) && x in NeighbourhoodOf(g, v);
      if v < c {
        assert Covered(g, h, c, x);
      }
    }
  }

  /** After d cells, the accumulated list holds exactly the 3x3 blocks of
      the scanned example cells. */
  lemma {:induction false} ScanSpacesAcc(g: Grid, h: Nodes, d: nat)
    requires WellShaped(h) && d <= Space(g)
    ensures forall x :: x in ScanSpaces(g, h, d).acc <==> Covered(g, h, d, x)
  {
    if d > 0 {
      ScanSpacesAcc(g, h, d - 1);
      AccUnfold(g, h, d);
      AccStep(g, h, d - 1, ScanSpaces(g, h, d - 1).acc, ScanSpaces(g, h, d).acc);
    }
  }

  /** `valid_examples_space` is sorted and holds exactly the interior cells
      whose flag was true. */
  lemma {:induction false} ValidExamplesSpaceSpec(g: Grid, h: Nodes)
    requires WellShaped(h)
    ensures StrictlyIncreasing(ValidExamplesSpace(g, h))
    ensures forall c :: c in ValidExamplesSpace(g, h) <==> IsCell(g, c) && InteriorCell(g, c) && HasData(g, h, c)
  {
    var v := ScanSpaces(g, h, Space(g)).valid;
    ScanSpacesValid(g, h, Space(g));
    SortSorted(v);
  }

  /** `graph_cells_space` is sorted without repeats, contains every example
      cell, and holds exactly the cells of the 3x3 blocks around example
      cells, all of which are cells of the grid. */
  lemma {:induction false} GraphCellsSpaceSpec(g: Grid, h: Nodes)
    requires WellShaped(h)
    ensures StrictlyIncreasing(GraphCellsSpace(g, h))
    ensures forall v :: v in ValidExamplesSpace(g, h) ==> v in GraphCellsSpace(g, h)
    ensures forall x :: x in GraphCellsSpace(g, h) <==>
              exists v :: v in ValidExamplesSpace(g, h) && IsCell(g, v) && x in NeighbourhoodOf(g, v)
    ensures forall x :: x in GraphCellsSpace(g, h) ==> IsCell(g, x)
  {
    ValidExamplesSpaceSpec(g, h);
    ScanSpacesAcc(g, h, Space(g));
    var valid := ValidExamplesSpace(g, h);
    var graph := GraphCellsSpace(g, h);
    assert forall x :: x in graph <==> Covered(g, h, Space(g), x);
    forall x | x in graph
      ensures IsCell(g, x)
      ensures exists v :: v in valid && IsCell(g, v) && x in NeighbourhoodOf(g, v)
    {
      var v :| 0 <= v < Space(g) && ExampleCell(g, h, v) && x in NeighbourhoodOf(g, v);
      assert v in valid;
      var (i, j) := RowCol(v, LatDim(g), LonDim(g));
      NeighbourhoodInGrid(i, j, LatDim(g), LonDim(g));
    }
    forall x, v | v in valid && IsCell(g, v) && x in NeighbourhoodOf(g, v) ensures x in graph {
      assert ExampleCell(g, h, v);
      assert Covered(g, h, Space(g), x);
    }
    forall v | v in valid ensures v in graph {
      var (i, j) := RowCol(v, LatDim(g), LonDim(g));
      NeighbourhoodInGrid(i, j, LatDim(g), LonDim(g));
      assert v in NeighbourhoodOf(g, v);
    }
  }

  // ---------------------------------------------------------------------
  // The scan
  // ---------------------------------------------------------------------

  /** The boxes of cell c, at row i and column j, as `select_nodes` sees them. */
  lemma CellAt(g: Grid, h: Nodes, c: int, i: int, j: int, n: nat)
    requires WellShaped(h) && IsCell(g, c) && RowCol(c, LatDim(g), LonDim(g)) == (i, j) && n < |h.lon|
    ensures InCell(g, h, c, n) == InCellBox(g.lonGrid[j], g.latGrid[i], g.interval, h.lon[n], h.lat[n])
    ensures InNineCells(g, h, c, n) == InNineBox(g.lonGrid[j], g.latGrid[i], g.interval, g.offset9, h.lon[n], h.lat[n])
    ensures Assigned(g, h, c + 1, n) ==
              if InCell(g, h, c, n) then (if AllNaN(h, n) then -c else c) else Assigned(g, h, c, n)
  {
  }

  /** One cell of the scan, as the loop body performs it. */
  lemma ScanSpacesStep(g: Grid, h: Nodes, c: int, i: int, j: int, valid: seq<int>, acc: seq<int>, flag: bool)
    requires WellShaped(h) && IsCell(g, c) && RowCol(c, LatDim(g), LonDim(g)) == (i, j)
    requires ScanSpaces(g, h, c) == Spaces(valid, acc)
    requires flag <==> HasData(g, h, c)
    ensures ScanSpaces(g, h, c + 1) ==
              if c in valid then
                if flag then Spaces(valid, acc + AbsAll(Neighbourhood(i, j, LonDim(g))))
                else Spaces(RemoveFirst(valid, c).value, acc)
              else Spaces(valid, acc)
  {
  }

  /** The cells of the scan so far are mapped: rows of the matrices and
      the signed cell numbers agree with the first `done` cells. */
  predicate Mapped(g: Grid, h: Nodes, done: nat, cellIdxArray: array<int>, mask1: array2<bool>, mask9: array2<bool>)
    requires WellShaped(h) && done <= Space(g)
    requires cellIdxArray.Length == |h.lon| == mask1.Length1 == mask9.Length1
    requires mask1.Length0 == mask9.Length0 == Space(g)
    reads cellIdxArray, mask1, mask9
  {
    && (forall c, n :: 0 <= c < done && 0 <= n < |h.lon| ==>
          mask1[c, n] == InCell(g, h, c, n) && mask9[c, n] == InNineCells(g, h, c, n))
    && (forall n :: 0 <= n < |h.lon| ==> cellIdxArray[n] == Assigned(g, h, done, n))
  }

  /** After `select_nodes` has written cell c at row i and column j, the
      first c + 1 cells are mapped. */
  lemma MappedStep(g: Grid, h: Nodes, c: int, i: int, j: int,
                   cellIdxArray: array<int>, mask1: array2<bool>, mask9: array2<bool>, before: seq<int>)
    requires WellShaped(h) && IsCell(g, c) && RowCol(c, LatDim(g), LonDim(g)) == (i, j)
    requires cellIdxArray.Length == |h.lon| == mask1.Length1 == mask9.Length1 == |before|
    requires mask1.Length0 == mask9.Length0 == Space(g)
    requires forall c', n :: 0 <= c' < c && 0 <= n < |h.lon| ==>
               mask1[c', n] == InCell(g, h, c', n) && mask9[c', n] == InNineCells(g, h, c', n)
    requires forall n :: 0 <= n < |h.lon| ==> before[n] == Assigned(g, h, c, n)
    requires forall n :: 0 <= n < |h.lon| ==>
               mask1[c, n] == InCellBox(g.lonGrid[j], g.latGrid[i], g.interval, h.lon[n], h.lat[n])
    requires forall n :: 0 <= n < |h.lon| ==>
               mask9[c, n] == InNineBox(g.lonGrid[j], g.latGrid[i], g.interval, g.offset9, h.lon[n], h.lat[n])
    requires forall n :: 0 <= n < |h.lon| ==>
               cellIdxArray[n] == if InCellBox(g.lonGrid[j], g.latGrid[i], g.interval, h.lon[n], h.lat[n])
                                  then (if AllNaN(h, n) then -c else c)
                                  else before[n]
    ensures Mapped(g, h, c + 1, cellIdxArray, mask1, mask9)
  {
    forall n | 0 <= n < |h.lon|
      ensures mask1[c, n] == InCell(g, h, c, n) && mask9[c, n] == InNineCells(g, h, c, n)
      ensures cellIdxArray[n] == Assigned(g, h, c + 1, n)
    {
      CellAt(g, h, c, i, j, n);
    }
  }

  /** One pass of the loop body: `select_nodes` for cell c at row i and
      column j, then the update of the example and graph cell lists. */
  method ScanCell(g: Grid, h: Nodes, i: int, j: int, c: int,
                  cellIdxArray: array<int>, mask1: array2<bool>, mask9: array2<bool>,
                  valid0: seq<int>, acc0: seq<int>)
    returns (valid: seq<int>, acc: seq<int>)
    requires WellShaped(h) && 0 <= i < LatDim(g) && 0 <= j < LonDim(g) && c == CellIndex(i, j, LonDim(g))
    requires cellIdxArray.Length == |h.lon| == mask1.Length1 == mask9.Length1
    requires mask1.Length0 == mask9.Length0 == Space(g) && mask1 != mask9
    requires c < Space(g) && Mapped(g, h, c, cellIdxArray, mask1, mask9)
    requires Spaces(valid0, acc0) == ScanSpaces(g, h, c)
    modifies cellIdxArray, mask1, mask9
    ensures Mapped(g, h, c + 1, cellIdxArray, mask1, mask9)
    ensures Spaces(valid, acc) == ScanSpaces(g, h, c + 1)
  {
    RowColCellIndex(i, j, LatDim(g), LonDim(g));
    ghost var before := cellIdxArray[..];
    var flagValidExample := SelectNodes(g.lonGrid[j], g.latGrid[i], h, c, cellIdxArray, mask1, mask9,
                                        g.interval, g.offset9);
    MappedStep(g, h, c, i, j, cellIdxArray, mask1, mask9, before);
    ScanSpacesStep(g, h, c, i, j, valid0, acc0, flagValidExample);
    valid, acc := valid0, acc0;
    if c in valid {
      if flagValidExample {
        acc := acc + AbsAll(Neighbourhood(i, j, LonDim(g)));
      } else {
        valid := RemoveFirst(valid, c).value;
      }
    }
  }

  /** The inner loop of the scan: every cell of row i, left to right; the
      row starts at cell number `start`. */
  method ScanRow(g: Grid, h: Nodes, i: int, start: nat, cellIdxArray: array<int>, mask1: array2<bool>, mask9: array2<bool>,
                 valid0: seq<int>, acc0: seq<int>)
    returns (valid: seq<int>, acc: seq<int>, next: nat)
    requires WellShaped(h) && 0 <= i < LatDim(g)
    requires cellIdxArray.Length == |h.lon| == mask1.Length1 == mask9.Length1
    requires mask1.Length0 == mask9.Length0 == Space(g) && mask1 != mask9
    requires start == CellIndex(i, 0, LonDim(g)) && start + LonDim(g) <= Space(g)
    requires Mapped(g, h, start, cellIdxArray, mask1, mask9)
    requires Spaces(valid0, acc0) == ScanSpaces(g, h, start)
    modifies cellIdxArray, mask1, mask9
    ensures next == start + LonDim(g)
    ensures Mapped(g, h, next, cellIdxArray, mask1, mask9)
    ensures Spaces(valid, acc) == ScanSpaces(g, h, next)
  {
    valid, acc := valid0, acc0;
    var j, c := 0, start;
    while j < LonDim(g)
      invariant 0 <= j <= LonDim(g) && c == start + j
      invariant Mapped(g, h, c, cellIdxArray, mask1, mask9)
      invariant Spaces(valid, acc) == ScanSpaces(g, h, c)
    {
      valid, acc := ScanCell(g, h, i, j, c, cellIdxArray, mask1, mask9, valid, acc);
      j, c := j + 1, c + 1;
    }
    next := c;
  }

  /** Before the first cell every node holds 0, and no row is mapped yet. */
  lemma MappedStart(g: Grid, h: Nodes, cellIdxArray: array<int>, mask1: array2<bool>, mask9: array2<bool>)
    requires WellShaped(h)
    requires cellIdxArray.Length == |h.lon| == mask1.Length1 == mask9.Length1
    requires mask1.Length0 == mask9.Length0 == Space(g)
    requires forall n :: 0 <= n < cellIdxArray.Length ==> cellIdxArray[n] == 0
    ensures Mapped(g, h, 0, cellIdxArray, mask1, mask9)
  {
  }

  /** Row i + 1 starts lonDim cells after row i, and a row of the grid ends
      inside it. */
  lemma NextRow(i: nat, latDim: nat, lonDim: nat)
    requires i < latDim
    ensures CellIndex(i + 1, 0, lonDim) == CellIndex(i, 0, lonDim) + lonDim
    ensures CellIndex(i, 0, lonDim) + lonDim <= SpaceDim(latDim, lonDim)
  {
    MulMono(latDim - 1, i, lonDim);
    assert (latDim - 1) * lonDim + lonDim == latDim * lonDim;
  }

  /** The cell-mapping loop of the preprocessing script: allocates the
      signed cell numbers and both membership matrices, calls `select_nodes`
      for every cell in row-major order, keeps the example and graph cell
      lists up to date, and finally sorts them. */
  method ScanCells(g: Grid, h: Nodes)
    returns (cellIdxArray: array<int>, mask1: array2<bool>, mask9: array2<bool>,
             validExamplesSpace: seq<int>, graphCellsSpace: seq<int>)
    requires WellShaped(h)
    ensures fresh(cellIdxArray) && fresh(mask1) && fresh(mask9)
    ensures cellIdxArray.Length == |h.lon|
    ensures mask1.Length0 == mask9.Length0 == Space(g)
    ensures mask1.Length1 == mask9.Length1 == |h.lon|
    ensures forall c, n :: 0 <= c < Space(g) && 0 <= n < |h.lon| ==>
              mask1[c, n] == InCell(g, h, c, n) && mask9[c, n] == InNineCells(g, h, c, n)
    ensures forall n :: 0 <= n < |h.lon| ==> cellIdxArray[n] == Assigned(g, h, Space(g), n)
    ensures validExamplesSpace == ValidExamplesSpace(g, h)
    ensures graphCellsSpace == GraphCellsSpace(g, h)
  {
    var nNodes := |h.lon|;
    cellIdxArray := new int[nNodes](_ => 0);
    mask1 := new bool[Space(g), nNodes]((_, _) => false);
    mask9 := new bool[Space(g), nNodes]((_, _) => false);
    MappedStart(g, h, cellIdxArray, mask1, mask9);
    var valid, acc := ScanRows(g, h, cellIdxArray, mask1, mask9);
    graphCellsSpace := SortedSet(acc);
    validExamplesSpace := Sort(valid);
  }

  /** The outer loop of the scan: row by row, top to bottom. */
  method ScanRows(g: Grid, h: Nodes, cellIdxArray: array<int>, mask1: array2<bool>, mask9: array2<bool>)
    returns (valid: seq<int>, acc: seq<int>)
    requires WellShaped(h)
    requires cellIdxArray.Length == |h.lon| == mask1.Length1 == mask9.Length1
    requires mask1.Length0 == mask9.Length0 == Space(g) && mask1 != mask9
    requires Mapped(g, h, 0, cellIdxArray, mask1, mask9)
    modifies cellIdxArray, mask1, mask9
    ensures Mapped(g, h, Space(g), cellIdxArray, mask1, mask9)
    ensures Spaces(valid, acc) == ScanSpaces(g, h, Space(g))
  {
    acc := [];
    valid := InteriorCells(LatDim(g), LonDim(g));
    var done: nat := 0;
    var i := 0;
    while i < LatDim(g)
      invariant 0 <= i <= LatDim(g)
      invariant done == CellIndex(i, 0, LonDim(g)) && done <= Space(g)
      invariant Mapped(g, h, done, cellIdxArray, mask1, mask9)
      invariant Spaces(valid, acc) == ScanSpaces(g, h, done)
    {
      NextRow(i, LatDim(g), LonDim(g));
      valid, acc, done := ScanRow(g, h, i, done, cellIdxArray, mask1, mask9, valid, acc);
      i := i + 1;
    }
    assert done == Space(g);
  }
}
