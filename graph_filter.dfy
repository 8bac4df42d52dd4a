/**
 * Keeping only the nodes of the graph cells: after the scan, every array
 * indexed by node (lon, lat, z, the columns of pr, the signed cell numbers
 * and the columns of both membership matrices) is filtered with the one mask
 * `np.in1d(abs(cell_idx_array), graph_cells_space)`.
 */
module GraphFilter {
  import opened Common
  import opened Window
  import opened Cells

  /** A (cell, node) boolean matrix, one row per cell. */
  type Matrix = seq<seq<bool>>

  /** The contents of a two-dimensional array, row by row. */
  function Rows(m: array2<bool>): (r: Matrix)
    reads m
    ensures |r| == m.Length0
    ensures forall c :: 0 <= c < |r| ==> |r[c]| == m.Length1 && forall n :: 0 <= n < m.Length1 ==> r[c][n] == m[c, n]
  {
    seq(m.Length0, c requires 0 <= c < m.Length0 reads m => seq(m.Length1, n requires 0 <= n < m.Length1 reads m => m[c, n]))
  }

  /** `np.in1d(abs(cell_idx_array), graph_cells_space)`. */
  function GraphNodeMask(cellIdx: seq<int>, graph: seq<int>): (m: seq<bool>)
    ensures |m| == |cellIdx|
    ensures forall n :: 0 <= n < |m| ==> (m[n] <==> Abs(cellIdx[n]) in graph)
  {
    seq(|cellIdx|, n requires 0 <= n < |cellIdx| => Abs(cellIdx[n]) in graph)
  }

  /** `matrix[:, mask]`: every row keeps the same columns. */
  function SelectColumns(m: Matrix, mask: seq<bool>): (r: Matrix)
    requires forall c :: 0 <= c < |m| ==> |m[c]| == |mask|
    ensures |r| == |m|
    ensures forall c :: 0 <= c < |r| ==> r[c] == Select(m[c], mask)
  {
    seq(|m|, c requires 0 <= c < |m| => Select(m[c], mask))
  }

  /** The node-indexed data after the graph filter. */
  datatype Filtered = Filtered(nodes: Nodes, cellIdx: seq<int>, mask1: Matrix, mask9: Matrix)

  /** The graph filter: every node-indexed array is narrowed with the same
      mask, and the matrices keep one row per cell. */
  function FilterGraph(h: Nodes, cellIdx: seq<int>, mask1: Matrix, mask9: Matrix, graph: seq<int>): (r: Filtered)
    requires WellShaped(h) && |cellIdx| == |h.lon|
    requires forall c :: 0 <= c < |mask1| ==> |mask1[c]| == |h.lon|
    requires forall c :: 0 <= c < |mask9| ==> |mask9[c]| == |h.lon|
    ensures WellShaped(r.nodes) && |r.nodes.pr| == |h.pr|
    ensures |r.cellIdx| == |r.nodes.lon| == |KeptIndices(GraphNodeMask(cellIdx, graph))|
    ensures |r.mask1| == |mask1| && |r.mask9| == |mask9|
    ensures forall c :: 0 <= c < |r.mask1| ==> |r.mask1[c]| == |r.cellIdx|
    ensures forall c :: 0 <= c < |r.mask9| ==> |r.mask9[c]| == |r.cellIdx|
  {
    var m := GraphNodeMask(cellIdx, graph);
    Filtered(Restrict(h, m), Select(cellIdx, m), SelectColumns(mask1, m), SelectColumns(mask9, m))
  }

  /** A node survives exactly when the absolute value of its cell number is
      a graph cell; survivors keep their order, and entry k of every filtered
      array (positions, series, cell numbers, both membership matrices) comes
      from the same surviving node, so the arrays stay aligned node by node. */
  lemma FilterGraphSpec(h: Nodes, cellIdx: seq<int>, mask1: Matrix, mask9: Matrix, graph: seq<int>)
    requires WellShaped(h) && |cellIdx| == |h.lon|
    requires forall c :: 0 <= c < |mask1| ==> |mask1[c]| == |h.lon|
    requires forall c :: 0 <= c < |mask9| ==> |mask9[c]| == |h.lon|
    ensures var kept := KeptIndices(GraphNodeMask(cellIdx, graph));
            && (forall n :: 0 <= n < |h.lon| ==> (n in kept <==> Abs(cellIdx[n]) in graph))
            && (forall k, l :: 0 <= k < l < |kept| ==> kept[k] < kept[l])
    ensures var r := FilterGraph(h, cellIdx, mask1, mask9, graph);
            var kept := KeptIndices(GraphNodeMask(cellIdx, graph));
            forall k :: 0 <= k < |r.cellIdx| ==>
              && r.cellIdx[k] == cellIdx[kept[k]] && Abs(r.cellIdx[k]) in graph
              && r.nodes.lon[k] == h.lon[kept[k]] && r.nodes.lat[k] == h.lat[kept[k]] && r.nodes.z[k] == h.z[kept[k]]
              && (forall t :: 0 <= t < |h.pr| ==> r.nodes.pr[t][k] == h.pr[t][kept[k]])
              && (forall c :: 0 <= c < |mask1| ==> r.mask1[c][k] == mask1[c][kept[k]])
              && (forall c :: 0 <= c < |mask9| ==> r.mask9[c][k] == mask9[c][kept[k]])
  {
  }

  /** After the scan, the filter keeps every node that holds data in an
      example cell and every node whose own cell is one of the 3x3 blocks
      around an example cell; all other nodes are dropped. */
  lemma FilterAfterScan(g: Grid, h: Nodes, n: nat)
    requires WellShaped(h) && n < |h.lon|
    ensures var a := Assigned(g, h, Space(g), n);
            Abs(a) in GraphCellsSpace(g, h) <==>
              exists v :: v in ValidExamplesSpace(g, h) && IsCell(g, v) && Abs(a) in NeighbourhoodOf(g, v)
    ensures var a := Assigned(g, h, Space(g), n);
            a > 0 && a in ValidExamplesSpace(g, h) ==> Abs(a) in GraphCellsSpace(g, h)
  {
    GraphCellsSpaceSpec(g, h);
  }
}
