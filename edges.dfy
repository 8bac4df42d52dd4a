/**
 * The edges of the high-resolution graph: two nodes are joined when their
 * longitudes differ by less than LON_DIFF_MAX, their latitudes by less than
 * LAT_DIFF_MAX, and their positions are not identical. Edges are listed by
 * source node, then by target node; each carries the offset from source to
 * target, and each offset column is finally divided by its own maximum.
 */
module Edges {
  import opened Common

  /** `LON_DIFF_MAX = 0.25 / 8 * 2` and `LAT_DIFF_MAX = 0.25 / 10 * 2`. */
  const LonDiffMax: real := 0.25 / 8.0 * 2.0
  const LatDiffMax: real := 0.25 / 10.0 * 2.0

  function AbsR(x: real): real { if x < 0.0 then -x else x }

  /** Node positions: `pos = np.column_stack((lon, lat))`. */
  datatype Pos = Pos(lon: seq<real>, lat: seq<real>)

  predicate ValidPos(p: Pos) { |p.lon| == |p.lat| }

  function NumNodes(p: Pos): nat { |p.lon| }

  /** Nodes i and j are joined by an edge i -> j. */
  predicate Connected(p: Pos, i: nat, j: nat)
    requires ValidPos(p) && i < NumNodes(p) && j < NumNodes(p)
  {
    && AbsR(p.lon[j] - p.lon[i]) < LonDiffMax
    && AbsR(p.lat[j] - p.lat[i]) < LatDiffMax
    && !(p.lon[i] == p.lon[j] && p.lat[i] == p.lat[j])
  }

  /** Edge attribute of i -> j: `xj - xi`. */
  function Offset(p: Pos, e: (int, int)): (real, real)
    requires ValidPos(p) && 0 <= e.0 < NumNodes(p) && 0 <= e.1 < NumNodes(p)
  {
    (p.lon[e.1] - p.lon[e.0], p.lat[e.1] - p.lat[e.0])
  }

  /** Edges i -> j for j < m, in increasing j. */
  function EdgeRow(p: Pos, i: nat, m: nat): (r: seq<(int, int)>)
    requires ValidPos(p) && i < NumNodes(p) && m <= NumNodes(p)
    ensures |r| <= m
    ensures forall k :: 0 <= k < |r| ==> r[k].0 == i && 0 <= r[k].1 < m && Connected(p, i, r[k].1)
  {
    if m == 0 then []
    else EdgeRow(p, i, m - 1) + (if Connected(p, i, m - 1) then [(i, m - 1)] else [])
  }

  /** Edges out of the first k nodes, source by source. */
  function EdgeList(p: Pos, k: nat): (r: seq<(int, int)>)
    requires ValidPos(p) && k <= NumNodes(p)
    ensures forall e :: e in r ==> 0 <= e.0 < k && 0 <= e.1 < NumNodes(p)
  {
    if k == 0 then [] else EdgeList(p, k - 1) + EdgeRow(p, k - 1, NumNodes(p))
  }

  /** All edges are between nodes of the graph. */
  predicate InRange(p: Pos, es: seq<(int, int)>)
    requires ValidPos(p)
  {
    forall k :: 0 <= k < |es| ==> 0 <= es[k].0 < NumNodes(p) && 0 <= es[k].1 < NumNodes(p)
  }

  function Offsets(p: Pos, es: seq<(int, int)>): (r: seq<(real, real)>)
    requires ValidPos(p) && InRange(p, es)
    ensures |r| == |es| && forall k :: 0 <= k < |es| ==> r[k] == Offset(p, es[k])
  {
    seq(|es|, k requires 0 <= k < |es| => Offset(p, es[k]))
  }

  lemma {:induction false} EdgeRowSpec(p: Pos, i: nat, m: nat)
    requires ValidPos(p) && i < NumNodes(p) && m <= NumNodes(p)
    ensures InRange(p, EdgeRow(p, i, m))
    ensures forall e :: e in EdgeRow(p, i, m) <==> e.0 == i && 0 <= e.1 < m && Connected(p, i, e.1)
    ensures forall a, b :: 0 <= a < b < |EdgeRow(p, i, m)| ==> EdgeRow(p, i, m)[a].1 < EdgeRow(p, i, m)[b].1
  {
    if m > 0 {
      EdgeRowSpec(p, i, m - 1);
    }
  }

  /** The edge list holds exactly the pairs of connected nodes among the
      first k sources, and lists them in increasing (source, target) order. */
  lemma {:induction false} EdgeListSpec(p: Pos, k: nat)
    requires ValidPos(p) && k <= NumNodes(p)
    ensures InRange(p, EdgeList(p, k))
    ensures forall e :: e in EdgeList(p, k) <==>
              0 <= e.0 < k && 0 <= e.1 < NumNodes(p) && Connected(p, e.0, e.1)
    ensures forall a, b :: 0 <= a < b < |EdgeList(p, k)| ==> LexLess(EdgeList(p, k)[a], EdgeList(p, k)[b])
  {
    if k > 0 {
      EdgeListSpec(p, k - 1);
      EdgeRowSpec(p, k - 1, NumNodes(p));
      var front, row := EdgeList(p, k - 1), EdgeRow(p, k - 1, NumNodes(p));
      forall a, b | 0 <= a < b < |front + row| ensures LexLess((front + row)[a], (front + row)[b]) {
        if b >= |front| && a < |front| {
          assert front[a] in front;
          assert row[b - |front|] in row;
        }
      }
    }
  }

  /** Strict lexicographic order on (source, target). */
  predicate LexLess(x: (int, int), y: (int, int)) {
    x.0 < y.0 || (x.0 == y.0 && x.1 < y.1)
  }

  /** Appending one in-range edge appends its offset. */
  lemma OffsetsAppend(p: Pos, es: seq<(int, int)>, e: (int, int))
    requires ValidPos(p) && InRange(p, es) && 0 <= e.0 < NumNodes(p) && 0 <= e.1 < NumNodes(p)
    ensures InRange(p, es + [e]) && Offsets(p, es + [e]) == Offsets(p, es) + [Offset(p, e)]
  {
  }

  /** The inner loop over targets jj for one source ii. */
  method AppendRow(p: Pos, ii: nat, edgeIndex0: seq<(int, int)>, edgeAttr0: seq<(real, real)>)
    returns (edgeIndex: seq<(int, int)>, edgeAttr: seq<(real, real)>)
    requires ValidPos(p) && ii < NumNodes(p)
    requires InRange(p, edgeIndex0) && edgeAttr0 == Offsets(p, edgeIndex0)
    ensures edgeIndex == edgeIndex0 + EdgeRow(p, ii, NumNodes(p))
    ensures InRange(p, edgeIndex) && edgeAttr == Offsets(p, edgeIndex)
  {
    var n := NumNodes(p);
    edgeIndex, edgeAttr := edgeIndex0, edgeAttr0;
    var jj := 0;
    while jj < n
      invariant 0 <= jj <= n
      invariant edgeIndex == edgeIndex0 + EdgeRow(p, ii, jj)
      invariant InRange(p, edgeIndex) && edgeAttr == Offsets(p, edgeIndex)
    {
      var near := AbsR(p.lon[jj] - p.lon[ii]) < LonDiffMax && AbsR(p.lat[jj] - p.lat[ii]) < LatDiffMax;
      if near && !(p.lon[ii] == p.lon[jj] && p.lat[ii] == p.lat[jj]) {
        OffsetsAppend(p, edgeIndex, (ii, jj));
        edgeIndex := edgeIndex + [(ii, jj)];
        edgeAttr := edgeAttr + [(p.lon[jj] - p.lon[ii], p.lat[jj] - p.lat[ii])];
      }
      jj := jj + 1;
    }
  }

  /** The edge loop: for every node in order, every other node near it in
      order, append the pair and its offset. */
  method BuildEdges(p: Pos) returns (edgeIndex: seq<(int, int)>, edgeAttr: seq<(real, real)>)
    requires ValidPos(p)
    ensures edgeIndex == EdgeList(p, NumNodes(p))
    ensures InRange(p, edgeIndex) && edgeAttr == Offsets(p, edgeIndex)
  {
    var n := NumNodes(p);
    edgeIndex, edgeAttr := [], [];
    var ii := 0;
    while ii < n
      invariant 0 <= ii <= n
      invariant edgeIndex == EdgeList(p, ii)
      invariant InRange(p, edgeIndex) && edgeAttr == Offsets(p, edgeIndex)
    {
      edgeIndex, edgeAttr := AppendRow(p, ii, edgeIndex, edgeAttr);
      ii := ii + 1;
    }
  }

  /** The edge relation is symmetric. */
  lemma ConnectedSymmetric(p: Pos, i: nat, j: nat)
    requires ValidPos(p) && i < NumNodes(p) && j < NumNodes(p)
    ensures Connected(p, i, j) ==> Connected(p, j, i) && i != j
  {
  }

  /** Every edge has its reverse, never joins a node to itself, and the
      reverse edge carries the opposite offset. */
  lemma {:induction false} EdgesSymmetric(p: Pos)
    requires ValidPos(p)
    ensures InRange(p, EdgeList(p, NumNodes(p)))
    ensures forall e :: e in EdgeList(p, NumNodes(p)) ==> (e.1, e.0) in EdgeList(p, NumNodes(p))
    ensures forall e :: e in EdgeList(p, NumNodes(p)) ==> e.0 != e.1
    ensures forall e :: e in EdgeList(p, NumNodes(p)) ==>
              Offset(p, (e.1, e.0)) == (-Offset(p, e).0, -Offset(p, e).1)
  {
    var es := EdgeList(p, NumNodes(p));
    EdgeListSpec(p, NumNodes(p));
    forall e | e in es ensures (e.1, e.0) in es && e.0 != e.1 {
      ConnectedSymmetric(p, e.0, e.1);
    }
  }

  // ---------------------------------------------------------------------
  // Normalisation of the offsets
  // ---------------------------------------------------------------------

  /** Result of a float division: a number, or inf/nan after division by 0. */
  datatype Scaled = Finite(value: real) | NonFinite

  function MaxR(s: seq<real>): (m: real)
    requires s != []
    ensures m in s && forall x :: x in s ==> x <= m
  {
    if |s| == 1 then s[0]
    else
      assert s == [s[0]] + s[1..];
      var m := MaxR(s[1..]); if s[0] >= m then s[0] else m
  }

  /** `col / col.max()`: ValueError on an empty column (no edges). */
  function Normalize(col: seq<real>): (r: Result<seq<Scaled>>)
    ensures r.Err? <==> col == []
    ensures r.Ok? ==> |r.value| == |col|
  {
    if col == [] then Err(ValueError)
    else
      var m := MaxR(col);
      Ok(seq(|col|, k requires 0 <= k < |col| => if m == 0.0 then NonFinite else Finite(col[k] / m)))
  }

  /** The column of lon offsets (c = 0) or lat offsets (c = 1). */
  function Column(attrs: seq<(real, real)>, c: nat): (r: seq<real>)
    requires c < 2
    ensures |r| == |attrs|
  {
    seq(|attrs|, k requires 0 <= k < |attrs| => if c == 0 then attrs[k].0 else attrs[k].1)
  }

  /** Entry k of the column has its negation somewhere in the column. */
  predicate HasNegation(col: seq<real>, k: nat)
    requires k < |col|
  {
    exists k' :: 0 <= k' < |col| && col[k'] == -col[k]
  }

  /** A column that holds the negation of each of its values. */
  predicate NegationClosed(col: seq<real>) {
    forall k :: 0 <= k < |col| ==> HasNegation(col, k)
  }

  /** The maximum of a non-empty negation-closed column bounds every entry
      from both sides and is not negative. */
  lemma ClosedBounds(col: seq<real>)
    requires col != [] && NegationClosed(col)
    ensures MaxR(col) >= 0.0
    ensures forall k :: 0 <= k < |col| ==> -MaxR(col) <= col[k] <= MaxR(col)
  {
    var m := MaxR(col);
    forall k | 0 <= k < |col| ensures -m <= col[k] <= m {
      assert HasNegation(col, k);
      var k' :| 0 <= k' < |col| && col[k'] == -col[k];
      assert col[k'] in col && col[k] in col;
    }
    assert -m <= col[0] <= m;
  }

  /** Dividing a negation-closed column by its maximum gives values in
      [-1, 1], with the maximum itself scaled to 1; a zero maximum means the
      column is all zeros and every quotient is inf or nan. */
  lemma {:induction false} NormalizeRange(col: seq<real>)
    requires col != [] && NegationClosed(col)
    ensures MaxR(col) >= 0.0
    ensures MaxR(col) == 0.0 ==> forall k :: 0 <= k < |col| ==> col[k] == 0.0 && Normalize(col).value[k] == NonFinite
    ensures MaxR(col) > 0.0 ==> forall k :: 0 <= k < |col| ==>
              Normalize(col).value[k].Finite? && -1.0 <= Normalize(col).value[k].value <= 1.0
    ensures MaxR(col) > 0.0 ==> Finite(1.0) in Normalize(col).value
  {
    var m := MaxR(col);
    ClosedBounds(col);
    if m > 0.0 {
      var r := Normalize(col).value;
      forall k | 0 <= k < |col| ensures -1.0 <= col[k] / m <= 1.0 {
        DivBounds(col[k], m);
      }
      var k :| 0 <= k < |col| && col[k] == m;
      DivSelf(m);
      assert r[k] == Finite(1.0);
    }
  }

  lemma DivSelf(m: real)
    requires m > 0.0
    ensures m / m == 1.0
  {
  }

  lemma DivBounds(x: real, m: real)
    requires m > 0.0 && -m <= x <= m
    ensures -1.0 <= x / m <= 1.0
  {
  }

  /** Both offset columns of the edge list are negation-closed (each edge's
      reverse carries the opposite offset), so after normalisation every
      attribute lies in [-1, 1] unless its column is all zeros. */
  lemma {:induction false} OffsetColumnsClosed(p: Pos, c: nat)
    requires ValidPos(p) && c < 2
    ensures var es := EdgeList(p, NumNodes(p));
            InRange(p, es) && NegationClosed(Column(Offsets(p, es), c))
  {
    var es := EdgeList(p, NumNodes(p));
    EdgesSymmetric(p);
    var col := Column(Offsets(p, es), c);
    forall k | 0 <= k < |col| ensures HasNegation(col, k) {
      var rev := (es[k].1, es[k].0);
      assert es[k] in es;
      assert rev in es;
      var k' :| 0 <= k' < |es| && es[k'] == rev;
      assert col[k'] == -col[k];
    }
  }
}
