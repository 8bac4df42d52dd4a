/**
 * The high-resolution points and `cut_window`: keeping the points that fall
 * inside a closed lon/lat rectangle.
 */
module Window {
  import opened Common

  /** The high-resolution points: longitude, latitude and elevation per node,
      and precipitation as a (time, node) matrix in which `None` is NaN. */
  datatype Nodes = Nodes(lon: seq<real>, lat: seq<real>, z: seq<real>, pr: seq<seq<Option<real>>>)

  /** All per-node arrays have one entry per node and every time step of pr
      has one column per node. */
  predicate WellShaped(h: Nodes) {
    && |h.lat| == |h.lon|
    && |h.z| == |h.lon|
    && forall t :: 0 <= t < |h.pr| ==> |h.pr[t]| == |h.lon|
  }

  /** Applies one boolean node mask to lon, lat, z and the columns of pr.
      Node k of the result is node `KeptIndices(mask)[k]` of the input in
      every array, so relative order is kept and the arrays stay aligned;
      the number of time steps does not change. */
  function Restrict(h: Nodes, mask: seq<bool>): (r: Nodes)
    requires WellShaped(h) && |mask| == |h.lon|
    ensures WellShaped(r)
    ensures |r.pr| == |h.pr|
    ensures |r.lon| == |KeptIndices(mask)|
    ensures forall k :: 0 <= k < |r.lon| ==>
              var n := KeptIndices(mask)[k];
              r.lon[k] == h.lon[n] && r.lat[k] == h.lat[n] && r.z[k] == h.z[n]
    ensures forall t, k :: 0 <= t < |r.pr| && 0 <= k < |r.lon| ==>
              r.pr[t][k] == h.pr[t][KeptIndices(mask)[k]]
  {
    Nodes(Select(h.lon, mask), Select(h.lat, mask), Select(h.z, mask),
          seq(|h.pr|, t requires 0 <= t < |h.pr| => Select(h.pr[t], mask)))
  }

  /** The closed rectangle `[lon_min, lon_max] x [lat_min, lat_max]`. */
  predicate InWindow(lonMin: real, lonMax: real, latMin: real, latMax: real, x: real, y: real) {
    lonMin <= x <= lonMax && latMin <= y <= latMax
  }

  /** `bool_both` of `cut_window`. */
  function WindowMask(lonMin: real, lonMax: real, latMin: real, latMax: real,
                      lon: seq<real>, lat: seq<real>): (m: seq<bool>)
    requires |lat| == |lon|
    ensures |m| == |lon|
    ensures forall n :: 0 <= n < |m| ==> (m[n] <==> InWindow(lonMin, lonMax, latMin, latMax, lon[n], lat[n]))
  {
    seq(|lon|, n requires 0 <= n < |lon| => InWindow(lonMin, lonMax, latMin, latMax, lon[n], lat[n]))
  }

  /** `cut_window`: the result holds exactly the nodes inside the closed
      rectangle, in their original order, with the same selection applied to
      lon, lat, z and the columns of pr, and every time step kept. */
  function CutWindow(lonMin: real, lonMax: real, latMin: real, latMax: real, h: Nodes): (r: Nodes)
    requires WellShaped(h)
    ensures WellShaped(r)
    ensures |r.pr| == |h.pr|
    ensures var keep := KeptIndices(WindowMask(lonMin, lonMax, latMin, latMax, h.lon, h.lat));
      && |r.lon| == |keep|
      && (forall k, l :: 0 <= k < l < |keep| ==> keep[k] < keep[l])
      && (forall n :: 0 <= n < |h.lon| ==>
            (n in keep <==> InWindow(lonMin, lonMax, latMin, latMax, h.lon[n], h.lat[n])))
      && (forall k :: 0 <= k < |keep| ==>
            keep[k] < |h.lon| && r.lon[k] == h.lon[keep[k]] && r.lat[k] == h.lat[keep[k]] && r.z[k] == h.z[keep[k]])
      && (forall t, k :: 0 <= t < |r.pr| && 0 <= k < |keep| ==> r.pr[t][k] == h.pr[t][keep[k]])
    ensures forall k :: 0 <= k < |r.lon| ==> InWindow(lonMin, lonMax, latMin, latMax, r.lon[k], r.lat[k])
  {
    Restrict(h, WindowMask(lonMin, lonMax, latMin, latMax, h.lon, h.lat))
  }
}
