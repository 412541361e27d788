/**
 * The active-tile filter: for each input vegetation type that feeds an output
 * type, the cells of the search mask where that type exists on land, and the
 * number of such (type, cell) pairs.
 */
module ActiveTiles {
  import opened LandGrid

  /** Every contributing input type indexes the fraction grid. */
  predicate InputsIn(ins: seq<int>, nVeg: nat) {
    forall k :: 0 <= k < |ins| ==> 0 <= ins[k] < nVeg
  }

  /** `~isnan(plane) & search & (plane > 0.0)` for one vegetation type. */
  function ActiveTile(search: Mask, plane: seq<seq<Frac>>, nLat: nat, nLon: nat): (m: Mask)
    requires IsGrid2(search, nLat, nLon) && IsGrid2(plane, nLat, nLon)
    ensures IsGrid2(m, nLat, nLon)
    ensures forall i, j :: 0 <= i < nLat && 0 <= j < nLon ==> (m[i][j] <==> search[i][j] && IsActive(plane[i][j]))
  {
    var m := seq(nLat, i requires 0 <= i < nLat =>
               seq(nLon, j requires 0 <= j < nLon => search[i][j] && IsActive(plane[i][j])));
    assert forall i :: 0 <= i < nLat ==> m[i] == seq(nLon, j requires 0 <= j < nLon => search[i][j] && IsActive(plane[i][j]));
    m
  }

  /**
   * `find_active_tiles`: one mask per contributing input type, in the order of
   * `ins`, marking the searched cells where that type is active.
   */
  function FindActiveTiles(search: Mask, inFrac: Grid3<Frac>, ins: seq<int>, d: Dims): (tiles: seq<Mask>)
    requires IsGrid2(search, d.nLat, d.nLon) && IsGrid3(inFrac, d) && InputsIn(ins, d.nVeg)
    ensures |tiles| == |ins|
    ensures forall k :: 0 <= k < |ins| ==>
              && IsGrid2(tiles[k], d.nLat, d.nLon)
              && Within(tiles[k], search)
              && forall i, j :: 0 <= i < d.nLat && 0 <= j < d.nLon ==>
                   (tiles[k][i][j] <==> search[i][j] && IsActive(inFrac[ins[k]][i][j]))
  {
    var tiles := seq(|ins|, k requires 0 <= k < |ins| => ActiveTile(search, inFrac[ins[k]], d.nLat, d.nLon));
    assert forall k :: 0 <= k < |ins| ==> tiles[k] == ActiveTile(search, inFrac[ins[k]], d.nLat, d.nLon);
    tiles
  }

  /** The marked cells of the first `n` masks, added up in list order. */
  function PointsFoundTo(tiles: seq<Mask>, n: nat): nat
    requires n <= |tiles|
  {
    if n == 0 then 0 else PointsFoundTo(tiles, n - 1) + CountTrue(tiles[n - 1])
  }

  /** `PointsFound`: the marked cells of all the masks, added up. */
  function PointsFound(tiles: seq<Mask>): nat {
    PointsFoundTo(tiles, |tiles|)
  }

  lemma {:induction false} PointsFoundToCoversEach(tiles: seq<Mask>, n: nat)
    requires n <= |tiles|
    ensures forall k :: 0 <= k < n ==> CountTrue(tiles[k]) <= PointsFoundTo(tiles, n)
  {
    if n > 0 {
      PointsFoundToCoversEach(tiles, n - 1);
    }
  }

  /** Every mask's marked cells are counted: no mask marks more than `PointsFound`. */
  lemma PointsFoundCoversEach(tiles: seq<Mask>)
    ensures forall k :: 0 <= k < |tiles| ==> CountTrue(tiles[k]) <= PointsFound(tiles)
  {
    PointsFoundToCoversEach(tiles, |tiles|);
  }

  /** A wider search mask gives every contributing type a wider active mask. */
  lemma FindActiveTilesMonotone(a: Mask, b: Mask, inFrac: Grid3<Frac>, ins: seq<int>, d: Dims)
    requires IsGrid2(a, d.nLat, d.nLon) && IsGrid2(b, d.nLat, d.nLon) && Within(a, b)
    requires IsGrid3(inFrac, d) && InputsIn(ins, d.nVeg)
    ensures forall k :: 0 <= k < |ins| ==>
              Within(FindActiveTiles(a, inFrac, ins, d)[k], FindActiveTiles(b, inFrac, ins, d)[k])
  {
  }

  lemma {:induction false} PointsFoundToMonotone(a: seq<Mask>, b: seq<Mask>, n: nat)
    requires n <= |a| == |b|
    requires forall k :: 0 <= k < |a| ==> Within(a[k], b[k])
    ensures PointsFoundTo(a, n) <= PointsFoundTo(b, n)
  {
    if n > 0 {
      CountTrueMonotone(a[n - 1], b[n - 1]);
      PointsFoundToMonotone(a, b, n - 1);
    }
  }

  /** Masks that are each within their counterpart count no more points. */
  lemma PointsFoundMonotone(a: seq<Mask>, b: seq<Mask>)
    requires |a| == |b|
    requires forall k :: 0 <= k < |a| ==> Within(a[k], b[k])
    ensures PointsFound(a) <= PointsFound(b)
  {
    PointsFoundToMonotone(a, b, |a|);
  }

  lemma {:induction false} PointsFoundToZero(tiles: seq<Mask>, n: nat)
    requires n <= |tiles|
    ensures PointsFoundTo(tiles, n) == 0 <==> forall k :: 0 <= k < n ==> NoneMarked(tiles[k])
  {
    if n > 0 {
      CountTrueZero(tiles[n - 1]);
      PointsFoundToZero(tiles, n - 1);
    }
  }

  /** No point is found exactly when no mask marks a cell. */
  lemma PointsFoundZero(tiles: seq<Mask>)
    ensures PointsFound(tiles) == 0 <==> forall k :: 0 <= k < |tiles| ==> NoneMarked(tiles[k])
  {
    PointsFoundToZero(tiles, |tiles|);
  }

  /**
   * The filter finds no point exactly when no contributing type is active in
   * any searched cell.
   */
  lemma NoActiveTiles(search: Mask, inFrac: Grid3<Frac>, ins: seq<int>, d: Dims)
    requires IsGrid2(search, d.nLat, d.nLon) && IsGrid3(inFrac, d) && InputsIn(ins, d.nVeg)
    ensures PointsFound(FindActiveTiles(search, inFrac, ins, d)) == 0 <==>
            forall k, i, j :: 0 <= k < |ins| && 0 <= i < d.nLat && 0 <= j < d.nLon ==>
              !(search[i][j] && IsActive(inFrac[ins[k]][i][j]))
  {
    PointsFoundZero(FindActiveTiles(search, inFrac, ins, d));
  }
}
