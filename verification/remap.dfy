/**
 * The per-tile part of `remap_vegetation`: for every tile to fill, the search
 * mask widens stage by stage (cell, radius block, latitude band, globe) until
 * the active tiles of the contributing input types reach the stage's threshold;
 * the tile then receives the mean of the per-tile variables over every matched
 * (input type, cell) pair, or 0 when too few were found. The whole remapping
 * is assembled at the end.
 */
module Remap {
  import opened LandGrid
  import opened Mapping
  import opened SearchMasks
  import opened ActiveTiles
  import opened FillPolicy

  /** The search stages in order: 0 cell, 1 radius block, 2 latitude band, 3 globe. */
  const GlobalStage: nat := 3

  /** `PointsThreshold = [1, min, min, 1]`. */
  function Threshold(stage: nat, minimumPoints: int): (r: int)
    requires stage <= GlobalStage
    ensures stage == 0 || stage == GlobalStage ==> r == 1
    ensures 0 < stage < GlobalStage ==> r == minimumPoints
  {
    [1, minimumPoints, minimumPoints, 1][stage]
  }

  /** The cells that stage `stage` marks around `(lat, lon)`. */
  predicate StageRegion(stage: nat, c: Config, nLat: nat, nLon: nat, lon: nat, lat: nat, i: nat, j: nat)
    requires stage <= GlobalStage && lat < nLat && lon < nLon
  {
    if stage == 0 then i == lat && j == lon
    else if stage == 1 then InBlock(lon, lat, c.searchRadius, nLat, nLon, i, j)
    else if stage == 2 then InBand(lat, c.latitudeBand, nLat, i)
    else true
  }

  /** The mask is not cleared between stages: after stage `stage` it holds every region up to it. */
  predicate Covered(stage: nat, c: Config, nLat: nat, nLon: nat, lon: nat, lat: nat, i: nat, j: nat)
    requires stage <= GlobalStage && lat < nLat && lon < nLon
  {
    StageRegion(stage, c, nLat, nLon, lon, lat, i, j) ||
    (stage > 0 && Covered(stage - 1, c, nLat, nLon, lon, lat, i, j))
  }

  /** The search mask after stage `stage`. */
  function StageMask(stage: nat, c: Config, nLat: nat, nLon: nat, lon: nat, lat: nat): (m: Mask)
    requires stage <= GlobalStage && lat < nLat && lon < nLon
    ensures IsGrid2(m, nLat, nLon)
    ensures forall i, j :: 0 <= i < nLat && 0 <= j < nLon ==> (m[i][j] <==> Covered(stage, c, nLat, nLon, lon, lat, i, j))
  {
    var m := seq(nLat, i requires 0 <= i < nLat =>
               seq(nLon, j requires 0 <= j < nLon => Covered(stage, c, nLat, nLon, lon, lat, i, j)));
    assert forall i :: 0 <= i < nLat ==>
      m[i] == seq(nLon, j requires 0 <= j < nLon => Covered(stage, c, nLat, nLon, lon, lat, i, j));
    m
  }

  /** The point `(v, lat, lon)` of a restart that a configuration with in-range indices can search from. */
  predicate SearchPointOf(x: Restart, c: Config, v: nat, lon: nat, lat: nat) {
    x.Valid() && IndicesInRange(c, x.dims.nVeg) && v < x.dims.nVeg && lat < x.dims.nLat && lon < x.dims.nLon
  }

  /** The active-tile masks after stage `stage` for output type `v`. */
  function StageTiles(x: Restart, c: Config, v: nat, lon: nat, lat: nat, stage: nat): (tiles: seq<Mask>)
    requires SearchPointOf(x, c, v, lon, lat) && stage <= GlobalStage
    ensures |tiles| == |c.vegetationMap[v]|
    ensures forall k :: 0 <= k < |tiles| ==> IsGrid2(tiles[k], x.dims.nLat, x.dims.nLon)
  {
    FindActiveTiles(StageMask(stage, c, x.dims.nLat, x.dims.nLon, lon, lat), x.inFrac, c.vegetationMap[v], x.dims)
  }

  /** `PointsFound` after stage `stage`. */
  function StagePoints(x: Restart, c: Config, v: nat, lon: nat, lat: nat, stage: nat): nat
    requires SearchPointOf(x, c, v, lon, lat) && stage <= GlobalStage
  {
    PointsFound(StageTiles(x, c, v, lon, lat, stage))
  }

  /** The points found after each stage, in stage order. */
  function StagePointsList(x: Restart, c: Config, v: nat, lon: nat, lat: nat): (p: seq<nat>)
    requires SearchPointOf(x, c, v, lon, lat)
    ensures |p| == GlobalStage + 1
    ensures forall t :: 0 <= t <= GlobalStage ==> p[t] == StagePoints(x, c, v, lon, lat, t)
  {
    var p := seq(GlobalStage + 1, t requires 0 <= t <= GlobalStage => StagePoints(x, c, v, lon, lat, t));
    assert forall t :: 0 <= t <= GlobalStage ==> p[t] == StagePoints(x, c, v, lon, lat, t);
    p
  }

  /**
   * The first stage from `from` on whose count reaches its threshold, or the
   * global stage when none does.
   */
  function FirstReached(points: seq<nat>, minimumPoints: int, from: nat): (s: nat)
    requires |points| == GlobalStage + 1 && from <= GlobalStage
    ensures from <= s <= GlobalStage
    ensures s == GlobalStage || points[s] >= Threshold(s, minimumPoints)
    ensures forall t :: from <= t < s ==> points[t] < Threshold(t, minimumPoints)
    decreases GlobalStage - from
  {
    if from == GlobalStage || points[from] >= Threshold(from, minimumPoints) then from
    else FirstReached(points, minimumPoints, from + 1)
  }

  /**
   * The stage the search stops at, starting from `from`: the first whose points
   * reach its threshold, or the global stage when none does.
   */
  function FinalStage(x: Restart, c: Config, v: nat, lon: nat, lat: nat, from: nat): (s: nat)
    requires SearchPointOf(x, c, v, lon, lat) && from <= GlobalStage
    ensures from <= s <= GlobalStage
    ensures s == GlobalStage || StagePoints(x, c, v, lon, lat, s) >= Threshold(s, c.minimumPoints)
    ensures forall t :: from <= t < s ==> StagePoints(x, c, v, lon, lat, t) < Threshold(t, c.minimumPoints)
  {
    FirstReached(StagePointsList(x, c, v, lon, lat), c.minimumPoints, from)
  }

  // ---------------------------------------------------------------------------
  // What the search finds.
  // ---------------------------------------------------------------------------

  lemma {:induction false} CoveredGrows(s: nat, s': nat, c: Config, nLat: nat, nLon: nat, lon: nat, lat: nat, i: nat, j: nat)
    requires s <= s' <= GlobalStage && lat < nLat && lon < nLon
    requires Covered(s, c, nLat, nLon, lon, lat, i, j)
    ensures Covered(s', c, nLat, nLon, lon, lat, i, j)
    decreases s' - s
  {
    if s < s' {
      CoveredGrows(s, s' - 1, c, nLat, nLon, lon, lat, i, j);
    }
  }

  /** Every stage's mask contains the cell itself, and the global stage's mask is every cell. */
  lemma {:induction false} CoveredBounds(s: nat, c: Config, nLat: nat, nLon: nat, lon: nat, lat: nat, i: nat, j: nat)
    requires s <= GlobalStage && lat < nLat && lon < nLon
    ensures Covered(s, c, nLat, nLon, lon, lat, lat, lon)
    ensures Covered(GlobalStage, c, nLat, nLon, lon, lat, i, j)
  {
    CoveredGrows(0, s, c, nLat, nLon, lon, lat, lat, lon);
  }

  /** The mask only grows from stage to stage. */
  lemma StageMaskGrows(s: nat, s': nat, c: Config, nLat: nat, nLon: nat, lon: nat, lat: nat)
    requires s <= s' <= GlobalStage && lat < nLat && lon < nLon
    ensures Within(StageMask(s, c, nLat, nLon, lon, lat), StageMask(s', c, nLat, nLon, lon, lat))
  {
    forall i, j | 0 <= i < nLat && 0 <= j < nLon && Covered(s, c, nLat, nLon, lon, lat, i, j)
      ensures Covered(s', c, nLat, nLon, lon, lat, i, j)
    {
      CoveredGrows(s, s', c, nLat, nLon, lon, lat, i, j);
    }
  }

  /** Because the mask only grows, `PointsFound` never decreases from one stage to a later one. */
  lemma StagePointsNonDecreasing(x: Restart, c: Config, v: nat, lon: nat, lat: nat, s: nat, s': nat)
    requires SearchPointOf(x, c, v, lon, lat) && s <= s' <= GlobalStage
    ensures StagePoints(x, c, v, lon, lat, s) <= StagePoints(x, c, v, lon, lat, s')
  {
    var d := x.dims;
    StageMaskGrows(s, s', c, d.nLat, d.nLon, lon, lat);
    var a := StageMask(s, c, d.nLat, d.nLon, lon, lat);
    var b := StageMask(s', c, d.nLat, d.nLon, lon, lat);
    FindActiveTilesMonotone(a, b, x.inFrac, c.vegetationMap[v], d);
    PointsFoundMonotone(StageTiles(x, c, v, lon, lat, s), StageTiles(x, c, v, lon, lat, s'));
  }

  /** Some contributing input type is active somewhere on the globe. */
  predicate AnyDonor(x: Restart, c: Config, v: nat)
    requires x.Valid() && IndicesInRange(c, x.dims.nVeg) && v < x.dims.nVeg
  {
    exists k, i, j :: 0 <= k < |c.vegetationMap[v]| && 0 <= i < x.dims.nLat && 0 <= j < x.dims.nLon &&
      IsActive(x.inFrac[c.vegetationMap[v][k]][i][j])
  }

  /** Some contributing input type is active at the point's own cell. */
  predicate DonorAtCell(x: Restart, c: Config, v: nat, lon: nat, lat: nat)
    requires SearchPointOf(x, c, v, lon, lat)
  {
    exists k :: 0 <= k < |c.vegetationMap[v]| && IsActive(x.inFrac[c.vegetationMap[v][k]][lat][lon])
  }

  /** A stage finds no point exactly when no contributing type is active in a cell of that stage's mask. */
  lemma StagePointsZero(x: Restart, c: Config, v: nat, lon: nat, lat: nat, stage: nat)
    requires SearchPointOf(x, c, v, lon, lat) && stage <= GlobalStage
    ensures var m := StageMask(stage, c, x.dims.nLat, x.dims.nLon, lon, lat);
            StagePoints(x, c, v, lon, lat, stage) == 0 <==>
            forall k, i, j :: 0 <= k < |c.vegetationMap[v]| && 0 <= i < x.dims.nLat && 0 <= j < x.dims.nLon ==>
              !(m[i][j] && IsActive(x.inFrac[c.vegetationMap[v][k]][i][j]))
  {
    NoActiveTiles(StageMask(stage, c, x.dims.nLat, x.dims.nLon, lon, lat), x.inFrac, c.vegetationMap[v], x.dims);
  }

  /** The global stage finds nothing exactly when no contributing type is active anywhere. */
  lemma GlobalStageEmptyIffNoDonor(x: Restart, c: Config, v: nat, lon: nat, lat: nat)
    requires SearchPointOf(x, c, v, lon, lat)
    ensures StagePoints(x, c, v, lon, lat, GlobalStage) == 0 <==> !AnyDonor(x, c, v)
  {
    var d := x.dims;
    var m := StageMask(GlobalStage, c, d.nLat, d.nLon, lon, lat);
    forall i, j | 0 <= i < d.nLat && 0 <= j < d.nLon
      ensures m[i][j]
    {
      CoveredBounds(GlobalStage, c, d.nLat, d.nLon, lon, lat, i, j);
    }
    NoActiveTiles(m, x.inFrac, c.vegetationMap[v], d);
  }

  /** The cell stage succeeds exactly when a contributing type is active at the cell itself. */
  lemma CellStageSucceeds(x: Restart, c: Config, v: nat, lon: nat, lat: nat)
    requires SearchPointOf(x, c, v, lon, lat)
    ensures FinalStage(x, c, v, lon, lat, 0) == 0 <==> DonorAtCell(x, c, v, lon, lat)
  {
    var d := x.dims;
    var ins := c.vegetationMap[v];
    var m := StageMask(0, c, d.nLat, d.nLon, lon, lat);
    StagePointsZero(x, c, v, lon, lat, 0);
    FinalStageStep(x, c, v, lon, lat, 0);
    if DonorAtCell(x, c, v, lon, lat) {
      var k :| 0 <= k < |ins| && IsActive(x.inFrac[ins[k]][lat][lon]);
      assert m[lat][lon];
    } else {
      forall k, i, j | 0 <= k < |ins| && 0 <= i < d.nLat && 0 <= j < d.nLon
        ensures !(m[i][j] && IsActive(x.inFrac[ins[k]][i][j]))
      {
        assert m[i][j] ==> i == lat && j == lon;
      }
    }
  }

  /**
   * With a positive minimum, the search ends with no point found exactly when
   * no contributing input type is active anywhere on the globe.
   */
  lemma NothingFoundOnlyWithoutDonors(x: Restart, c: Config, v: nat, lon: nat, lat: nat)
    requires SearchPointOf(x, c, v, lon, lat) && c.minimumPoints >= 1
    ensures var s := FinalStage(x, c, v, lon, lat, 0);
            StagePoints(x, c, v, lon, lat, s) == 0 <==> !AnyDonor(x, c, v)
  {
    var s := FinalStage(x, c, v, lon, lat, 0);
    GlobalStageEmptyIffNoDonor(x, c, v, lon, lat);
    StagePointsNonDecreasing(x, c, v, lon, lat, s, GlobalStage);
  }

  // ---------------------------------------------------------------------------
  // The value a filled tile receives.
  // ---------------------------------------------------------------------------

  /** The matched values of a per-tile variable, added up over the first `n` contributing types. */
  function PooledSumTo(values: Grid3<real>, ins: seq<int>, tiles: seq<Mask>, d: Dims, n: nat): real
    requires IsGrid3(values, d) && InputsIn(ins, d.nVeg) && n <= |tiles| == |ins|
    requires forall k :: 0 <= k < |tiles| ==> IsGrid2(tiles[k], d.nLat, d.nLon)
  {
    if n == 0 then 0.0
    else PooledSumTo(values, ins, tiles, d, n - 1) + MaskedSum(values[ins[n - 1]], tiles[n - 1])
  }

  /**
   * The value of a filled tile as written: 0 when fewer than `minimumPoints`
   * points were found, the pooled mean otherwise; `None` where the mean divides
   * by zero points.
   */
  function TileValueAsWritten(sum: real, points: nat, minimumPoints: int): Option<real> {
    if points < minimumPoints then Some(0.0)
    else if points == 0 then None
    else Some(sum / points as real)
  }

  /**
   * The three outcomes of the code as written: it fails exactly when no point
   * was found and `minimumPoints` is not positive, gives 0 below the minimum,
   * and otherwise a mean that times the number of points is the pooled sum.
   */
  lemma TileValueAsWrittenCases(sum: real, points: nat, minimumPoints: int)
    ensures TileValueAsWritten(sum, points, minimumPoints).None? <==> points == 0 && minimumPoints <= 0
    ensures points < minimumPoints ==> TileValueAsWritten(sum, points, minimumPoints) == Some(0.0)
    ensures 0 < points && minimumPoints <= points ==>
              var r := TileValueAsWritten(sum, points, minimumPoints);
              r.Some? && r.value * points as real == sum
  {
  }

  /** The value of a filled tile when `minimumPoints` is at least 1, as validation demands. */
  function TileValue(sum: real, points: nat, minimumPoints: int): (r: real)
    requires minimumPoints >= 1
    ensures TileValueAsWritten(sum, points, minimumPoints) == Some(r)
  {
    if points < minimumPoints then 0.0 else sum / points as real
  }

  /**
   * With `minimum_points` of 0 or less and no active contributing tile anywhere,
   * the search ends with no point found and the code as written divides by zero.
   */
  lemma ZeroMinimumDividesByZero(x: Restart, c: Config, v: nat, lon: nat, lat: nat, t: nat)
    requires SearchPointOf(x, c, v, lon, lat) && t < |x.tileVars|
    requires c.minimumPoints <= 0 && !AnyDonor(x, c, v)
    ensures var s := FinalStage(x, c, v, lon, lat, 0);
            var tiles := StageTiles(x, c, v, lon, lat, s);
            TileValueAsWritten(PooledSumTo(x.tileVars[t], c.vegetationMap[v], tiles, x.dims, |tiles|),
                               PointsFound(tiles), c.minimumPoints) == None
  {
    var s := FinalStage(x, c, v, lon, lat, 0);
    GlobalStageEmptyIffNoDonor(x, c, v, lon, lat);
    StagePointsNonDecreasing(x, c, v, lon, lat, s, GlobalStage);
  }

  /**
   * A one-cell restart with `minimum_points: 0` whose single input type has no
   * tile: the radius stage already meets its threshold of 0 with nothing found,
   * and the mean divides by zero.
   */
  lemma ZeroMinimumExample()
    ensures var x := Restart(Dims(1, 1, 1), [[[Present(0.0)]]], [[[Present(1.0)]]], [], [[[[5.0]]]]);
            var c := Config(map[0 := [0]], 2, 8, 0);
            && SearchPointOf(x, c, 0, 0, 0)
            && FinalStage(x, c, 0, 0, 0, 0) == 1
            && var tiles := StageTiles(x, c, 0, 0, 0, 1);
               TileValueAsWritten(PooledSumTo(x.tileVars[0], [0], tiles, x.dims, |tiles|), PointsFound(tiles), 0) == None
  {
    var x := Restart(Dims(1, 1, 1), [[[Present(0.0)]]], [[[Present(1.0)]]], [], [[[[5.0]]]]);
    var c := Config(map[0 := [0]], 2, 8, 0);
    assert SearchPointOf(x, c, 0, 0, 0);
    assert !AnyDonor(x, c, 0);
    GlobalStageEmptyIffNoDonor(x, c, 0, 0, 0);
    StagePointsNonDecreasing(x, c, 0, 0, 0, 0, GlobalStage);
    StagePointsNonDecreasing(x, c, 0, 0, 0, 1, GlobalStage);
  }

  lemma {:induction false} PooledSumBounds(values: Grid3<real>, ins: seq<int>, tiles: seq<Mask>, d: Dims, n: nat,
                                          lo: real, hi: real)
    requires IsGrid3(values, d) && InputsIn(ins, d.nVeg) && n <= |tiles| == |ins|
    requires forall k :: 0 <= k < |tiles| ==> IsGrid2(tiles[k], d.nLat, d.nLon)
    requires forall v, i, j :: 0 <= v < d.nVeg && 0 <= i < d.nLat && 0 <= j < d.nLon ==> lo <= values[v][i][j] <= hi
    ensures Times(PointsFoundTo(tiles, n), lo) <= PooledSumTo(values, ins, tiles, d, n) <= Times(PointsFoundTo(tiles, n), hi)
  {
    if n > 0 {
      var k := n - 1;
      PooledSumBounds(values, ins, tiles, d, k, lo, hi);
      MaskedSumBounds(values[ins[k]], tiles[k], lo, hi);
      TimesAdd(PointsFoundTo(tiles, k), CountTrue(tiles[k]), lo);
      TimesAdd(PointsFoundTo(tiles, k), CountTrue(tiles[k]), hi);
    }
  }

  lemma DivideBounds(s: real, p: nat, lo: real, hi: real)
    requires p > 0 && lo * p as real <= s <= hi * p as real
    ensures lo <= s / p as real <= hi
  {
  }

  /**
   * A filled tile's value lies between the smallest and largest value of the
   * per-tile variable across the old restart, or is 0 when too few points were found.
   */
  lemma TileValueBounded(values: Grid3<real>, ins: seq<int>, tiles: seq<Mask>, d: Dims, minimumPoints: int,
                         lo: real, hi: real)
    requires IsGrid3(values, d) && InputsIn(ins, d.nVeg) && |tiles| == |ins| && minimumPoints >= 1
    requires forall k :: 0 <= k < |tiles| ==> IsGrid2(tiles[k], d.nLat, d.nLon)
    requires forall v, i, j :: 0 <= v < d.nVeg && 0 <= i < d.nLat && 0 <= j < d.nLon ==> lo <= values[v][i][j] <= hi
    ensures var r := TileValue(PooledSumTo(values, ins, tiles, d, |tiles|), PointsFound(tiles), minimumPoints);
            if PointsFound(tiles) < minimumPoints then r == 0.0 else lo <= r <= hi
  {
    var p := PointsFound(tiles);
    if p >= minimumPoints {
      PooledSumBounds(values, ins, tiles, d, |tiles|, lo, hi);
      TimesIsProduct(p, lo);
      TimesIsProduct(p, hi);
      DivideBounds(PooledSumTo(values, ins, tiles, d, |tiles|), p, lo, hi);
    }
  }

  /** The value the search gives the per-tile variable `t` at the point `(v, lat, lon)`. */
  function SearchedTile(x: Restart, c: Config, t: nat, v: nat, lon: nat, lat: nat): real
    requires SearchPointOf(x, c, v, lon, lat) && c.minimumPoints >= 1 && t < |x.tileVars|
  {
    var tiles := StageTiles(x, c, v, lon, lat, FinalStage(x, c, v, lon, lat, 0));
    TileValue(PooledSumTo(x.tileVars[t], c.vegetationMap[v], tiles, x.dims, |tiles|), PointsFound(tiles), c.minimumPoints)
  }

  /**
   * The value a searched tile receives is what the code as written computes
   * from the points pooled over the stages searched: it never takes the
   * division-by-zero path, since `minimum_points` is positive.
   */
  lemma SearchedTileAsWritten(x: Restart, c: Config, t: nat, v: nat, lon: nat, lat: nat)
    requires SearchPointOf(x, c, v, lon, lat) && c.minimumPoints >= 1 && t < |x.tileVars|
    ensures var tiles := StageTiles(x, c, v, lon, lat, FinalStage(x, c, v, lon, lat, 0));
            TileValueAsWritten(PooledSumTo(x.tileVars[t], c.vegetationMap[v], tiles, x.dims, |tiles|),
                               PointsFound(tiles), c.minimumPoints) == Some(SearchedTile(x, c, t, v, lon, lat))
  {
  }

  /**
   * The final check compares with `minimum_points`, not with the threshold of
   * the stage that stopped the search: when a contributing type is active at
   * the cell itself but fewer than `minimum_points` such types are, the cell
   * stage succeeds and the tile is still set to 0.
   */
  lemma DonorAtCellBelowMinimumGivesZero(x: Restart, c: Config, t: nat, v: nat, lon: nat, lat: nat)
    requires SearchPointOf(x, c, v, lon, lat) && c.minimumPoints >= 1 && t < |x.tileVars|
    requires DonorAtCell(x, c, v, lon, lat) && StagePoints(x, c, v, lon, lat, 0) < c.minimumPoints
    ensures FinalStage(x, c, v, lon, lat, 0) == 0
    ensures SearchedTile(x, c, t, v, lon, lat) == 0.0
  {
    CellStageSucceeds(x, c, v, lon, lat);
  }

  /**
   * A filled tile receives either 0 or a value between the smallest and the
   * largest value the per-tile variable takes in the old restart.
   */
  lemma SearchedTileBounded(x: Restart, c: Config, t: nat, v: nat, lon: nat, lat: nat, lo: real, hi: real)
    requires SearchPointOf(x, c, v, lon, lat) && c.minimumPoints >= 1 && t < |x.tileVars|
    requires forall v', i, j :: 0 <= v' < x.dims.nVeg && 0 <= i < x.dims.nLat && 0 <= j < x.dims.nLon ==>
               lo <= x.tileVars[t][v'][i][j] <= hi
    ensures var r := SearchedTile(x, c, t, v, lon, lat);
            r == 0.0 || lo <= r <= hi
  {
    var tiles := StageTiles(x, c, v, lon, lat, FinalStage(x, c, v, lon, lat, 0));
    TileValueBounded(x.tileVars[t], c.vegetationMap[v], tiles, x.dims, c.minimumPoints, lo, hi);
  }

  /**
   * When no contributing input type is active anywhere on the globe, every
   * stage finds nothing and the tile is set to 0.
   */
  lemma ZeroFallback(x: Restart, c: Config, t: nat, v: nat, lon: nat, lat: nat)
    requires SearchPointOf(x, c, v, lon, lat) && c.minimumPoints >= 1 && t < |x.tileVars|
    requires !AnyDonor(x, c, v)
    ensures SearchedTile(x, c, t, v, lon, lat) == 0.0
  {
    NothingFoundOnlyWithoutDonors(x, c, v, lon, lat);
  }

  // ---------------------------------------------------------------------------
  // The search and average loop.
  // ---------------------------------------------------------------------------

  /** The search method of stage `stage`, applied to the shared mask with its parameter. */
  method ApplyStage(mask: array2<bool>, stage: nat, c: Config, lon: nat, lat: nat)
    requires stage <= GlobalStage && lat < mask.Length0 && lon < mask.Length1
    modifies mask
    ensures forall i, j :: 0 <= i < mask.Length0 && 0 <= j < mask.Length1 ==>
              mask[i, j] == (old(mask[i, j]) || StageRegion(stage, c, mask.Length0, mask.Length1, lon, lat, i, j))
  {
    if stage == 0 {
      ModifyMaskForCell(mask, lon, lat);
    } else if stage == 1 {
      ModifyMaskForNearest(mask, c.searchRadius, lon, lat);
    } else if stage == 2 {
      ModifyMaskForLatitudeBand(mask, c.latitudeBand, lon, lat);
    } else {
      ModifyMaskForGlobal(mask);
    }
  }

  /** A plane that marks exactly the cells covered up to `stage` is that stage's mask. */
  lemma MaskAfterStage(m: Mask, stage: nat, c: Config, nLat: nat, nLon: nat, lon: nat, lat: nat)
    requires stage <= GlobalStage && lat < nLat && lon < nLon && IsGrid2(m, nLat, nLon)
    requires forall i, j :: 0 <= i < nLat && 0 <= j < nLon ==> m[i][j] == Covered(stage, c, nLat, nLon, lon, lat, i, j)
    ensures m == StageMask(stage, c, nLat, nLon, lon, lat)
  {
    GridExt(m, StageMask(stage, c, nLat, nLon, lon, lat), nLat, nLon);
  }

  /** One step of the stage loop: stop at `stage`, or go on to the next one. */
  lemma FinalStageStep(x: Restart, c: Config, v: nat, lon: nat, lat: nat, stage: nat)
    requires SearchPointOf(x, c, v, lon, lat) && stage <= GlobalStage
    ensures StagePoints(x, c, v, lon, lat, stage) >= Threshold(stage, c.minimumPoints) || stage == GlobalStage ==>
              FinalStage(x, c, v, lon, lat, stage) == stage
    ensures StagePoints(x, c, v, lon, lat, stage) < Threshold(stage, c.minimumPoints) && stage < GlobalStage ==>
              FinalStage(x, c, v, lon, lat, stage) == FinalStage(x, c, v, lon, lat, stage + 1)
  {
  }

  /**
   * One pass of the stage loop: widen the mask by the stage's search method,
   * then filter the active tiles and count the points found.
   */
  method SearchStage(mask: array2<bool>, x: Restart, c: Config, v: nat, lon: nat, lat: nat, stage: nat)
    returns (tiles: seq<Mask>, points: nat)
    requires SearchPointOf(x, c, v, lon, lat) && stage <= GlobalStage
    requires mask.Length0 == x.dims.nLat && mask.Length1 == x.dims.nLon
    requires forall i, j :: 0 <= i < mask.Length0 && 0 <= j < mask.Length1 ==>
               mask[i, j] == (stage > 0 && Covered(stage - 1, c, x.dims.nLat, x.dims.nLon, lon, lat, i, j))
    modifies mask
    ensures forall i, j :: 0 <= i < mask.Length0 && 0 <= j < mask.Length1 ==>
              mask[i, j] == Covered(stage, c, x.dims.nLat, x.dims.nLon, lon, lat, i, j)
    ensures MaskOf(mask) == StageMask(stage, c, x.dims.nLat, x.dims.nLon, lon, lat)
    ensures tiles == StageTiles(x, c, v, lon, lat, stage) && points == PointsFound(tiles)
    ensures points == StagePoints(x, c, v, lon, lat, stage)
  {
    var d := x.dims;
    ApplyStage(mask, stage, c, lon, lat);
    var searched := MaskOf(mask);
    MaskAfterStage(searched, stage, c, d.nLat, d.nLon, lon, lat);
    tiles := FindActiveTiles(searched, x.inFrac, c.vegetationMap[v], d);
    points := PointsFound(tiles);
  }

  /**
   * The stage loop at one point: widens the cleared mask stage by stage and
   * stops at the first stage whose points reach its threshold.
   */
  method SearchPoint(mask: array2<bool>, x: Restart, c: Config, v: nat, lon: nat, lat: nat)
    returns (stage: nat, tiles: seq<Mask>, points: nat)
    requires SearchPointOf(x, c, v, lon, lat)
    requires mask.Length0 == x.dims.nLat && mask.Length1 == x.dims.nLon
    requires forall i, j :: 0 <= i < mask.Length0 && 0 <= j < mask.Length1 ==> !mask[i, j]
    modifies mask
    ensures stage == FinalStage(x, c, v, lon, lat, 0)
    ensures tiles == StageTiles(x, c, v, lon, lat, stage) && points == PointsFound(tiles)
    ensures MaskOf(mask) == StageMask(stage, c, x.dims.nLat, x.dims.nLon, lon, lat)
  {
    var d := x.dims;
    stage := 0;
    while true
      invariant stage <= GlobalStage
      invariant FinalStage(x, c, v, lon, lat, 0) == FinalStage(x, c, v, lon, lat, stage)
      invariant forall i, j :: 0 <= i < d.nLat && 0 <= j < d.nLon ==>
                  mask[i, j] == (stage > 0 && Covered(stage - 1, c, d.nLat, d.nLon, lon, lat, i, j))
      decreases GlobalStage - stage
    {
      tiles, points := SearchStage(mask, x, c, v, lon, lat, stage);
      FinalStageStep(x, c, v, lon, lat, stage);
      if points >= Threshold(stage, c.minimumPoints) || stage == GlobalStage {
        break;
      }
      stage := stage + 1;
    }
  }

  /** The running `Total` over the contributing types: `VarData[TileMask].sum()` added up. */
  method PooledTotal(values: Grid3<real>, ins: seq<int>, tiles: seq<Mask>, d: Dims) returns (total: real)
    requires IsGrid3(values, d) && InputsIn(ins, d.nVeg) && |tiles| == |ins|
    requires forall k :: 0 <= k < |tiles| ==> IsGrid2(tiles[k], d.nLat, d.nLon)
    ensures total == PooledSumTo(values, ins, tiles, d, |tiles|)
  {
    total := 0.0;
    for k := 0 to |ins|
      invariant total == PooledSumTo(values, ins, tiles, d, k)
    {
      total := total + MaskedSum(values[ins[k]], tiles[k]);
    }
  }

  /** The final per-tile output: the searched value on a tile to fill, the initial value elsewhere. */
  function FinalTile(x: Restart, c: Config, fillAll: bool, t: nat, v: nat, i: nat, j: nat): (r: real)
    requires x.Valid() && ValidConfig(c, x.dims.nVeg) && t < |x.tileVars|
    requires v < x.dims.nVeg && i < x.dims.nLat && j < x.dims.nLon
    ensures ToFill(fillAll, x.inFrac[v][i][j], x.outFrac[v][i][j]) ==> r == SearchedTile(x, c, t, v, j, i)
    ensures ToEmpty(fillAll, x.outFrac[v][i][j]) ==> r == 0.0
    ensures !ToFill(fillAll, x.inFrac[v][i][j], x.outFrac[v][i][j]) && !ToEmpty(fillAll, x.outFrac[v][i][j]) ==>
              r == x.tileVars[t][v][i][j]
  {
    if ToFill(fillAll, x.inFrac[v][i][j], x.outFrac[v][i][j]) then SearchedTile(x, c, t, v, j, i)
    else InitialTile(x, fillAll, t, v, i, j)
  }

  /**
   * With `--fill-all`, a tile that exists in the old cover (or lies on the
   * ocean) is neither filled nor emptied: every per-cell and per-tile variable
   * keeps its old value there, so a restart whose tiles all exist comes back
   * unchanged.
   */
  lemma FillAllKeepsExistingTiles(x: Restart, c: Config, v: nat, i: nat, j: nat)
    requires x.Valid() && ValidConfig(c, x.dims.nVeg) && v < x.dims.nVeg && i < x.dims.nLat && j < x.dims.nLon
    requires !AtMostZero(x.inFrac[v][i][j])
    ensures forall k :: 0 <= k < |x.cellVars| ==> PerCellValue(x, true, k, v, i, j) == x.cellVars[k][v][i][j]
    ensures forall t :: 0 <= t < |x.tileVars| ==> FinalTile(x, c, true, t, v, i, j) == x.tileVars[t][v][i][j]
  {
  }

  /** The shape of a per-tile output array for restart `x`. */
  predicate TileShape(tile: array4<real>, x: Restart) {
    tile.Length0 == |x.tileVars| && tile.Length1 == x.dims.nVeg &&
    tile.Length2 == x.dims.nLat && tile.Length3 == x.dims.nLon
  }

  /**
   * The value of one per-tile variable at the point once the search has stopped:
   * 0 when fewer than `minimumPoints` points were found, `Total / PointsFound` otherwise.
   */
  method PointValue(values: Grid3<real>, ins: seq<int>, tiles: seq<Mask>, d: Dims, points: nat, minimumPoints: int)
    returns (value: real)
    requires IsGrid3(values, d) && InputsIn(ins, d.nVeg) && |tiles| == |ins| && minimumPoints >= 1
    requires forall k :: 0 <= k < |tiles| ==> IsGrid2(tiles[k], d.nLat, d.nLon)
    ensures value == TileValue(PooledSumTo(values, ins, tiles, d, |tiles|), points, minimumPoints)
  {
    if points < minimumPoints {
      value := 0.0;
    } else {
      var total := PooledTotal(values, ins, tiles, d);
      value := total / points as real;
    }
  }

  /**
   * One point to fill: search, write every per-tile variable at the point
   * (0 when too few points were found, the pooled mean otherwise), then clear
   * the search mask.
   */
  method FillPoint(mask: array2<bool>, tile: array4<real>, x: Restart, c: Config, v: nat, lon: nat, lat: nat)
    requires SearchPointOf(x, c, v, lon, lat) && c.minimumPoints >= 1 && TileShape(tile, x)
    requires mask.Length0 == x.dims.nLat && mask.Length1 == x.dims.nLon
    requires forall i, j :: 0 <= i < mask.Length0 && 0 <= j < mask.Length1 ==> !mask[i, j]
    modifies mask, tile
    ensures forall i, j :: 0 <= i < mask.Length0 && 0 <= j < mask.Length1 ==> !mask[i, j]
    ensures forall t, v', i, j :: 0 <= t < tile.Length0 && 0 <= v' < tile.Length1 && 0 <= i < tile.Length2 && 0 <= j < tile.Length3 ==>
              tile[t, v', i, j] == if v' == v && i == lat && j == lon then SearchedTile(x, c, t, v, lon, lat) else old(tile[t, v', i, j])
  {
    var stage, tiles, points := SearchPoint(mask, x, c, v, lon, lat);
    var values := PointValues(x.tileVars, c.vegetationMap[v], tiles, x.dims, points, c.minimumPoints);
    assert forall t :: 0 <= t < |values| ==> values[t] == SearchedTile(x, c, t, v, lon, lat);
    WritePoint(tile, v, lon, lat, values);
    ClearMask(mask);
  }

  /** The loop over the per-tile variables at one point, once the search has stopped: the value of each. */
  method PointValues(vars: seq<Grid3<real>>, ins: seq<int>, tiles: seq<Mask>, d: Dims, points: nat, minimumPoints: int)
    returns (values: seq<real>)
    requires forall t :: 0 <= t < |vars| ==> IsGrid3(vars[t], d)
    requires InputsIn(ins, d.nVeg) && |tiles| == |ins| && minimumPoints >= 1
    requires forall k :: 0 <= k < |tiles| ==> IsGrid2(tiles[k], d.nLat, d.nLon)
    ensures |values| == |vars|
    ensures forall t :: 0 <= t < |values| ==>
              values[t] == TileValue(PooledSumTo(vars[t], ins, tiles, d, |tiles|), points, minimumPoints)
  {
    values := [];
    for t := 0 to |vars|
      invariant |values| == t
      invariant forall t' :: 0 <= t' < t ==>
                  values[t'] == TileValue(PooledSumTo(vars[t'], ins, tiles, d, |tiles|), points, minimumPoints)
    {
      var value := PointValue(vars[t], ins, tiles, d, points, minimumPoints);
      values := values + [value];
    }
  }

  /** Writes `values[t]` into per-tile variable `t` at `(v, lat, lon)` and nowhere else. */
  method WritePoint(tile: array4<real>, v: nat, lon: nat, lat: nat, values: seq<real>)
    requires |values| == tile.Length0 && v < tile.Length1 && lat < tile.Length2 && lon < tile.Length3
    modifies tile
    ensures forall t, v', i, j :: 0 <= t < tile.Length0 && 0 <= v' < tile.Length1 && 0 <= i < tile.Length2 && 0 <= j < tile.Length3 ==>
              tile[t, v', i, j] == if v' == v && i == lat && j == lon then values[t] else old(tile[t, v', i, j])
  {
    forall t | 0 <= t < |values| {
      tile[t, v, lat, lon] := values[t];
    }
  }

  /** `(v', i', j')` comes before `(v, i, j)` in the order the points are visited (vegetation, latitude, longitude). */
  predicate Before(v': nat, i': nat, j': nat, v: nat, i: nat, j: nat) {
    v' < v || (v' == v && (i' < i || (i' == i && j' < j)))
  }

  /**
   * The loop over the tiles to fill, in vegetation, latitude, longitude order:
   * each one is filled by a search from its own cell; every other tile keeps
   * its initial value.
   */
  method ResolveTiles(mask: array2<bool>, tile: array4<real>, x: Restart, c: Config, fillAll: bool)
    requires x.Valid() && ValidConfig(c, x.dims.nVeg) && TileShape(tile, x)
    requires mask.Length0 == x.dims.nLat && mask.Length1 == x.dims.nLon
    requires forall i, j :: 0 <= i < mask.Length0 && 0 <= j < mask.Length1 ==> !mask[i, j]
    requires forall t, v, i, j :: 0 <= t < tile.Length0 && 0 <= v < tile.Length1 && 0 <= i < tile.Length2 && 0 <= j < tile.Length3 ==>
               tile[t, v, i, j] == InitialTile(x, fillAll, t, v, i, j)
    modifies mask, tile
    ensures forall i, j :: 0 <= i < mask.Length0 && 0 <= j < mask.Length1 ==> !mask[i, j]
    ensures forall t, v, i, j :: 0 <= t < tile.Length0 && 0 <= v < tile.Length1 && 0 <= i < tile.Length2 && 0 <= j < tile.Length3 ==>
              tile[t, v, i, j] == FinalTile(x, c, fillAll, t, v, i, j)
  {
    var d := x.dims;
    for v := 0 to d.nVeg
      invariant forall i, j :: 0 <= i < mask.Length0 && 0 <= j < mask.Length1 ==> !mask[i, j]
      invariant forall t, v', i', j' :: 0 <= t < tile.Length0 && 0 <= v' < tile.Length1 && 0 <= i' < tile.Length2 && 0 <= j' < tile.Length3 ==>
                  tile[t, v', i', j'] == if v' < v then FinalTile(x, c, fillAll, t, v', i', j') else InitialTile(x, fillAll, t, v', i', j')
    {
      for i := 0 to d.nLat
        invariant forall i, j :: 0 <= i < mask.Length0 && 0 <= j < mask.Length1 ==> !mask[i, j]
        invariant forall t, v', i', j' :: 0 <= t < tile.Length0 && 0 <= v' < tile.Length1 && 0 <= i' < tile.Length2 && 0 <= j' < tile.Length3 ==>
                    tile[t, v', i', j'] == if Before(v', i', 0, v, i, 0) then FinalTile(x, c, fillAll, t, v', i', j') else InitialTile(x, fillAll, t, v', i', j')
      {
        ResolveRow(mask, tile, x, c, fillAll, v, i);
      }
    }
  }

  /** The longitudes of one latitude row of output type `v`, in order. */
  method ResolveRow(mask: array2<bool>, tile: array4<real>, x: Restart, c: Config, fillAll: bool, v: nat, i: nat)
    requires x.Valid() && ValidConfig(c, x.dims.nVeg) && TileShape(tile, x) && v < x.dims.nVeg && i < x.dims.nLat
    requires mask.Length0 == x.dims.nLat && mask.Length1 == x.dims.nLon
    requires forall i, j :: 0 <= i < mask.Length0 && 0 <= j < mask.Length1 ==> !mask[i, j]
    requires forall t, v', i', j' :: 0 <= t < tile.Length0 && 0 <= v' < tile.Length1 && 0 <= i' < tile.Length2 && 0 <= j' < tile.Length3 ==>
               tile[t, v', i', j'] == if Before(v', i', 0, v, i, 0) then FinalTile(x, c, fillAll, t, v', i', j') else InitialTile(x, fillAll, t, v', i', j')
    modifies mask, tile
    ensures forall i, j :: 0 <= i < mask.Length0 && 0 <= j < mask.Length1 ==> !mask[i, j]
    ensures forall t, v', i', j' :: 0 <= t < tile.Length0 && 0 <= v' < tile.Length1 && 0 <= i' < tile.Length2 && 0 <= j' < tile.Length3 ==>
              tile[t, v', i', j'] == if Before(v', i', 0, v, i + 1, 0) then FinalTile(x, c, fillAll, t, v', i', j') else InitialTile(x, fillAll, t, v', i', j')
  {
    for j := 0 to x.dims.nLon
      invariant forall i, j :: 0 <= i < mask.Length0 && 0 <= j < mask.Length1 ==> !mask[i, j]
      invariant forall t, v', i', j' :: 0 <= t < tile.Length0 && 0 <= v' < tile.Length1 && 0 <= i' < tile.Length2 && 0 <= j' < tile.Length3 ==>
                  tile[t, v', i', j'] == if Before(v', i', j', v, i, j) then FinalTile(x, c, fillAll, t, v', i', j') else InitialTile(x, fillAll, t, v', i', j')
    {
      if ToFill(fillAll, x.inFrac[v][i][j], x.outFrac[v][i][j]) {
        FillPoint(mask, tile, x, c, v, j, i);
      }
    }
  }

  /** The remapped restart: the new fractions (written twice) and the per-cell and per-tile variables. */
  datatype Remapped = Remapped(
    fractions: Grid3<Frac>,
    previousFractions: Grid3<Frac>,
    cell: array4<real>,
    tile: array4<real>)

  /**
   * `remap_vegetation`: resolves the configuration, rejects one the arrays
   * cannot be indexed with, fills and empties the per-cell variables, initialises
   * the per-tile variables and fills each tile to fill by the staged search.
   */
  method RemapVegetation(x: Restart, raw: RawConfig, fillAll: bool) returns (r: Result<Remapped, ConfigError>)
    requires x.Valid()
    ensures var c := PrepareMapping(x.dims.nVeg, raw);
            && (r.Failure? <==> !ValidConfig(c, x.dims.nVeg))
            && (r.Failure? ==> r.error == ValidateConfig(c, x.dims.nVeg).error)
            && (r.Success? ==>
                  var out := r.value;
                  && out.fractions == x.outFrac && out.previousFractions == x.outFrac
                  && fresh(out.cell) && fresh(out.tile)
                  && out.cell.Length0 == |x.cellVars| && out.cell.Length1 == x.dims.nVeg
                  && out.cell.Length2 == x.dims.nLat && out.cell.Length3 == x.dims.nLon
                  && TileShape(out.tile, x)
                  && (forall k, v, i, j :: 0 <= k < |x.cellVars| && 0 <= v < x.dims.nVeg && 0 <= i < x.dims.nLat && 0 <= j < x.dims.nLon ==>
                        out.cell[k, v, i, j] == PerCellValue(x, fillAll, k, v, i, j))
                  && (forall t, v, i, j :: 0 <= t < |x.tileVars| && 0 <= v < x.dims.nVeg && 0 <= i < x.dims.nLat && 0 <= j < x.dims.nLon ==>
                        out.tile[t, v, i, j] == FinalTile(x, c, fillAll, t, v, i, j)))
  {
    var d := x.dims;
    var c := PrepareMapping(d.nVeg, raw);
    var checked := ValidateConfig(c, d.nVeg);
    if checked.Failure? {
      return Failure(checked.error);
    }
    var cell := PerCellOutputs(x, fillAll);
    var tile := InitialTileOutputs(x, fillAll);
    var mask := new bool[d.nLat, d.nLon]((i, j) => false);
    ResolveTiles(mask, tile, x, c, fillAll);
    r := Success(Remapped(x.outFrac, x.outFrac, cell, tile));
  }
}
