/**
 * Which tiles the remapping fills and which it empties, the area-weighted mean
 * that fills the per-cell variables, and the initial values of the per-cell and
 * per-tile outputs before the per-tile search.
 */
module FillPolicy {
  import opened LandGrid

  /**
   * `TilesToFill` at one tile: with `--fill-all`, every tile that does not exist
   * in the old cover; otherwise only tiles that are absent in the old cover and
   * present in the new one.
   */
  predicate ToFill(fillAll: bool, inF: Frac, outF: Frac)
    ensures ToFill(fillAll, inF, outF) ==> inF.Present? && !IsActive(inF)
    ensures ToFill(fillAll, inF, outF) && !fillAll ==> IsActive(outF)
  {
    if fillAll then AtMostZero(inF) else AtMostZero(inF) && AboveZero(outF)
  }

  /** `TilesToEmpty` at one tile: nothing with `--fill-all`, otherwise every tile absent from the new cover. */
  predicate ToEmpty(fillAll: bool, outF: Frac)
    ensures ToEmpty(fillAll, outF) ==> !fillAll && outF.Present? && !IsActive(outF)
  {
    !fillAll && AtMostZero(outF)
  }

  /**
   * The two sets never overlap; a filled tile never existed in the old cover; an
   * ocean cell (missing fraction) is neither filled nor emptied; and the
   * default mode fills a subset of what `--fill-all` fills.
   */
  lemma PolicyFacts(fillAll: bool, inF: Frac, outF: Frac)
    ensures !(ToFill(fillAll, inF, outF) && ToEmpty(fillAll, outF))
    ensures ToFill(fillAll, inF, outF) ==> !IsActive(inF)
    ensures inF.Missing? ==> !ToFill(fillAll, inF, outF)
    ensures outF.Missing? ==> !ToEmpty(fillAll, outF)
    ensures ToFill(false, inF, outF) ==> ToFill(true, inF, outF)
  {
  }

  // ---------------------------------------------------------------------------
  // Area-weighted mean of a per-cell variable over the tiles active in the old cover.
  // ---------------------------------------------------------------------------

  /** The values of every vegetation type at cell `(i, j)`. */
  function Column<T>(g: Grid3<T>, d: Dims, i: nat, j: nat): (col: seq<T>)
    requires IsGrid3(g, d) && i < d.nLat && j < d.nLon
    ensures |col| == d.nVeg && forall v :: 0 <= v < d.nVeg ==> col[v] == g[v][i][j]
  {
    seq(d.nVeg, v requires 0 <= v < d.nVeg => g[v][i][j])
  }

  /**
   * `sum(values * masked(fracs))` over the first `n` vegetation types of one
   * cell, where fractions that are missing or at most zero are masked out.
   */
  function WeightedSumTo(values: seq<real>, fracs: seq<Frac>, n: nat): real
    requires n <= |values| && n <= |fracs|
  {
    if n == 0 then 0.0
    else
      var f := fracs[n - 1];
      WeightedSumTo(values, fracs, n - 1) + (if IsActive(f) then values[n - 1] * f.value else 0.0)
  }

  /** The active fractions among the first `n` vegetation types of one cell, added up. */
  function ActiveFractionTo(fracs: seq<Frac>, n: nat): (s: real)
    requires n <= |fracs|
    ensures s >= 0.0
  {
    if n == 0 then 0.0
    else ActiveFractionTo(fracs, n - 1) + (if IsActive(fracs[n - 1]) then fracs[n - 1].value else 0.0)
  }

  /**
   * The area-weighted mean of a per-cell variable at `(i, j)`: the fraction-weighted
   * sum over the tiles active in the old cover, 0 on a cell with no active tile.
   */
  function AreaWeightedMean(values: Grid3<real>, inFrac: Grid3<Frac>, d: Dims, i: nat, j: nat): (r: real)
    requires IsGrid3(values, d) && IsGrid3(inFrac, d) && i < d.nLat && j < d.nLon
    ensures (forall v :: 0 <= v < d.nVeg ==> !IsActive(inFrac[v][i][j])) ==> r == 0.0
  {
    WeightedSumNoActive(Column(values, d, i, j), Column(inFrac, d, i, j), d.nVeg);
    WeightedSumTo(Column(values, d, i, j), Column(inFrac, d, i, j), d.nVeg)
  }

  /** With no active tile among the first `n`, the weighted sum is 0. */
  lemma {:induction false} WeightedSumNoActive(values: seq<real>, fracs: seq<Frac>, n: nat)
    requires n <= |values| && n <= |fracs|
    ensures (forall v :: 0 <= v < n ==> !IsActive(fracs[v])) ==> WeightedSumTo(values, fracs, n) == 0.0
  {
    if n > 0 {
      WeightedSumNoActive(values, fracs, n - 1);
    }
  }

  /** Values at tiles that are missing or absent from the old cover do not enter the sum. */
  lemma {:induction false} WeightedSumIgnoresInactive(a: seq<real>, b: seq<real>, fracs: seq<Frac>, n: nat)
    requires n <= |a| && n <= |b| && n <= |fracs|
    requires forall v :: 0 <= v < n && IsActive(fracs[v]) ==> a[v] == b[v]
    ensures WeightedSumTo(a, fracs, n) == WeightedSumTo(b, fracs, n)
  {
    if n > 0 {
      WeightedSumIgnoresInactive(a, b, fracs, n - 1);
    }
  }

  /** The weighted sum is at least `lo` times the active fraction when every active tile's value is. */
  lemma {:induction false} WeightedSumAtLeast(values: seq<real>, fracs: seq<Frac>, n: nat, lo: real)
    requires n <= |values| && n <= |fracs|
    requires forall v :: 0 <= v < n && IsActive(fracs[v]) ==> lo <= values[v]
    ensures lo * ActiveFractionTo(fracs, n) <= WeightedSumTo(values, fracs, n)
  {
    if n > 0 {
      WeightedSumAtLeast(values, fracs, n - 1, lo);
      WeightedStepAtLeast(values, fracs, n, lo);
    }
  }

  /** The weighted sum is at most `hi` times the active fraction when every active tile's value is. */
  lemma {:induction false} WeightedSumAtMost(values: seq<real>, fracs: seq<Frac>, n: nat, hi: real)
    requires n <= |values| && n <= |fracs|
    requires forall v :: 0 <= v < n && IsActive(fracs[v]) ==> values[v] <= hi
    ensures WeightedSumTo(values, fracs, n) <= hi * ActiveFractionTo(fracs, n)
  {
    if n > 0 {
      WeightedSumAtMost(values, fracs, n - 1, hi);
      WeightedStepAtMost(values, fracs, n, hi);
    }
  }

  lemma WeightedStepAtLeast(values: seq<real>, fracs: seq<Frac>, n: nat, lo: real)
    requires 0 < n <= |values| && n <= |fracs|
    requires IsActive(fracs[n - 1]) ==> lo <= values[n - 1]
    requires lo * ActiveFractionTo(fracs, n - 1) <= WeightedSumTo(values, fracs, n - 1)
    ensures lo * ActiveFractionTo(fracs, n) <= WeightedSumTo(values, fracs, n)
  {
    var f := fracs[n - 1];
    var a, s := ActiveFractionTo(fracs, n - 1), WeightedSumTo(values, fracs, n - 1);
    if IsActive(f) {
      StepAtLeast(lo, values[n - 1], a, f.value, s);
    }
  }

  lemma WeightedStepAtMost(values: seq<real>, fracs: seq<Frac>, n: nat, hi: real)
    requires 0 < n <= |values| && n <= |fracs|
    requires IsActive(fracs[n - 1]) ==> values[n - 1] <= hi
    requires WeightedSumTo(values, fracs, n - 1) <= hi * ActiveFractionTo(fracs, n - 1)
    ensures WeightedSumTo(values, fracs, n) <= hi * ActiveFractionTo(fracs, n)
  {
    var f := fracs[n - 1];
    var a, s := ActiveFractionTo(fracs, n - 1), WeightedSumTo(values, fracs, n - 1);
    if IsActive(f) {
      StepAtMost(hi, values[n - 1], a, f.value, s);
    }
  }

  lemma StepAtLeast(lo: real, x: real, a: real, f: real, s: real)
    requires lo * a <= s && lo <= x && f > 0.0
    ensures lo * (a + f) <= s + x * f
  {
    assert lo * f <= x * f;
  }

  lemma StepAtMost(hi: real, x: real, a: real, f: real, s: real)
    requires s <= hi * a && x <= hi && f > 0.0
    ensures s + x * f <= hi * (a + f)
  {
    assert x * f <= hi * f;
  }

  /**
   * On a cell whose active fractions add up to 1, the area-weighted mean lies
   * between the smallest and largest value of the tiles active there.
   */
  lemma AreaWeightedMeanBounds(values: Grid3<real>, inFrac: Grid3<Frac>, d: Dims, i: nat, j: nat, lo: real, hi: real)
    requires IsGrid3(values, d) && IsGrid3(inFrac, d) && i < d.nLat && j < d.nLon
    requires ActiveFractionTo(Column(inFrac, d, i, j), d.nVeg) == 1.0
    requires forall v :: 0 <= v < d.nVeg && IsActive(inFrac[v][i][j]) ==> lo <= values[v][i][j] <= hi
    ensures lo <= AreaWeightedMean(values, inFrac, d, i, j) <= hi
  {
    WeightedSumAtLeast(Column(values, d, i, j), Column(inFrac, d, i, j), d.nVeg, lo);
    WeightedSumAtMost(Column(values, d, i, j), Column(inFrac, d, i, j), d.nVeg, hi);
  }

  // ---------------------------------------------------------------------------
  // The outputs before the per-tile search.
  // ---------------------------------------------------------------------------

  /**
   * A per-cell output: the area-weighted mean on a tile to fill, 0 on a tile to
   * empty, the old value elsewhere.
   */
  function PerCellValue(x: Restart, fillAll: bool, c: nat, v: nat, i: nat, j: nat): (r: real)
    requires x.Valid() && c < |x.cellVars| && v < x.dims.nVeg && i < x.dims.nLat && j < x.dims.nLon
    ensures ToEmpty(fillAll, x.outFrac[v][i][j]) ==> r == 0.0
    ensures ToFill(fillAll, x.inFrac[v][i][j], x.outFrac[v][i][j]) ==>
              r == AreaWeightedMean(x.cellVars[c], x.inFrac, x.dims, i, j)
    ensures !ToFill(fillAll, x.inFrac[v][i][j], x.outFrac[v][i][j]) && !ToEmpty(fillAll, x.outFrac[v][i][j]) ==>
              r == x.cellVars[c][v][i][j]
  {
    if ToEmpty(fillAll, x.outFrac[v][i][j]) then 0.0
    else if ToFill(fillAll, x.inFrac[v][i][j], x.outFrac[v][i][j]) then
      AreaWeightedMean(x.cellVars[c], x.inFrac, x.dims, i, j)
    else x.cellVars[c][v][i][j]
  }

  /** A per-tile output before the search: 0 on a tile to empty, the old value elsewhere. */
  function InitialTile(x: Restart, fillAll: bool, t: nat, v: nat, i: nat, j: nat): (r: real)
    requires x.Valid() && t < |x.tileVars| && v < x.dims.nVeg && i < x.dims.nLat && j < x.dims.nLon
    ensures ToEmpty(fillAll, x.outFrac[v][i][j]) ==> r == 0.0
    ensures !ToEmpty(fillAll, x.outFrac[v][i][j]) ==> r == x.tileVars[t][v][i][j]
  {
    if ToEmpty(fillAll, x.outFrac[v][i][j]) then 0.0 else x.tileVars[t][v][i][j]
  }

  /**
   * The per-cell loop: each variable is copied from the old restart, the tiles
   * to fill are overwritten by the area-weighted mean, and the tiles to empty by 0.
   */
  method PerCellOutputs(x: Restart, fillAll: bool) returns (cell: array4<real>)
    requires x.Valid()
    ensures fresh(cell)
    ensures cell.Length0 == |x.cellVars| && cell.Length1 == x.dims.nVeg
    ensures cell.Length2 == x.dims.nLat && cell.Length3 == x.dims.nLon
    ensures forall c, v, i, j :: 0 <= c < cell.Length0 && 0 <= v < cell.Length1 && 0 <= i < cell.Length2 && 0 <= j < cell.Length3 ==>
              cell[c, v, i, j] == PerCellValue(x, fillAll, c, v, i, j)
  {
    var d := x.dims;
    cell := new real[|x.cellVars|, d.nVeg, d.nLat, d.nLon];
    for c := 0 to |x.cellVars|
      invariant forall c', v, i, j :: 0 <= c' < c && 0 <= v < d.nVeg && 0 <= i < d.nLat && 0 <= j < d.nLon ==>
                  cell[c', v, i, j] == PerCellValue(x, fillAll, c', v, i, j)
    {
      CellVariable(cell, x, fillAll, c);
    }
  }

  /**
   * One per-cell variable: copied from the old restart, then overwritten by the
   * area-weighted mean on the tiles to fill and by 0 on the tiles to empty.
   */
  method CellVariable(cell: array4<real>, x: Restart, fillAll: bool, c: nat)
    requires x.Valid() && c < |x.cellVars|
    requires cell.Length0 == |x.cellVars| && cell.Length1 == x.dims.nVeg
    requires cell.Length2 == x.dims.nLat && cell.Length3 == x.dims.nLon
    modifies cell
    ensures forall c', v, i, j :: 0 <= c' < cell.Length0 && 0 <= v < cell.Length1 && 0 <= i < cell.Length2 && 0 <= j < cell.Length3 ==>
              cell[c', v, i, j] == if c' == c then PerCellValue(x, fillAll, c, v, i, j) else old(cell[c', v, i, j])
  {
    var d := x.dims;
    var values := x.cellVars[c];
    forall v, i, j | 0 <= v < d.nVeg && 0 <= i < d.nLat && 0 <= j < d.nLon {
      cell[c, v, i, j] := values[v][i][j];
    }
    forall v, i, j | 0 <= v < d.nVeg && 0 <= i < d.nLat && 0 <= j < d.nLon && ToFill(fillAll, x.inFrac[v][i][j], x.outFrac[v][i][j]) {
      cell[c, v, i, j] := AreaWeightedMean(values, x.inFrac, d, i, j);
    }
    forall v, i, j | 0 <= v < d.nVeg && 0 <= i < d.nLat && 0 <= j < d.nLon && ToEmpty(fillAll, x.outFrac[v][i][j]) {
      cell[c, v, i, j] := 0.0;
    }
  }

  /** The per-tile initialisation: each variable is copied from the old restart and the tiles to empty are zeroed. */
  method InitialTileOutputs(x: Restart, fillAll: bool) returns (tile: array4<real>)
    requires x.Valid()
    ensures fresh(tile)
    ensures tile.Length0 == |x.tileVars| && tile.Length1 == x.dims.nVeg
    ensures tile.Length2 == x.dims.nLat && tile.Length3 == x.dims.nLon
    ensures forall t, v, i, j :: 0 <= t < tile.Length0 && 0 <= v < tile.Length1 && 0 <= i < tile.Length2 && 0 <= j < tile.Length3 ==>
              tile[t, v, i, j] == InitialTile(x, fillAll, t, v, i, j)
  {
    var d := x.dims;
    tile := new real[|x.tileVars|, d.nVeg, d.nLat, d.nLon];
    for t := 0 to |x.tileVars|
      invariant forall t', v, i, j :: 0 <= t' < t && 0 <= v < d.nVeg && 0 <= i < d.nLat && 0 <= j < d.nLon ==>
                  tile[t', v, i, j] == InitialTile(x, fillAll, t', v, i, j)
    {
      var values := x.tileVars[t];
      forall v, i, j | 0 <= v < d.nVeg && 0 <= i < d.nLat && 0 <= j < d.nLon {
        tile[t, v, i, j] := values[v][i][j];
      }
      forall v, i, j | 0 <= v < d.nVeg && 0 <= i < d.nLat && 0 <= j < d.nLon && ToEmpty(fillAll, x.outFrac[v][i][j]) {
        tile[t, v, i, j] := 0.0;
      }
    }
  }
}
