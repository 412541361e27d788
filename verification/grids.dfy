/**
 * The land-surface grid shared by every part of the remapping: area fractions
 * with their ocean sentinel, two- and three-dimensional grids held as nested
 * sequences, and the counting and masked sums that numpy performs on them.
 */
module LandGrid {

  datatype Option<T> = None | Some(value: T) {
    /** The value, or `default` when absent (Python's `dict.get(key, default)`). */
    function GetOr(default: T): T {
      match this
      case Some(v) => v
      case None => default
    }
  }

  /**
   * An area fraction of one vegetation tile. Ocean and other non-land cells hold
   * a not-a-number sentinel, modelled as `Missing`; every comparison with it is false.
   */
  datatype Frac = Missing | Present(value: real)

  /** The fraction a tile must exceed to count as active. */
  const ActiveThreshold: real := 0.0

  /** `~isnan(f) & (f > ActiveThreshold)`: the tile exists on land. */
  predicate IsActive(f: Frac) {
    f.Present? && f.value > ActiveThreshold
  }

  /** `f <= 0.0`, which is false for the sentinel. */
  predicate AtMostZero(f: Frac) {
    f.Present? && f.value <= 0.0
  }

  /** `f > 0.0`, which is false for the sentinel. */
  predicate AboveZero(f: Frac) {
    f.Present? && f.value > 0.0
  }

  /** Grid sizes: vegetation types, latitudes, longitudes. */
  datatype Dims = Dims(nVeg: nat, nLat: nat, nLon: nat)

  /** A latitude x longitude plane; a search or tile mask when the cells are booleans. */
  type Mask = seq<seq<bool>>

  /** A vegetation x latitude x longitude field. */
  type Grid3<T> = seq<seq<seq<T>>>

  predicate IsGrid2<T>(g: seq<seq<T>>, nLat: nat, nLon: nat) {
    |g| == nLat && forall i :: 0 <= i < nLat ==> |g[i]| == nLon
  }

  predicate IsGrid3<T>(g: Grid3<T>, d: Dims) {
    |g| == d.nVeg && forall v :: 0 <= v < d.nVeg ==> IsGrid2(g[v], d.nLat, d.nLon)
  }

  /** `a` and `b` are planes of the same shape. */
  predicate SameShape<S, T>(a: seq<seq<S>>, b: seq<seq<T>>) {
    |a| == |b| && forall i :: 0 <= i < |a| ==> |a[i]| == |b[i]|
  }

  /** Every cell that `a` marks is marked in `b` too. */
  predicate Within(a: Mask, b: Mask) {
    SameShape(a, b) &&
    forall i, j :: 0 <= i < |a| && 0 <= j < |a[i]| && a[i][j] ==> b[i][j]
  }

  /** No cell of `m` is marked. */
  predicate NoneMarked(m: Mask) {
    forall i, j :: 0 <= i < |m| && 0 <= j < |m[i]| ==> !m[i][j]
  }

  /** Two planes of the given shape that agree cell by cell are equal. */
  lemma GridExt<T>(a: seq<seq<T>>, b: seq<seq<T>>, nLat: nat, nLon: nat)
    requires IsGrid2(a, nLat, nLon) && IsGrid2(b, nLat, nLon)
    requires forall i, j :: 0 <= i < nLat && 0 <= j < nLon ==> a[i][j] == b[i][j]
    ensures a == b
  {
    forall i | 0 <= i < nLat
      ensures a[i] == b[i]
    {
      assert forall j :: 0 <= j < nLon ==> a[i][j] == b[i][j];
    }
  }

  // ---------------------------------------------------------------------------
  // Counting marked cells: numpy's `mask.sum()` on a boolean plane. The sums run
  // over the first `n` columns (rows) so that proofs never slice nested sequences.
  // ---------------------------------------------------------------------------

  function CountRowTo(r: seq<bool>, n: nat): nat
    requires n <= |r|
  {
    if n == 0 then 0 else CountRowTo(r, n - 1) + (if r[n - 1] then 1 else 0)
  }

  function CountTrueTo(m: Mask, n: nat): nat
    requires n <= |m|
  {
    if n == 0 then 0 else CountTrueTo(m, n - 1) + CountRowTo(m[n - 1], |m[n - 1]|)
  }

  /** The number of marked cells of `m`. */
  function CountTrue(m: Mask): nat {
    CountTrueTo(m, |m|)
  }

  lemma {:induction false} CountRowZero(r: seq<bool>, n: nat)
    requires n <= |r|
    ensures CountRowTo(r, n) == 0 <==> forall j :: 0 <= j < n ==> !r[j]
  {
    if n > 0 {
      CountRowZero(r, n - 1);
    }
  }

  lemma {:induction false} CountTrueToZero(m: Mask, n: nat)
    requires n <= |m|
    ensures CountTrueTo(m, n) == 0 <==> forall i, j :: 0 <= i < n && 0 <= j < |m[i]| ==> !m[i][j]
  {
    if n > 0 {
      CountRowZero(m[n - 1], |m[n - 1]|);
      CountTrueToZero(m, n - 1);
    }
  }

  /** A plane counts zero exactly when none of its cells is marked. */
  lemma CountTrueZero(m: Mask)
    ensures CountTrue(m) == 0 <==> NoneMarked(m)
  {
    CountTrueToZero(m, |m|);
  }

  lemma {:induction false} CountRowMonotone(a: seq<bool>, b: seq<bool>, n: nat)
    requires n <= |a| == |b|
    requires forall j :: 0 <= j < n && a[j] ==> b[j]
    ensures CountRowTo(a, n) <= CountRowTo(b, n)
  {
    if n > 0 {
      CountRowMonotone(a, b, n - 1);
    }
  }

  lemma {:induction false} CountTrueToMonotone(a: Mask, b: Mask, n: nat)
    requires Within(a, b) && n <= |a|
    ensures CountTrueTo(a, n) <= CountTrueTo(b, n)
  {
    if n > 0 {
      CountRowMonotone(a[n - 1], b[n - 1], |a[n - 1]|);
      CountTrueToMonotone(a, b, n - 1);
    }
  }

  /** Marking more cells never lowers the count. */
  lemma CountTrueMonotone(a: Mask, b: Mask)
    requires Within(a, b)
    ensures CountTrue(a) <= CountTrue(b)
  {
    CountTrueToMonotone(a, b, |a|);
  }

  // ---------------------------------------------------------------------------
  // Masked sums: numpy's `values[mask].sum()`.
  // ---------------------------------------------------------------------------

  function MaskedRowSumTo(values: seq<real>, m: seq<bool>, n: nat): real
    requires n <= |values| == |m|
  {
    if n == 0 then 0.0
    else MaskedRowSumTo(values, m, n - 1) + (if m[n - 1] then values[n - 1] else 0.0)
  }

  function MaskedSumTo(values: seq<seq<real>>, m: Mask, n: nat): real
    requires SameShape(values, m) && n <= |m|
  {
    if n == 0 then 0.0
    else MaskedSumTo(values, m, n - 1) + MaskedRowSumTo(values[n - 1], m[n - 1], |m[n - 1]|)
  }

  /** The sum of `values` over the cells `m` marks. */
  function MaskedSum(values: seq<seq<real>>, m: Mask): real
    requires SameShape(values, m)
  {
    MaskedSumTo(values, m, |m|)
  }

  /** Every marked value of `values` lies in `[lo, hi]`. */
  predicate MarkedBetween(values: seq<seq<real>>, m: Mask, lo: real, hi: real)
    requires SameShape(values, m)
  {
    forall i, j :: 0 <= i < |m| && 0 <= j < |m[i]| && m[i][j] ==> lo <= values[i][j] <= hi
  }

  /** `k` copies of `c` added up: `c * k`, kept free of nonlinear arithmetic. */
  function Times(k: nat, c: real): real {
    if k == 0 then 0.0 else Times(k - 1, c) + c
  }

  lemma {:induction false} TimesAdd(a: nat, b: nat, c: real)
    ensures Times(a + b, c) == Times(a, c) + Times(b, c)
  {
    if b > 0 {
      TimesAdd(a, b - 1, c);
    }
  }

  lemma {:induction false} TimesIsProduct(k: nat, c: real)
    ensures Times(k, c) == c * k as real
  {
    if k > 0 {
      TimesIsProduct(k - 1, c);
      assert c * k as real == c * (k - 1) as real + c;
    }
  }

  lemma {:induction false} MaskedRowSumBounds(values: seq<real>, m: seq<bool>, n: nat, lo: real, hi: real)
    requires n <= |values| == |m|
    requires forall j :: 0 <= j < n && m[j] ==> lo <= values[j] <= hi
    ensures Times(CountRowTo(m, n), lo) <= MaskedRowSumTo(values, m, n) <= Times(CountRowTo(m, n), hi)
  {
    if n > 0 {
      MaskedRowSumBounds(values, m, n - 1, lo, hi);
      var k := if m[n - 1] then 1 else 0;
      TimesAdd(CountRowTo(m, n - 1), k, lo);
      TimesAdd(CountRowTo(m, n - 1), k, hi);
    }
  }

  lemma {:induction false} MaskedSumToBounds(values: seq<seq<real>>, m: Mask, n: nat, lo: real, hi: real)
    requires SameShape(values, m) && n <= |m|
    requires MarkedBetween(values, m, lo, hi)
    ensures Times(CountTrueTo(m, n), lo) <= MaskedSumTo(values, m, n) <= Times(CountTrueTo(m, n), hi)
  {
    if n > 0 {
      var row := n - 1;
      MaskedSumToBounds(values, m, row, lo, hi);
      MaskedRowSumBounds(values[row], m[row], |m[row]|, lo, hi);
      TimesAdd(CountTrueTo(m, row), CountRowTo(m[row], |m[row]|), lo);
      TimesAdd(CountTrueTo(m, row), CountRowTo(m[row], |m[row]|), hi);
    }
  }

  /**
   * A sum over the marked cells lies between `lo` and `hi` times their number
   * when every marked value does.
   */
  lemma MaskedSumBounds(values: seq<seq<real>>, m: Mask, lo: real, hi: real)
    requires SameShape(values, m)
    requires MarkedBetween(values, m, lo, hi)
    ensures Times(CountTrue(m), lo) <= MaskedSum(values, m) <= Times(CountTrue(m), hi)
  {
    MaskedSumToBounds(values, m, |m|, lo, hi);
  }
  // ---------------------------------------------------------------------------
  // The restart being remapped.
  // ---------------------------------------------------------------------------

  /**
   * What the remapping reads: the old (`inFrac`) and new (`outFrac`) vegetation
   * fractions and the per-cell and per-tile variables of the old restart, all on
   * the same `dims`.
   */
  datatype Restart = Restart(
    dims: Dims,
    inFrac: Grid3<Frac>,
    outFrac: Grid3<Frac>,
    cellVars: seq<Grid3<real>>,
    tileVars: seq<Grid3<real>>)
  {
    predicate Valid() {
      && IsGrid3(inFrac, dims)
      && IsGrid3(outFrac, dims)
      && (forall c :: 0 <= c < |cellVars| ==> IsGrid3(cellVars[c], dims))
      && (forall v :: 0 <= v < |tileVars| ==> IsGrid3(tileVars[v], dims))
    }
  }
}
