/**
 * The four ways the search for donor tiles widens around a grid cell: the cell
 * itself, a block of +-radius indices (latitudes clipped at the poles,
 * longitudes wrapping round the globe), a band of latitudes, and the whole
 * globe. Each one marks more cells of a latitude x longitude search mask in place.
 */
module SearchMasks {
  import opened LandGrid

  /** `numpy.clip(x, lo, hi)`: `x` raised to `lo`, then lowered to `hi`. */
  function Clip(x: int, lo: int, hi: int): (r: int)
    ensures lo <= hi ==> lo <= r <= hi
  {
    var y := if x < lo then lo else x;
    if y > hi then hi else y
  }

  function Dist(a: int, b: int): nat {
    if a <= b then b - a else a - b
  }

  /** Within a non-empty range, a clipped index is the one nearest to the unclipped one. */
  lemma ClipNearest(x: int, lo: int, hi: int)
    requires lo <= hi
    ensures forall y :: lo <= y <= hi ==> Dist(Clip(x, lo, hi), x) <= Dist(y, x)
    ensures lo <= x <= hi ==> Clip(x, lo, hi) == x
  {
  }

  /** The length of `numpy.arange(-r, r + 1)`: empty when `r` is negative. */
  function WindowLength(r: int): nat {
    if r >= 0 then 2 * r + 1 else 0
  }

  /** The latitudes `lat - r .. lat + r`, each clipped into the grid. */
  function LatIndices(lat: int, r: int, nLat: nat): (s: seq<int>)
    requires nLat > 0
    ensures |s| == WindowLength(r)
    ensures forall k :: 0 <= k < |s| ==> 0 <= s[k] < nLat
  {
    var s := seq(WindowLength(r), k => Clip(lat - r + k, 0, nLat - 1));
    assert forall k :: 0 <= k < |s| ==> s[k] == Clip(lat - r + k, 0, nLat - 1);
    s
  }

  /** The longitudes `lon - r .. lon + r`, each taken modulo `nLon`. */
  function LonIndices(lon: int, r: int, nLon: nat): (s: seq<int>)
    requires nLon > 0
    ensures |s| == WindowLength(r)
    ensures forall k :: 0 <= k < |s| ==> 0 <= s[k] < nLon
  {
    seq(WindowLength(r), k => (lon - r + k) % nLon)
  }

  /** Cell `(i, j)` lies in the `r`-block around `(lat, lon)`. */
  predicate InBlock(lon: int, lat: int, r: int, nLat: nat, nLon: nat, i: int, j: int)
    requires nLat > 0 && nLon > 0
  {
    i in LatIndices(lat, r, nLat) && j in LonIndices(lon, r, nLon)
  }

  /** Row `i` lies in the latitude band of half-width `band` around `lat`. */
  predicate InBand(lat: int, band: int, nLat: nat, i: int)
    requires nLat > 0
  {
    i in LatIndices(lat, band, nLat)
  }

  /** The search mask as a latitude x longitude plane. */
  function MaskOf(mask: array2<bool>): (m: Mask)
    reads mask
    ensures IsGrid2(m, mask.Length0, mask.Length1)
    ensures forall i, j :: 0 <= i < mask.Length0 && 0 <= j < mask.Length1 ==> m[i][j] == mask[i, j]
  {
    seq(mask.Length0, i requires 0 <= i < mask.Length0 reads mask =>
      seq(mask.Length1, j requires 0 <= j < mask.Length1 reads mask => mask[i, j]))
  }

  // ---------------------------------------------------------------------------
  // The index windows, characterised.
  // ---------------------------------------------------------------------------

  /**
   * The clipped latitudes are exactly the rows between the clipped ends of the
   * window: nothing is skipped at a pole, and nothing beyond it is reached.
   */
  lemma LatIndicesSpan(lat: int, r: int, nLat: nat)
    requires 0 <= lat < nLat && r >= 0
    ensures forall i :: i in LatIndices(lat, r, nLat) <==> Clip(lat - r, 0, nLat - 1) <= i <= Clip(lat + r, 0, nLat - 1)
  {
    var s := LatIndices(lat, r, nLat);
    forall i | i in s
      ensures Clip(lat - r, 0, nLat - 1) <= i <= Clip(lat + r, 0, nLat - 1)
    {
      var k :| 0 <= k < |s| && s[k] == i;
      assert i == Clip(lat - r + k, 0, nLat - 1);
    }
    forall i | Clip(lat - r, 0, nLat - 1) <= i <= Clip(lat + r, 0, nLat - 1)
      ensures i in s
    {
      var k := i - lat + r;
      assert Clip(i, 0, nLat - 1) == i;
      assert 0 <= k < |s| && s[k] == i;
    }
  }

  /** Euclidean division leaves a unique remainder: `n * q + m` with `0 <= m < n` leaves `m`. */
  lemma ModUnique(x: int, n: int, q: int, m: int)
    requires n > 0 && 0 <= m < n && x == n * q + m
    ensures x % n == m
  {
    var q', m' := x / n, x % n;
    assert n * (q' - q) == m - m';
    if q' > q {
      MulAtLeast(n, q' - q);
    } else if q' < q {
      MulAtLeast(n, q - q');
    }
  }

  lemma {:induction false} MulAtLeast(n: int, d: int)
    requires n > 0 && d >= 1
    ensures n * d >= n
  {
    if d > 1 {
      MulAtLeast(n, d - 1);
      assert n * d == n * (d - 1) + n;
    }
  }

  /**
   * A longitude lies in the wrapped window exactly when its eastward offset
   * from the window's western end is at most `2 r`, or when the window is at
   * least as wide as the globe.
   */
  lemma LonIndicesWindow(lon: int, r: int, nLon: nat)
    requires nLon > 0 && r >= 0
    ensures forall j :: j in LonIndices(lon, r, nLon) <==>
              0 <= j < nLon && (2 * r + 1 >= nLon || (j - (lon - r)) % nLon <= 2 * r)
  {
    forall j | j in LonIndices(lon, r, nLon)
      ensures 2 * r + 1 >= nLon || (j - (lon - r)) % nLon <= 2 * r
    {
      LonIndexOffset(lon, r, nLon, j);
    }
    forall j | 0 <= j < nLon && (2 * r + 1 >= nLon || (j - (lon - r)) % nLon <= 2 * r)
      ensures j in LonIndices(lon, r, nLon)
    {
      LonIndexReached(lon, r, nLon, j);
    }
  }

  lemma LonIndexOffset(lon: int, r: int, nLon: nat, j: int)
    requires nLon > 0 && r >= 0 && j in LonIndices(lon, r, nLon)
    ensures 2 * r + 1 >= nLon || (j - (lon - r)) % nLon <= 2 * r
  {
    var s, w := LonIndices(lon, r, nLon), lon - r;
    var k :| 0 <= k < |s| && s[k] == j;
    var q := (w + k) / nLon;
    assert w + k == nLon * q + j;
    if 2 * r + 1 < nLon {
      ModUnique(j - w, nLon, -q, k);
    }
  }

  lemma LonIndexReached(lon: int, r: int, nLon: nat, j: int)
    requires nLon > 0 && r >= 0 && 0 <= j < nLon && (2 * r + 1 >= nLon || (j - (lon - r)) % nLon <= 2 * r)
    ensures j in LonIndices(lon, r, nLon)
  {
    var s, w := LonIndices(lon, r, nLon), lon - r;
    var k, q := (j - w) % nLon, (j - w) / nLon;
    assert j - w == nLon * q + k;
    ModUnique(w + k, nLon, -q, j);
    assert s[k] == j;
  }

  /** With a non-negative radius, the block around a cell contains the cell. */
  lemma CellInBlock(lon: int, lat: int, r: int, nLat: nat, nLon: nat)
    requires 0 <= lat < nLat && 0 <= lon < nLon && r >= 0
    ensures InBlock(lon, lat, r, nLat, nLon, lat, lon)
  {
    assert Clip(lat, 0, nLat - 1) == lat;
    assert LatIndices(lat, r, nLat)[r] == lat;
    ModUnique(lon, nLon, 0, lon);
    assert LonIndices(lon, r, nLon)[r] == lon;
  }

  /** A band at least as wide as the block covers every row of the block. */
  lemma BlockRowsInBand(lon: int, lat: int, r: int, band: int, nLat: nat, nLon: nat, i: int, j: int)
    requires 0 <= lat < nLat && nLon > 0 && 0 <= r <= band
    requires InBlock(lon, lat, r, nLat, nLon, i, j)
    ensures InBand(lat, band, nLat, i)
  {
    LatIndicesSpan(lat, r, nLat);
    LatIndicesSpan(lat, band, nLat);
  }

  // ---------------------------------------------------------------------------
  // The mask updates. Each one marks its region and leaves the rest as it was.
  // ---------------------------------------------------------------------------

  /** `modify_mask_for_cell`: marks the cell itself. */
  method ModifyMaskForCell(mask: array2<bool>, lon: int, lat: int)
    requires 0 <= lat < mask.Length0 && 0 <= lon < mask.Length1
    modifies mask
    ensures forall i, j :: 0 <= i < mask.Length0 && 0 <= j < mask.Length1 ==>
              mask[i, j] == (old(mask[i, j]) || (i == lat && j == lon))
  {
    mask[lat, lon] := true;
  }

  /** `modify_mask_for_nearest`: marks the block of +-`radius` indices around the cell. */
  method ModifyMaskForNearest(mask: array2<bool>, radius: int, lon: int, lat: int)
    requires 0 <= lat < mask.Length0 && 0 <= lon < mask.Length1
    modifies mask
    ensures forall i, j :: 0 <= i < mask.Length0 && 0 <= j < mask.Length1 ==>
              mask[i, j] == (old(mask[i, j]) || InBlock(lon, lat, radius, mask.Length0, mask.Length1, i, j))
  {
    var latInds := LatIndices(lat, radius, mask.Length0);
    var lonInds := LonIndices(lon, radius, mask.Length1);
    for a := 0 to |latInds|
      invariant forall i, j :: 0 <= i < mask.Length0 && 0 <= j < mask.Length1 ==>
                  mask[i, j] == (old(mask[i, j]) || (i in latInds[..a] && j in lonInds))
    {
      assert latInds[..a + 1] == latInds[..a] + [latInds[a]];
      for b := 0 to |lonInds|
        invariant forall i, j :: 0 <= i < mask.Length0 && 0 <= j < mask.Length1 ==>
                    mask[i, j] == (old(mask[i, j]) || (i in latInds[..a] && j in lonInds)
                                   || (i == latInds[a] && j in lonInds[..b]))
      {
        assert lonInds[..b + 1] == lonInds[..b] + [lonInds[b]];
        mask[latInds[a], lonInds[b]] := true;
      }
      assert lonInds[..|lonInds|] == lonInds;
    }
    assert latInds[..|latInds|] == latInds;
  }

  /** `modify_mask_for_latitude_band`: marks every row within +-`band` of the cell's latitude. */
  method ModifyMaskForLatitudeBand(mask: array2<bool>, band: int, lon: int, lat: int)
    requires 0 <= lat < mask.Length0 && 0 <= lon < mask.Length1
    modifies mask
    ensures forall i, j :: 0 <= i < mask.Length0 && 0 <= j < mask.Length1 ==>
              mask[i, j] == (old(mask[i, j]) || InBand(lat, band, mask.Length0, i))
  {
    var latInds := LatIndices(lat, band, mask.Length0);
    for a := 0 to |latInds|
      invariant forall i, j :: 0 <= i < mask.Length0 && 0 <= j < mask.Length1 ==>
                  mask[i, j] == (old(mask[i, j]) || i in latInds[..a])
    {
      assert latInds[..a + 1] == latInds[..a] + [latInds[a]];
      var row := latInds[a];
      forall j | 0 <= j < mask.Length1 {
        mask[row, j] := true;
      }
    }
    assert latInds[..|latInds|] == latInds;
  }

  /** `modify_mask_for_global`: marks every cell. */
  method ModifyMaskForGlobal(mask: array2<bool>)
    modifies mask
    ensures forall i, j :: 0 <= i < mask.Length0 && 0 <= j < mask.Length1 ==> mask[i, j]
  {
    forall i, j | 0 <= i < mask.Length0 && 0 <= j < mask.Length1 {
      mask[i, j] := true;
    }
  }

  /** `SearchMask[:] = False`: the mask is cleared before the next point. */
  method ClearMask(mask: array2<bool>)
    modifies mask
    ensures forall i, j :: 0 <= i < mask.Length0 && 0 <= j < mask.Length1 ==> !mask[i, j]
  {
    forall i, j | 0 <= i < mask.Length0 && 0 <= j < mask.Length1 {
      mask[i, j] := false;
    }
  }
}
