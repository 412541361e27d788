# Remapping a CABLE restart onto a new land cover

This project models the core of `adjust_restart_for_new_land_cover/adjust_restart_for_new_land_cover.py`. The script takes the CABLE section of a UM7 restart and a new vegetation map, and produces a restart whose per-tile and per-cell variables fit the new land cover.

- **Configuration.** `prepare_mapping` resolves the configuration. It starts from the identity output-to-input vegetation mapping and overlays the user's 1-based entries as 0-based indices. It defaults `search_radius` to 2, `latitude_band` to 8 and `minimum_points` to 1.
- **Fill and empty policy.** The tiles to fill are those absent from the old cover. In the default mode they must also be present in the new cover. The tiles to empty are those absent from the new cover; `--fill-all` empties nothing.
- **Per-cell variables.** They are copied from the old restart. On a tile to fill they are overwritten by the area-weighted mean of the cell's active tiles, and on a tile to empty by 0.
- **Per-tile variables.** They are copied from the old restart and zeroed on a tile to empty. Then every tile to fill is visited in vegetation, latitude, longitude order.
  - A shared latitude x longitude search mask is widened stage by stage: the cell itself, a block of +-`search_radius` indices, a band of +-`latitude_band` rows, then the globe. Latitudes are clipped at the poles; longitudes wrap round the globe.
  - After each stage, `find_active_tiles` keeps the searched cells where a contributing input type has a positive fraction. The search stops once the number of such (type, cell) points reaches the stage's threshold: 1, `minimum_points`, `minimum_points`, 1.
  - The tile receives the mean of the variable over all those points. It receives 0 when fewer than `minimum_points` were found.
  - The mask is cleared before the next tile.

Modules:

- **`LandGrid`** (`grids.dfy`): area fractions, grids, counting and masked sums.
  - A fraction is `Missing` on ocean cells, which stands for the not-a-number sentinel. Every comparison with it is false.
  - Grids are nested sequences.
  - Counting and masked sums are defined by recursion over a prefix, with bounds lemmas.
- **`Mapping`** (`mapping.dfy`): `prepare_mapping`, and the range check the remapping needs before it can index with the mapping.
- **`SearchMasks`** (`search_masks.dfy`): the four `modify_mask_for_*` functions as methods updating an `array2<bool>` in place. The index windows they mark are characterised exactly.
- **`ActiveTiles`** (`active_tiles.dfy`): `find_active_tiles` and the `PointsFound` count.
- **`FillPolicy`** (`fill_policy.dfy`): `TilesToFill` and `TilesToEmpty`, the area-weighted mean, the per-cell loop and the per-tile initialisation.
- **`Scenarios`** (`scenarios.dfy`): two worked searches on a 3x3 grid, as concrete instances of the search.
- **`Remap`** (`remap.dfy`): the staged search and the value a filled tile receives, as a specification and as the loop that updates the mask and the output array. `RemapVegetation` assembles the whole of `remap_vegetation`.

## Model

| member | source | states |
|---|---|---|
| Mapping.ToZeroBased | adjust_restart_for_new_land_cover/adjust_restart_for_new_land_cover.py:60-63 | each user index becomes the index one lower, and the list keeps its length |
| Mapping.IdentityMapping | adjust_restart_for_new_land_cover/adjust_restart_for_new_land_cover.py:55 | by default, output type `i` is fed by input type `[i]`, for exactly the indices `0 <= i < nVeg` |
| Mapping.PrepareMapping | adjust_restart_for_new_land_cover/adjust_restart_for_new_land_cover.py:44-72 | the keys are the output types plus every user key minus one; an output type the user does not name keeps `[i]`; every user entry `o` is at `o - 1` with its inputs made 0-based; an absent search parameter takes its default of 2, 8 or 1 |
| Mapping.DefaultsWhenAbsent | adjust_restart_for_new_land_cover/adjust_restart_for_new_land_cover.py:55-70 | with no overrides, the mapping is the identity, the parameters are 2, 8 and 1, and the configuration passes validation |
| Mapping.ValidateConfig | adjust_restart_for_new_land_cover/adjust_restart_for_new_land_cover.py:198-206 | accepts the configuration exactly when it maps each output type in range to inputs in range and `minimum_points >= 1`; each error names the part that fails |
| Mapping.UserIndexZeroResolvesToMinusOne | adjust_restart_for_new_land_cover/adjust_restart_for_new_land_cover.py:63 | a user entry naming input type 0 resolves to index -1, and validation rejects it |
| SearchMasks.Clip | adjust_restart_for_new_land_cover/adjust_restart_for_new_land_cover.py:123 | `numpy.clip` lands inside a non-empty range |
| SearchMasks.ClipNearest | adjust_restart_for_new_land_cover/adjust_restart_for_new_land_cover.py:122-123 | the clipped index is the in-range index nearest to the unclipped one, and an in-range index is left alone |
| SearchMasks.LatIndices | adjust_restart_for_new_land_cover/adjust_restart_for_new_land_cover.py:120-123 | `2r+1` latitudes (none for a negative radius), each a valid row |
| SearchMasks.LonIndices | adjust_restart_for_new_land_cover/adjust_restart_for_new_land_cover.py:120-126 | `2r+1` longitudes, each a valid column |
| SearchMasks.LatIndicesSpan | adjust_restart_for_new_land_cover/adjust_restart_for_new_land_cover.py:120-123 | the clipped latitudes are exactly the rows between the clipped ends of the window, with no gap at a pole |
| SearchMasks.LonIndicesWindow | adjust_restart_for_new_land_cover/adjust_restart_for_new_land_cover.py:125-126 | a column is in the window exactly when its eastward offset from the window's western end is at most `2r`, or the window spans the globe |
| SearchMasks.CellInBlock | adjust_restart_for_new_land_cover/adjust_restart_for_new_land_cover.py:110-131 | a block with a non-negative radius contains the searched cell |
| SearchMasks.BlockRowsInBand | adjust_restart_for_new_land_cover/adjust_restart_for_new_land_cover.py:133-149 | a band at least as wide as the radius covers every row of the block |
| SearchMasks.ModifyMaskForCell | adjust_restart_for_new_land_cover/adjust_restart_for_new_land_cover.py:103-108 | marks the cell and leaves every other cell as it was |
| SearchMasks.ModifyMaskForNearest | adjust_restart_for_new_land_cover/adjust_restart_for_new_land_cover.py:110-131 | marks exactly the clipped-latitude x wrapped-longitude block and leaves every other cell as it was |
| SearchMasks.ModifyMaskForLatitudeBand | adjust_restart_for_new_land_cover/adjust_restart_for_new_land_cover.py:133-149 | marks exactly the whole rows within the clipped band and leaves every other cell as it was |
| SearchMasks.ModifyMaskForGlobal | adjust_restart_for_new_land_cover/adjust_restart_for_new_land_cover.py:151-156 | marks every cell |
| SearchMasks.ClearMask | adjust_restart_for_new_land_cover/adjust_restart_for_new_land_cover.py:354-355 | clears every cell |
| ActiveTiles.FindActiveTiles | adjust_restart_for_new_land_cover/adjust_restart_for_new_land_cover.py:158-186 | one mask per contributing input type, in mapping order; a cell is marked exactly when it is searched and the type's fraction is not the sentinel and is above 0; each mask lies within the search mask |
| ActiveTiles.FindActiveTilesMonotone | adjust_restart_for_new_land_cover/adjust_restart_for_new_land_cover.py:180-182 | a wider search mask gives each type a wider active mask |
| ActiveTiles.PointsFoundCoversEach | adjust_restart_for_new_land_cover/adjust_restart_for_new_land_cover.py:321-322 | `PointsFound` adds up every mask: no contributing type has more active searched cells than the total |
| ActiveTiles.PointsFoundMonotone | adjust_restart_for_new_land_cover/adjust_restart_for_new_land_cover.py:321-322 | masks each within their counterpart count no more points |
| ActiveTiles.PointsFoundZero | adjust_restart_for_new_land_cover/adjust_restart_for_new_land_cover.py:321-322 | no point is found exactly when no mask marks a cell |
| ActiveTiles.NoActiveTiles | adjust_restart_for_new_land_cover/adjust_restart_for_new_land_cover.py:172-186 | the filter finds no point exactly when no contributing type is active in any searched cell |
| LandGrid.CountTrueZero | adjust_restart_for_new_land_cover/adjust_restart_for_new_land_cover.py:321 | a mask's count is 0 exactly when it marks no cell |
| LandGrid.CountTrueMonotone | adjust_restart_for_new_land_cover/adjust_restart_for_new_land_cover.py:321 | a mask within another counts no more cells |
| LandGrid.MaskedSumBounds | adjust_restart_for_new_land_cover/adjust_restart_for_new_land_cover.py:346-347 | the sum over the marked cells lies between `lo` and `hi` times their number when every marked value does |
| FillPolicy.PolicyFacts | adjust_restart_for_new_land_cover/adjust_restart_for_new_land_cover.py:222-241 | the fill and empty sets are disjoint; a filled tile was not active in the old cover; an ocean tile is neither filled nor emptied; the default mode fills a subset of what `--fill-all` fills |
| FillPolicy.ToFill | adjust_restart_for_new_land_cover/adjust_restart_for_new_land_cover.py:222-234 | a tile to fill has a present, non-positive old fraction; in the default mode its new fraction is also positive |
| FillPolicy.ToEmpty | adjust_restart_for_new_land_cover/adjust_restart_for_new_land_cover.py:236-241 | a tile to empty occurs only without `--fill-all`, and has a present, non-positive new fraction |
| FillPolicy.WeightedSumNoActive | adjust_restart_for_new_land_cover/adjust_restart_for_new_land_cover.py:246-258 | tiles masked out of the old cover contribute nothing: with none active, the weighted sum is 0 |
| FillPolicy.AreaWeightedMean | adjust_restart_for_new_land_cover/adjust_restart_for_new_land_cover.py:246-261 | the area-weighted mean of a cell with no active old tile is 0 |
| FillPolicy.WeightedSumIgnoresInactive | adjust_restart_for_new_land_cover/adjust_restart_for_new_land_cover.py:246-258 | values at tiles that are masked out, because their old fraction is at most 0 or the sentinel, do not affect the weighted sum |
| FillPolicy.WeightedSumAtLeast | adjust_restart_for_new_land_cover/adjust_restart_for_new_land_cover.py:255-261 | the weighted sum is at least `lo` times the total active fraction when every active tile's value is at least `lo` |
| FillPolicy.WeightedSumAtMost | adjust_restart_for_new_land_cover/adjust_restart_for_new_land_cover.py:255-261 | the weighted sum is at most `hi` times the total active fraction when every active tile's value is at most `hi` |
| FillPolicy.AreaWeightedMeanBounds | adjust_restart_for_new_land_cover/adjust_restart_for_new_land_cover.py:255-261 | where the active fractions add up to 1, the area-weighted mean lies between the smallest and the largest active value |
| FillPolicy.PerCellValue | adjust_restart_for_new_land_cover/adjust_restart_for_new_land_cover.py:263-268 | a per-cell output is the area-weighted mean on a tile to fill, 0 on a tile to empty, and the old value elsewhere |
| FillPolicy.PerCellOutputs | adjust_restart_for_new_land_cover/adjust_restart_for_new_land_cover.py:254-270 | a fresh array of every per-cell variable, holding `PerCellValue` at every point |
| FillPolicy.CellVariable | adjust_restart_for_new_land_cover/adjust_restart_for_new_land_cover.py:255-268 | one per-cell variable: every tile holds `PerCellValue`, and every other variable is unchanged |
| FillPolicy.InitialTileOutputs | adjust_restart_for_new_land_cover/adjust_restart_for_new_land_cover.py:272-278 | a fresh array of every per-tile variable: 0 on a tile to empty, the old value elsewhere |
| FillPolicy.InitialTile | adjust_restart_for_new_land_cover/adjust_restart_for_new_land_cover.py:272-278 | the initial per-tile value is 0 on a tile to empty, and the old value everywhere else (so on every tile with `--fill-all`) |
| Remap.StageMask | adjust_restart_for_new_land_cover/adjust_restart_for_new_land_cover.py:288-311 | the mask after a stage marks the union of the regions of that stage and every earlier one, because the mask is not cleared between stages |
| Remap.Threshold | adjust_restart_for_new_land_cover/adjust_restart_for_new_land_cover.py:302 | the point threshold is 1 for the cell and global stages, and `minimum_points` for the radius and band stages |
| Remap.FirstReached | adjust_restart_for_new_land_cover/adjust_restart_for_new_land_cover.py:309-326 | from a list of per-stage counts: the first stage whose count reaches its threshold, or the global stage; every earlier stage fell short |
| Remap.FinalStage | adjust_restart_for_new_land_cover/adjust_restart_for_new_land_cover.py:309-326 | the search stops at the first stage whose points reach its threshold `[1, min, min, 1]`, or at the global stage; every earlier stage fell short |
| Remap.StageMaskGrows | adjust_restart_for_new_land_cover/adjust_restart_for_new_land_cover.py:309-311 | the mask only grows from stage to stage |
| Remap.StagePointsNonDecreasing | adjust_restart_for_new_land_cover/adjust_restart_for_new_land_cover.py:309-322 | `PointsFound` never decreases from one stage to a later one |
| Remap.GlobalStageEmptyIffNoDonor | adjust_restart_for_new_land_cover/adjust_restart_for_new_land_cover.py:309-322 | the global stage finds no point exactly when no contributing type is active anywhere |
| Remap.CellStageSucceeds | adjust_restart_for_new_land_cover/adjust_restart_for_new_land_cover.py:302-326 | the search stops at the cell stage exactly when a contributing type is active at the cell itself |
| Remap.NothingFoundOnlyWithoutDonors | adjust_restart_for_new_land_cover/adjust_restart_for_new_land_cover.py:309-331 | with `minimum_points >= 1`, the search ends with no point found exactly when no contributing type is active anywhere |
| Remap.TileValueAsWrittenCases | adjust_restart_for_new_land_cover/adjust_restart_for_new_land_cover.py:331-352 | as written, the tile value has no value exactly when no point was found and `minimum_points <= 0`; it is 0 below the minimum; otherwise the value times the number of points is the pooled total |
| Remap.TileValue | adjust_restart_for_new_land_cover/adjust_restart_for_new_land_cover.py:331-352 | with `minimum_points >= 1`, the tile value is always the defined as-written outcome: 0 below the minimum, the pooled mean otherwise |
| Remap.ZeroMinimumDividesByZero | adjust_restart_for_new_land_cover/adjust_restart_for_new_land_cover.py:302-352 | with `minimum_points <= 0` and no active contributing tile, the search ends with 0 points and the division has no value |
| Remap.ZeroMinimumExample | adjust_restart_for_new_land_cover/adjust_restart_for_new_land_cover.py:302-352 | a one-cell restart with `minimum_points: 0` stops at the radius stage with 0 points and divides by zero |
| Remap.TileValueBounded | adjust_restart_for_new_land_cover/adjust_restart_for_new_land_cover.py:331-352 | a filled tile's value is 0 below the minimum, and otherwise lies between the smallest and the largest value of the variable |
| Remap.SearchedTileAsWritten | adjust_restart_for_new_land_cover/adjust_restart_for_new_land_cover.py:306-352 | the value a searched tile receives is the defined as-written outcome for the points pooled over the stage the search stopped at |
| Remap.ZeroFallback | adjust_restart_for_new_land_cover/adjust_restart_for_new_land_cover.py:328-333 | when no contributing input type is active anywhere, every search finds nothing and the tile is set to 0 |
| Remap.DonorAtCellBelowMinimumGivesZero | adjust_restart_for_new_land_cover/adjust_restart_for_new_land_cover.py:302-333 | when the cell stage succeeds with fewer than `minimum_points` points, the tile is set to 0 and no wider search is made |
| Remap.SearchedTileBounded | adjust_restart_for_new_land_cover/adjust_restart_for_new_land_cover.py:328-352 | a searched tile receives 0 or a value between the smallest and the largest value of the variable in the old restart |
| Remap.ApplyStage | adjust_restart_for_new_land_cover/adjust_restart_for_new_land_cover.py:291-311 | applies the stage's search method with its parameter: the mask gains exactly that stage's region |
| Remap.SearchStage | adjust_restart_for_new_land_cover/adjust_restart_for_new_land_cover.py:311-322 | one pass of the stage loop: the mask then marks every cell covered up to the stage, and the tiles and count are that stage's |
| Remap.SearchPoint | adjust_restart_for_new_land_cover/adjust_restart_for_new_land_cover.py:309-326 | the stage loop over a cleared mask stops at `FinalStage`, returns that stage's active tiles and their `PointsFound`, and leaves the mask holding every region searched up to that stage |
| Remap.PooledTotal | adjust_restart_for_new_land_cover/adjust_restart_for_new_land_cover.py:337-348 | `Total` is the sum, over the contributing types, of the variable at that type's active cells |
| Remap.FinalTile | adjust_restart_for_new_land_cover/adjust_restart_for_new_land_cover.py:222-352 | the final per-tile value is the searched value on a tile to fill, 0 on a tile to empty, and the old value elsewhere |
| Remap.FillAllKeepsExistingTiles | adjust_restart_for_new_land_cover/adjust_restart_for_new_land_cover.py:222-278 | with `--fill-all`, a tile active in the old cover keeps every per-cell and per-tile value of the old restart |
| Remap.PointValue | adjust_restart_for_new_land_cover/adjust_restart_for_new_land_cover.py:331-352 | the value of one per-tile variable once the search stops: 0 below the minimum, `Total / PointsFound` otherwise |
| Remap.PointValues | adjust_restart_for_new_land_cover/adjust_restart_for_new_land_cover.py:331-352 | the values of every per-tile variable at the point, in order, each 0 below the minimum and `Total / PointsFound` otherwise |
| Remap.WritePoint | adjust_restart_for_new_land_cover/adjust_restart_for_new_land_cover.py:331-352 | writes each variable's value at the point and changes no other element |
| Remap.FillPoint | adjust_restart_for_new_land_cover/adjust_restart_for_new_land_cover.py:306-355 | writes the searched value of every per-tile variable at the point, changes no other element, and leaves the mask clear |
| Remap.ResolveRow | adjust_restart_for_new_land_cover/adjust_restart_for_new_land_cover.py:306-355 | after one latitude row of an output type, every earlier point holds its final value, and the mask is clear |
| Remap.ResolveTiles | adjust_restart_for_new_land_cover/adjust_restart_for_new_land_cover.py:283-355 | after the loop, every tile to fill holds its searched value, every other tile its initial value, and the mask is clear |
| Remap.RemapVegetation | adjust_restart_for_new_land_cover/adjust_restart_for_new_land_cover.py:188-357 | rejects a configuration that fails validation with its error; otherwise both fraction fields are the new cover, every per-cell output is `PerCellValue`, and every per-tile output is the searched value on a tile to fill and the initial value elsewhere |
| Scenarios.RadiusBlockCoversGrid | adjust_restart_for_new_land_cover/adjust_restart_for_new_land_cover.py:120-126 | on a 3x3 grid, the radius-1 block around the centre covers every cell |
| Scenarios.WiderStagesFindTwo | adjust_restart_for_new_land_cover/adjust_restart_for_new_land_cover.py:309-322 | with one active corner for each of two contributing types, every stage from the radius stage on finds exactly 2 points |
| Scenarios.RadiusStageStops | adjust_restart_for_new_land_cover/adjust_restart_for_new_land_cover.py:302-326 | with `minimum_points` 1, the cell stage finds nothing and the search stops at the radius stage with 2 points |
| Scenarios.RadiusStageAveragesCorners | adjust_restart_for_new_land_cover/adjust_restart_for_new_land_cover.py:331-352 | the centre tile then receives the mean of the two corner values, 20 |
| Scenarios.ThreePointsNeverReached | adjust_restart_for_new_land_cover/adjust_restart_for_new_land_cover.py:302-333 | with `minimum_points` 3, no stage finds 3 points, so the search runs to the global stage and the tile is set to 0 |

## Left out

- The command line (lines 6-42 and 359-382), the YAML read (lines 48-49) and `setup_output_dataset` (lines 74-101) are left out. They are file and NetCDF I/O. The model takes the parsed configuration (`RawConfig`) and the arrays of the restart (`Restart`) as values.
- The other scripts of the repository are not part of this model.
- Floating point is modelled by exact reals; the not-a-number sentinel is `Frac.Missing`. Rounding in the sums and the division is not modelled.
- The per-cell and per-tile variable names (`per_cell`, `per_tile`) are not modelled. A `Restart` holds the fields of the named variables in order. A configuration without these lists fails in the source with a missing key; that failure is not modelled.
- `remap_vegetation` stores the module-level `NewVegetation` (lines 213-216), not its `OutputVegetation` argument. The script passes the same array as both, so both fraction fields are `outFrac`.
- The model does not capture xarray's `to_numpy` sharing memory with the input dataset (lines 266, 275). The search reads the old restart's values, not ones already zeroed or filled in place.
- A per-cell mean on a cell where every tile is masked out is taken as 0, which is what a masked sum filled with zeros gives.
- The comment at lines 163-166 describes the active threshold as 1e-6. The code compares with `> 0.0` (line 182), and the model follows the code (`LandGrid.ActiveThreshold`).
- Python's negative indexing, which a mapping index of -1 would use, is not modelled. Input index 0 is the first row of Findings.
- Remap.RemapVegetation: runs only on a configuration that `Mapping.ValidateConfig` accepts, so it rejects three kinds of configuration the source runs.
  - An output key outside `1..nVeg`, such as `{0: [1]}` or `{18: [1]}` with 17 types, is stored at key -1 or `nVeg` (line 63). The source never reads it, because the loop only visits output types `0..nVeg-1` (lines 306 and 317).
  - A `minimum_points` of 0 or less runs to ordinary means whenever every search finds a point. It divides by zero only when a search finds none, which is the second row of Findings.
  - An input index of `nVeg` or more raises an index error at line 180 only when a tile of that output type is searched.
- Remap.RemapVegetation: all fraction and variable grids share one vegetation x latitude x longitude shape (`Restart.Valid`). The source assumes the same and fails in numpy otherwise: in the `logical_and` at lines 231-234, in the masked array at line 283, and in the boolean indexing at lines 267 and 276.
- A 3x3 search with two single-cell donors and `minimum_points: 3` is sometimes described as succeeding at the band stage. The code cannot do that: the radius-1 block (lines 120-126) already covers the whole grid, and no later stage finds more than 2 points. The model follows the code (`Scenarios.ThreePointsNeverReached`).
- The unused `counter` variable (line 305) is left out.

## Findings

| source | as written | input that shows it | evidently intended | confidence | as-written member | corrected member |
|---|---|---|---|---|---|---|
| adjust_restart_for_new_land_cover/adjust_restart_for_new_land_cover.py:63 | user indices are lowered by one without a range check, so an index 0 becomes -1 and numpy reads it as the last vegetation type | `vegetation_map: {1: [0]}` with 3 vegetation types | 1-based indices in `[1, nVeg]`, others rejected | not executed | Mapping.UserIndexZeroResolvesToMinusOne | Mapping.ValidateConfig |
| adjust_restart_for_new_land_cover/adjust_restart_for_new_land_cover.py:302-352 | with `minimum_points` of 0 or less, a search that finds no point is not below the minimum, so `Total / PointsFound` divides by zero | a 1x1x1 restart whose only input type has fraction 0, with `minimum_points: 0` | `minimum_points` at least 1, so a mean is only taken over at least one point | not executed | Remap.ZeroMinimumExample | Remap.TileValue |
