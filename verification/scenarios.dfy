/**
 * Two worked searches on a 3x3 grid: output type 0 is fed by input types 0
 * and 1, each active at one corner cell, and the tile at the centre cell is
 * filled with `search_radius` 1.
 */
module Scenarios {
  import opened LandGrid
  import opened Mapping
  import opened SearchMasks
  import opened ActiveTiles
  import opened Remap

  /** Input type 0 is active at the north-west corner, input type 1 at the south-east one; the variable is 10 and 30 there. */
  function Corners(): Restart {
    var z := Present(0.0);
    var p := Present(0.5);
    Restart(Dims(2, 3, 3),
      [ [[p, z, z], [z, z, z], [z, z, z]],
        [[z, z, z], [z, z, z], [z, z, p]] ],
      [ [[p, z, z], [z, p, z], [z, z, z]],
        [[z, z, z], [z, z, z], [z, z, p]] ],
      [],
      [ [ [[10.0, 0.0, 0.0], [0.0, 0.0, 0.0], [0.0, 0.0, 0.0]],
          [[0.0, 0.0, 0.0], [0.0, 0.0, 0.0], [0.0, 0.0, 30.0]] ] ])
  }

  /** Output type 0 pooled from input types 0 and 1, radius 1, band 8. */
  function Pooled(minimumPoints: int): Config {
    Config(map[0 := [0, 1], 1 := [1]], 1, 8, minimumPoints)
  }

  const AllCells: Mask := [[true, true, true], [true, true, true], [true, true, true]]
  const NorthWest: Mask := [[true, false, false], [false, false, false], [false, false, false]]
  const SouthEast: Mask := [[false, false, false], [false, false, false], [false, false, true]]

  lemma CornersValid(minimumPoints: int)
    requires minimumPoints >= 1
    ensures Corners().Valid() && ValidConfig(Pooled(minimumPoints), 2)
    ensures SearchPointOf(Corners(), Pooled(minimumPoints), 0, 1, 1)
  {
  }

  /** On a 3x3 grid the radius-1 block around the centre already covers every cell. */
  lemma RadiusBlockCoversGrid(minimumPoints: int)
    ensures StageMask(1, Pooled(minimumPoints), 3, 3, 1, 1) == AllCells
  {
    var m := StageMask(1, Pooled(minimumPoints), 3, 3, 1, 1);
    LatIndicesSpan(1, 1, 3);
    LonIndicesWindow(1, 1, 3);
    forall i, j | 0 <= i < 3 && 0 <= j < 3
      ensures m[i][j] == AllCells[i][j]
    {
      assert InBlock(1, 1, 1, 3, 3, i, j);
    }
    GridExt(m, AllCells, 3, 3);
  }

  /** From the radius stage on, each contributing type is found at its corner alone. */
  lemma WiderStagesFindCorners(minimumPoints: int, stage: nat)
    requires minimumPoints >= 1 && 1 <= stage <= GlobalStage
    ensures StageTiles(Corners(), Pooled(minimumPoints), 0, 1, 1, stage) == [NorthWest, SouthEast]
  {
    CornersValid(minimumPoints);
    var c := Pooled(minimumPoints);
    RadiusBlockCoversGrid(minimumPoints);
    StageMaskGrows(1, stage, c, 3, 3, 1, 1);
    GridExt(StageMask(stage, c, 3, 3, 1, 1), AllCells, 3, 3);
    var tiles := StageTiles(Corners(), c, 0, 1, 1, stage);
    GridExt(tiles[0], NorthWest, 3, 3);
    GridExt(tiles[1], SouthEast, 3, 3);
  }

  /** From the radius stage on, the search finds two points. */
  lemma WiderStagesFindTwo(minimumPoints: int, stage: nat)
    requires minimumPoints >= 1 && 1 <= stage <= GlobalStage
    ensures StagePoints(Corners(), Pooled(minimumPoints), 0, 1, 1, stage) == 2
  {
    WiderStagesFindCorners(minimumPoints, stage);
    assert CountTrue(NorthWest) == 1;
    assert CountTrue(SouthEast) == 1;
    assert PointsFoundTo([NorthWest, SouthEast], 1) == 1;
  }

  /** With `minimum_points` 1 the cell stage finds nothing and the radius stage finds both corners. */
  lemma RadiusStageStops()
    ensures FinalStage(Corners(), Pooled(1), 0, 1, 1, 0) == 1
    ensures StagePoints(Corners(), Pooled(1), 0, 1, 1, 1) == 2
  {
    CornersValid(1);
    var x, c := Corners(), Pooled(1);
    assert !DonorAtCell(x, c, 0, 1, 1);
    CellStageSucceeds(x, c, 0, 1, 1);
    WiderStagesFindTwo(1, 1);
    FinalStageStep(x, c, 0, 1, 1, 0);
    FinalStageStep(x, c, 0, 1, 1, 1);
  }

  /** The variable summed over each corner's mask. */
  lemma CornerSums()
    ensures MaskedSum(Corners().tileVars[0][0], NorthWest) == 10.0
    ensures MaskedSum(Corners().tileVars[0][1], SouthEast) == 30.0
  {
  }

  /** With `minimum_points` 1 the tile at the centre is the mean of the two corners, 20. */
  lemma RadiusStageAveragesCorners()
    ensures SearchedTile(Corners(), Pooled(1), 0, 0, 1, 1) == 20.0
  {
    CornersValid(1);
    RadiusStageStops();
    WiderStagesFindCorners(1, 1);
    WiderStagesFindTwo(1, 1);
    CornerSums();
  }

  /**
   * With `minimum_points` 3 no stage finds more than the two corners, because
   * the radius block already covers the grid: the search runs to the global
   * stage and the tile is set to 0.
   */
  lemma ThreePointsNeverReached()
    ensures FinalStage(Corners(), Pooled(3), 0, 1, 1, 0) == GlobalStage
    ensures SearchedTile(Corners(), Pooled(3), 0, 0, 1, 1) == 0.0
  {
    CornersValid(3);
    var x, c := Corners(), Pooled(3);
    assert !DonorAtCell(x, c, 0, 1, 1);
    CellStageSucceeds(x, c, 0, 1, 1);
    WiderStagesFindTwo(3, 1);
    WiderStagesFindTwo(3, 2);
    WiderStagesFindTwo(3, 3);
    FinalStageStep(x, c, 0, 1, 1, 0);
    FinalStageStep(x, c, 0, 1, 1, 1);
    FinalStageStep(x, c, 0, 1, 1, 2);
  }
}
