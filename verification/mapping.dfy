/**
 * Resolution of the remapping configuration: the output-to-input vegetation
 * mapping with its identity default, and the three search parameters with
 * their defaults.
 */
module Mapping {
  import opened LandGrid

  /**
   * The configuration file once parsed. `vegetationMap` holds the user's
   * `output -> [inputs]` entries with 1-based indices (empty when the file has no
   * `vegetation_map`); an absent search parameter is `None`.
   */
  datatype RawConfig = RawConfig(
    vegetationMap: map<int, seq<int>>,
    searchRadius: Option<int>,
    latitudeBand: Option<int>,
    minimumPoints: Option<int>)

  /** The resolved configuration, with 0-based vegetation indices. */
  datatype Config = Config(
    vegetationMap: map<int, seq<int>>,
    searchRadius: int,
    latitudeBand: int,
    minimumPoints: int)

  const DefaultSearchRadius: int := 2
  const DefaultLatitudeBand: int := 8
  const DefaultMinimumPoints: int := 1

  /** User vegetation indices count from 1; the arrays count from 0. */
  function ToZeroBased(ins: seq<int>): (r: seq<int>)
    ensures |r| == |ins|
    ensures forall k :: 0 <= k < |ins| ==> r[k] + 1 == ins[k]
  {
    seq(|ins|, k requires 0 <= k < |ins| => ins[k] - 1)
  }

  /** Every output type fed by the input type of the same index. */
  function IdentityMapping(nVeg: nat): (m: map<int, seq<int>>)
    ensures forall i :: i in m <==> 0 <= i < nVeg
    ensures forall i :: i in m ==> m[i] == [i]
  {
    map i | 0 <= i < nVeg :: [i]
  }

  /** The 0-based output types the user's entries name. */
  function Targets(user: map<int, seq<int>>): set<int> {
    set o | o in user :: o - 1
  }

  /**
   * `prepare_mapping` without the file read: the identity mapping for `nVeg`
   * output types, overlaid by the user's entries converted to 0-based indices,
   * and the search parameters defaulted where absent.
   */
  function PrepareMapping(nVeg: nat, raw: RawConfig): (c: Config)
    ensures forall i :: i in c.vegetationMap <==> 0 <= i < nVeg || i in Targets(raw.vegetationMap)
    ensures forall i :: 0 <= i < nVeg && i !in Targets(raw.vegetationMap) ==> c.vegetationMap[i] == [i]
    ensures forall o :: o in raw.vegetationMap ==>
              o - 1 in c.vegetationMap && c.vegetationMap[o - 1] == ToZeroBased(raw.vegetationMap[o])
    ensures c.searchRadius == if raw.searchRadius.Some? then raw.searchRadius.value else 2
    ensures c.latitudeBand == if raw.latitudeBand.Some? then raw.latitudeBand.value else 8
    ensures c.minimumPoints == if raw.minimumPoints.Some? then raw.minimumPoints.value else 1
  {
    var user := raw.vegetationMap;
    var mapping := map i | i in IdentityMapping(nVeg).Keys + Targets(user) ::
                     if i in Targets(user) then ToZeroBased(user[i + 1]) else [i];
    Config(
      mapping,
      raw.searchRadius.GetOr(DefaultSearchRadius),
      raw.latitudeBand.GetOr(DefaultLatitudeBand),
      raw.minimumPoints.GetOr(DefaultMinimumPoints))
  }

  // ---------------------------------------------------------------------------
  // Validation. The configuration is used as resolved above without any range
  // check; `ValidateConfig` is the check the remapping needs before it indexes
  // the fraction grids with the mapping and divides by the number of points.
  // ---------------------------------------------------------------------------

  datatype Result<T, E> = Success(value: T) | Failure(error: E)

  datatype ConfigError =
    | OutputTypeOutOfRange
    | InputTypeOutOfRange
    | MinimumPointsNotPositive

  /** Every output type has an entry and every mapped key is an output type. */
  predicate OutputsInRange(c: Config, nVeg: nat) {
    && (forall o :: 0 <= o < nVeg ==> o in c.vegetationMap)
    && (forall o :: o in c.vegetationMap ==> 0 <= o < nVeg)
  }

  /** Every contributing index is an input type. */
  predicate InputsInRange(c: Config, nVeg: nat) {
    forall o, k :: o in c.vegetationMap && 0 <= k < |c.vegetationMap[o]| ==>
      0 <= c.vegetationMap[o][k] < nVeg
  }

  /** Every index the mapping holds addresses the vegetation axis. */
  predicate IndicesInRange(c: Config, nVeg: nat) {
    OutputsInRange(c, nVeg) && InputsInRange(c, nVeg)
  }

  /** A configuration the remapping can run on without a negative index or a division by zero. */
  predicate ValidConfig(c: Config, nVeg: nat) {
    IndicesInRange(c, nVeg) && c.minimumPoints >= 1
  }

  /** Accepts a resolved configuration only when every index is in range and `minimum_points` is positive. */
  function ValidateConfig(c: Config, nVeg: nat): (r: Result<Config, ConfigError>)
    ensures r.Success? <==> ValidConfig(c, nVeg)
    ensures r.Success? ==> r.value == c
    ensures r == Failure(OutputTypeOutOfRange) ==> !OutputsInRange(c, nVeg)
    ensures r == Failure(InputTypeOutOfRange) ==> !InputsInRange(c, nVeg)
    ensures r == Failure(MinimumPointsNotPositive) ==> c.minimumPoints < 1
  {
    if !OutputsInRange(c, nVeg) then Failure(OutputTypeOutOfRange)
    else if !InputsInRange(c, nVeg) then Failure(InputTypeOutOfRange)
    else if c.minimumPoints < 1 then Failure(MinimumPointsNotPositive)
    else Success(c)
  }

  /**
   * As written, a user entry that names input type 0 (outside the 1-based range)
   * resolves to index -1, which numpy reads as the last vegetation type;
   * validation rejects it.
   */
  lemma UserIndexZeroResolvesToMinusOne()
    ensures var c := PrepareMapping(3, RawConfig(map[1 := [0]], None, None, None));
            0 in c.vegetationMap && c.vegetationMap[0] == [-1] &&
            ValidateConfig(c, 3) == Failure(InputTypeOutOfRange)
  {
    var raw := RawConfig(map[1 := [0]], None, None, None);
    var c := PrepareMapping(3, raw);
    assert Targets(raw.vegetationMap) == {0} by {
      assert 1 in raw.vegetationMap;
    }
    assert OutputsInRange(c, 3);
    assert c.vegetationMap[0] == ToZeroBased([0]) == [-1];
    assert c.vegetationMap[0][0] == -1;
  }

  /** Resolving a configuration without overrides gives the identity mapping and the documented defaults. */
  lemma DefaultsWhenAbsent(nVeg: nat)
    ensures var c := PrepareMapping(nVeg, RawConfig(map[], None, None, None));
            && c.vegetationMap == IdentityMapping(nVeg)
            && c.searchRadius == 2 && c.latitudeBand == 8 && c.minimumPoints == 1
            && ValidConfig(c, nVeg)
  {
    var c := PrepareMapping(nVeg, RawConfig(map[], None, None, None));
    assert c.vegetationMap.Keys == IdentityMapping(nVeg).Keys;
  }
}
