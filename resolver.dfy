/**
 * `get_coverage_level`: from the pixel a coordinate falls on to a signal
 * level, with the optional interpolation towards the next legend level.
 */
module Resolver {
  import opened Wrappers
  import opened Legend
  import opened Interpolation

  /** A (row, column) raster index, as the raster's own index function returns it. */
  datatype PixelIndex = PixelIndex(row: int, col: int)

  /** A raster of `height` rows of `width` RGB triples. */
  datatype Raster = Raster(height: nat, width: nat, pixels: seq<seq<Color>>) {

    /** The grid really is `height` by `width`. */
    predicate Valid()
    {
      |pixels| == height && forall i :: 0 <= i < |pixels| ==> |pixels[i]| == width
    }

    /** The bounds check made before any pixel is read. */
    predicate InBounds(p: PixelIndex)
    {
      0 <= p.col < width && 0 <= p.row < height
    }

    /** The three band values at `p`. */
    function At(p: PixelIndex): Color
      requires Valid() && InBounds(p)
    {
      pixels[p.row][p.col]
    }
  }

  /** Maps the coordinate text ("lat,lon") to a pixel index: reprojection
      followed by the raster's index function.  `None` stands for the
      `ValueError` raised when the text does not split into two floats. */
  type Locator = string -> Option<PixelIndex>

  /** The errors that leave the resolver instead of being turned into "no coverage". */
  datatype ResolveError = InvalidCoordinates | InvalidInterpolation

  /** Python truthiness of the interpolation argument: neither `None` nor "". */
  predicate Truthy(interpolation: Option<string>)
  {
    interpolation.Some? && interpolation.value != ""
  }

  /** The index of the first element of `s`, from `i` on, strictly between `lo` and `hi`. */
  function FirstBetween(s: seq<int>, lo: int, hi: int, i: nat): (k: Option<nat>)
    requires i <= |s|
    ensures k.None? ==> forall j :: i <= j < |s| ==> !(lo < s[j] < hi)
    ensures k.Some? ==> i <= k.value < |s| && lo < s[k.value] < hi
    ensures k.Some? ==> forall j :: i <= j < k.value ==> !(lo < s[j] < hi)
    decreases |s| - i
  {
    if i == |s| then None
    else if lo < s[i] < hi then Some(i)
    else FirstBetween(s, lo, hi, i + 1)
  }

  /** The "next level" of the interpolation: the first sorted legend level
      strictly between `minRsrp` and MAX_COVERAGE, or MIN_COVERAGE when there
      is none. */
  function NextLevel(minRsrp: int): int
  {
    var levels := SortedLevels();
    match FirstBetween(levels, minRsrp, MAX_COVERAGE, 0)
    case Some(k) => levels[k]
    case None => MIN_COVERAGE
  }

  /** The next level is the least legend level strictly between `minRsrp`
      and MAX_COVERAGE; when no legend level lies there it is MIN_COVERAGE. */
  lemma NextLevelIsLeastAbove(minRsrp: int)
    ensures (exists l :: l in Levels() && minRsrp < l < MAX_COVERAGE) ==>
              NextLevel(minRsrp) in Levels() && minRsrp < NextLevel(minRsrp) < MAX_COVERAGE
    ensures forall l :: l in Levels() && minRsrp < l < MAX_COVERAGE ==> NextLevel(minRsrp) <= l
    ensures (forall l :: l in Levels() ==> !(minRsrp < l < MAX_COVERAGE)) ==> NextLevel(minRsrp) == MIN_COVERAGE
  {
    var s := SortedLevels();
    assert forall l :: l in Levels() <==> l in s by {
      forall l ensures l in Levels() <==> l in s {
        assert l in Levels() <==> l in multiset(Levels());
        assert l in s <==> l in multiset(s);
      }
    }
    match FirstBetween(s, minRsrp, MAX_COVERAGE, 0)
    case Some(k) =>
      forall l | l in s && minRsrp < l < MAX_COVERAGE ensures s[k] <= l {
        var j :| 0 <= j < |s| && s[j] == l;
        assert k <= j;
      }
    case None =>
      forall l | l in s ensures !(minRsrp < l < MAX_COVERAGE) {
        var j :| 0 <= j < |s| && s[j] == l;
      }
  }

  /** `get_coverage_level` as a function of the coordinate text, the raster,
      the locator and the interpolation argument.  `Ok(None)` is the
      source's `None` (no coverage). */
  function CoverageLevel(coords: string, raster: Raster, locate: Locator,
                         interpolation: Option<string>): Result<Option<real>, ResolveError>
    requires raster.Valid()
  {
    match locate(coords)
    case None => Err(InvalidCoordinates)
    case Some(p) =>
      if !raster.InBounds(p) then Ok(None)
      else
        var pixel := raster.At(p);
        if pixel == White then Ok(None)
        else
          match ClosestRgb(pixel)
          case None => Ok(None)
          case Some(closest) =>
            var closestRsrp := LevelOf(closest).GetOr(MIN_COVERAGE);
            if closestRsrp == MAX_COVERAGE then Ok(Some(MAX_COVERAGE as real))
            else if Truthy(interpolation) then
              match LevelOf(closest)
              case None => Ok(None)  // a KeyError, caught
              case Some(minVal) =>
                var minRsrp := if closestRsrp == MIN_COVERAGE then MAX_COVERAGE else closestRsrp;
                var maxRsrp := NextLevel(minRsrp);
                match InterpolateRsrpValue(minRsrp as real, maxRsrp as real, minVal as real,
                                           maxRsrp as real, closestRsrp as real, interpolation)
                case Ok(v) => Ok(Some(v))
                case Err(_) => Err(InvalidInterpolation)
            else Ok(Some(closestRsrp as real))
  }

  /** The scan for the next level: the sorted levels are walked in order
      and the first one strictly between `minRsrp` and MAX_COVERAGE is taken;
      MIN_COVERAGE stays when the scan finds none. */
  method FindNextLevel(minRsrp: int) returns (maxRsrp: int)
    ensures maxRsrp == NextLevel(minRsrp)
  {
    maxRsrp := MIN_COVERAGE;
    var levels := SortedLevels();
    var i := 0;
    while i < |levels|
      invariant 0 <= i <= |levels|
      invariant forall j :: 0 <= j < i ==> !(minRsrp < levels[j] < MAX_COVERAGE)
      invariant maxRsrp == MIN_COVERAGE
    {
      if minRsrp < levels[i] < MAX_COVERAGE {
        maxRsrp := levels[i];
        break;
      }
      i := i + 1;
    }
  }

  /** `get_coverage_level` step by step, with the source's scan for the next level. */
  method GetCoverageLevel(coords: string, raster: Raster, locate: Locator,
                          interpolation: Option<string>) returns (r: Result<Option<real>, ResolveError>)
    requires raster.Valid()
    ensures r == CoverageLevel(coords, raster, locate, interpolation)
  {
    var loc := locate(coords);
    if loc.None? {
      return Err(InvalidCoordinates);
    }
    var p := loc.value;
    if !raster.InBounds(p) {
      return Ok(None);
    }
    var pixel := raster.At(p);
    if pixel == White {
      return Ok(None);
    }
    var closest := ClosestRgb(pixel).value;
    var closestRsrp := LevelOf(closest).GetOr(MIN_COVERAGE);
    if closestRsrp == MAX_COVERAGE {
      return Ok(Some(MAX_COVERAGE as real));
    }
    if Truthy(interpolation) {
      var minRsrp := if closestRsrp == MIN_COVERAGE then MAX_COVERAGE else closestRsrp;
      var maxRsrp := FindNextLevel(minRsrp);
      var minVal := LevelOf(closest).value;
      var v := InterpolateRsrpValue(minRsrp as real, maxRsrp as real, minVal as real,
                                    maxRsrp as real, closestRsrp as real, interpolation);
      if v.Err? {
        return Err(InvalidInterpolation);
      }
      return Ok(Some(v.value));
    }
    return Ok(Some(closestRsrp as real));
  }

  /** `coords` lands inside the raster on a non-white pixel whose first
      nearest legend entry is number `k`. */
  ghost predicate ClassifiedAs(coords: string, raster: Raster, locate: Locator, k: int)
    requires raster.Valid()
  {
    && locate(coords).Some?
    && raster.InBounds(locate(coords).value)
    && raster.At(locate(coords).value) != White
    && FirstNearest(raster.At(locate(coords).value), k)
  }

  /** Text that does not parse as two floats raises instead of resolving. */
  lemma UnparsableCoordinatesRaise(coords: string, raster: Raster, locate: Locator,
                                   interpolation: Option<string>)
    requires raster.Valid() && locate(coords).None?
    ensures CoverageLevel(coords, raster, locate, interpolation) == Err(InvalidCoordinates)
  {
  }

  /** A location outside the raster is "no coverage", and the answer does
      not depend on any pixel: a raster of the same extent gives the same. */
  lemma OutOfBoundsIsNoCoverage(coords: string, raster: Raster, other: Raster, locate: Locator,
                                interpolation: Option<string>)
    requires raster.Valid() && other.Valid()
    requires other.height == raster.height && other.width == raster.width
    requires locate(coords).Some? && !raster.InBounds(locate(coords).value)
    ensures CoverageLevel(coords, raster, locate, interpolation) == Ok(None)
    ensures CoverageLevel(coords, other, locate, interpolation) == Ok(None)
  {
  }

  /** A white pixel is "no coverage", whatever the interpolation. */
  lemma WhiteIsNoCoverage(coords: string, raster: Raster, locate: Locator,
                          interpolation: Option<string>)
    requires raster.Valid()
    requires locate(coords).Some? && raster.InBounds(locate(coords).value)
    requires raster.At(locate(coords).value) == White
    ensures CoverageLevel(coords, raster, locate, interpolation) == Ok(None)
  {
  }

  /** The classified colour of a non-white pixel and its level. */
  lemma Classified(coords: string, raster: Raster, locate: Locator, k: int)
    requires raster.Valid() && ClassifiedAs(coords, raster, locate, k)
    ensures ClosestRgb(raster.At(locate(coords).value)) == Some(RgbToDbm[k].color)
    ensures LevelOf(RgbToDbm[k].color) == Some(RgbToDbm[k].dbm)
  {
    var pixel := raster.At(locate(coords).value);
    var k' :| FirstNearest(pixel, k') && RgbToDbm[k'].color == ClosestRgb(pixel).value;
    FirstNearestUnique(pixel, k, k');
    LevelOfEntry(k);
  }

  /** A pixel nearest to the MAX_COVERAGE colour resolves to exactly -80,
      with or without interpolation. */
  lemma StrongestIsExact(coords: string, raster: Raster, locate: Locator,
                         interpolation: Option<string>, k: int)
    requires raster.Valid() && ClassifiedAs(coords, raster, locate, k)
    requires RgbToDbm[k].dbm == MAX_COVERAGE
    ensures CoverageLevel(coords, raster, locate, interpolation) == Ok(Some(-80.0))
  {
    Classified(coords, raster, locate, k);
  }

  /** Without interpolation the result is the level of the nearest legend colour. */
  lemma UninterpolatedIsLegendLevel(coords: string, raster: Raster, locate: Locator,
                                    interpolation: Option<string>, k: int)
    requires raster.Valid() && ClassifiedAs(coords, raster, locate, k)
    requires !Truthy(interpolation)
    ensures CoverageLevel(coords, raster, locate, interpolation) == Ok(Some(RgbToDbm[k].dbm as real))
  {
    Classified(coords, raster, locate, k);
  }

  /** Without interpolation (the call `process_row` makes) the resolver
      raises exactly on coordinates that do not parse, yields a level exactly
      when the pixel is classified, and that level is the classified entry's. */
  lemma UninterpolatedOutcome(coords: string, raster: Raster, locate: Locator)
    requires raster.Valid()
    ensures CoverageLevel(coords, raster, locate, None).Err? <==> locate(coords).None?
    ensures CoverageLevel(coords, raster, locate, None).Ok? && CoverageLevel(coords, raster, locate, None).value.Some?
            <==> exists k :: ClassifiedAs(coords, raster, locate, k)
    ensures forall k :: ClassifiedAs(coords, raster, locate, k) ==>
              CoverageLevel(coords, raster, locate, None) == Ok(Some(RgbToDbm[k].dbm as real))
  {
    var r := CoverageLevel(coords, raster, locate, None);
    if r.Ok? && r.value.Some? {
      var pixel := raster.At(locate(coords).value);
      var k :| FirstNearest(pixel, k) && RgbToDbm[k].color == ClosestRgb(pixel).value;
      assert ClassifiedAs(coords, raster, locate, k);
    }
    forall k | ClassifiedAs(coords, raster, locate, k)
      ensures r == Ok(Some(RgbToDbm[k].dbm as real))
    {
      UninterpolatedIsLegendLevel(coords, raster, locate, None, k);
    }
  }

  /** With interpolation, a non-MAX level `d` is interpolated from
      `minRsrp` (MAX_COVERAGE for the weakest level, `d` otherwise) towards
      the next level, with `d` as both the lower and the current value. */
  lemma InterpolationInputs(coords: string, raster: Raster, locate: Locator,
                            interpolation: Option<string>, k: int)
    requires raster.Valid() && ClassifiedAs(coords, raster, locate, k)
    requires Truthy(interpolation) && RgbToDbm[k].dbm != MAX_COVERAGE
    ensures var d := RgbToDbm[k].dbm;
            var minRsrp := if d == MIN_COVERAGE then MAX_COVERAGE else d;
            var maxRsrp := NextLevel(minRsrp);
            var v := InterpolateRsrpValue(minRsrp as real, maxRsrp as real, d as real,
                                          maxRsrp as real, d as real, interpolation);
            CoverageLevel(coords, raster, locate, interpolation)
              == if v.Ok? then Ok(Some(v.value)) else Err(InvalidInterpolation)
  {
    Classified(coords, raster, locate, k);
  }

  lemma NextLevels()
    ensures NextLevel(MAX_COVERAGE) == MIN_COVERAGE
    ensures NextLevel(-90) == MIN_COVERAGE
    ensures NextLevel(-100) == -90
  {
    assert SortedLevels() == [-108, -100, -90, -80];
  }

  /** With interpolation the weakest level resolves to -80, whatever the mode:
      its `minRsrp` is MAX_COVERAGE and the next level falls back to
      MIN_COVERAGE, which equals the lower value, so the degenerate case applies. */
  lemma WeakestInterpolatesToStrongest(coords: string, raster: Raster, locate: Locator,
                                       interpolation: Option<string>, k: int)
    requires raster.Valid() && ClassifiedAs(coords, raster, locate, k)
    requires Truthy(interpolation) && RgbToDbm[k].dbm == MIN_COVERAGE
    ensures CoverageLevel(coords, raster, locate, interpolation) == Ok(Some(-80.0))
  {
    InterpolationInputs(coords, raster, locate, interpolation, k);
    NextLevels();
  }

  /** "average" moves -90 to -99: the next level falls back to MIN_COVERAGE. */
  lemma AverageFromMinus90(coords: string, raster: Raster, locate: Locator, k: int)
    requires raster.Valid() && ClassifiedAs(coords, raster, locate, k)
    requires RgbToDbm[k].dbm == -90
    ensures CoverageLevel(coords, raster, locate, Some("average")) == Ok(Some(-99.0))
  {
    InterpolationInputs(coords, raster, locate, Some("average"), k);
    NextLevels();
  }

  /** "average" moves -100 to -95, halfway to the next level -90. */
  lemma AverageFromMinus100(coords: string, raster: Raster, locate: Locator, k: int)
    requires raster.Valid() && ClassifiedAs(coords, raster, locate, k)
    requires RgbToDbm[k].dbm == -100
    ensures CoverageLevel(coords, raster, locate, Some("average")) == Ok(Some(-95.0))
  {
    InterpolationInputs(coords, raster, locate, Some("average"), k);
    NextLevels();
  }

  /** "linear" leaves -90 and -100 unchanged: the current value always equals the lower one. */
  lemma LinearInterpolationKeepsLevel(coords: string, raster: Raster, locate: Locator, k: int)
    requires raster.Valid() && ClassifiedAs(coords, raster, locate, k)
    requires RgbToDbm[k].dbm == -90 || RgbToDbm[k].dbm == -100
    ensures CoverageLevel(coords, raster, locate, Some("linear")) == Ok(Some(RgbToDbm[k].dbm as real))
  {
    InterpolationInputs(coords, raster, locate, Some("linear"), k);
    NextLevels();
  }

  /** Any other non-empty mode raises for -90 and -100. */
  lemma UnknownModeRaises(coords: string, raster: Raster, locate: Locator,
                          interpolation: Option<string>, k: int)
    requires raster.Valid() && ClassifiedAs(coords, raster, locate, k)
    requires Truthy(interpolation)
    requires interpolation.value != "linear" && interpolation.value != "average"
    requires RgbToDbm[k].dbm == -90 || RgbToDbm[k].dbm == -100
    ensures CoverageLevel(coords, raster, locate, interpolation) == Err(InvalidInterpolation)
  {
    InterpolationInputs(coords, raster, locate, interpolation, k);
    NextLevels();
  }
}
