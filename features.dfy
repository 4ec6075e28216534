/**
 * The feature extractor of the agent service: a pure map from one candidate
 * route and its request context to a fixed-schema feature dictionary.
 * Every feature value is a number; the 0/1 flags are 0.0 and 1.0.
 */
module Features {
  import opened Builtins

  /** One proposed route, with the geometry metrics computed upstream. */
  datatype Candidate = Candidate(
    routeId: string,
    polyline: string,
    distanceKm: real,
    durationMin: real,
    loopClosureM: real,
    bboxArea: real,
    pathLengthRatio: real,
    turnCount: int)

  /** The themes that get a one-hot flag. */
  const Themes: set<string> := {"exercise", "think", "refresh", "nature"}

  /** The feature schema: the same 18 names for every candidate. */
  const FeatureNames: set<string> := {
    "distance_km", "duration_min", "loop_closure_m", "bbox_area", "path_length_ratio",
    "turn_count", "turn_density",
    "theme_exercise", "theme_think", "theme_refresh", "theme_nature",
    "round_trip_req", "round_trip_fit", "distance_error_ratio",
    "relaxation_step", "candidate_rank_in_theme",
    "poi_density", "park_poi_ratio"
  }

  /** Lower bound of the denominators, `1e-6`. */
  const Epsilon: real := 0.000001

  function Abs(x: real): (r: real)
    ensures r >= 0.0 && (r == 0.0 <==> x == 0.0)
    ensures r == x || r == -x
  {
    if x < 0.0 then -x else x
  }

  /** Real division by a positive denominator. */
  function Divide(x: real, y: real): (q: real)
    requires y > 0.0
    ensures q * y == x
    ensures x >= 0.0 ==> q >= 0.0
    ensures q == 0.0 <==> x == 0.0
  {
    x / y
  }

  /** 1 for true, 0 for false. */
  function Flag(b: bool): real {
    if b then 1.0 else 0.0
  }

  predicate IsFlag(x: real) {
    x == 0.0 || x == 1.0
  }

  /** The feature dictionary, one field per key. */
  datatype FeatureVector = FeatureVector(
    distanceKm: real,
    durationMin: real,
    loopClosureM: real,
    bboxArea: real,
    pathLengthRatio: real,
    turnCount: real,
    turnDensity: real,
    themeExercise: real,
    themeThink: real,
    themeRefresh: real,
    themeNature: real,
    roundTripReq: real,
    roundTripFit: real,
    distanceErrorRatio: real,
    relaxationStep: real,
    candidateRankInTheme: real,
    poiDensity: real,
    parkPoiRatio: real)
  {
    /** Sum of the four theme flags. */
    function ThemeFlagCount(): real {
      themeExercise + themeThink + themeRefresh + themeNature
    }

    /** The dictionary the extractor returns: always the same key set. */
    function ToDict(): (d: map<string, real>)
      ensures d.Keys == FeatureNames
    {
      map[
        "distance_km" := distanceKm,
        "duration_min" := durationMin,
        "loop_closure_m" := loopClosureM,
        "bbox_area" := bboxArea,
        "path_length_ratio" := pathLengthRatio,
        "turn_count" := turnCount,
        "turn_density" := turnDensity,
        "theme_exercise" := themeExercise,
        "theme_think" := themeThink,
        "theme_refresh" := themeRefresh,
        "theme_nature" := themeNature,
        "round_trip_req" := roundTripReq,
        "round_trip_fit" := roundTripFit,
        "distance_error_ratio" := distanceErrorRatio,
        "relaxation_step" := relaxationStep,
        "candidate_rank_in_theme" := candidateRankInTheme,
        "poi_density" := poiDensity,
        "park_poi_ratio" := parkPoiRatio
      ]
    }
  }

  /** `calc_features`. */
  function CalcFeatures(
    c: Candidate,
    theme: string,
    roundTripReq: bool,
    distanceKmTarget: real,
    relaxationStep: int,
    candidateRankInTheme: int,
    poiDensity: real := 0.0,
    parkPoiRatio: real := 0.0): (f: FeatureVector)
    // derived ratios
    ensures f.turnDensity * Max(c.distanceKm, Epsilon) == c.turnCount as real
    ensures f.distanceErrorRatio * Max(distanceKmTarget, Epsilon) == Abs(c.distanceKm - distanceKmTarget)
    ensures f.distanceErrorRatio >= 0.0
    ensures f.distanceErrorRatio == 0.0 <==> c.distanceKm == distanceKmTarget
    // loop-fit flag
    ensures IsFlag(f.roundTripFit) && (f.roundTripFit == 1.0 <==> c.loopClosureM <= 100.0)
    // theme one-hot
    ensures IsFlag(f.themeExercise) && (f.themeExercise == 1.0 <==> theme == "exercise")
    ensures IsFlag(f.themeThink) && (f.themeThink == 1.0 <==> theme == "think")
    ensures IsFlag(f.themeRefresh) && (f.themeRefresh == 1.0 <==> theme == "refresh")
    ensures IsFlag(f.themeNature) && (f.themeNature == 1.0 <==> theme == "nature")
    ensures f.ThemeFlagCount() <= 1.0
    ensures f.ThemeFlagCount() == 1.0 <==> theme in Themes
    // pass-through fields
    ensures f.distanceKm == c.distanceKm && f.durationMin == c.durationMin
    ensures f.loopClosureM == c.loopClosureM && f.bboxArea == c.bboxArea
    ensures f.pathLengthRatio == c.pathLengthRatio && f.turnCount == c.turnCount as real
    ensures IsFlag(f.roundTripReq) && (f.roundTripReq == 1.0 <==> roundTripReq)
    ensures f.relaxationStep == relaxationStep as real
    ensures f.candidateRankInTheme == candidateRankInTheme as real
    ensures f.poiDensity == poiDensity && f.parkPoiRatio == parkPoiRatio
  {
    var turnDensity := Divide(c.turnCount as real, Max(c.distanceKm, Epsilon));
    var distanceErrorRatio := Divide(Abs(c.distanceKm - distanceKmTarget), Max(distanceKmTarget, Epsilon));
    var roundTripFit := Flag(c.loopClosureM <= 100.0);
    FeatureVector(
      distanceKm := c.distanceKm,
      durationMin := c.durationMin,
      loopClosureM := c.loopClosureM,
      bboxArea := c.bboxArea,
      pathLengthRatio := c.pathLengthRatio,
      turnCount := c.turnCount as real,
      turnDensity := turnDensity,
      themeExercise := Flag(theme == "exercise"),
      themeThink := Flag(theme == "think"),
      themeRefresh := Flag(theme == "refresh"),
      themeNature := Flag(theme == "nature"),
      roundTripReq := Flag(roundTripReq),
      roundTripFit := roundTripFit,
      distanceErrorRatio := distanceErrorRatio,
      relaxationStep := relaxationStep as real,
      candidateRankInTheme := candidateRankInTheme as real,
      poiDensity := poiDensity,
      parkPoiRatio := parkPoiRatio)
  }
}
