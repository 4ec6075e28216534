/**
 * The rule-based ranking service: scores each route from its feature
 * dictionary, isolates routes whose features cannot be scored, and returns
 * the scores sorted from highest to lowest.
 */
module Ranker {
  import opened Wrappers
  import opened Builtins

  // ---------------------------------------------------------------------
  // Feature values as the service receives them
  // ---------------------------------------------------------------------

  /**
   * A feature value: a number (an int, a float or a bool), a string that
   * `float()` converts to a number, or a value `float()` rejects, which
   * carries its Python truthiness. A numeric string is never empty, so it
   * is truthy whatever number it spells: `"0"` is true.
   */
  datatype Value = Num(x: real) | NumText(x: real) | NonNumeric(truthy: bool)

  type Features = map<string, Value>

  /** `float(features.get(key, default))`; None where `float()` raises. */
  function ReadFloat(f: Features, key: string, default: real): (r: Option<real>)
    ensures key !in f ==> r == Some(default)
    ensures key in f ==> (r.Some? <==> !f[key].NonNumeric?)
    ensures key in f && r.Some? ==> r.value == f[key].x
  {
    if key !in f then Some(default)
    else if f[key].NonNumeric? then None
    else Some(f[key].x)
  }

  /** Truthiness of `features.get(key, 0)`: a number is true unless zero, a string unless empty. */
  predicate IsTruthy(f: Features, key: string) {
    key in f &&
    match f[key]
    case Num(x) => x != 0.0
    case NumText(_) => true
    case NonNumeric(t) => t
  }

  // ---------------------------------------------------------------------
  // The scoring rule
  // ---------------------------------------------------------------------

  /** `max(0.0, min(1.0, x))`. */
  function Clamp01(x: real): (c: real)
    ensures 0.0 <= c <= 1.0
    ensures 0.0 <= x <= 1.0 ==> c == x
  {
    Max(0.0, Min(1.0, x))
  }

  const Base: real := 0.5

  /** The terms of a score and the final clamped score. */
  datatype Breakdown = Breakdown(
    base: real,
    distancePenalty: real,
    loopClosureBonus: real,
    poiBonus: real,
    finalScore: real)
  {
    /** The unclamped score. */
    function Raw(): real {
      base + distancePenalty + loopClosureBonus + poiBonus
    }

    /** The breakdown dictionary: always the same five keys. */
    function ToDict(): (d: map<string, real>)
      ensures d.Keys == {"base", "distance_penalty", "loop_closure_bonus", "poi_bonus", "final_score"}
      ensures d["final_score"] == finalScore
    {
      map[
        "base" := base,
        "distance_penalty" := distancePenalty,
        "loop_closure_bonus" := loopClosureBonus,
        "poi_bonus" := poiBonus,
        "final_score" := finalScore
      ]
    }
  }

  datatype Scoring = Scoring(score: real, breakdown: Breakdown)

  /** The bonus when a round trip is required, by loop closure and the legacy fit flag. */
  function RoundTripBonus(loopClosureM: real, fit: bool): (b: real)
    ensures b == 0.0 || b == 0.1 || b == 0.2
    ensures fit ==> b == 0.2
    ensures loopClosureM <= 100.0 ==> b == 0.2
    ensures 100.0 < loopClosureM <= 500.0 && !fit ==> b == 0.1
    ensures 500.0 < loopClosureM && !fit ==> b == 0.0
  {
    var tier := if loopClosureM <= 100.0 then 0.2 else if loopClosureM <= 500.0 then 0.1 else 0.0;
    if fit then Max(tier, 0.2) else tier
  }

  /** A smaller loop-closure gap never earns a smaller bonus. */
  lemma RoundTripBonusAntitone(lo: real, hi: real, fit: bool)
    requires lo <= hi
    ensures RoundTripBonus(lo, fit) >= RoundTripBonus(hi, fit)
  {
  }

  /**
   * The loop-closure term: 0 unless `round_trip_req` is truthy; otherwise
   * read `loop_closure_m` (1000 when missing). None where `float()` raises.
   */
  function LoopClosureBonus(f: Features): (r: Option<real>)
  {
    if !IsTruthy(f, "round_trip_req") then Some(0.0)
    else
      var m :- ReadFloat(f, "loop_closure_m", 1000.0);
      Some(RoundTripBonus(m, IsTruthy(f, "round_trip_fit")))
  }

  /** The point-of-interest term; the density's share is capped at 0.1. */
  function PoiBonus(parkPoiRatio: real, poiDensity: real): (b: real)
    ensures b <= parkPoiRatio * 0.15 + 0.1
    ensures poiDensity >= 1.0 ==> b == parkPoiRatio * 0.15 + 0.1
  {
    parkPoiRatio * 0.15 + Min(poiDensity, 1.0) * 0.1
  }

  /** The score and breakdown from the four values read out of the features. */
  function Combine(distanceErrorRatio: real, loopClosureBonus: real, parkPoiRatio: real, poiDensity: real): (s: Scoring)
    ensures 0.0 <= s.score <= 1.0
    ensures s.score == Clamp01(s.breakdown.Raw()) && s.breakdown.finalScore == s.score
    ensures s.breakdown.base == 0.5 && s.breakdown.distancePenalty == -0.5 * distanceErrorRatio
    ensures s.breakdown.loopClosureBonus == loopClosureBonus
    ensures s.breakdown.poiBonus == PoiBonus(parkPoiRatio, poiDensity)
  {
    var distancePenalty := -distanceErrorRatio * 0.5;
    var poiBonus := PoiBonus(parkPoiRatio, poiDensity);
    var score := Clamp01(Base + distancePenalty + loopClosureBonus + poiBonus);
    Scoring(score, Breakdown(Base, distancePenalty, loopClosureBonus, poiBonus, score))
  }

  /** The features `_calculate_score` converts with `float()` all hold numbers. */
  predicate Scorable(f: Features) {
    && ReadFloat(f, "distance_error_ratio", 0.0).Some?
    && (IsTruthy(f, "round_trip_req") ==> ReadFloat(f, "loop_closure_m", 1000.0).Some?)
    && ReadFloat(f, "park_poi_ratio", 0.0).Some?
    && ReadFloat(f, "poi_density", 0.0).Some?
  }

  /** `_calculate_score`: None where `float()` raises inside it. */
  function CalculateScore(f: Features): (r: Option<Scoring>)
    ensures r.Some? <==> Scorable(f)
    ensures r.Some? ==> 0.0 <= r.value.score <= 1.0
    ensures r.Some? ==> r.value.score == Clamp01(r.value.breakdown.Raw())
    ensures r.Some? ==> r.value.breakdown.base == 0.5 && r.value.breakdown.finalScore == r.value.score
    ensures r.Some? ==> r.value.breakdown.distancePenalty == -0.5 * ReadFloat(f, "distance_error_ratio", 0.0).value
    ensures r.Some? && !IsTruthy(f, "round_trip_req") ==> r.value.breakdown.loopClosureBonus == 0.0
    ensures r.Some? && IsTruthy(f, "round_trip_req") && IsTruthy(f, "round_trip_fit")
      ==> r.value.breakdown.loopClosureBonus == 0.2
    ensures r.Some? && IsTruthy(f, "round_trip_req") ==>
      r.value.breakdown.loopClosureBonus
      == RoundTripBonus(ReadFloat(f, "loop_closure_m", 1000.0).value, IsTruthy(f, "round_trip_fit"))
    ensures r.Some? ==>
      r.value.breakdown.poiBonus == PoiBonus(ReadFloat(f, "park_poi_ratio", 0.0).value, ReadFloat(f, "poi_density", 0.0).value)
  {
    var distanceErrorRatio :- ReadFloat(f, "distance_error_ratio", 0.0);
    var loopClosureBonus :- LoopClosureBonus(f);
    var parkPoiRatio :- ReadFloat(f, "park_poi_ratio", 0.0);
    var poiDensity :- ReadFloat(f, "poi_density", 0.0);
    Some(Combine(distanceErrorRatio, loopClosureBonus, parkPoiRatio, poiDensity))
  }

  /** Neither the lower nor the upper clamp applied. */
  predicate Unclamped(s: Scoring) {
    0.0 <= s.breakdown.Raw() <= 1.0
  }

  /** Updating one feature leaves another feature's reading unchanged. */
  lemma UpdateKeepsOtherRead(f: Features, key: string, v: Value, k: string, d: real)
    requires k != key
    ensures ReadFloat(f[key := v], k, d) == ReadFloat(f, k, d)
    ensures IsTruthy(f[key := v], k) == IsTruthy(f, k)
  {
  }

  /** An update of a feature other than the round-trip ones keeps the loop-closure term. */
  lemma UpdateKeepsLoopClosureBonus(f: Features, key: string, v: Value)
    requires key != "round_trip_req" && key != "round_trip_fit" && key != "loop_closure_m"
    ensures LoopClosureBonus(f[key := v]) == LoopClosureBonus(f)
  {
    UpdateKeepsOtherRead(f, key, v, "round_trip_req", 0.0);
    UpdateKeepsOtherRead(f, key, v, "round_trip_fit", 0.0);
    UpdateKeepsOtherRead(f, key, v, "loop_closure_m", 1000.0);
  }

  /** The four values the scoring rule reads; None where `float()` raises. */
  datatype Reading = Reading(
    distanceErrorRatio: Option<real>,
    loopClosureBonus: Option<real>,
    parkPoiRatio: Option<real>,
    poiDensity: Option<real>)
  {
    predicate Complete() {
      distanceErrorRatio.Some? && loopClosureBonus.Some? && parkPoiRatio.Some? && poiDensity.Some?
    }

    /** The rule applied to the four values, when all of them read. */
    function Score(): Option<Scoring> {
      if Complete()
      then Some(Combine(distanceErrorRatio.value, loopClosureBonus.value, parkPoiRatio.value, poiDensity.value))
      else None
    }
  }

  function ReadAll(f: Features): Reading {
    Reading(
      ReadFloat(f, "distance_error_ratio", 0.0),
      LoopClosureBonus(f),
      ReadFloat(f, "park_poi_ratio", 0.0),
      ReadFloat(f, "poi_density", 0.0))
  }

  /**
   * CalculateScore is Combine of the values read, when all of them read:
   * each conversion that raises aborts the whole computation, so the order
   * in which the four values are read does not matter.
   */
  lemma CalculateScoreIsCombine(f: Features)
    ensures CalculateScore(f) == ReadAll(f).Score()
  {
  }

  /** The score never falls when the distance error falls or a bonus input rises. */
  lemma CombineMonotone(d1: real, l1: real, p1: real, q1: real, d2: real, l2: real, p2: real, q2: real)
    requires d1 >= d2 && l1 <= l2 && p1 <= p2 && q1 <= q2
    ensures Combine(d1, l1, p1, q1).breakdown.Raw() <= Combine(d2, l2, p2, q2).breakdown.Raw()
    ensures Combine(d1, l1, p1, q1).score <= Combine(d2, l2, p2, q2).score
  {
  }

  /** Away from the clamps the score is the raw sum, so a raw increase is a score increase. */
  lemma UnclampedStrict(a: Scoring, b: Scoring)
    requires a.score == Clamp01(a.breakdown.Raw()) && b.score == Clamp01(b.breakdown.Raw())
    requires Unclamped(a) && Unclamped(b) && a.breakdown.Raw() < b.breakdown.Raw()
    ensures a.score < b.score
  {
  }

  lemma UpdateDistanceErrorRatio(f: Features, x: real)
    ensures ReadAll(f["distance_error_ratio" := Num(x)]) == ReadAll(f).(distanceErrorRatio := Some(x))
  {
    var key := "distance_error_ratio";
    UpdateKeepsLoopClosureBonus(f, key, Num(x));
    UpdateKeepsOtherRead(f, key, Num(x), "park_poi_ratio", 0.0);
    UpdateKeepsOtherRead(f, key, Num(x), "poi_density", 0.0);
  }

  lemma UpdateParkPoiRatio(f: Features, x: real)
    ensures ReadAll(f["park_poi_ratio" := Num(x)]) == ReadAll(f).(parkPoiRatio := Some(x))
  {
    var key := "park_poi_ratio";
    UpdateKeepsLoopClosureBonus(f, key, Num(x));
    UpdateKeepsOtherRead(f, key, Num(x), "distance_error_ratio", 0.0);
    UpdateKeepsOtherRead(f, key, Num(x), "poi_density", 0.0);
  }

  lemma UpdatePoiDensity(f: Features, x: real)
    ensures ReadAll(f["poi_density" := Num(x)]) == ReadAll(f).(poiDensity := Some(x))
  {
    var key := "poi_density";
    UpdateKeepsLoopClosureBonus(f, key, Num(x));
    UpdateKeepsOtherRead(f, key, Num(x), "distance_error_ratio", 0.0);
    UpdateKeepsOtherRead(f, key, Num(x), "park_poi_ratio", 0.0);
  }

  /** Setting the loop-closure gap changes only the loop-closure term. */
  lemma UpdateLoopClosure(f: Features, x: real)
    ensures ReadAll(f["loop_closure_m" := Num(x)]) == ReadAll(f).(loopClosureBonus :=
      if IsTruthy(f, "round_trip_req") then Some(RoundTripBonus(x, IsTruthy(f, "round_trip_fit"))) else Some(0.0))
  {
    var key := "loop_closure_m";
    UpdateKeepsOtherRead(f, key, Num(x), "round_trip_req", 0.0);
    UpdateKeepsOtherRead(f, key, Num(x), "round_trip_fit", 0.0);
    UpdateKeepsOtherRead(f, key, Num(x), "distance_error_ratio", 0.0);
    UpdateKeepsOtherRead(f, key, Num(x), "park_poi_ratio", 0.0);
    UpdateKeepsOtherRead(f, key, Num(x), "poi_density", 0.0);
  }

  /** On readings: a lower distance error never lowers the score, and strictly raises an unclamped one. */
  lemma ReadingDistanceErrorMonotone(r: Reading, lo: real, hi: real)
    requires lo <= hi
    ensures var a, b := r.(distanceErrorRatio := Some(lo)).Score(), r.(distanceErrorRatio := Some(hi)).Score();
      && (a.Some? <==> b.Some?)
      && (a.Some? ==> a.value.score >= b.value.score)
      && (a.Some? && lo < hi && Unclamped(a.value) && Unclamped(b.value) ==> a.value.score > b.value.score)
  {
    if r.loopClosureBonus.Some? && r.parkPoiRatio.Some? && r.poiDensity.Some? {
      var l, p, q := r.loopClosureBonus.value, r.parkPoiRatio.value, r.poiDensity.value;
      CombineMonotone(hi, l, p, q, lo, l, p, q);
      if lo < hi && Unclamped(Combine(lo, l, p, q)) && Unclamped(Combine(hi, l, p, q)) {
        assert Combine(hi, l, p, q).breakdown.Raw() < Combine(lo, l, p, q).breakdown.Raw();
        UnclampedStrict(Combine(hi, l, p, q), Combine(lo, l, p, q));
      }
    }
  }

  /** A lower distance error never lowers the score, and strictly raises an unclamped one. */
  lemma DistanceErrorMonotone(f: Features, lo: real, hi: real)
    requires lo <= hi
    ensures var a, b := CalculateScore(f["distance_error_ratio" := Num(lo)]), CalculateScore(f["distance_error_ratio" := Num(hi)]);
      && (a.Some? <==> b.Some?)
      && (a.Some? ==> a.value.score >= b.value.score)
      && (a.Some? && lo < hi && Unclamped(a.value) && Unclamped(b.value) ==> a.value.score > b.value.score)
  {
    var key := "distance_error_ratio";
    CalculateScoreIsCombine(f[key := Num(lo)]);
    CalculateScoreIsCombine(f[key := Num(hi)]);
    UpdateDistanceErrorRatio(f, lo);
    UpdateDistanceErrorRatio(f, hi);
    ReadingDistanceErrorMonotone(ReadAll(f), lo, hi);
  }

  /** On readings: a higher park ratio never lowers the score, and strictly raises an unclamped one. */
  lemma ReadingParkPoiRatioMonotone(r: Reading, lo: real, hi: real)
    requires lo <= hi
    ensures var a, b := r.(parkPoiRatio := Some(lo)).Score(), r.(parkPoiRatio := Some(hi)).Score();
      && (a.Some? <==> b.Some?)
      && (a.Some? ==> a.value.score <= b.value.score)
      && (a.Some? && lo < hi && Unclamped(a.value) && Unclamped(b.value) ==> a.value.score < b.value.score)
  {
    if r.distanceErrorRatio.Some? && r.loopClosureBonus.Some? && r.poiDensity.Some? {
      var d, l, q := r.distanceErrorRatio.value, r.loopClosureBonus.value, r.poiDensity.value;
      CombineMonotone(d, l, lo, q, d, l, hi, q);
      if lo < hi && Unclamped(Combine(d, l, lo, q)) && Unclamped(Combine(d, l, hi, q)) {
        assert Combine(d, l, lo, q).breakdown.Raw() < Combine(d, l, hi, q).breakdown.Raw();
        UnclampedStrict(Combine(d, l, lo, q), Combine(d, l, hi, q));
      }
    }
  }

  /** A higher park ratio never lowers the score, and strictly raises an unclamped one. */
  lemma ParkPoiRatioMonotone(f: Features, lo: real, hi: real)
    requires lo <= hi
    ensures var a, b := CalculateScore(f["park_poi_ratio" := Num(lo)]), CalculateScore(f["park_poi_ratio" := Num(hi)]);
      && (a.Some? <==> b.Some?)
      && (a.Some? ==> a.value.score <= b.value.score)
      && (a.Some? && lo < hi && Unclamped(a.value) && Unclamped(b.value) ==> a.value.score < b.value.score)
  {
    var key := "park_poi_ratio";
    CalculateScoreIsCombine(f[key := Num(lo)]);
    CalculateScoreIsCombine(f[key := Num(hi)]);
    UpdateParkPoiRatio(f, lo);
    UpdateParkPoiRatio(f, hi);
    ReadingParkPoiRatioMonotone(ReadAll(f), lo, hi);
  }

  /** On readings: a higher density never lowers the score, and strictly raises an unclamped one below the cap. */
  lemma ReadingPoiDensityMonotone(r: Reading, lo: real, hi: real)
    requires lo <= hi
    ensures var a, b := r.(poiDensity := Some(lo)).Score(), r.(poiDensity := Some(hi)).Score();
      && (a.Some? <==> b.Some?)
      && (a.Some? ==> a.value.score <= b.value.score)
      && (a.Some? && lo < hi && lo < 1.0 && Unclamped(a.value) && Unclamped(b.value) ==> a.value.score < b.value.score)
  {
    if r.distanceErrorRatio.Some? && r.loopClosureBonus.Some? && r.parkPoiRatio.Some? {
      var d, l, p := r.distanceErrorRatio.value, r.loopClosureBonus.value, r.parkPoiRatio.value;
      CombineMonotone(d, l, p, lo, d, l, p, hi);
      if lo < hi && lo < 1.0 && Unclamped(Combine(d, l, p, lo)) && Unclamped(Combine(d, l, p, hi)) {
        assert PoiBonus(p, lo) < PoiBonus(p, hi);
        assert Combine(d, l, p, lo).breakdown.Raw() < Combine(d, l, p, hi).breakdown.Raw();
        UnclampedStrict(Combine(d, l, p, lo), Combine(d, l, p, hi));
      }
    }
  }

  /** A higher density never lowers the score, and strictly raises an unclamped one below the cap. */
  lemma PoiDensityMonotone(f: Features, lo: real, hi: real)
    requires lo <= hi
    ensures var a, b := CalculateScore(f["poi_density" := Num(lo)]), CalculateScore(f["poi_density" := Num(hi)]);
      && (a.Some? <==> b.Some?)
      && (a.Some? ==> a.value.score <= b.value.score)
      && (a.Some? && lo < hi && lo < 1.0 && Unclamped(a.value) && Unclamped(b.value) ==> a.value.score < b.value.score)
  {
    var key := "poi_density";
    CalculateScoreIsCombine(f[key := Num(lo)]);
    CalculateScoreIsCombine(f[key := Num(hi)]);
    UpdatePoiDensity(f, lo);
    UpdatePoiDensity(f, hi);
    ReadingPoiDensityMonotone(ReadAll(f), lo, hi);
  }

  /** Under a round-trip requirement, a smaller loop-closure gap never lowers the score. */
  lemma LoopClosureMonotone(f: Features, lo: real, hi: real)
    requires lo <= hi
    ensures var a, b := CalculateScore(f["loop_closure_m" := Num(lo)]), CalculateScore(f["loop_closure_m" := Num(hi)]);
      && (a.Some? <==> b.Some?)
      && (a.Some? ==> a.value.score >= b.value.score)
  {
    var key := "loop_closure_m";
    CalculateScoreIsCombine(f[key := Num(lo)]);
    CalculateScoreIsCombine(f[key := Num(hi)]);
    UpdateLoopClosure(f, lo);
    UpdateLoopClosure(f, hi);
    var r := ReadAll(f);
    if r.distanceErrorRatio.Some? && r.parkPoiRatio.Some? && r.poiDensity.Some? {
      var d, p, q := r.distanceErrorRatio.value, r.parkPoiRatio.value, r.poiDensity.value;
      var fit := IsTruthy(f, "round_trip_fit");
      var bl, bh := 0.0, 0.0;
      if IsTruthy(f, "round_trip_req") {
        RoundTripBonusAntitone(lo, hi, fit);
        bl, bh := RoundTripBonus(lo, fit), RoundTripBonus(hi, fit);
      }
      CombineMonotone(d, bh, p, q, d, bl, p, q);
    }
  }

  /** A missing loop-closure gap scores as a gap of 1000 m. */
  lemma MissingLoopClosureIs1000(f: Features)
    requires "loop_closure_m" !in f
    ensures CalculateScore(f) == CalculateScore(f["loop_closure_m" := Num(1000.0)])
  {
    CalculateScoreIsCombine(f);
    CalculateScoreIsCombine(f["loop_closure_m" := Num(1000.0)]);
    UpdateLoopClosure(f, 1000.0);
  }

  /** The readings of the two feature maps of TextZeroRoundTrip. */
  lemma TextZeroReadings(f: Features, g: Features)
    requires f == map["round_trip_req" := NumText(0.0), "loop_closure_m" := Num(50.0)]
    requires g == f["round_trip_req" := Num(0.0)]
    ensures ReadAll(f) == Reading(Some(0.0), Some(0.2), Some(0.0), Some(0.0))
    ensures ReadAll(g) == Reading(Some(0.0), Some(0.0), Some(0.0), Some(0.0))
  {
    assert f.Keys == g.Keys == {"round_trip_req", "loop_closure_m"};
    assert "round_trip_req"[0] != "loop_closure_m"[0] && "round_trip_fit"[0] != "loop_closure_m"[0];
    assert "round_trip_fit"[11] != "round_trip_req"[11];
    assert "distance_error_ratio" !in f.Keys && "park_poi_ratio" !in f.Keys && "poi_density" !in f.Keys;
    assert "round_trip_fit" !in f.Keys;
  }

  /**
   * A round-trip flag sent as the string "0" is truthy, so a 50 m gap earns
   * the full bonus; the number 0 is falsy and earns none.
   */
  lemma TextZeroRoundTrip()
    ensures var f := map["round_trip_req" := NumText(0.0), "loop_closure_m" := Num(50.0)];
      var g := f["round_trip_req" := Num(0.0)];
      && CalculateScore(f).Some? && CalculateScore(f).value.score == 0.7
      && CalculateScore(g).Some? && CalculateScore(g).value.score == 0.5
  {
    var f := map["round_trip_req" := NumText(0.0), "loop_closure_m" := Num(50.0)];
    var g := f["round_trip_req" := Num(0.0)];
    TextZeroReadings(f, g);
    CalculateScoreIsCombine(f);
    CalculateScoreIsCombine(g);
  }

  // ---------------------------------------------------------------------
  // The stable descending sort
  // ---------------------------------------------------------------------

  datatype ScoreItem = ScoreItem(routeId: string, score: real, breakdown: Breakdown)

  predicate SortedDesc(s: seq<ScoreItem>) {
    forall i, j :: 0 <= i < j < |s| ==> s[i].score >= s[j].score
  }

  /** The items of s whose score is v, in their order in s. */
  function WithScore(s: seq<ScoreItem>, v: real): seq<ScoreItem> {
    if s == [] then []
    else (if s[0].score == v then [s[0]] else []) + WithScore(s[1..], v)
  }

  function Ids(s: seq<ScoreItem>): seq<string> {
    if s == [] then [] else [s[0].routeId] + Ids(s[1..])
  }

  lemma WithScoreCons(x: ScoreItem, s: seq<ScoreItem>, v: real)
    ensures WithScore([x] + s, v) == (if x.score == v then [x] else []) + WithScore(s, v)
  {
    assert ([x] + s)[1..] == s;
  }

  lemma {:induction false} WithScoreAppend(s: seq<ScoreItem>, x: ScoreItem, v: real)
    ensures WithScore(s + [x], v) == WithScore(s, v) + (if x.score == v then [x] else [])
  {
    if s != [] {
      assert (s + [x])[1..] == s[1..] + [x];
      WithScoreAppend(s[1..], x, v);
    }
  }

  lemma {:induction false} IdsAppend(s: seq<ScoreItem>, x: ScoreItem)
    ensures Ids(s + [x]) == Ids(s) + [x.routeId]
  {
    if s != [] {
      assert (s + [x])[1..] == s[1..] + [x];
      IdsAppend(s[1..], x);
    }
  }

  lemma {:induction false} WithScoreAbove(s: seq<ScoreItem>, m: real)
    requires forall i :: 0 <= i < |s| ==> s[i].score < m
    ensures forall v :: v >= m ==> WithScore(s, v) == []
  {
    if s != [] {
      WithScoreAbove(s[1..], m);
    }
  }

  /** Inserts x after every item scoring at least as much as x. */
  function InsertDesc(s: seq<ScoreItem>, x: ScoreItem): (r: seq<ScoreItem>)
    ensures |r| == |s| + 1
    ensures r[0] == x || (s != [] && r[0] == s[0])
  {
    if s == [] then [x]
    else if s[0].score >= x.score then [s[0]] + InsertDesc(s[1..], x)
    else [x] + s
  }

  /** Prepending an item no lower than the head keeps a list sorted. */
  lemma ConsSorted(x: ScoreItem, s: seq<ScoreItem>)
    requires SortedDesc(s) && (s != [] ==> x.score >= s[0].score)
    ensures SortedDesc([x] + s)
  {
    var r := [x] + s;
    forall i, j | 0 <= i < j < |r|
      ensures r[i].score >= r[j].score
    {
      assert r[j] == s[j - 1];
      if i == 0 {
        if j > 1 {
          assert s[0].score >= s[j - 1].score;
        }
      } else {
        assert r[i] == s[i - 1];
      }
    }
  }

  lemma {:induction false} InsertDescSorted(s: seq<ScoreItem>, x: ScoreItem)
    requires SortedDesc(s)
    ensures SortedDesc(InsertDesc(s, x))
  {
    if s == [] {
    } else if s[0].score >= x.score {
      var tail := s[1..];
      SortedTail(s);
      InsertDescSorted(tail, x);
      var rest := InsertDesc(tail, x);
      if rest[0] != x {
        assert rest[0] == s[1];
      }
      ConsSorted(s[0], rest);
    } else {
      ConsSorted(x, s);
    }
  }

  lemma {:induction false} InsertDescMultiset(s: seq<ScoreItem>, x: ScoreItem)
    ensures multiset(InsertDesc(s, x)) == multiset(s) + multiset{x}
  {
    if s != [] && s[0].score >= x.score {
      InsertDescMultiset(s[1..], x);
      assert s == [s[0]] + s[1..];
    }
  }

  lemma {:induction false} InsertDescIds(s: seq<ScoreItem>, x: ScoreItem)
    ensures multiset(Ids(InsertDesc(s, x))) == multiset(Ids(s)) + multiset{x.routeId}
  {
    if s != [] && s[0].score >= x.score {
      InsertDescIds(s[1..], x);
      assert ([s[0]] + InsertDesc(s[1..], x))[1..] == InsertDesc(s[1..], x);
    }
  }

  /** Insertion places x after the items of equal score: stability. */
  lemma {:induction false} InsertDescWithScore(s: seq<ScoreItem>, x: ScoreItem, v: real)
    requires SortedDesc(s)
    ensures WithScore(InsertDesc(s, x), v) == WithScore(s, v) + (if x.score == v then [x] else [])
  {
    if s == [] {
      WithScoreCons(x, [], v);
    } else if s[0].score >= x.score {
      SortedTail(s);
      InsertDescWithScore(s[1..], x, v);
      InsertDescWithScoreBehind(s, x, v);
    } else {
      SortedBelowHead(s, x.score);
      InsertDescWithScoreInFront(s, x, v);
    }
  }

  /** Inserting behind the head: the head's contribution comes first on both sides. */
  lemma InsertDescWithScoreBehind(s: seq<ScoreItem>, x: ScoreItem, v: real)
    requires s != [] && s[0].score >= x.score
    requires WithScore(InsertDesc(s[1..], x), v) == WithScore(s[1..], v) + (if x.score == v then [x] else [])
    ensures WithScore(InsertDesc(s, x), v) == WithScore(s, v) + (if x.score == v then [x] else [])
  {
    var tail := s[1..];
    var rest := InsertDesc(tail, x);
    assert InsertDesc(s, x) == [s[0]] + rest;
    assert [s[0]] + tail == s;
    WithScoreCons(s[0], rest, v);
    WithScoreCons(s[0], tail, v);
    ConcatAssoc(if s[0].score == v then [s[0]] else [], WithScore(tail, v), if x.score == v then [x] else []);
  }

  lemma ConcatAssoc<T>(a: seq<T>, b: seq<T>, c: seq<T>)
    ensures a + (b + c) == (a + b) + c
  {
  }

  /** Inserting in front of items that all score lower. */
  lemma InsertDescWithScoreInFront(s: seq<ScoreItem>, x: ScoreItem, v: real)
    requires s != [] && forall i :: 0 <= i < |s| ==> s[i].score < x.score
    ensures WithScore(InsertDesc(s, x), v) == WithScore(s, v) + (if x.score == v then [x] else [])
  {
    assert InsertDesc(s, x) == [x] + s;
    WithScoreCons(x, s, v);
    if x.score == v {
      WithScoreAbove(s, x.score);
    }
  }

  lemma SortedTail(s: seq<ScoreItem>)
    requires SortedDesc(s) && s != []
    ensures SortedDesc(s[1..])
  {
    var tail := s[1..];
    forall i, j | 0 <= i < j < |tail|
      ensures tail[i].score >= tail[j].score
    {
      assert tail[i] == s[i + 1] && tail[j] == s[j + 1];
    }
  }

  /** In a descending list, every item scores at most the head. */
  lemma SortedBelowHead(s: seq<ScoreItem>, m: real)
    requires SortedDesc(s) && s != [] && s[0].score < m
    ensures forall i :: 0 <= i < |s| ==> s[i].score < m
  {
    forall i | 0 < i < |s|
      ensures s[i].score < m
    {
      assert s[0].score >= s[i].score;
    }
  }

  /**
   * Python's `list.sort(key=score, reverse=True)`: sorted from highest to
   * lowest score, a permutation of the input, and stable: items with equal
   * scores keep their input order.
   */
  function SortDesc(s: seq<ScoreItem>): (r: seq<ScoreItem>)
    ensures SortedDesc(r)
    ensures multiset(r) == multiset(s)
    ensures multiset(Ids(r)) == multiset(Ids(s))
    ensures forall v :: WithScore(r, v) == WithScore(s, v)
  {
    if s == [] then []
    else
      var init, last := s[..|s| - 1], s[|s| - 1];
      assert s == init + [last];
      var sorted := SortDesc(init);
      IdsAppend(init, last);
      InsertDescSorted(sorted, last);
      InsertDescMultiset(sorted, last);
      InsertDescIds(sorted, last);
      forall v
        ensures WithScore(InsertDesc(sorted, last), v) == WithScore(s, v)
      {
        WithScoreAppend(init, last, v);
        InsertDescWithScore(sorted, last, v);
      }
      InsertDesc(sorted, last)
  }

  // ---------------------------------------------------------------------
  // rank
  // ---------------------------------------------------------------------

  datatype RankRoute = RankRoute(routeId: string, features: Features)
  datatype RankResponse = RankResponse(scores: seq<ScoreItem>, failedRouteIds: seq<string>)
  datatype HttpError = HttpError(status: int, detail: string)

  function RouteIds(routes: seq<RankRoute>): seq<string> {
    if routes == [] then [] else RouteIds(routes[..|routes| - 1]) + [routes[|routes| - 1].routeId]
  }

  /** The score items of the routes that scored, in submission order. */
  function ScoredItems(routes: seq<RankRoute>): seq<ScoreItem> {
    if routes == [] then []
    else
      var r := routes[|routes| - 1];
      match CalculateScore(r.features)
      case Some(s) => ScoredItems(routes[..|routes| - 1]) + [ScoreItem(r.routeId, s.score, s.breakdown)]
      case None => ScoredItems(routes[..|routes| - 1])
  }

  /** The ids of the routes that failed to score, in submission order. */
  function FailedIds(routes: seq<RankRoute>): seq<string> {
    if routes == [] then []
    else
      var r := routes[|routes| - 1];
      match CalculateScore(r.features)
      case Some(_) => FailedIds(routes[..|routes| - 1])
      case None => FailedIds(routes[..|routes| - 1]) + [r.routeId]
  }

  /** Every submitted route is reported exactly once: scored or failed. */
  lemma {:induction false} EveryRouteReportedOnce(routes: seq<RankRoute>)
    ensures multiset(Ids(ScoredItems(routes))) + multiset(FailedIds(routes)) == multiset(RouteIds(routes))
  {
    if routes != [] {
      var init, r := routes[..|routes| - 1], routes[|routes| - 1];
      EveryRouteReportedOnce(init);
      match CalculateScore(r.features)
      case Some(s) => IdsAppend(ScoredItems(init), ScoreItem(r.routeId, s.score, s.breakdown));
      case None =>
    }
  }

  /** Nothing scored exactly when every route's features fail to score. */
  lemma {:induction false} NothingScoredIff(routes: seq<RankRoute>)
    ensures ScoredItems(routes) == [] <==> forall i :: 0 <= i < |routes| ==> !Scorable(routes[i].features)
  {
    if routes != [] {
      var init := routes[..|routes| - 1];
      NothingScoredIff(init);
      assert forall i :: 0 <= i < |init| ==> init[i] == routes[i];
    }
  }

  /** When nothing scored, every route is reported as failed, in submission order. */
  lemma {:induction false} NothingScoredAllFailed(routes: seq<RankRoute>)
    requires ScoredItems(routes) == []
    ensures FailedIds(routes) == RouteIds(routes)
  {
    if routes != [] {
      var init := routes[..|routes| - 1];
      if CalculateScore(routes[|routes| - 1].features).None? {
        NothingScoredAllFailed(init);
      }
    }
  }

  /** What `rank` answers for a batch of routes. */
  function RankResult(routes: seq<RankRoute>): Result<RankResponse, HttpError> {
    var scored := ScoredItems(routes);
    if scored == [] then Failure(HttpError(422, "No successful inference"))
    else Success(RankResponse(SortDesc(scored), FailedIds(routes)))
  }

  /** The score lies in [0, 1] and matches the breakdown's final score. */
  predicate WellScoredItem(x: ScoreItem) {
    0.0 <= x.score <= 1.0 && x.breakdown.finalScore == x.score
  }

  predicate WellScored(s: seq<ScoreItem>) {
    forall i :: 0 <= i < |s| ==> WellScoredItem(s[i])
  }

  lemma WellScoredSnoc(a: seq<ScoreItem>, x: ScoreItem)
    requires WellScored(a) && WellScoredItem(x)
    ensures WellScored(a + [x])
  {
    forall i | 0 <= i < |a + [x]|
      ensures WellScoredItem((a + [x])[i])
    {
      if i < |a| {
        assert (a + [x])[i] == a[i];
      } else {
        assert (a + [x])[i] == x;
      }
    }
  }

  /** The last route's contribution to the scored items. */
  lemma ScoredItemsLast(routes: seq<RankRoute>)
    requires routes != []
    ensures var init, r := routes[..|routes| - 1], routes[|routes| - 1];
      var c := CalculateScore(r.features);
      ScoredItems(routes)
      == ScoredItems(init) + (if c.Some? then [ScoreItem(r.routeId, c.value.score, c.value.breakdown)] else [])
  {
  }

  /** The last route's contribution to the failed ids. */
  lemma FailedIdsLast(routes: seq<RankRoute>)
    requires routes != []
    ensures var init, r := routes[..|routes| - 1], routes[|routes| - 1];
      FailedIds(routes) == FailedIds(init) + (if CalculateScore(r.features).None? then [r.routeId] else [])
  {
  }

  /** Every reported score lies in [0, 1] and matches its breakdown's final score. */
  lemma {:induction false} ScoredItemsInRange(routes: seq<RankRoute>)
    ensures WellScored(ScoredItems(routes))
  {
    if routes != [] {
      var init, r := routes[..|routes| - 1], routes[|routes| - 1];
      ScoredItemsInRange(init);
      ScoredItemsLast(routes);
      var c := CalculateScore(r.features);
      if c.Some? {
        ItemWellScored(r);
        WellScoredSnoc(ScoredItems(init), ScoreItem(r.routeId, c.value.score, c.value.breakdown));
      }
    }
  }

  /** The item of a route that scores is well formed. */
  lemma ItemWellScored(r: RankRoute)
    requires CalculateScore(r.features).Some?
    ensures var s := CalculateScore(r.features).value;
      WellScoredItem(ScoreItem(r.routeId, s.score, s.breakdown))
  {
  }

  /**
   * `rank`: scores every route, collecting failures instead of aborting;
   * 422 when nothing scored, otherwise the scores in stable descending order.
   */
  method Rank(routes: seq<RankRoute>) returns (res: Result<RankResponse, HttpError>)
    ensures res == RankResult(routes)
    ensures res.Failure? <==> ScoredItems(routes) == []
    ensures res.Failure? ==> res.error == HttpError(422, "No successful inference")
    ensures res.Success? ==> res.value.failedRouteIds == FailedIds(routes)
    ensures res.Success? ==> SortedDesc(res.value.scores)
    ensures res.Success? ==> multiset(res.value.scores) == multiset(ScoredItems(routes))
    ensures res.Success? ==> forall v :: WithScore(res.value.scores, v) == WithScore(ScoredItems(routes), v)
    ensures res.Success? ==>
      multiset(Ids(res.value.scores)) + multiset(res.value.failedRouteIds) == multiset(RouteIds(routes))
  {
    var scores: seq<ScoreItem> := [];
    var failed: seq<string> := [];
    for i := 0 to |routes|
      invariant scores == ScoredItems(routes[..i])
      invariant failed == FailedIds(routes[..i])
    {
      var r := routes[i];
      assert routes[..i + 1][..i] == routes[..i] && routes[..i + 1][i] == r;
      ScoredItemsLast(routes[..i + 1]);
      FailedIdsLast(routes[..i + 1]);
      var c := CalculateScore(r.features);
      if c.Some? {
        scores := scores + [ScoreItem(r.routeId, c.value.score, c.value.breakdown)];
      } else {
        failed := failed + [r.routeId];
      }
    }
    assert routes[..|routes|] == routes;
    EveryRouteReportedOnce(routes);

    if |scores| == 0 {
      return Failure(HttpError(422, "No successful inference"));
    }
    scores := SortDesc(scores);
    return Success(RankResponse(scores, failed));
  }
}
