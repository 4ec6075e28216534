/**
 * The extractor's dictionaries as the ranking service reads them: every
 * value is a number, so every extracted route can be scored, and the score
 * is determined by four of the extracted features.
 */
module Pipeline {
  import opened Wrappers
  import Features
  import Ranker

  /** A numeric dictionary as the service receives it over JSON. */
  function AsRankerFeatures(d: map<string, real>): (g: Ranker.Features)
    ensures g.Keys == d.Keys
    ensures forall k :: k in d ==> g[k] == Ranker.Num(d[k])
  {
    map k | k in d :: Ranker.Num(d[k])
  }

  /** The values the scoring rule reads from an extracted dictionary. */
  lemma ScoredKeysOfVector(f: Features.FeatureVector)
    ensures var g := AsRankerFeatures(f.ToDict());
      && Ranker.ReadFloat(g, "distance_error_ratio", 0.0) == Some(f.distanceErrorRatio)
      && Ranker.ReadFloat(g, "loop_closure_m", 1000.0) == Some(f.loopClosureM)
      && Ranker.ReadFloat(g, "park_poi_ratio", 0.0) == Some(f.parkPoiRatio)
      && Ranker.ReadFloat(g, "poi_density", 0.0) == Some(f.poiDensity)
      && (Ranker.IsTruthy(g, "round_trip_req") <==> f.roundTripReq != 0.0)
      && (Ranker.IsTruthy(g, "round_trip_fit") <==> f.roundTripFit != 0.0)
  {
    var d := f.ToDict();
    assert d["distance_error_ratio"] == f.distanceErrorRatio;
    assert d["loop_closure_m"] == f.loopClosureM;
    assert d["park_poi_ratio"] == f.parkPoiRatio;
    assert d["poi_density"] == f.poiDensity;
    assert d["round_trip_req"] == f.roundTripReq;
    assert d["round_trip_fit"] == f.roundTripFit;
  }

  /**
   * Every extracted route scores, and its loop-closure term depends on the
   * loop-closure distance alone: the extractor sets the fit flag exactly
   * when the gap is at most 100 m, where the distance tier already gives the
   * full 0.2, so the legacy flag never changes the bonus.
   */
  lemma ExtractedFeaturesScore(
    c: Features.Candidate, theme: string, roundTripReq: bool, distanceKmTarget: real,
    relaxationStep: int, candidateRankInTheme: int, poiDensity: real, parkPoiRatio: real)
    ensures var f := Features.CalcFeatures(c, theme, roundTripReq, distanceKmTarget,
        relaxationStep, candidateRankInTheme, poiDensity, parkPoiRatio);
      var bonus := if roundTripReq then Ranker.RoundTripBonus(c.loopClosureM, false) else 0.0;
      Ranker.CalculateScore(AsRankerFeatures(f.ToDict()))
      == Some(Ranker.Combine(f.distanceErrorRatio, bonus, parkPoiRatio, poiDensity))
  {
    var f := Features.CalcFeatures(c, theme, roundTripReq, distanceKmTarget,
      relaxationStep, candidateRankInTheme, poiDensity, parkPoiRatio);
    var g := AsRankerFeatures(f.ToDict());
    ScoredKeysOfVector(f);
    assert Ranker.Scorable(g);
    Ranker.CalculateScoreIsCombine(g);
  }
}
