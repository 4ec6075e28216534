# Route selection of the walking-route recommender, in Dafny

This project models the route-selection pipeline of a walking-route
recommender and proves properties of it. The pipeline has five parts:

- **Polyline codec** (`polyline.dfy`). This is the agent's decoder for
  Google's Encoded Polyline Algorithm Format: 5-bit chunks, a continuation
  bit, zig-zag signs and cumulative deltas, with truncated input ending
  cleanly. It also includes the sampler that picks representative points by
  ratio. Both are imperative methods, proved against specification functions.
  Next to the decoder there is a reference encoder and a proved round trip.
- **Feature extractor** (`features.dfy`). `calc_features` maps one candidate
  and its request context to a fixed-schema feature dictionary.
- **Rule-based ranker** (`ranker.dfy`):
  - the clamped scoring rule with its breakdown;
  - `rank`, which scores every route, isolates failures, answers 422 when
    nothing scored, and otherwise sorts with a stable descending sort.
- **Ranker client** (`ranker_client.dfy`). This is the agent's
  interpretation of the service's answer: a decision table from the
  transport outcome and the status code to `(scores, failed_route_ids)` or
  an error.
- **Fallback selector** (`fallback.dfy`). It prefers the theme, then the
  best score, ties going to the earliest candidate; with no scores it takes
  the first candidate of the pool.

`pipeline.dfy` connects the extractor to the ranker. `wrappers.dfy` holds
the `Option` and `Result` types, `builtins.dfy` Python's `min` and `max`, and
`filters.dfy` the positions a filtering comprehension keeps.

Conventions:

- Coordinates are integers in units of 1e-5 degrees.
- Scores, ratios and features are exact `real`s.
- A Python exception that the modelled code catches or propagates becomes an
  `Option`/`Result` failure.

## Model

| member | source | states |
|---|---|---|
| Polyline.ZigZagDecode | ml/agent/app/services/polyline.py:34 | the decoded delta is negative exactly when the accumulated value's low bit is 1 |
| Polyline.ZigZagRoundTrip | ml/agent/app/services/polyline.py:34 | zig-zag decoding inverts the standard zig-zag encoding of every integer delta |
| Polyline.ZigZagEncodeDecode | ml/agent/app/services/polyline.py:49 | zig-zag decoding is a bijection: encoding a decoded value gives the value back |
| Polyline.AddChunk | ml/agent/app/services/polyline.py:30 | with the accumulated value below 2^shift, or-ing in the shifted chunk is an addition: the low shift bits stay the accumulated value, the chunk sits directly above, and the result stays below 2^(shift+5) |
| Polyline.ReadVarint | ml/agent/app/services/polyline.py:23-33 | reading one value, from an accumulated value below 2^shift, consumes at least one character and never runs past the input; None when the input ends mid-value |
| Polyline.ReadValue | ml/agent/app/services/polyline.py:23-33 | the chunk loop reads exactly the value the decoding function reads at that position, or reports that the input ended mid-value |
| Polyline.DecodePolyline | ml/agent/app/services/polyline.py:6-53 | the outer loop, with the chunk loop for each of latitude and longitude, computes exactly the decoding function |
| Polyline.DecodeBound | ml/agent/app/services/polyline.py:11-52 | the empty string decodes to no coordinates, and no input yields more than half its length in coordinates |
| Polyline.DecodeLength | ml/agent/app/services/polyline.py:21-52 | each coordinate consumes at least two characters, so decoding from position i yields at most (len - i)/2 coordinates |
| Polyline.DecodeFromPrefix | ml/agent/app/services/polyline.py:21-53 | decoding a prefix of the input yields a prefix of the decoding, from any position and start point |
| Polyline.DecodeTruncated | ml/agent/app/services/polyline.py:25-27 | input cut anywhere, even mid-value or after a latitude with no longitude, decodes to a prefix of the full decoding with no error |
| Polyline.DecodeCutKeepsCompleted | ml/agent/app/services/polyline.py:25-42 | input cut anywhere inside the next coordinate (mid-latitude, right after the latitude, or mid-longitude) decodes to exactly the coordinates completed before the cut, none lost and none added |
| Polyline.DecodeIsCumulative | ml/agent/app/services/polyline.py:15-16 | the k-th decoded coordinate is the sum of the first k+1 decoded deltas, in latitude and longitude |
| Polyline.DecodeEncode | ml/agent/app/services/polyline.py:6-53 | decoding the format's encoding of any coordinate list gives that list back |
| Polyline.ReadEncodedVarint | ml/agent/app/services/polyline.py:25-33 | the chunk loop reads back exactly the value the format's chunked encoding wrote, and stops just past it |
| Polyline.ClampRatio | ml/agent/app/services/polyline.py:78 | the clamped ratio lies in [0, 1] and a ratio already in [0, 1] is unchanged |
| Polyline.SampleIndex | ml/agent/app/services/polyline.py:78-83 | the chosen index lies in [0, n-1] and is floor(clamp(r) * (n-1)) |
| Polyline.SampleIndexQuartiles | ml/agent/app/services/polyline.py:79-81 | on five points the ratios 0, 0.25, 0.5, 0.75 and 1 pick indices 0 to 4 |
| Polyline.Dedupe | ml/agent/app/services/polyline.py:86-94 | the de-duplicated list has no duplicates, keeps exactly the same elements and is no longer than the input |
| Polyline.DedupeKeepsFirstSeenOrder | ml/agent/app/services/polyline.py:89-93 | de-duplication keeps elements in the order of their first occurrence |
| Polyline.SamplePoints | ml/agent/app/services/polyline.py:56-94 | the two loops compute the sampling function; 0 points give [], 1 point gives [points[0]] whatever the ratios, 2 points give both points |
| Polyline.SampleBounds | ml/agent/app/services/polyline.py:76-94 | with 3+ points the sample has no duplicates, at most one point per ratio, and only points of the input |
| Polyline.SampleKeepsEveryPick | ml/agent/app/services/polyline.py:77-94 | every point picked by a ratio appears in the sample, and every sampled point was picked by some ratio |
| Polyline.SampleKeepsFirstSeenOrder | ml/agent/app/services/polyline.py:86-94 | the sample keeps the order in which points were first picked |
| Features.Divide | ml/agent/app/services/feature_calc.py:31-32 | the quotient times the positive denominator is the numerator; the quotient is 0 exactly when the numerator is |
| Features.Abs | ml/agent/app/services/feature_calc.py:32 | the absolute value is non-negative, zero only at zero, and is x or -x |
| Features.FeatureVector.ToDict | ml/agent/app/services/feature_calc.py:41-65 | the returned dictionary always has the same fixed set of feature names |
| Features.CalcFeatures | ml/agent/app/services/feature_calc.py:19-65 | turn density and distance error ratio are the guarded quotients; the error ratio is non-negative and zero iff distance equals target; the loop-fit flag is 1 iff the gap is at most 100 m; each theme flag is 1 iff its theme, so at most one is set and exactly one iff the theme is known; all other fields pass through |
| Ranker.ReadFloat | ml/ranker/app/main.py:23 | a missing key reads as the default; a present key reads iff its value converts to a number (a number, a bool or a numeric string), and then reads as that number |
| Ranker.Clamp01 | ml/ranker/app/main.py:51 | the clamp lands in [0, 1] and leaves values already in [0, 1] unchanged |
| Ranker.Breakdown.ToDict | ml/ranker/app/main.py:54-60 | the breakdown has exactly the keys base, distance_penalty, loop_closure_bonus, poi_bonus and final_score, and final_score is the final score |
| Ranker.RoundTripBonus | ml/ranker/app/main.py:29-39 | the bonus is 0.2 within 100 m, 0.1 within 500 m, 0 beyond, and always 0.2 when the fit flag is truthy |
| Ranker.RoundTripBonusAntitone | ml/ranker/app/main.py:32-36 | a smaller loop-closure gap never earns a smaller bonus |
| Ranker.PoiBonus | ml/ranker/app/main.py:44 | the density's contribution is capped: the bonus never exceeds the park term plus 0.1 and reaches it once density is 1 |
| Ranker.Combine | ml/ranker/app/main.py:24-60 | the score is the clamped sum of the four terms, lies in [0, 1], equals final_score; base is 0.5, the distance penalty is -0.5 times the error ratio, the loop-closure term is the given bonus and the poi term is the capped park/density bonus |
| Ranker.CalculateScore | ml/ranker/app/main.py:15-62 | a score exists iff every feature the rule converts is numeric; it lies in [0, 1] and is the clamped raw sum; base 0.5, penalty -0.5 times the error ratio, the poi term from park_poi_ratio and poi_density; the loop-closure bonus is 0 when round_trip_req is falsy, and otherwise the tiered bonus (0.2 within 100 m, 0.1 within 500 m, 0 beyond, 0.2 whenever round_trip_fit is truthy) of loop_closure_m, a missing gap reading as 1000 m; a numeric string such as "0" is truthy |
| Ranker.TextZeroRoundTrip | ml/ranker/app/main.py:27-39 | round_trip_req sent as the string "0" is truthy, so a 50 m gap scores 0.7; the number 0 is falsy and scores 0.5 |
| Ranker.CalculateScoreIsCombine | ml/ranker/app/main.py:23-51 | the sequential reads of the rule, each aborting on a failed conversion, give the same result as reading all four values first: a score exactly when every reading succeeds, and then the rule applied to the four values, so the order of the reads does not matter |
| Ranker.UpdateDistanceErrorRatio | ml/ranker/app/main.py:23 | setting distance_error_ratio to a number makes that reading the number and leaves the other three readings unchanged |
| Ranker.UpdateParkPoiRatio | ml/ranker/app/main.py:42 | setting park_poi_ratio to a number makes that reading the number and leaves the other three readings unchanged |
| Ranker.UpdatePoiDensity | ml/ranker/app/main.py:43 | setting poi_density to a number makes that reading the number and leaves the other three readings unchanged |
| Ranker.UpdateLoopClosure | ml/ranker/app/main.py:27-39 | setting loop_closure_m to a number leaves the other three readings unchanged; the loop-closure term becomes the bonus for that gap when a round trip is required and stays 0 otherwise |
| Ranker.CombineMonotone | ml/ranker/app/main.py:24-51 | the score never falls when the distance error falls or a bonus input rises |
| Ranker.DistanceErrorMonotone | ml/ranker/app/main.py:23-24 | all else equal, a lower distance error ratio never lowers the score and strictly raises an unclamped one |
| Ranker.ParkPoiRatioMonotone | ml/ranker/app/main.py:42-44 | all else equal, a higher park ratio never lowers the score and strictly raises an unclamped one |
| Ranker.PoiDensityMonotone | ml/ranker/app/main.py:43-44 | all else equal, a higher density never lowers the score and strictly raises an unclamped one while density is below the cap |
| Ranker.LoopClosureMonotone | ml/ranker/app/main.py:30-36 | all else equal, a smaller loop-closure gap never lowers the score |
| Ranker.MissingLoopClosureIs1000 | ml/ranker/app/main.py:32 | a missing loop-closure gap scores exactly as a gap of 1000 m |
| Ranker.UpdateKeepsLoopClosureBonus | ml/ranker/app/main.py:27-39 | the loop-closure term reads only round_trip_req, round_trip_fit and loop_closure_m |
| Ranker.InsertDescSorted | ml/ranker/app/main.py:89 | inserting into a descending list keeps it descending |
| Ranker.InsertDescMultiset | ml/ranker/app/main.py:89 | insertion adds exactly the one item and loses none |
| Ranker.InsertDescIds | ml/ranker/app/main.py:89 | insertion adds exactly the item's route id to the ids |
| Ranker.InsertDescWithScore | ml/ranker/app/main.py:89 | the inserted item goes after every item of equal score |
| Ranker.SortDesc | ml/ranker/app/main.py:89 | the sort is descending by score, a permutation of its input, and stable: items of equal score keep their order |
| Ranker.EveryRouteReportedOnce | ml/ranker/app/main.py:75-83 | every submitted route id appears exactly once, among the scores or among the failures |
| Ranker.NothingScoredIff | ml/ranker/app/main.py:78-85 | nothing scores exactly when no route's features can be scored, including an empty request |
| Ranker.NothingScoredAllFailed | ml/ranker/app/main.py:78-85 | when nothing scores, the failed list is every route id in submission order |
| Ranker.WellScoredSnoc | ml/ranker/app/main.py:80-81 | appending a well-formed score item to a list of well-formed score items keeps the list well formed |
| Ranker.ScoredItemsInRange | ml/ranker/app/main.py:80-81 | every score item lies in [0, 1] and matches its breakdown's final score |
| Ranker.Rank | ml/ranker/app/main.py:65-91 | 422 with "No successful inference" iff nothing scored; otherwise the failed ids in submission order and the scored items, sorted descending, permuted, stable, every id accounted for once |
| RankerClient.PresentIds | ml/agent/app/services/ranker_client.py:49 | the reported ids are ids of submitted routes, no more of them than routes |
| RankerClient.PresentIdsIsFilter | ml/agent/app/services/ranker_client.py:49 | the j-th reported id is the id of the j-th route that carries one: each such route contributes its id exactly once, in submission order |
| RankerClient.RankRoutes | ml/agent/app/services/ranker_client.py:19-51 | the posted payload carries the request id and routes unchanged; a timeout or request error fails; 200 passes the body's lists through with [] defaults; 422 reports the present ids as failed; other statuses raise outside 2xx and give ([], []) otherwise; only 200 yields scores |
| RankerClient.PresentIdsAreRouteIds | ml/agent/app/services/ranker_client.py:49 | when every route carries an id, the 422 list is exactly the submitted ids in submission order |
| RankerClient.ClientAgreesWithService | ml/agent/app/services/ranker_client.py:37-49 | against the service's own answer the client returns the service's sorted scores and failed ids, and its 422 list equals the service's failed list |
| Fallback.Themed | ml/agent/app/services/fallback.py:15 | the themed list holds only candidates of the theme, and is empty iff no candidate has the theme |
| Fallback.ThemedKeepsEvery | ml/agent/app/services/fallback.py:15 | every candidate of the theme is in the themed list |
| Filters.PositionsSpec | ml/agent/app/services/fallback.py:15 | the positions a comprehension with a condition keeps (the theme filter here, the route-id filter at ranker_client.py:49): strictly increasing, each satisfying the condition, and covering every element that satisfies it |
| Fallback.ThemedIsFilter | ml/agent/app/services/fallback.py:15 | the j-th themed candidate is the j-th candidate of the theme: an order-preserving filter that keeps each such candidate exactly once |
| Fallback.ThemedBeforeFirst | ml/agent/app/services/fallback.py:15 | no candidate before the first themed position has the theme |
| Fallback.Pool | ml/agent/app/services/fallback.py:15-16 | the pool is exactly the themed list when any candidate has the theme and all candidates otherwise; it is empty iff there are no candidates |
| Fallback.FirstBest | ml/agent/app/services/fallback.py:20-24 | the front of the stable descending sort is a scored candidate whose score no pool member beats, and every earlier scored one is strictly lower |
| Fallback.ChooseBestRoute | ml/agent/app/services/fallback.py:4-27 | None iff no candidates; the result is a candidate, has the theme whenever any candidate does, has the top pool score with the earliest one winning ties, and is the pool's first element when nothing is scored |
| Fallback.ChooseIgnoresOtherScores | ml/agent/app/services/fallback.py:15-22 | a score for an id outside the pool, whether or not some other-theme candidate has it, never changes the choice |
| Fallback.UnscoredTakesFirstThemed | ml/agent/app/services/fallback.py:15-27 | with no score for any pool member, the choice is the first candidate of the theme, and no earlier candidate has the theme |
| Fallback.UnscoredExample | ml/agent/app/services/fallback.py:12-13 | two candidates of the theme and no scores: the first one, not the second, is chosen |
| Pipeline.ExtractedFeaturesScore | ml/agent/app/services/feature_calc.py:33-64 | every dictionary the extractor returns can be scored, and its loop-closure term depends only on the gap: the fit flag the extractor sets never changes the bonus |

## Left out

- The floating-point division `lat / 1e5` in `decode_polyline` is not modelled: coordinates stay integers in 1e-5 units. IEEE-754 rounding, infinities and NaN are not modelled anywhere; all arithmetic is exact.
- `sample_points` takes its ratios as numbers. The `float(r)` conversion failing on a non-numeric ratio is not modelled.
- The HTTP transport of `rank_routes` is the parameter `post`. The httpx client, the timeout setting and logging, including the logged `r.text[:500]`, are not modelled. The status set `raise_for_status` rejects is taken to be httpx's documented one: every status outside 2xx.
- RankerClient.RankRoutes: the body's `scores` and `failed_route_ids` are modelled as lists of score items and ids. A body whose values have other JSON types is passed through by `rank_routes` unchanged; the model does not represent such values.
- `decode_polyline` repeats its chunk loop inline for latitude and longitude. The model writes that loop once, as the method `ReadValue`, and the decoder calls it twice.
- Ranker.SortDesc: Python's timsort is modelled as a stable insertion sort. Only its result (descending, a permutation, stable) is claimed, and that result is unique.
- Ranker.Rank: only a failure to convert a feature with `float()` is modelled as a per-route exception. Python's `float()` also accepts strings such as "nan" and "inf"; these are not numbers here.
- The pydantic request and response schemas and FastAPI's wiring are not modelled. `RankRoute`, `ScoreItem` and `RankResponse` are plain datatypes, and the 422 `HTTPException` is an error result. The `/health` endpoint is not part of this model.
- Fallback.ChooseBestRoute: every candidate is assumed to carry `route_id`. A candidate without one makes `choose_best_route` raise `KeyError` at `c["route_id"]`, and that path is not modelled. A theme key that is absent is modelled.
- RankerClient.PresentIds: a `route_id` key present with the value null is not modelled. `x.get("route_id")` puts `None` into the list for it; in the model a route's id is either a string or absent.
- The generative-model client, the BigQuery writer, the settings module and the web handler are not part of this model.
