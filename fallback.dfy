/**
 * The agent's deterministic fallback: among the candidates of the requested
 * theme (or all candidates when none has it), the best-scored one, ties
 * going to the earliest; with no scores at all, the first of the pool.
 */
module Fallback {
  import opened Wrappers
  import opened Filters

  /** A candidate route: its id and its theme, which may be absent. */
  datatype Candidate = Candidate(routeId: string, theme: Option<string>)

  type Scores = map<string, real>

  predicate HasScore(c: Candidate, scores: Scores) {
    c.routeId in scores
  }

  function Score(c: Candidate, scores: Scores): real
    requires HasScore(c, scores)
  {
    scores[c.routeId]
  }

  predicate AnyScored(pool: seq<Candidate>, scores: Scores) {
    exists i :: 0 <= i < |pool| && HasScore(pool[i], scores)
  }

  predicate AnyThemed(candidates: seq<Candidate>, theme: string) {
    exists i :: 0 <= i < |candidates| && candidates[i].theme == Some(theme)
  }

  /** The condition of the theme filter. */
  function OfTheme(theme: string): Candidate -> bool {
    (c: Candidate) => c.theme == Some(theme)
  }

  /** `[c for c in candidates if c.get("theme") == theme]`. */
  function Themed(candidates: seq<Candidate>, theme: string): (r: seq<Candidate>)
    ensures forall i :: 0 <= i < |r| ==> r[i] in candidates && r[i].theme == Some(theme)
    ensures r == [] <==> !AnyThemed(candidates, theme)
  {
    if candidates == [] then []
    else
      var init, last := candidates[..|candidates| - 1], candidates[|candidates| - 1];
      assert forall i :: 0 <= i < |init| ==> init[i] == candidates[i];
      var rest := Themed(init, theme);
      if last.theme == Some(theme) then rest + [last] else rest
  }

  /**
   * The j-th themed candidate is the j-th candidate of the theme, so the
   * filter keeps every such candidate once and in the original order.
   */
  lemma {:induction false} ThemedIsFilter(candidates: seq<Candidate>, theme: string)
    ensures |Themed(candidates, theme)| == |Positions(candidates, OfTheme(theme))|
    ensures forall j :: 0 <= j < |Themed(candidates, theme)| ==>
      Positions(candidates, OfTheme(theme))[j] < |candidates| && Themed(candidates, theme)[j] == candidates[Positions(candidates, OfTheme(theme))[j]]
  {
    if candidates != [] {
      var init := candidates[..|candidates| - 1];
      ThemedIsFilter(init, theme);
      PositionsSpec(init, OfTheme(theme));
      assert forall i :: 0 <= i < |init| ==> init[i] == candidates[i];
    }
  }

  /** Every candidate of the theme is kept. */
  lemma ThemedKeepsEvery(candidates: seq<Candidate>, theme: string)
    ensures forall i :: 0 <= i < |candidates| && candidates[i].theme == Some(theme) ==> candidates[i] in Themed(candidates, theme)
  {
    ThemedIsFilter(candidates, theme);
    PositionsSpec(candidates, OfTheme(theme));
    var r, p := Themed(candidates, theme), Positions(candidates, OfTheme(theme));
    forall i | 0 <= i < |candidates| && candidates[i].theme == Some(theme)
      ensures candidates[i] in r
    {
      var j :| 0 <= j < |p| && p[j] == i;
      assert r[j] == candidates[i];
    }
  }

  /** No candidate before the first themed position has the theme. */
  lemma {:induction false} ThemedBeforeFirst(candidates: seq<Candidate>, theme: string)
    requires |Positions(candidates, OfTheme(theme))| > 0
    ensures Positions(candidates, OfTheme(theme))[0] < |candidates|
    ensures forall i :: 0 <= i < Positions(candidates, OfTheme(theme))[0] ==> candidates[i].theme != Some(theme)
  {
    var init := candidates[..|candidates| - 1];
    assert forall i :: 0 <= i < |init| ==> init[i] == candidates[i];
    PositionsSpec(init, OfTheme(theme));
    if |Positions(init, OfTheme(theme))| > 0 {
      ThemedBeforeFirst(init, theme);
    }
  }

  /** The themed candidates, or every candidate when none matches the theme. */
  function Pool(candidates: seq<Candidate>, theme: string): (pool: seq<Candidate>)
    ensures pool == [] <==> candidates == []
    ensures forall i :: 0 <= i < |pool| ==> pool[i] in candidates
    ensures AnyThemed(candidates, theme) ==> forall i :: 0 <= i < |pool| ==> pool[i].theme == Some(theme)
    ensures !AnyThemed(candidates, theme) ==> pool == candidates
    ensures AnyThemed(candidates, theme) ==> pool == Themed(candidates, theme)
  {
    var themed := Themed(candidates, theme);
    if themed != [] then themed else candidates
  }

  /**
   * The position Python's stable `sort(key=score, reverse=True)` brings to
   * the front: a scored candidate with the highest score, and the earliest
   * such one.
   */
  function FirstBest(pool: seq<Candidate>, scores: Scores): (k: nat)
    requires AnyScored(pool, scores)
    ensures k < |pool| && HasScore(pool[k], scores)
    ensures forall j :: 0 <= j < |pool| && HasScore(pool[j], scores) ==> Score(pool[j], scores) <= Score(pool[k], scores)
    ensures forall j :: 0 <= j < k && HasScore(pool[j], scores) ==> Score(pool[j], scores) < Score(pool[k], scores)
  {
    var n := |pool|;
    var init, last := pool[..n - 1], pool[n - 1];
    assert forall j :: 0 <= j < n - 1 ==> init[j] == pool[j];
    if AnyScored(init, scores) then
      var k := FirstBest(init, scores);
      if HasScore(last, scores) && Score(last, scores) > Score(init[k], scores) then n - 1 else k
    else
      n - 1
  }

  /** `choose_best_route`. */
  function ChooseBestRoute(candidates: seq<Candidate>, scores: Scores, theme: string): (r: Option<Candidate>)
    ensures r.None? <==> candidates == []
    ensures r.Some? ==> r.value in candidates
    ensures r.Some? && AnyThemed(candidates, theme) ==> r.value.theme == Some(theme)
    ensures r.Some? && AnyScored(Pool(candidates, theme), scores) ==>
      var pool := Pool(candidates, theme);
      && HasScore(r.value, scores)
      && (forall j :: 0 <= j < |pool| && HasScore(pool[j], scores) ==> Score(pool[j], scores) <= Score(r.value, scores))
      && (exists k :: 0 <= k < |pool| && pool[k] == r.value
            && forall j :: 0 <= j < k && HasScore(pool[j], scores) ==> Score(pool[j], scores) < Score(r.value, scores))
    ensures r.Some? && !AnyScored(Pool(candidates, theme), scores) ==> r.value == Pool(candidates, theme)[0]
  {
    var pool := Pool(candidates, theme);
    if pool == [] then None
    else if AnyScored(pool, scores) then
      var k := FirstBest(pool, scores);
      Some(pool[k])
    else
      Some(pool[0])
  }

  /**
   * With no score for any pool member, the choice is the first candidate of
   * the theme: no earlier candidate has the theme.
   */
  lemma UnscoredTakesFirstThemed(candidates: seq<Candidate>, scores: Scores, theme: string)
    requires AnyThemed(candidates, theme)
    requires !AnyScored(Pool(candidates, theme), scores)
    ensures |Positions(candidates, OfTheme(theme))| > 0
    ensures var k := Positions(candidates, OfTheme(theme))[0];
      && k < |candidates|
      && ChooseBestRoute(candidates, scores, theme) == Some(candidates[k])
      && forall i :: 0 <= i < k ==> candidates[i].theme != Some(theme)
  {
    assert Themed(candidates, theme) != [];
    ThemedIsFilter(candidates, theme);
    ThemedBeforeFirst(candidates, theme);
  }

  /** Two candidates of the theme and no scores: the first one is chosen. */
  lemma UnscoredExample()
    ensures var a, b := Candidate("A", Some("x")), Candidate("B", Some("x"));
      ChooseBestRoute([a, b], map[], "x") == Some(a)
  {
    var a, b := Candidate("A", Some("x")), Candidate("B", Some("x"));
    assert AnyThemed([a, b], "x") by { assert [a, b][0].theme == Some("x"); }
    UnscoredTakesFirstThemed([a, b], map[], "x");
    assert Positions([a, b], OfTheme("x"))[0] == 0;
  }

  /** Scores of routes that are not pool members never change the choice. */
  lemma {:induction false} FirstBestIgnoresOtherScores(pool: seq<Candidate>, scores: Scores, id: string, v: real)
    requires forall i :: 0 <= i < |pool| ==> pool[i].routeId != id
    requires AnyScored(pool, scores)
    ensures AnyScored(pool, scores[id := v])
    ensures FirstBest(pool, scores[id := v]) == FirstBest(pool, scores)
  {
    var s2 := scores[id := v];
    var k := FirstBest(pool, scores);
    assert HasScore(pool[k], s2);
    var n := |pool|;
    var init := pool[..n - 1];
    assert forall j :: 0 <= j < n - 1 ==> init[j] == pool[j];
    if AnyScored(init, scores) {
      FirstBestIgnoresOtherScores(init, scores, id, v);
    } else {
      assert !AnyScored(init, s2);
    }
  }

  /** A score for a route outside the pool, candidate or not, leaves the choice unchanged. */
  lemma ChooseIgnoresOtherScores(candidates: seq<Candidate>, scores: Scores, theme: string, id: string, v: real)
    requires forall i :: 0 <= i < |Pool(candidates, theme)| ==> Pool(candidates, theme)[i].routeId != id
    ensures ChooseBestRoute(candidates, scores[id := v], theme) == ChooseBestRoute(candidates, scores, theme)
  {
    var pool := Pool(candidates, theme);
    assert forall i :: 0 <= i < |pool| ==> pool[i].routeId != id;
    if AnyScored(pool, scores) {
      FirstBestIgnoresOtherScores(pool, scores, id, v);
    } else {
      assert !AnyScored(pool, scores[id := v]);
    }
  }
}
