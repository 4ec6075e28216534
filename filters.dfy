/** Positions of the elements a list comprehension with a condition keeps. */
module Filters {
  /** The positions of the elements of s that satisfy p, in order. */
  function Positions<T>(s: seq<T>, p: T -> bool): seq<nat> {
    if s == [] then []
    else
      var init := Positions(s[..|s| - 1], p);
      if p(s[|s| - 1]) then init + [|s| - 1] else init
  }

  /** The positions are in range, strictly increasing, and cover every element that satisfies p. */
  lemma {:induction false} PositionsSpec<T>(s: seq<T>, p: T -> bool)
    ensures var pos := Positions(s, p);
      && (forall j :: 0 <= j < |pos| ==> pos[j] < |s| && p(s[pos[j]]))
      && (forall j, k :: 0 <= j < k < |pos| ==> pos[j] < pos[k])
      && (forall i :: 0 <= i < |s| && p(s[i]) ==> i in pos)
  {
    if s != [] {
      var init := s[..|s| - 1];
      PositionsSpec(init, p);
      assert forall i :: 0 <= i < |init| ==> init[i] == s[i];
    }
  }
}
