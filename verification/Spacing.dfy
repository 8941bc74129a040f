/** Counting events that keep a minimum distance. */
module Spacing {

  /** Each element is at least `gap` after the one before it. */
  ghost predicate Spaced(times: seq<int>, gap: int)
  {
    forall i :: 0 < i < |times| ==> times[i - 1] + gap <= times[i]
  }

  /** Of spaced times in a window, all but one account for a whole gap of its length. */
  lemma SpacedCount(times: seq<int>, gap: int, lo: int, hi: int)
    requires gap > 0 && lo <= hi
    requires Spaced(times, gap)
    requires forall i :: 0 <= i < |times| ==> lo <= times[i] <= hi
    ensures (|times| - 1) * gap <= hi - lo
  {
    if |times| > 0 {
      SpacedReach(times, gap);
    }
  }

  lemma {:induction false} SpacedReach(times: seq<int>, gap: int)
    requires |times| > 0 && Spaced(times, gap)
    ensures times[0] + (|times| - 1) * gap <= times[|times| - 1]
  {
    if |times| > 1 {
      var front := times[..|times| - 1];
      SpacedReach(front, gap);
      assert (|times| - 1) * gap == (|front| - 1) * gap + gap;
    }
  }

  lemma SpacedSnoc(times: seq<int>, t: int, gap: int)
    requires Spaced(times, gap)
    requires times != [] ==> times[|times| - 1] + gap <= t
    ensures Spaced(times + [t], gap)
  {
  }
}
