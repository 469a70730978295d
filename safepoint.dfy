/** The safepoint state both editors keep. */
module Safepoint {
  import opened Optional
  import opened Words
  import opened TkText

  /** WORDS_TO_SAFEPOINT: the first threshold and the step between two. */
  const WordsPerSafepoint: nat := 100

  /** Where the confirmed text ends, and the word count at which the next
      safepoint is taken. */
  datatype Tracker = Tracker(safePoint: Option<nat>, wordsToSafepoint: nat)

  /** The tracker an editor starts with: no safepoint, first threshold at
      one step. */
  const Initial: Tracker := Tracker(None, WordsPerSafepoint)

  /** Thresholds start at one step and never fall. (That they are also
      multiples of the step is proved about the sequence of checks.) */
  predicate Reachable(t: Tracker) {
    t.wordsToSafepoint >= WordsPerSafepoint
  }

  /** A tracker whose threshold is a multiple of the step, with a safepoint
      set exactly once the threshold has passed the first step, keeps both
      when it either stays put or sets a safepoint and moves one step on. */
  lemma StepKeepsAligned(t: Tracker, r: Tracker)
    requires Reachable(t) && t.wordsToSafepoint % WordsPerSafepoint == 0
    requires t.safePoint.Some? <==> t.wordsToSafepoint > WordsPerSafepoint
    requires r == t || (r.safePoint.Some? && r.wordsToSafepoint == t.wordsToSafepoint + WordsPerSafepoint)
    ensures r.wordsToSafepoint % WordsPerSafepoint == 0
    ensures r.safePoint.Some? <==> r.wordsToSafepoint > WordsPerSafepoint
  {
    if r != t {
      var steps := t.wordsToSafepoint / WordsPerSafepoint;
      assert r.wordsToSafepoint == (steps + 1) * WordsPerSafepoint;
    }
  }

  /** Deleting from a safepoint keeps exactly the words of the text before
      it, in order, whether or not Tk also removes the newline ending the
      line before. */
  lemma TruncateKeepsWords(s: string, k: nat)
    requires IsBuffer(s) && k < |s|
    ensures Split(Truncate(s, Some(k))) == Split(s[..k])
    ensures CountWords(Truncate(s, Some(k))) == CountWords(s[..k])
  {
    var kept := Typed(Truncate(s, Some(k)));
    TruncateKeeps(s, Some(k));
    if StartsLaterLine(s, k) {
      DropSpaceAt(s, k - 1);
    }
    var t := Truncate(s, Some(k));
    assert t == kept + "\n";
    assert t[..|kept|] == kept && t[..|kept| + 1] == t;
    DropSpaceAt(t, |kept|);
  }
}
