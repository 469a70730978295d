/** The editor of dangerous_ui.py: a safepoint is taken when the word count
    equals the threshold, it excludes the last word and one more character,
    nothing is saved, and the countdown length is a parameter. */
module Ui {
  import opened Optional
  import opened Words
  import opened TkText
  import opened LabelText
  import opened Timer
  import opened Safepoint

  /** `last_word_length`: the length of the last word. With no word at all it
      raises IndexError (None). */
  function LastWordLength(text: string): (r: Option<nat>)
    ensures r.Some? <==> CountWords(text) >= 1
  {
    var allWords := Split(text);
    if |allWords| < 1 then None
    else Some(|allWords[|allWords| - 1]|)
  }

  /** The length `last_word_length` reports is that of the last
      whitespace-separated word. */
  lemma LastWordLengthIsLastWord(text: string)
    requires CountWords(text) >= 1
    ensures LastWordLength(text) == Some(|LastWord(text)|)
  {
    LastWordSplit(text);
  }

  /** In a buffer, the last word ends before the final newline. */
  lemma LastWordFits(text: string)
    requires IsBuffer(text) && CountWords(text) >= 1
    ensures LastWordStart(text) + |LastWord(text)| + 1 <= |text|
  {
    assert IsSpace(text[|text| - 1]);
    LastWordRoom(text);
  }

  /** What `check_safepoint` decides: only a word count equal to the
      threshold sets a safepoint, at the value of `last_word_length` plus one
      characters before the end, and raises the threshold by one step. */
  function NextTracker(text: string, t: Tracker): (r: Tracker)
    requires t.wordsToSafepoint >= 1
    ensures r.wordsToSafepoint >= t.wordsToSafepoint
  {
    var numOfWords := CountWords(text);
    if numOfWords == t.wordsToSafepoint then
      var wordLength := LastWordLength(text).value + 1;
      Tracker(Some(EndMinus(text, wordLength)), t.wordsToSafepoint + WordsPerSafepoint)
    else
      t
  }

  /** The tracker changes exactly when the count equals the threshold (a
      count that jumps past it sets nothing); then the threshold grows by one
      step and stays reachable, and the safepoint sits the last word and one
      character before the end. */
  lemma NextTrackerSteps(text: string, t: Tracker)
    requires IsBuffer(text) && Reachable(t)
    ensures var r := NextTracker(text, t);
      && Reachable(r)
      && (r == t <==> CountWords(text) != t.wordsToSafepoint)
      && (r != t ==> r.wordsToSafepoint == t.wordsToSafepoint + WordsPerSafepoint)
      && (r != t ==> r.safePoint == Some(|text| - (|LastWord(text)| + 1)))
  {
    if CountWords(text) == t.wordsToSafepoint {
      LastWordLengthIsLastWord(text);
      LastWordFits(text);
    }
  }

  /** A check either leaves the tracker alone or sets a safepoint and moves
      the threshold one step on. */
  lemma NextTrackerShape(text: string, t: Tracker)
    requires t.wordsToSafepoint >= 1
    ensures var r := NextTracker(text, t);
      r == t || (r.safePoint.Some? && r.wordsToSafepoint == t.wordsToSafepoint + WordsPerSafepoint)
  {
  }

  /** The tracker after `check_safepoint` has run on each of `texts` in
      turn, starting from a fresh editor. */
  function Replay(texts: seq<string>): (t: Tracker)
    ensures Reachable(t)
  {
    if texts == [] then Initial
    else NextTracker(texts[|texts| - 1], Replay(texts[..|texts| - 1]))
  }

  /** One check keeps the threshold a multiple of the step, and keeps a
      safepoint set exactly when the threshold has passed the first step. */
  lemma CheckKeepsThresholds(text: string, t: Tracker)
    requires Reachable(t) && t.wordsToSafepoint % WordsPerSafepoint == 0
    requires t.safePoint.Some? <==> t.wordsToSafepoint > WordsPerSafepoint
    ensures var r := NextTracker(text, t);
      && r.wordsToSafepoint % WordsPerSafepoint == 0
      && (r.safePoint.Some? <==> r.wordsToSafepoint > WordsPerSafepoint)
  {
    NextTrackerShape(text, t);
    StepKeepsAligned(t, NextTracker(text, t));
  }

  /** However the text evolves, the threshold is always a multiple of the
      step, and a safepoint is set once the threshold has moved past the
      first one. */
  lemma {:induction false} ReplayThresholds(texts: seq<string>)
    ensures Replay(texts).wordsToSafepoint % WordsPerSafepoint == 0
    ensures Replay(texts).safePoint.Some? <==> Replay(texts).wordsToSafepoint > WordsPerSafepoint
  {
    if texts != [] {
      var earlier := texts[..|texts| - 1];
      ReplayThresholds(earlier);
      CheckKeepsThresholds(texts[|texts| - 1], Replay(earlier));
    } else {
      assert Replay(texts) == Initial;
    }
  }

  /** A safepoint lies inside the buffer and no earlier than the start of
      the last word: the words before it are all confirmed. */
  lemma SafepointBounds(text: string, t: Tracker)
    requires IsBuffer(text) && Reachable(t) && CountWords(text) == t.wordsToSafepoint
    ensures var sp := NextTracker(text, t).safePoint;
      sp.Some? && LastWordStart(text) <= sp.value < |text|
  {
    NextTrackerSteps(text, t);
    LastWordFits(text);
  }

  /** After a safepoint is taken, a deletion at expiry keeps every word but
      the one being typed, intact and in order, as the first words left; when
      only the buffer's closing newline follows that word, exactly those
      words are left. */
  lemma SafepointKeepsEarlierWords(text: string, t: Tracker)
    requires IsBuffer(text) && Reachable(t) && CountWords(text) == t.wordsToSafepoint
    ensures var words := Split(text);
      var left := Split(Truncate(text, NextTracker(text, t).safePoint));
      && words[..|words| - 1] <= left
      && (LastWordStart(text) + |LastWord(text)| + 1 == |text| ==> left == words[..|words| - 1])
      && CountWords(Truncate(text, NextTracker(text, t).safePoint)) >= t.wordsToSafepoint - 1
  {
    NextTrackerSteps(text, t);
    LastWordFits(text);
    var j := NextTracker(text, t).safePoint.value;
    PrefixKeepsEarlierWords(text, j);
    TruncateKeepsWords(text, j);
  }

  class DangerousUI {
    var text: string
    var safePoint: Option<nat>
    var wordsToSafepoint: nat
    var run: bool
    /** The two numbers the word-count label shows; its text is
        `CountLabelText()`. */
    var labelCount: nat
    var labelThreshold: nat
    const seconds: int

    /** The text of the word-count label. */
    function CountLabelText(): string
      reads this
    {
      CountLabel(labelCount, labelThreshold)
    }

    ghost predicate Valid()
      reads this
    {
      IsBuffer(text) && Reachable(Tracker(safePoint, wordsToSafepoint))
    }

    /** An empty editor with no safepoint, the first threshold at 100 and a
      countdown of `seconds`. */
    constructor (seconds: int)
      ensures Valid()
      ensures text == "\n" && safePoint == None && wordsToSafepoint == WordsPerSafepoint && run
      ensures CountLabelText() == "Word count: 000/100"
      ensures this.seconds == seconds
    {
      text := "\n";
      labelCount, labelThreshold := 0, WordsPerSafepoint;
      this.seconds := seconds;
      run := true;
      safePoint := None;
      wordsToSafepoint := WordsPerSafepoint;
      new;
      assert Pad3(0) == "000" && Pad3(100) == "100";
    }

    /** The widget applying a keystroke to its contents, which Tk does
        before the key-release binding calls `TimeIt`: any buffer may result,
        and the safepoint state is left as it was. */
    method Edit(edited: string)
      requires Valid() && IsBuffer(edited)
      modifies this`text
      ensures Valid() && text == edited
      ensures Tracker(safePoint, wordsToSafepoint) == old(Tracker(safePoint, wordsToSafepoint))
    {
      text := edited;
    }

    /** The key-release handler (and the Test button): checks for a
      safepoint, then counts down. */
    method TimeIt(start: int, ticks: seq<Tick>)
      requires Valid() && Ends(start, start + seconds, ticks)
      modifies this
      ensures Valid()
      ensures Tracker(safePoint, wordsToSafepoint)
        == NextTracker(old(text), old(Tracker(safePoint, wordsToSafepoint)))
      ensures run == RunAtExit(start, start + seconds, ticks)
      ensures text == if run then Truncate(old(text), safePoint) else old(text)
      ensures labelCount == CountWords(text) && labelThreshold == wordsToSafepoint
    {
      ghost var typed := text;
      CheckSafepoint();
      assert text == typed;
      Countdown(start, ticks);
    }

    method CheckSafepoint()
      requires Valid()
      modifies this`safePoint, this`wordsToSafepoint, this`labelCount, this`labelThreshold
      ensures Valid()
      ensures Tracker(safePoint, wordsToSafepoint)
        == NextTracker(text, old(Tracker(safePoint, wordsToSafepoint)))
      ensures labelCount == CountWords(text) && labelThreshold == wordsToSafepoint
    {
      ghost var before := Tracker(safePoint, wordsToSafepoint);
      var numOfWords := CountWords(text);
      if numOfWords == wordsToSafepoint {
        var wordLength := LastWordLength(text).value + 1;
        safePoint := Some(EndMinus(text, wordLength));
        wordsToSafepoint := wordsToSafepoint + WordsPerSafepoint;
      }
      assert Tracker(safePoint, wordsToSafepoint) == NextTracker(text, before);
      UpdateLabelCount(numOfWords);
    }

    method UpdateLabelCount(numOfWords: nat)
      modifies this`labelCount, this`labelThreshold
      ensures labelCount == numOfWords && labelThreshold == wordsToSafepoint
      ensures CountLabelText() == CountLabel(numOfWords, wordsToSafepoint)
    {
      labelCount, labelThreshold := numOfWords, wordsToSafepoint;
    }

    method DeleteText()
      requires Valid()
      modifies this`text, this`labelCount, this`labelThreshold
      ensures Valid()
      ensures text == Truncate(old(text), safePoint)
      ensures labelCount == CountWords(text) && labelThreshold == wordsToSafepoint
    {
      if safePoint.Some? {
        text := DeleteToEnd(text, safePoint.value);
      } else {
        text := DeleteToEnd(text, 0);
      }
      UpdateLabelCount(CountWords(text));
    }

    method StopCountdown()
      modifies this`run
      ensures !run
    {
      run := false;
    }

    /** Sets the run flag, loops until the deadline passes or a key press
      clears the flag, and deletes back to the safepoint if the flag is
      still set. */
    method Countdown(start: int, ticks: seq<Tick>)
      requires Valid() && Ends(start, start + seconds, ticks)
      modifies this`run, this`text, this`labelCount, this`labelThreshold
      ensures Valid()
      ensures run == RunAtExit(start, start + seconds, ticks)
      ensures text == if run then Truncate(old(text), safePoint) else old(text)
      ensures if run then labelCount == CountWords(text) && labelThreshold == wordsToSafepoint
        else labelCount == old(labelCount) && labelThreshold == old(labelThreshold)
    {
      run := true;
      var end := start + seconds;
      var now := start;
      var i := 0;
      assert ticks[i..] == ticks;
      while now < end && run
        invariant 0 <= i <= |ticks|
        invariant text == old(text)
        invariant labelCount == old(labelCount) && labelThreshold == old(labelThreshold)
        invariant run ==> Ends(now, end, ticks[i..])
        invariant run ==> RunAtExit(start, end, ticks) == RunAtExit(now, end, ticks[i..])
        invariant !run ==> !RunAtExit(start, end, ticks)
        decreases |ticks| - i
      {
        assert ticks[i..][0] == ticks[i] && ticks[i..][1..] == ticks[i + 1..];
        if ticks[i].keyPressed {
          StopCountdown();
        }
        now := ticks[i].now;
        i := i + 1;
      }
      if run {
        DeleteText();
      }
    }
  }
}
