/** The editor of dangerous_writing.py: a safepoint is taken when the word
    count passes the threshold by one word, it excludes the last word and two
    more characters, and the text up to it is saved to a file. */
module Writing {
  import opened Optional
  import opened Words
  import opened TkText
  import opened LabelText
  import opened Timer
  import opened Safepoint

  /** COUNTDOWN_SECS: how long a pause may last. */
  const CountdownSecs: int := 10

  /** `last_word_length`: the length of the last word plus one. It also reads
      the word before the last one, so with fewer than two words it raises
      IndexError (None). */
  function LastWordLength(text: string): (r: Option<nat>)
    ensures r.Some? <==> CountWords(text) >= 2
  {
    var allWords := Split(text);
    if |allWords| < 2 then None
    else Some(|allWords[|allWords| - 1]| + 1)
  }

  /** The length `last_word_length` reports is that of the last
      whitespace-separated word plus one. */
  lemma LastWordLengthIsLastWord(text: string)
    requires CountWords(text) >= 2
    ensures LastWordLength(text) == Some(|LastWord(text)| + 1)
  {
    LastWordSplit(text);
  }

  /** In a buffer the last word ends before the final newline, and with a
      word before it, it does not start the text. */
  lemma LastWordFits(text: string)
    requires IsBuffer(text) && CountWords(text) >= 2
    ensures LastWordStart(text) + |LastWord(text)| + 1 <= |text|
    ensures LastWordStart(text) >= 1
  {
    assert IsSpace(text[|text| - 1]);
    LastWordRoom(text);
  }

  /** What `check_safepoint` decides: only a word count of exactly one more
      than the threshold sets a safepoint, at the value of
      `last_word_length` plus one characters before the end, and raises the
      threshold by one step. */
  function NextTracker(text: string, t: Tracker): (r: Tracker)
    requires t.wordsToSafepoint >= 1
    ensures r.wordsToSafepoint >= t.wordsToSafepoint
  {
    var numOfWords := CountWords(text);
    if numOfWords == t.wordsToSafepoint + 1 then
      var wordLength := LastWordLength(text).value + 1;
      Tracker(Some(EndMinus(text, wordLength)), t.wordsToSafepoint + WordsPerSafepoint)
    else
      t
  }

  /** The tracker changes exactly when the count is one past the threshold;
      then the threshold grows by one step and stays reachable, and the
      safepoint sits the last word and two characters before the end. */
  lemma NextTrackerSteps(text: string, t: Tracker)
    requires IsBuffer(text) && Reachable(t)
    ensures var r := NextTracker(text, t);
      && Reachable(r)
      && (r == t <==> CountWords(text) != t.wordsToSafepoint + 1)
      && (r != t ==> r.wordsToSafepoint == t.wordsToSafepoint + WordsPerSafepoint)
      && (r != t ==> r.safePoint == Some(|text| - (|LastWord(text)| + 2)))
  {
    if CountWords(text) == t.wordsToSafepoint + 1 {
      LastWordLengthIsLastWord(text);
      LastWordFits(text);
    }
  }

  /** A check either leaves the tracker alone or sets a safepoint and moves
      the threshold one step on. */
  lemma NextTrackerShape(text: string, t: Tracker)
    requires t.wordsToSafepoint >= 1
    ensures var r := NextTracker(text, t);
      r == t || (r.safePoint.Some? && r.wordsToSafepoint == t.wordsToSafepoint + WordsPerSafepoint)
  {
  }

  /** The tracker after `check_safepoint` has run on each of `texts` in
      turn, starting from a fresh editor. */
  function Replay(texts: seq<string>): (t: Tracker)
    ensures Reachable(t)
  {
    if texts == [] then Initial
    else NextTracker(texts[|texts| - 1], Replay(texts[..|texts| - 1]))
  }

  /** One check keeps the threshold a multiple of the step, and keeps a
      safepoint set exactly when the threshold has passed the first step. */
  lemma CheckKeepsThresholds(text: string, t: Tracker)
    requires Reachable(t) && t.wordsToSafepoint % WordsPerSafepoint == 0
    requires t.safePoint.Some? <==> t.wordsToSafepoint > WordsPerSafepoint
    ensures var r := NextTracker(text, t);
      && r.wordsToSafepoint % WordsPerSafepoint == 0
      && (r.safePoint.Some? <==> r.wordsToSafepoint > WordsPerSafepoint)
  {
    NextTrackerShape(text, t);
    StepKeepsAligned(t, NextTracker(text, t));
  }

  /** However the text evolves, the threshold is always a multiple of the
      step, and a safepoint is set once the threshold has moved past the
      first one. */
  lemma {:induction false} ReplayThresholds(texts: seq<string>)
    ensures Replay(texts).wordsToSafepoint % WordsPerSafepoint == 0
    ensures Replay(texts).safePoint.Some? <==> Replay(texts).wordsToSafepoint > WordsPerSafepoint
  {
    if texts != [] {
      var earlier := texts[..|texts| - 1];
      ReplayThresholds(earlier);
      CheckKeepsThresholds(texts[|texts| - 1], Replay(earlier));
    } else {
      assert Replay(texts) == Initial;
    }
  }

  /** A safepoint lies inside the buffer and at most one character before
      the start of the last word, on the whitespace that precedes it: the
      words before it are all confirmed. */
  lemma SafepointBounds(text: string, t: Tracker)
    requires IsBuffer(text) && Reachable(t) && CountWords(text) == t.wordsToSafepoint + 1
    ensures var sp := NextTracker(text, t).safePoint;
      && sp.Some? && sp.value < |text| && LastWordStart(text) <= sp.value + 1
      && LastWordStart(text) >= 1 && IsSpace(text[LastWordStart(text) - 1])
  {
    NextTrackerSteps(text, t);
    assert IsSpace(text[|text| - 1]);
    LastWordRoom(text);
    LastWordPlace(text);
  }

  /** After a safepoint is taken, the saved file holds exactly the text a
      deletion at expiry keeps, and that text still holds every word but the
      one being typed, intact and in order, as its first words; when only the
      buffer's closing newline follows that word, it holds exactly those. */
  lemma SafepointKeepsEarlierWords(text: string, t: Tracker)
    requires IsBuffer(text) && Reachable(t) && CountWords(text) == t.wordsToSafepoint + 1
    ensures var sp := NextTracker(text, t).safePoint;
      var words := Split(text);
      && sp.Some?
      && GetFromStart(text, sp)
           == Typed(Truncate(text, sp)) + (if StartsLaterLine(text, sp.value) then "\n" else "")
      && words[..|words| - 1] <= Split(Truncate(text, sp))
      && (LastWordStart(text) + |LastWord(text)| + 1 == |text| ==>
            Split(Truncate(text, sp)) == words[..|words| - 1])
      && CountWords(Truncate(text, sp)) >= t.wordsToSafepoint
  {
    NextTrackerSteps(text, t);
    var j := NextTracker(text, t).safePoint.value;
    LastWordPlace(text);
    LastWordRoom(text);
    PrefixKeepsEarlierWords(text, j);
    GetMatchesTruncate(text, j);
    TruncateKeepsWords(text, j);
  }

  class DangerousWriting {
    var text: string
    var safePoint: Option<nat>
    var wordsToSafepoint: nat
    var run: bool
    /** The two numbers the word-count label shows; its text is
        `CountLabelText()`. */
    var labelCount: nat
    var labelThreshold: nat
    /** The contents of the dated progress file, once one is written. */
    var savedText: Option<string>
    const seconds: int

    /** The text of the word-count label. */
    function CountLabelText(): string
      reads this
    {
      CountLabel(labelCount, labelThreshold)
    }

    ghost predicate Valid()
      reads this
    {
      IsBuffer(text) && Reachable(Tracker(safePoint, wordsToSafepoint))
    }

    /** An empty editor with no safepoint and the first threshold at 100. */
    constructor ()
      ensures Valid()
      ensures text == "\n" && safePoint == None && wordsToSafepoint == WordsPerSafepoint && run
      ensures CountLabelText() == "Word count: 000/100" && savedText == None
      ensures seconds == CountdownSecs
    {
      text := "\n";
      labelCount, labelThreshold := 0, WordsPerSafepoint;
      seconds := CountdownSecs;
      run := true;
      safePoint := None;
      wordsToSafepoint := WordsPerSafepoint;
      savedText := None;
      new;
      assert Pad3(0) == "000" && Pad3(100) == "100";
    }

    /** The widget applying a keystroke to its contents, which Tk does
        before the key-release binding calls `TimeIt`: any buffer may result,
        and the safepoint state is left as it was. */
    method Edit(edited: string)
      requires Valid() && IsBuffer(edited)
      modifies this`text
      ensures Valid() && text == edited
      ensures Tracker(safePoint, wordsToSafepoint) == old(Tracker(safePoint, wordsToSafepoint))
    {
      text := edited;
    }

    /** The key-release handler: checks for a safepoint, then counts down. */
    method TimeIt(start: int, ticks: seq<Tick>)
      requires Valid() && Ends(start, start + seconds, ticks)
      modifies this
      ensures Valid()
      ensures Tracker(safePoint, wordsToSafepoint)
        == NextTracker(old(text), old(Tracker(safePoint, wordsToSafepoint)))
      ensures savedText == if wordsToSafepoint != old(wordsToSafepoint)
        then Some(GetFromStart(old(text), safePoint)) else old(savedText)
      ensures run == RunAtExit(start, start + seconds, ticks)
      ensures text == if run then Truncate(old(text), safePoint) else old(text)
      ensures labelCount == CountWords(text) && labelThreshold == wordsToSafepoint
    {
      ghost var typed, before, unsaved := text, Tracker(safePoint, wordsToSafepoint), savedText;
      CheckSafepoint();
      ghost var checked, saved := Tracker(safePoint, wordsToSafepoint), savedText;
      assert checked == NextTracker(typed, before);
      assert saved == if checked.wordsToSafepoint != before.wordsToSafepoint then Some(GetFromStart(typed, checked.safePoint)) else unsaved;
      Countdown(start, ticks);
      assert Tracker(safePoint, wordsToSafepoint) == checked && savedText == saved;
    }

    method CheckSafepoint()
      requires Valid()
      modifies this`safePoint, this`wordsToSafepoint, this`labelCount, this`labelThreshold, this`savedText
      ensures Valid()
      ensures Tracker(safePoint, wordsToSafepoint)
        == NextTracker(text, old(Tracker(safePoint, wordsToSafepoint)))
      ensures savedText == if wordsToSafepoint != old(wordsToSafepoint)
        then Some(GetFromStart(text, safePoint)) else old(savedText)
      ensures labelCount == CountWords(text) && labelThreshold == wordsToSafepoint
    {
      ghost var before := Tracker(safePoint, wordsToSafepoint);
      var numOfWords := CountWords(text);
      if numOfWords == wordsToSafepoint + 1 {
        var wordLength := LastWordLength(text).value + 1;
        safePoint := Some(EndMinus(text, wordLength));
        wordsToSafepoint := wordsToSafepoint + WordsPerSafepoint;
        SaveProgress();
      }
      assert Tracker(safePoint, wordsToSafepoint) == NextTracker(text, before);
      UpdateLabelCount(numOfWords);
    }

    /** Writes the text up to the safepoint to the progress file. */
    method SaveProgress()
      requires IsBuffer(text)
      modifies this`savedText
      ensures savedText == Some(GetFromStart(text, safePoint))
    {
      savedText := Some(GetFromStart(text, safePoint));
    }

    method UpdateLabelCount(numOfWords: nat)
      modifies this`labelCount, this`labelThreshold
      ensures labelCount == numOfWords && labelThreshold == wordsToSafepoint
      ensures CountLabelText() == CountLabel(numOfWords, wordsToSafepoint)
    {
      labelCount, labelThreshold := numOfWords, wordsToSafepoint;
    }

    method DeleteText()
      requires Valid()
      modifies this`text, this`labelCount, this`labelThreshold
      ensures Valid()
      ensures text == Truncate(old(text), safePoint)
      ensures labelCount == CountWords(text) && labelThreshold == wordsToSafepoint
    {
      if safePoint.Some? {
        text := DeleteToEnd(text, safePoint.value);
      } else {
        text := DeleteToEnd(text, 0);
      }
      UpdateLabelCount(CountWords(text));
    }

    method StopCountdown()
      modifies this`run
      ensures !run
    {
      run := false;
    }

    /** Sets the run flag, loops until the deadline passes or a key press
      clears the flag, and deletes back to the safepoint if the flag is
      still set. */
    method Countdown(start: int, ticks: seq<Tick>)
      requires Valid() && Ends(start, start + seconds, ticks)
      modifies this`run, this`text, this`labelCount, this`labelThreshold
      ensures Valid()
      ensures run == RunAtExit(start, start + seconds, ticks)
      ensures text == if run then Truncate(old(text), safePoint) else old(text)
      ensures if run then labelCount == CountWords(text) && labelThreshold == wordsToSafepoint
        else labelCount == old(labelCount) && labelThreshold == old(labelThreshold)
    {
      run := true;
      var end := start + seconds;
      var now := start;
      var i := 0;
      assert ticks[i..] == ticks;
      while now < end && run
        invariant 0 <= i <= |ticks|
        invariant text == old(text)
        invariant labelCount == old(labelCount) && labelThreshold == old(labelThreshold)
        invariant run ==> Ends(now, end, ticks[i..])
        invariant run ==> RunAtExit(start, end, ticks) == RunAtExit(now, end, ticks[i..])
        invariant !run ==> !RunAtExit(start, end, ticks)
        decreases |ticks| - i
      {
        assert ticks[i..][0] == ticks[i] && ticks[i..][1..] == ticks[i + 1..];
        if ticks[i].keyPressed {
          StopCountdown();
        }
        now := ticks[i].now;
        i := i + 1;
      }
      if run {
        DeleteText();
      }
    }
  }
}
