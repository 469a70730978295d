# Dangerous writing: the safepoint state machine

"Dangerous writing" is a Tk text editor that punishes pauses. Every key
release starts a countdown. A key press during the countdown stops it. If the
countdown runs out, everything typed after the last *safepoint* is deleted.

A safepoint is taken when the word count reaches a threshold. The first
threshold is 100 words, and each safepoint raises it by 100. The safepoint
marks where the text that is safe from deletion ends.

The repository holds two versions of the editor: `dangerous_writing.py`
(class `DangerousWriting`) and `dangerous_ui.py` (class `DangerousUI`). They
differ in three ways:

- **When a safepoint fires.** `DangerousWriting` fires when the count is one
  more than the threshold. `DangerousUI` fires when the count equals it.
- **Where the safepoint sits.** `DangerousWriting` places it the last word's
  length plus two characters before the end. `DangerousUI` uses plus one.
- **Saving.** Only `DangerousWriting` writes the safe text to a dated file.

This project models both classes as Dafny classes with the same fields and
methods. The model is split into these modules:

- `Words` (`words.dfy`): Python's `str.split()` with no separator, and the
  last word of a text. `Split` is checked against an independent,
  character-by-character count of the positions where a word begins
  (`WordStarts`).
- `TkText` (`tk_text.dfy`): the contents of a Tk text widget as a string that
  always ends in the widget's own final newline. Index `"1.0"` is offset 0,
  `"end"` is the length, and `"end-Nc"` is `EndMinus`. Also `get` from the
  start and `delete(k, "end")`. Tk never deletes the final newline. When `k`
  starts a line other than the first, Tk also deletes the newline just before
  `k`.
- `LabelText` (`label_text.dfy`): `format(n, '03d')` and the word-count
  label, with the inverse reading `ValueOf`.
- `Timer` (`timer.dfy`): the decision the countdown loop makes. The loop is
  driven by the sequence of `Tick`s it observes (a key press or not, and the
  clock reading after it) instead of a real clock.
- `Safepoint` (`safepoint.dfy`): the `Tracker` value (safepoint and
  threshold) that both classes keep.
- `Writing` (`dangerous_writing.dfy`) and `Ui` (`dangerous_ui.dfy`): per
  file, the decision `check_safepoint` makes as a pure function
  `NextTracker`, the lemmas about it, and the class whose methods are proved
  against it.

Each file is modelled as written, with its own trigger and margin.

Safepoints do not only move forward. The user can delete text between two
checks, so a later safepoint may sit at a smaller offset than an earlier one.
The model proves only that the threshold grows and is a multiple of 100.

The saved file and the text kept at expiry can differ by one character. When
the safepoint starts a line, `get("1.0", safepoint)` includes the newline
before it, but `delete(safepoint, "end")` removes that newline.
`GetMatchesTruncate` states this, and `SavedAndKeptDiffer` shows an instance.

## Model

| member | source | states |
|---|---|---|
| Words.CountWords | dangerous_writing.py:111-115 | `len(text.split())` equals the number of positions where a maximal non-whitespace run begins |
| Words.CountIsWordStarts | dangerous_ui.py:100-104 | the number of words `split()` returns equals the number of word-starting positions, for every string |
| Words.CountWordsZero | dangerous_ui.py:100-104 | the count is 0 exactly when the text is empty or all whitespace (both directions) |
| Words.NoWordsIffAllSpace | dangerous_writing.py:111-115 | `split()` returns no word exactly when every character is whitespace |
| Words.SplitWords | dangerous_writing.py:100 | every word `split()` returns is non-empty and holds no whitespace |
| Words.SplitKeepsText | dangerous_writing.py:100 | concatenating the words gives back exactly the non-whitespace characters of the text, in order |
| Words.SplitTrimEnd | dangerous_writing.py:100 | trailing whitespace does not change the words |
| Words.TrailingWordNoSpace | dangerous_writing.py:106 | the trailing word holds no whitespace |
| Words.TrimEndDropsSpace | dangerous_writing.py:106 | only whitespace follows the trimmed text |
| Words.LastWordSplit | dangerous_writing.py:106 | the last word is `split()[-1]`, and the text before it splits into all the other words |
| Words.LastWordPlace | dangerous_ui.py:96 | the last word sits in the text at its start offset, only whitespace follows it, and whitespace (or the start of the text) precedes it |
| Words.LastWordRoom | dangerous_ui.py:93-96 | a text ending in whitespace has room after its last word, and with two words or more the last one does not start the text |
| Words.WordStartsGrow | dangerous_writing.py:114 | appending characters never lowers the count |
| Words.SplitOfAppend | dangerous_writing.py:100 | text joined at a word boundary (the first part empty or ending in whitespace) splits into the words of the first part followed by those of the second |
| Words.PrefixKeepsEarlierWords | dangerous_writing.py:81 | a prefix that reaches the start of the last word, or stops on the whitespace just before it, begins with every earlier word, intact and in order; a prefix ending no later than that start holds exactly those words |
| TkText.DeleteToEnd | dangerous_writing.py:126 | `delete(k, "end")` leaves a well-formed buffer that ends in the widget's newline |
| TkText.DeleteToEndKeeps | dangerous_ui.py:115 | deleting only shortens the typed text; from an offset inside the buffer it keeps exactly the characters before it, less the newline before an offset that starts a later line; from the end on it changes nothing |
| TkText.Truncate | dangerous_writing.py:125-128 | what `delete_text` leaves is again a well-formed buffer |
| TkText.TruncateKeeps | dangerous_ui.py:114-117 | with a safepoint inside the buffer, the text before it is kept (without the newline before it when it starts a later line); from the end on, nothing changes; without one, the widget is emptied |
| TkText.TruncateIdempotent | dangerous_writing.py:122-128 | deleting a second time from the same safepoint changes nothing |
| TkText.GetMatchesTruncate | dangerous_writing.py:92 | the text read from the start up to a safepoint is what a deletion from it keeps, plus one newline exactly when the safepoint starts a later line |
| TkText.SavedAndKeptDiffer | dangerous_writing.py:122-128 | in `"a b\nc\n"` with the safepoint at the start of the second line, the read text is `"a b\n"` and the kept text is `"a b"` |
| Safepoint.TruncateKeepsWords | dangerous_writing.py:122-130 | deleting from a safepoint inside the buffer leaves exactly the words of the text before it, in order, whether or not Tk also removes the newline there |
| Safepoint.StepKeepsAligned | dangerous_writing.py:74-83 | a threshold that is a multiple of 100, with a safepoint set exactly once it is past 100, stays so when the tracker stays put or sets a safepoint and moves 100 on |
| LabelText.Decimal | dangerous_writing.py:120 | the numeral of a number is a non-empty string of digits |
| LabelText.DecimalValue | dangerous_writing.py:120 | the numeral reads back as the number |
| LabelText.DecimalLength | dangerous_ui.py:109 | a numeral has at most k digits exactly when the number is below 10^k |
| LabelText.LeadingZeros | dangerous_ui.py:109 | zero padding does not change the value read back |
| LabelText.Pad3 | dangerous_ui.py:109 | `format(n, '03d')` is all digits |
| LabelText.Pad3Reads | dangerous_ui.py:109 | `format(n, '03d')` reads back as n, has 3 digits below 1000, and is the plain numeral from 1000 on |
| LabelText.CountLabelShows | dangerous_writing.py:117-120 | the label shows the count and the threshold, each zero-padded to at least 3 digits and each reading back as its number |
| Timer.RunSurvivesIffNoPress | dangerous_writing.py:144-172 | the run flag is still set when the loop exits (and the text is deleted) exactly when no key press arrives before the deadline |
| Timer.NoPressDeletes | dangerous_ui.py:133-163 | with no key press at all, the countdown always ends by deleting |
| Writing.LastWordLength | dangerous_writing.py:97-109 | `last_word_length` succeeds exactly when there are at least two words (it reads `all_words[-2]`) |
| Writing.LastWordLengthIsLastWord | dangerous_writing.py:100-106 | the length reported is that of `split()[-1]` plus one |
| Writing.LastWordFits | dangerous_writing.py:100-106 | in a buffer, the last word ends before the final newline and does not start the text |
| Writing.NextTracker | dangerous_writing.py:69-88 | `check_safepoint` never lowers the threshold |
| Writing.NextTrackerSteps | dangerous_writing.py:72-83 | the tracker changes exactly when the count is the threshold plus one; then the threshold grows by 100 and the safepoint is the end minus the last word's length plus two |
| Writing.Replay | dangerous_writing.py:56-58 | starting from a fresh editor, the threshold is always at least 100 |
| Writing.NextTrackerShape | dangerous_writing.py:74-83 | a check either leaves the tracker alone or sets a safepoint and raises the threshold by 100 |
| Writing.CheckKeepsThresholds | dangerous_writing.py:74-83 | one check keeps the threshold a multiple of 100 and a safepoint set exactly when the threshold is past 100 |
| Writing.ReplayThresholds | dangerous_writing.py:74-83 | the threshold is always a multiple of 100, and a safepoint is set exactly when the threshold has moved past 100 |
| Writing.SafepointBounds | dangerous_writing.py:77-81 | a new safepoint lies inside the buffer, at most one character before the last word, on the whitespace before it |
| Writing.SafepointKeepsEarlierWords | dangerous_writing.py:81-92 | the saved text is what a deletion at expiry keeps, plus the newline before the safepoint when it starts a later line; the kept text begins with every word but the one being typed, intact and in order, and holds exactly those when only the closing newline follows that word |
| Writing.DangerousWriting.constructor | dangerous_writing.py:43-58 | a new editor has an empty buffer, no safepoint, threshold 100, the run flag set, a 10-second countdown and the label "Word count: 000/100" |
| Writing.DangerousWriting.TimeIt | dangerous_writing.py:62-67 | a key release checks the safepoint on the typed text first, then counts down; the tracker, the saved file, the run flag and the buffer end as those two steps leave them, and the label shows the final buffer's count and the threshold |
| Writing.DangerousWriting.Edit | dangerous_writing.py:51-52 | the widget applies a keystroke before the key-release binding calls `TimeIt`: any well-formed buffer may result, and the safepoint and threshold are untouched |
| Writing.DangerousWriting.CheckSafepoint | dangerous_writing.py:69-88 | the tracker moves as `NextTracker` says, the buffer is untouched, the file is saved exactly when the tracker moves, and the label shows the count and the new threshold |
| Writing.DangerousWriting.SaveProgress | dangerous_writing.py:90-95 | the file receives the text from the start up to the safepoint |
| Writing.DangerousWriting.UpdateLabelCount | dangerous_writing.py:117-120 | the label shows the given count and the current threshold |
| Writing.DangerousWriting.DeleteText | dangerous_writing.py:122-130 | the buffer is truncated at the safepoint (emptied without one) and the label shows the new count |
| Writing.DangerousWriting.StopCountdown | dangerous_writing.py:132-134 | the run flag is cleared |
| Writing.DangerousWriting.Countdown | dangerous_writing.py:141-172 | the loop ends with the run flag as `RunAtExit` says, and the buffer is truncated exactly when the flag is still set |
| Ui.LastWordLength | dangerous_ui.py:90-98 | `last_word_length` succeeds exactly when there is at least one word |
| Ui.LastWordLengthIsLastWord | dangerous_ui.py:93-96 | the length reported is that of `split()[-1]` |
| Ui.LastWordFits | dangerous_ui.py:93-96 | in a buffer, the last word ends before the final newline |
| Ui.NextTracker | dangerous_ui.py:71-88 | `check_safepoint` never lowers the threshold |
| Ui.NextTrackerSteps | dangerous_ui.py:74-85 | the tracker changes exactly when the count equals the threshold (a count that jumps past it sets nothing); then the threshold grows by 100 and the safepoint is the end minus the last word's length plus one |
| Ui.Replay | dangerous_ui.py:56-58 | starting from a fresh editor, the threshold is always at least 100 |
| Ui.NextTrackerShape | dangerous_ui.py:76-85 | a check either leaves the tracker alone or sets a safepoint and raises the threshold by 100 |
| Ui.CheckKeepsThresholds | dangerous_ui.py:76-85 | one check keeps the threshold a multiple of 100 and a safepoint set exactly when the threshold is past 100 |
| Ui.ReplayThresholds | dangerous_ui.py:76-85 | the threshold is always a multiple of 100, and a safepoint is set exactly when the threshold has moved past 100 |
| Ui.SafepointBounds | dangerous_ui.py:79-83 | a new safepoint lies inside the buffer and no earlier than the start of the last word |
| Ui.SafepointKeepsEarlierWords | dangerous_ui.py:111-117 | a deletion at expiry leaves text that begins with every word but the last one, intact and in order, and holds exactly those when only the closing newline follows the last word |
| Ui.DangerousUI.constructor | dangerous_ui.py:40-58 | a new editor has an empty buffer, no safepoint, threshold 100, the run flag set, the given countdown length and the label "Word count: 000/100" |
| Ui.DangerousUI.TimeIt | dangerous_ui.py:62-69 | a key release (or the Test button) checks the safepoint on the typed text first, then counts down; the tracker, the run flag and the buffer end as those two steps leave them, and the label shows the final buffer's count and the threshold |
| Ui.DangerousUI.Edit | dangerous_ui.py:51-52 | the widget applies a keystroke before the key-release binding calls `TimeIt`: any well-formed buffer may result, and the safepoint and threshold are untouched |
| Ui.DangerousUI.CheckSafepoint | dangerous_ui.py:71-88 | the tracker moves as `NextTracker` says, the buffer is untouched, nothing is saved, and the label shows the count and the new threshold |
| Ui.DangerousUI.UpdateLabelCount | dangerous_ui.py:106-109 | the label shows the given count and the current threshold |
| Ui.DangerousUI.DeleteText | dangerous_ui.py:111-119 | the buffer is truncated at the safepoint (emptied without one) and the label shows the new count |
| Ui.DangerousUI.StopCountdown | dangerous_ui.py:121-123 | the run flag is cleared |
| Ui.DangerousUI.Countdown | dangerous_ui.py:130-163 | the loop ends with the run flag as `RunAtExit` says, and the buffer is truncated exactly when the flag is still set |

## Left out

- Widget construction, layout, fonts, the progress bar, the Test button and the countdown label: presentation only.
- The clock, `time.sleep` and the float arithmetic of the remaining time, minutes, seconds and progress are not modelled. The clock readings become the `now` field of each `Tick`, and the first reading is taken equal to the start time.
- The nested event loop: `self.update()` lets a key event run a whole new `time_it` inside the loop. The model lets a key press inside the loop do only what `stop_countdown` does. This is host event-loop re-entrancy.
- Typing itself: Tk inserts keys into the widget. `Edit` lets any well-formed buffer replace the text before each `time_it`, without modelling how a key changes it.
- File output: `open`, `write` and the `date.today()` file name are not modelled. `savedText` holds what would be written.
- Tk indices are `"line.col"` strings, and `delete_text` tests one for truthiness. The model keeps a safepoint as a character offset in `Option<nat>`, so an offset stays fixed when earlier text is later edited.
- The `print` calls.
- Writing.DangerousWriting.CountLabelText and Ui.DangerousUI.CountLabelText: the label is kept as the two numbers it shows, and its text is rendered from them with `CountLabel`.
- Writing.NextTracker and Ui.NextTracker: their own contracts state only that the threshold never falls; the full behaviour is stated by NextTrackerSteps.
- Countdown length: `seconds` is an integer number of seconds; Python would also accept a float.
