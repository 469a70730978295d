/** The contents of a Tk text widget, seen as the characters between index
    "1.0" and index "end". Positions are character offsets: "1.0" is 0 and
    "end" is the length of the buffer. */
module TkText {
  import opened Optional

  /** A Tk text widget always holds a final newline that cannot be deleted. */
  predicate IsBuffer(s: string) {
    |s| > 0 && s[|s| - 1] == '\n'
  }

  /** The text the user typed: the buffer without the widget's final newline. */
  function Typed(s: string): string
    requires IsBuffer(s)
  {
    s[..|s| - 1]
  }

  /** Offset of the index "end-nc": n characters back from the end, stopping
      at the start of the text. */
  function EndMinus(s: string, n: nat): nat {
    if n <= |s| then |s| - n else 0
  }

  /** `text.get("1.0", to)`: the characters up to index `to`, an index past
      the end standing for the end. Without a second index, tkinter returns
      the single character at "1.0". */
  function GetFromStart(s: string, to: Option<nat>): string
    requires IsBuffer(s)
  {
    match to
    case None => s[..1]
    case Some(k) => if k <= |s| then s[..k] else s
  }

  /** Offset `k` is the start of a line other than the first. */
  predicate StartsLaterLine(s: string, k: nat) {
    0 < k <= |s| && s[k - 1] == '\n'
  }

  /** The characters a deletion from offset `k` leaves before the final
      newline: those before `k`, less the newline ending the previous line
      when `k` starts a line other than the first. */
  function KeptBefore(s: string, k: nat): string
    requires k <= |s|
  {
    if StartsLaterLine(s, k) then s[..k - 1] else s[..k]
  }

  /** `text.delete(k, "end")`: removes everything from offset `k` on, except
      the widget's final newline. A deletion that starts at the start of a
      line other than the first removes whole lines, so Tk also removes the
      newline just before `k`, which the final newline replaces. */
  function DeleteToEnd(s: string, k: nat): (r: string)
    requires IsBuffer(s)
    ensures IsBuffer(r)
  {
    if k < |s| then KeptBefore(s, k) + "\n" else s
  }

  /** The deletion only ever shortens the typed text. From an offset inside
      the buffer it keeps exactly the characters before that offset, less the
      newline that ends the previous line when the offset starts a line; from
      the end or beyond it changes nothing. */
  lemma DeleteToEndKeeps(s: string, k: nat)
    requires IsBuffer(s)
    ensures Typed(DeleteToEnd(s, k)) <= Typed(s)
    ensures k < |s| && !StartsLaterLine(s, k) ==> Typed(DeleteToEnd(s, k)) == s[..k]
    ensures k < |s| && StartsLaterLine(s, k) ==> Typed(DeleteToEnd(s, k)) == s[..k - 1]
    ensures |s| <= k ==> DeleteToEnd(s, k) == s
  {
  }

  /** What `delete_text` leaves: the text before the safepoint when one is
      set, and an empty widget otherwise. */
  function Truncate(s: string, safePoint: Option<nat>): (r: string)
    requires IsBuffer(s)
    ensures IsBuffer(r)
  {
    match safePoint
    case Some(k) => DeleteToEnd(s, k)
    case None => DeleteToEnd(s, 0)
  }

  /** A safepoint inside the buffer keeps the text before it (without the
      newline that ends the previous line, when the safepoint starts a line);
      no safepoint empties the widget. */
  lemma TruncateKeeps(s: string, safePoint: Option<nat>)
    requires IsBuffer(s)
    ensures safePoint.None? ==> Truncate(s, safePoint) == "\n"
    ensures safePoint.Some? && safePoint.value < |s| ==>
      Typed(Truncate(s, safePoint))
        == if StartsLaterLine(s, safePoint.value) then s[..safePoint.value - 1] else s[..safePoint.value]
    ensures safePoint.Some? && |s| <= safePoint.value ==> Truncate(s, safePoint) == s
  {
  }

  /** Deleting a second time from the same safepoint changes nothing. */
  lemma TruncateIdempotent(s: string, safePoint: Option<nat>)
    requires IsBuffer(s)
    ensures Truncate(Truncate(s, safePoint), safePoint) == Truncate(s, safePoint)
  {
    if safePoint.Some? && safePoint.value < |s| {
      var k := safePoint.value;
      var r := Truncate(s, safePoint);
      if !StartsLaterLine(s, k) {
        assert r[..k] == s[..k];
        assert !StartsLaterLine(r, k);
      }
    }
  }

  /** What is read from the start up to a safepoint is what a deletion from
      that safepoint keeps, except that the read text also holds the newline
      before a safepoint that starts a line, which the deletion removes. */
  lemma GetMatchesTruncate(s: string, k: nat)
    requires IsBuffer(s) && k < |s|
    ensures var saved, kept := GetFromStart(s, Some(k)), Typed(Truncate(s, Some(k)));
      if StartsLaterLine(s, k) then saved == kept + "\n" else saved == kept
  {
    if StartsLaterLine(s, k) {
      assert s[..k] == s[..k - 1] + "\n";
    }
  }

  /** An instance of the difference: in "a b\nc\n" a safepoint at the start
      of the second line reads "a b\n" but keeps only "a b". */
  lemma SavedAndKeptDiffer()
    ensures GetFromStart("a b\nc\n", Some(4)) == "a b\n"
    ensures Typed(Truncate("a b\nc\n", Some(4))) == "a b"
  {
    assert StartsLaterLine("a b\nc\n", 4);
  }
}
