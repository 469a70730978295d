/** Word splitting as Python's `str.split()` with no separator does it:
    the maximal runs of non-whitespace characters, in order. */
module Words {

  /** Python's `str.isspace()` for one character: the ASCII whitespace and
      separators, plus the Unicode characters of category Zs or of
      bidirectional class WS, B or S. */
  predicate IsSpace(c: char) {
    c == ' ' || ('\t' <= c <= '\r') || ('\U{1c}' <= c <= '\U{1f}')
    || c == '\U{85}' || c == '\U{a0}' || c == '\U{1680}'
    || ('\U{2000}' <= c <= '\U{200a}')
    || c == '\U{2028}' || c == '\U{2029}' || c == '\U{202f}' || c == '\U{205f}' || c == '\U{3000}'
  }

  predicate AllSpace(s: string) {
    forall i :: 0 <= i < |s| ==> IsSpace(s[i])
  }

  predicate NoSpace(s: string) {
    forall i :: 0 <= i < |s| ==> !IsSpace(s[i])
  }

  /** The longest suffix of `s` that holds no whitespace. */
  function TrailingWord(s: string): (w: string)
    ensures |w| <= |s| && w == s[|s| - |w|..]
    ensures |w| == |s| || IsSpace(s[|s| - |w| - 1])
  {
    if s == [] || IsSpace(s[|s| - 1]) then []
    else TrailingWord(s[..|s| - 1]) + [s[|s| - 1]]
  }

  /** `s` without its trailing whitespace (Python's `rstrip()`). */
  function TrimEnd(s: string): (t: string)
    ensures t <= s
    ensures t == [] || !IsSpace(t[|t| - 1])
  {
    if s != [] && IsSpace(s[|s| - 1]) then TrimEnd(s[..|s| - 1]) else s
  }

  /** Python's `s.split()`: every whitespace run separates, leading and
      trailing whitespace yields no empty word. */
  function Split(s: string): seq<string>
    decreases |s|
  {
    if s == [] then []
    else if IsSpace(s[|s| - 1]) then Split(s[..|s| - 1])
    else
      var w := TrailingWord(s);
      Split(s[..|s| - |w|]) + [w]
  }

  /** Position `i` of `s` begins a word: a non-whitespace character at the
      very start or right after whitespace. */
  predicate StartsWord(s: string, i: nat)
    requires i < |s|
  {
    !IsSpace(s[i]) && (i == 0 || IsSpace(s[i - 1]))
  }

  /** How many positions of `s` begin a word, counted character by
      character: the reference definition of a word count. */
  function WordStarts(s: string): nat {
    if s == [] then 0
    else WordStarts(s[..|s| - 1]) + (if StartsWord(s, |s| - 1) then 1 else 0)
  }

  /** The characters of `s` that are not whitespace, in order. */
  function NonSpace(s: string): string {
    if s == [] then []
    else NonSpace(s[..|s| - 1]) + (if IsSpace(s[|s| - 1]) then [] else [s[|s| - 1]])
  }

  function Concat(ws: seq<string>): string {
    if ws == [] then [] else Concat(ws[..|ws| - 1]) + ws[|ws| - 1]
  }

  /** `len(s.split())`: the number of whitespace-delimited words. */
  function CountWords(s: string): (n: nat)
    ensures n == WordStarts(s)
  {
    CountIsWordStarts(s);
    |Split(s)|
  }

  /** `s.split()[-1]`, when there is a word. */
  function LastWord(s: string): string {
    TrailingWord(TrimEnd(s))
  }

  /** Offset at which the last word of `s` begins. */
  function LastWordStart(s: string): nat {
    |TrimEnd(s)| - |LastWord(s)|
  }

  // ---------------------------------------------------------------------------
  // What the pieces hold

  /** The trailing word holds no whitespace. */
  lemma {:induction false} TrailingWordNoSpace(s: string)
    ensures NoSpace(TrailingWord(s))
    decreases |s|
  {
    if s != [] && !IsSpace(s[|s| - 1]) {
      TrailingWordNoSpace(s[..|s| - 1]);
    }
  }

  /** Only whitespace is trimmed. */
  lemma {:induction false} TrimEndDropsSpace(s: string)
    ensures AllSpace(s[|TrimEnd(s)|..])
    decreases |s|
  {
    if s != [] && IsSpace(s[|s| - 1]) {
      var p := s[..|s| - 1];
      TrimEndDropsSpace(p);
      var t := TrimEnd(p);
      assert s[|t|..] == p[|t|..] + [s[|s| - 1]];
    }
  }

  /** Every word `split()` returns is non-empty and free of whitespace. */
  lemma {:induction false} SplitWords(s: string)
    ensures forall k :: 0 <= k < |Split(s)| ==> Split(s)[k] != [] && NoSpace(Split(s)[k])
    decreases |s|
  {
    if s == [] {
    } else if IsSpace(s[|s| - 1]) {
      SplitWords(s[..|s| - 1]);
    } else {
      var w := TrailingWord(s);
      SplitWords(s[..|s| - |w|]);
      TrailingWordNoSpace(s);
    }
  }

  /** The number of words is zero exactly when `s` is empty or all
      whitespace. */
  lemma CountWordsZero(s: string)
    ensures CountWords(s) == 0 <==> AllSpace(s)
  {
    NoWordsIffAllSpace(s);
  }

  // ---------------------------------------------------------------------------
  // Word count

  lemma {:induction false} WordStartsOfWord(p: string, w: string)
    requires w != [] && NoSpace(w)
    requires p == [] || IsSpace(p[|p| - 1])
    ensures WordStarts(p + w) == WordStarts(p) + 1
    decreases |w|
  {
    var s := p + w;
    assert s[..|s| - 1] == p + w[..|w| - 1];
    if |w| == 1 {
      assert s[..|s| - 1] == p;
      assert StartsWord(s, |s| - 1);
    } else {
      WordStartsOfWord(p, w[..|w| - 1]);
      assert !StartsWord(s, |s| - 1) by { assert s[|s| - 2] == w[|w| - 2]; }
    }
  }

  /** The number of words `split()` returns is the number of positions that
      begin a word. */
  lemma {:induction false} CountIsWordStarts(s: string)
    ensures |Split(s)| == WordStarts(s)
    decreases |s|
  {
    if s == [] {
    } else if IsSpace(s[|s| - 1]) {
      CountIsWordStarts(s[..|s| - 1]);
    } else {
      var w := TrailingWord(s);
      var p := s[..|s| - |w|];
      assert s == p + w;
      CountIsWordStarts(p);
      TrailingWordNoSpace(s);
      WordStartsOfWord(p, w);
    }
  }

  /** `split()` returns no word exactly when `s` is empty or all whitespace. */
  lemma {:induction false} NoWordsIffAllSpace(s: string)
    ensures Split(s) == [] <==> AllSpace(s)
    decreases |s|
  {
    if s == [] {
    } else if IsSpace(s[|s| - 1]) {
      NoWordsIffAllSpace(s[..|s| - 1]);
      if AllSpace(s[..|s| - 1]) {
        forall i | 0 <= i < |s| ensures IsSpace(s[i]) {
          if i < |s| - 1 { assert s[i] == s[..|s| - 1][i]; }
        }
      }
    } else {
      assert !AllSpace(s) by { assert !IsSpace(s[|s| - 1]); }
    }
  }

  /** Appending text never lowers the word count. */
  lemma {:induction false} WordStartsGrow(p: string, q: string)
    ensures WordStarts(p) <= WordStarts(p + q)
    decreases |q|
  {
    if q != [] {
      assert (p + q)[..|p + q| - 1] == p + q[..|q| - 1];
      WordStartsGrow(p, q[..|q| - 1]);
    } else {
      assert p + q == p;
    }
  }

  // ---------------------------------------------------------------------------
  // Contents of the words

  lemma {:induction false} NonSpaceAppend(p: string, q: string)
    ensures NonSpace(p + q) == NonSpace(p) + NonSpace(q)
    decreases |q|
  {
    if q == [] {
      assert p + q == p;
    } else {
      assert (p + q)[..|p + q| - 1] == p + q[..|q| - 1];
      NonSpaceAppend(p, q[..|q| - 1]);
    }
  }

  lemma {:induction false} NonSpaceOfWord(w: string)
    requires NoSpace(w)
    ensures NonSpace(w) == w
    decreases |w|
  {
    if w != [] {
      NonSpaceOfWord(w[..|w| - 1]);
      assert w == w[..|w| - 1] + [w[|w| - 1]];
    }
  }

  /** The words `split()` returns, put back together, are exactly the
      non-whitespace characters of `s`: no character is lost or invented. */
  lemma {:induction false} SplitKeepsText(s: string)
    ensures Concat(Split(s)) == NonSpace(s)
    decreases |s|
  {
    if s == [] {
    } else if IsSpace(s[|s| - 1]) {
      SplitKeepsText(s[..|s| - 1]);
    } else {
      var w := TrailingWord(s);
      var p := s[..|s| - |w|];
      assert s == p + w;
      SplitKeepsText(p);
      NonSpaceAppend(p, w);
      TrailingWordNoSpace(s);
      NonSpaceOfWord(w);
      var ws := Split(p) + [w];
      assert ws[..|ws| - 1] == Split(p);
    }
  }

  // ---------------------------------------------------------------------------
  // The last word

  /** Trailing whitespace does not change what `split()` returns. */
  lemma {:induction false} SplitTrimEnd(s: string)
    ensures Split(TrimEnd(s)) == Split(s)
    decreases |s|
  {
    if s != [] && IsSpace(s[|s| - 1]) {
      SplitTrimEnd(s[..|s| - 1]);
    }
  }

  /** The last word of a text ending in a non-whitespace character is its
      trailing word, and what precedes it splits into the other words. */
  lemma SplitOfTrimmed(t: string)
    requires t != [] && !IsSpace(t[|t| - 1])
    ensures var ws := Split(t); var k := |t| - |TrailingWord(t)|;
      ws != [] && ws[|ws| - 1] == TrailingWord(t) && Split(t[..k]) == ws[..|ws| - 1]
  {
    var w := TrailingWord(t);
    var ws := Split(t[..|t| - |w|]) + [w];
    assert ws[..|ws| - 1] == Split(t[..|t| - |w|]);
  }

  /** The words of `s`: its last word and the ones before it. */
  lemma LastWordSplit(s: string)
    requires Split(s) != []
    ensures LastWord(s) == Split(s)[|Split(s)| - 1]
    ensures Split(s[..LastWordStart(s)]) == Split(s)[..|Split(s)| - 1]
  {
    var t := TrimEnd(s);
    SplitTrimEnd(s);
    SplitOfTrimmed(t);
    assert s[..LastWordStart(s)] == t[..LastWordStart(s)];
  }

  /** Where the last word sits: it begins at `LastWordStart(s)` after
      whitespace or at the start, and only whitespace follows it. */
  lemma LastWordPlace(s: string)
    ensures LastWordStart(s) + |LastWord(s)| <= |s|
    ensures s[LastWordStart(s)..LastWordStart(s) + |LastWord(s)|] == LastWord(s)
    ensures AllSpace(s[LastWordStart(s) + |LastWord(s)|..])
    ensures LastWordStart(s) == 0 || IsSpace(s[LastWordStart(s) - 1])
  {
    var t := TrimEnd(s);
    var w := TrailingWord(t);
    TrimEndDropsSpace(s);
    assert |t| <= |s|;
    assert s[|t| - |w|..|t|] == t[|t| - |w|..];
  }

  /** A text whose last character is whitespace is longer than its last
      word: at least one character follows it. With two or more words, at
      least one whitespace character precedes it as well. */
  lemma LastWordRoom(s: string)
    requires Split(s) != []
    ensures IsSpace(s[|s| - 1]) ==> LastWordStart(s) + |LastWord(s)| < |s|
    ensures IsSpace(s[|s| - 1]) && |Split(s)| >= 2 ==> LastWordStart(s) >= 1
  {
    LastWordPlace(s);
    LastWordSplit(s);
  }

  /** The trailing word of `p + q` lies within `q` when `p` ends at a word
      boundary. */
  lemma {:induction false} TrailingWordOfAppend(p: string, q: string)
    requires p == [] || IsSpace(p[|p| - 1])
    ensures TrailingWord(p + q) == TrailingWord(q)
    decreases |q|
  {
    if q == [] {
      assert p + q == p;
    } else if IsSpace(q[|q| - 1]) {
      assert (p + q)[|p + q| - 1] == q[|q| - 1];
    } else {
      var q' := q[..|q| - 1];
      TrailingWordOfAppend(p, q');
      TrailingWordAppendStep(p, q, q');
    }
  }

  /** The step of `TrailingWordOfAppend` over a final word character. */
  lemma TrailingWordAppendStep(p: string, q: string, q': string)
    requires q != [] && !IsSpace(q[|q| - 1]) && q' == q[..|q| - 1]
    requires TrailingWord(p + q') == TrailingWord(q')
    ensures TrailingWord(p + q) == TrailingWord(q)
  {
    DropFromAppend(p, q, 1);
  }

  /** Text joined at a word boundary splits into the words of each part:
      the words of `p + q` are those of `p`, then those of `q`. */
  lemma {:induction false} SplitOfAppend(p: string, q: string)
    requires p == [] || IsSpace(p[|p| - 1])
    ensures Split(p + q) == Split(p) + Split(q)
    decreases |q|
  {
    if q == [] {
      assert p + q == p;
      AppendNothing(Split(p));
    } else if IsSpace(q[|q| - 1]) {
      var q' := q[..|q| - 1];
      SplitOfAppend(p, q');
      SplitAppendSpaceStep(p, q, q');
    } else {
      TrailingWordOfAppend(p, q);
      var w := TrailingWord(q);
      var q' := q[..|q| - |w|];
      SplitOfAppend(p, q');
      SplitAppendWordStep(p, q, q', w);
    }
  }

  /** The step of `SplitOfAppend` over a final whitespace character. */
  lemma SplitAppendSpaceStep(p: string, q: string, q': string)
    requires q != [] && IsSpace(q[|q| - 1]) && q' == q[..|q| - 1]
    requires Split(p + q') == Split(p) + Split(q')
    ensures Split(p + q) == Split(p) + Split(q)
  {
    DropFromAppend(p, q, 1);
  }

  /** The step of `SplitOfAppend` over a final word `w`. */
  lemma SplitAppendWordStep(p: string, q: string, q': string, w: string)
    requires q != [] && !IsSpace(q[|q| - 1])
    requires w == TrailingWord(q) == TrailingWord(p + q) && q' == q[..|q| - |w|]
    requires Split(p + q') == Split(p) + Split(q')
    ensures Split(p + q) == Split(p) + Split(q)
  {
    DropFromAppend(p, q, |w|);
    Regroup(Split(p + q), Split(p + q'), Split(p), Split(q), Split(q'), w);
  }

  /** Cutting `n` elements off the end of `p + q` cuts them off `q`. */
  lemma DropFromAppend<T>(p: seq<T>, q: seq<T>, n: nat)
    requires 1 <= n <= |q|
    ensures (p + q)[..|p + q| - n] == p + q[..|q| - n]
    ensures (p + q)[|p + q| - 1] == q[|q| - 1]
  {
  }

  /** Putting a last word back on both sides of a split keeps it a split. */
  lemma Regroup<T>(whole: seq<T>, front: seq<T>, before: seq<T>, tail: seq<T>, rest: seq<T>, w: T)
    requires whole == front + [w] && tail == rest + [w] && front == before + rest
    ensures whole == before + tail
  {
  }

  lemma AppendNothing<T>(x: seq<T>)
    ensures x + [] == x
  {
  }

  /** The words of `s[..j]` are those before a word boundary `k`, then those
      of `s[k..j]`. */
  lemma SplitAtBoundary(s: string, k: nat, j: nat)
    requires k <= j <= |s| && (k == 0 || IsSpace(s[k - 1]))
    ensures Split(s[..j]) == Split(s[..k]) + Split(s[k..j])
  {
    assert s[..j] == s[..k] + s[k..j];
    SplitOfAppend(s[..k], s[k..j]);
  }

  /** A prefix of `s` that reaches the start of the last word, or stops just
      short of it on the whitespace before it, still holds every earlier
      word, intact and in order, as its first words; one that goes no
      further than the start of the last word holds exactly those. */
  lemma PrefixKeepsEarlierWords(s: string, j: nat)
    requires Split(s) != [] && j <= |s|
    requires LastWordStart(s) <= j || (j + 1 == LastWordStart(s) && IsSpace(s[j]))
    ensures Split(s)[..|Split(s)| - 1] <= Split(s[..j])
    ensures j <= LastWordStart(s) ==> Split(s[..j]) == Split(s)[..|Split(s)| - 1]
    ensures WordStarts(s[..j]) >= |Split(s)| - 1
  {
    var k := LastWordStart(s);
    LastWordSplit(s);
    if j < k {
      DropSpaceAt(s, j);
    } else {
      LastWordPlace(s);
      SplitAtBoundary(s, k, j);
    }
    CountIsWordStarts(s[..j]);
  }

  lemma DropSpaceAt(s: string, i: nat)
    requires i < |s| && IsSpace(s[i])
    ensures Split(s[..i + 1]) == Split(s[..i])
  {
    var p := s[..i + 1];
    assert p[..|p| - 1] == s[..i];
  }
}
