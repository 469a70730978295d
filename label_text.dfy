/** The word-count label: `format(n, '03d')` and the text built from it. */
module LabelText {

  predicate IsDigit(c: char) {
    '0' <= c <= '9'
  }

  predicate AllDigits(s: string) {
    forall i :: 0 <= i < |s| ==> IsDigit(s[i])
  }

  function Digit(d: nat): (c: char)
    requires d < 10
    ensures IsDigit(c)
  {
    ('0' as int + d) as char
  }

  /** The decimal numeral of `n`, without leading zeros. */
  function Decimal(n: nat): (s: string)
    ensures |s| >= 1 && AllDigits(s)
  {
    if n < 10 then [Digit(n)] else Decimal(n / 10) + [Digit(n % 10)]
  }

  /** The number a string of digits denotes: the inverse of the formatting. */
  function ValueOf(s: string): nat
    requires AllDigits(s)
  {
    if s == [] then 0 else ValueOf(s[..|s| - 1]) * 10 + (s[|s| - 1] as int - '0' as int)
  }

  function Zeros(k: nat): (s: string)
    ensures |s| == k && forall i :: 0 <= i < k ==> s[i] == '0'
  {
    seq(k, _ => '0')
  }

  /** `format(n, '03d')`: the numeral of `n`, left-padded with zeros to at
      least three characters. */
  function Pad3(n: nat): (s: string)
    ensures AllDigits(s)
  {
    var d := Decimal(n);
    if |d| >= 3 then d else Zeros(3 - |d|) + d
  }

  /** `update_label_count`: "Word count: <count>/<threshold>". */
  function CountLabel(count: nat, threshold: nat): string {
    "Word count: " + Pad3(count) + "/" + Pad3(threshold)
  }

  lemma {:induction false} DecimalValue(n: nat)
    ensures ValueOf(Decimal(n)) == n
  {
    if n >= 10 {
      var s := Decimal(n);
      assert s[..|s| - 1] == Decimal(n / 10);
      DecimalValue(n / 10);
    }
  }

  lemma {:induction false} LeadingZeros(k: nat, d: string)
    requires AllDigits(d)
    ensures AllDigits(Zeros(k) + d) && ValueOf(Zeros(k) + d) == ValueOf(d)
    decreases |d|
  {
    if d == [] {
      ZerosValue(k);
      assert Zeros(k) + d == Zeros(k);
    } else {
      var s := Zeros(k) + d;
      assert s[..|s| - 1] == Zeros(k) + d[..|d| - 1];
      LeadingZeros(k, d[..|d| - 1]);
    }
  }

  lemma {:induction false} ZerosValue(k: nat)
    ensures ValueOf(Zeros(k)) == 0
  {
    if k > 0 {
      assert Zeros(k)[..k - 1] == Zeros(k - 1);
      ZerosValue(k - 1);
    }
  }

  /** The numeral has at most `k` digits exactly when `n < 10^k`. */
  lemma {:induction false} DecimalLength(n: nat, k: nat)
    requires k >= 1
    ensures |Decimal(n)| <= k <==> n < Pow10(k)
  {
    if n < 10 {
      Pow10AtLeast10(k);
    } else if k == 1 {
      assert Pow10(1) == 10;
    } else {
      DecimalLength(n / 10, k - 1);
      assert n / 10 < Pow10(k - 1) <==> n < 10 * Pow10(k - 1);
    }
  }

  lemma {:induction false} Pow10AtLeast10(k: nat)
    requires k >= 1
    ensures Pow10(k) >= 10
  {
    if k > 1 {
      Pow10AtLeast10(k - 1);
    }
  }

  function Pow10(k: nat): nat {
    if k == 0 then 1 else 10 * Pow10(k - 1)
  }

  /** The padded numeral reads back as `n`, has three characters when
      `n < 1000` and is the plain numeral otherwise. */
  lemma Pad3Reads(n: nat)
    ensures ValueOf(Pad3(n)) == n
    ensures n < 1000 ==> |Pad3(n)| == 3
    ensures n >= 1000 ==> Pad3(n) == Decimal(n)
  {
    DecimalValue(n);
    if |Decimal(n)| < 3 {
      LeadingZeros(3 - |Decimal(n)|, Decimal(n));
    }
    DecimalLength(n, 3);
  }

  /** The label holds both numbers, each padded to at least three digits and
      each reading back as the number shown. */
  lemma CountLabelShows(count: nat, threshold: nat)
    ensures var c, t := Pad3(count), Pad3(threshold);
      && CountLabel(count, threshold) == "Word count: " + c + "/" + t
      && |c| >= 3 && |t| >= 3
      && ValueOf(c) == count && ValueOf(t) == threshold
  {
    Pad3Reads(count);
    Pad3Reads(threshold);
    DecimalLength(count, 3);
    DecimalLength(threshold, 3);
  }
}
