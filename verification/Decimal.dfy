/** Decimal numerals, plain and zero-padded, and a scanner that reads them back. */
module Decimal {
  import opened Wrappers

  function Digit(d: nat): char
    requires d < 10
  {
    "0123456789"[d]
  }

  predicate IsDigit(c: char) {
    '0' <= c <= '9'
  }

  function DigitValue(c: char): (d: nat)
    requires IsDigit(c)
    ensures d < 10
  {
    c as int - '0' as int
  }

  /** str(n) */
  function Dec(n: nat): (s: string)
    ensures s != ""
  {
    if n < 10 then [Digit(n)] else Dec(n / 10) + [Digit(n % 10)]
  }

  predicate AllDigits(s: string) {
    forall i | 0 <= i < |s| :: IsDigit(s[i])
  }

  function Value(s: string): nat
    requires AllDigits(s)
  {
    if s == "" then 0 else 10 * Value(s[..|s| - 1]) + DigitValue(s[|s| - 1])
  }

  lemma DigitRoundTrip(d: nat)
    requires d < 10
    ensures IsDigit(Digit(d)) && DigitValue(Digit(d)) == d
  {
  }

  lemma {:induction false} DecRoundTrip(n: nat)
    ensures AllDigits(Dec(n)) && Value(Dec(n)) == n
  {
    if n < 10 {
      DigitRoundTrip(n);
      assert Dec(n)[..0] == "";
    } else {
      DecRoundTrip(n / 10);
      DigitRoundTrip(n % 10);
      assert Dec(n)[..|Dec(n)| - 1] == Dec(n / 10);
    }
  }

  function Zeros(k: nat): (s: string)
    ensures |s| == k
  {
    if k == 0 then "" else Zeros(k - 1) + "0"
  }

  /** A numeral padded with zeros to ten places, and longer if it needs more. */
  function Pad10(n: nat): string {
    Zeros(if |Dec(n)| < 10 then 10 - |Dec(n)| else 0) + Dec(n)
  }

  lemma {:induction false} ValueOfZeros(k: nat)
    ensures AllDigits(Zeros(k)) && Value(Zeros(k)) == 0
  {
    if k > 0 {
      ValueOfZeros(k - 1);
      assert Zeros(k)[..k - 1] == Zeros(k - 1);
    }
  }

  lemma {:induction false} ValueAfterZeros(zeros: string, s: string)
    requires AllDigits(zeros) && Value(zeros) == 0 && AllDigits(s)
    ensures AllDigits(zeros + s) && Value(zeros + s) == Value(s)
  {
    if s == "" {
      assert zeros + s == zeros;
    } else {
      ValueAfterZeros(zeros, s[..|s| - 1]);
      assert (zeros + s)[..|zeros + s| - 1] == zeros + s[..|s| - 1];
    }
  }

  lemma Pad10RoundTrip(n: nat)
    ensures AllDigits(Pad10(n)) && Value(Pad10(n)) == n
  {
    var k := if |Dec(n)| < 10 then 10 - |Dec(n)| else 0;
    ValueOfZeros(k);
    DecRoundTrip(n);
    ValueAfterZeros(Zeros(k), Dec(n));
  }

  function Pow10(k: nat): (p: nat)
    ensures p >= 1
  {
    if k == 0 then 1 else 10 * Pow10(k - 1)
  }

  lemma {:induction false} DecLength(n: nat, k: nat)
    requires k >= 1
    ensures |Dec(n)| <= k <==> n < Pow10(k)
  {
    if n < 10 {
      assert Pow10(k) == 10 * Pow10(k - 1);
    } else if k == 1 {
      assert Pow10(1) == 10 * Pow10(0);
    } else {
      DecLength(n / 10, k - 1);
      assert Pow10(k) == 10 * Pow10(k - 1);
    }
  }

  const TEN_DIGITS := 10_000_000_000

  /** Ten places are enough exactly for numbers below 10^10. */
  lemma Pad10Width(n: nat)
    ensures |Pad10(n)| == 10 <==> n < TEN_DIGITS
    ensures |Pad10(n)| >= 10
  {
    DecLength(n, 10);
    assert Pow10(10) == TEN_DIGITS by {
      assert Pow10(3) == 1000;
      assert Pow10(6) == 1_000_000;
      assert Pow10(9) == 1_000_000_000;
    }
  }

  // ---- Scanning ----

  /** The text after the literal, if the text starts with it. */
  function Expect(s: string, literal: string): (rest: Option<string>)
    ensures rest.Some? ==> s == literal + rest.value
  {
    if |literal| <= |s| && s[..|literal|] == literal then Some(s[|literal|..]) else None
  }

  /** How many characters at the front are digits. */
  function DigitRun(s: string): (n: nat)
    ensures n <= |s| && AllDigits(s[..n])
  {
    if s != "" && IsDigit(s[0]) then
      var m := DigitRun(s[1..]);
      assert s[..m + 1] == [s[0]] + s[1..][..m];
      m + 1
    else 0
  }

  /** The numeral at the front and the text after it. */
  function ReadNat(s: string): Option<(nat, string)> {
    var n := DigitRun(s);
    if n == 0 then None else Some((Value(s[..n]), s[n..]))
  }

  lemma ExpectLiteral(literal: string, rest: string)
    ensures Expect(literal + rest, literal) == Some(rest)
  {
  }

  predicate NoDigitAhead(s: string) {
    s == "" || !IsDigit(s[0])
  }

  lemma {:induction false} DigitRunOf(digits: string, rest: string)
    requires AllDigits(digits) && NoDigitAhead(rest)
    ensures DigitRun(digits + rest) == |digits|
  {
    if digits == "" {
      assert digits + rest == rest;
    } else {
      DigitRunOf(digits[1..], rest);
      assert (digits + rest)[1..] == digits[1..] + rest;
    }
  }

  lemma ReadNatDec(n: nat, rest: string)
    requires NoDigitAhead(rest)
    ensures ReadNat(Dec(n) + rest) == Some((n, rest))
  {
    DecRoundTrip(n);
    DigitRunOf(Dec(n), rest);
    assert (Dec(n) + rest)[..|Dec(n)|] == Dec(n);
  }
}
