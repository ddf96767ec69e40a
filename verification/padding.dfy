/** The fixed-width symbol row of `generate` (image.js:94): the count's text is
    prefixed with ten blanks and only its last five characters are kept. */
module Padding {
  import opened Symbols

  /** Number of symbols, hence of digit cells, in every thumbnail. */
  const Width: nat := 5

  /** The literal prefix of image.js:94. */
  const Fill: string := "__________"

  function Blanks(n: nat): (r: string)
    ensures |r| == n
    ensures forall i :: 0 <= i < n ==> r[i] == Blank
  {
    seq(n, _ => Blank)
  }

  /** `("__________" + text).slice(-5)`. */
  function Pad(text: string): (r: string)
    ensures |r| == Width
    ensures |text| <= Width ==> r == Blanks(Width - |text|) + text
    ensures |text| >= Width ==> r == text[|text| - Width..]
  {
    var s := Fill + text;
    assert |Fill| == 10;
    if |text| <= Width then
      assert s[|s| - Width..] == Fill[|Fill| - (Width - |text|)..] + text;
      assert Fill[|Fill| - (Width - |text|)..] == Blanks(Width - |text|);
      s[|s| - Width..]
    else
      assert s[|s| - Width..] == text[|text| - Width..];
      s[|s| - Width..]
  }

  /** The digit a character stands for; the blank counts as zero. */
  function DigitValue(c: char): (d: nat)
    ensures d < 10
  {
    if IsDigitChar(c) then (c as int - '0' as int) else 0
  }

  /** The decimal text of a count as the video API delivers it: no sign, no
      leading zeros. */
  function DecimalString(n: nat): (r: string)
    ensures 1 <= |r|
    ensures forall i :: 0 <= i < |r| ==> IsDigitChar(r[i])
    ensures r[0] == '0' ==> n == 0
  {
    if n < 10 then [DigitChar(n)] else DecimalString(n / 10) + [DigitChar(n % 10)]
  }

  function Pow10(k: nat): (p: nat)
    ensures 1 <= p
  {
    if k == 0 then 1 else 10 * Pow10(k - 1)
  }

  /** The number a row of symbols displays, reading blanks as zero. */
  function Value(s: string): nat
  {
    if s == [] then 0 else Value(s[..|s| - 1]) * 10 + DigitValue(s[|s| - 1])
  }

  lemma {:induction false} ValueOfDecimal(n: nat)
    ensures Value(DecimalString(n)) == n
    decreases n
  {
    var s := DecimalString(n);
    if n < 10 {
      assert s[..0] == [];
    } else {
      ValueOfDecimal(n / 10);
      assert s[..|s| - 1] == DecimalString(n / 10);
    }
  }

  lemma {:induction false} ValueBound(s: string)
    ensures Value(s) < Pow10(|s|)
    decreases |s|
  {
    if s != [] {
      ValueBound(s[..|s| - 1]);
    }
  }

  lemma {:induction false} DecimalLength(n: nat)
    ensures |DecimalString(n)| <= Width ==> n < Pow10(Width)
  {
    ValueOfDecimal(n);
    ValueBound(DecimalString(n));
    if |DecimalString(n)| <= Width {
      Pow10Monotone(|DecimalString(n)|, Width);
    }
  }

  lemma Pow10Width()
    ensures Pow10(Width) == 100000
  {
    assert Pow10(1) == 10;
    assert Pow10(3) == 1000;
  }

  lemma {:induction false} Pow10Monotone(j: nat, k: nat)
    requires j <= k
    ensures Pow10(j) <= Pow10(k)
    decreases k
  {
    if j < k {
      Pow10Monotone(j, k - 1);
    }
  }

  lemma {:induction false} BlanksAreZero(s: string, k: nat)
    ensures Value(Blanks(k) + s) == Value(s)
    decreases |s|, k
  {
    var b := Blanks(k);
    if s == [] {
      assert b + s == b;
      if k > 0 {
        assert b[..k - 1] == Blanks(k - 1);
        BlanksAreZero([], k - 1);
        assert Blanks(k - 1) + [] == Blanks(k - 1);
      }
    } else {
      var p := s[..|s| - 1];
      assert (b + s)[..|b + s| - 1] == b + p;
      BlanksAreZero(p, k);
    }
  }

  /** Euclidean division is unique. */
  lemma ModUnique(x: int, q: int, r: int, m: int)
    requires 1 <= m && 0 <= r < m && x == q * m + r
    ensures x % m == r
  {
    var q', r' := x / m, x % m;
    var k := q - q';
    assert k * m == r' - r by {
      assert x == q' * m + r';
    }
    if k >= 1 {
      MulAtLeast(k, m);
    } else if k <= -1 {
      MulAtLeast(-k, m);
    }
    assert k == 0;
  }

  lemma MulAtLeast(k: int, m: int)
    requires 1 <= k && 1 <= m
    ensures m <= k * m
  {
  }

  /** Moving `% m` across `* 10 + d`. */
  lemma ModOfShifted(a: nat, d: nat, m: nat)
    requires d < 10 && 1 <= m
    ensures (a * 10 + d) % (m * 10) == (a % m) * 10 + d
  {
    var q := a / m;
    var r := a % m;
    assert a == q * m + r;
    assert a * 10 + d == q * (m * 10) + (r * 10 + d);
    ModUnique(a * 10 + d, q, r * 10 + d, m * 10);
  }

  lemma {:induction false} ValueOfSuffix(s: string, k: nat)
    requires k <= |s|
    ensures Value(s[|s| - k..]) == Value(s) % Pow10(k)
    decreases k
  {
    if k == 0 {
      assert s[|s|..] == [];
    } else {
      var p := s[..|s| - 1];
      var t := s[|s| - k..];
      assert t[..|t| - 1] == p[|p| - (k - 1)..];
      ValueOfSuffix(p, k - 1);
      ModOfShifted(Value(p), DigitValue(s[|s| - 1]), Pow10(k - 1));
    }
  }

  /** The padded row of a count displays the count modulo 10^5: counts of up
      to five digits appear unchanged, longer counts lose their leading digits. */
  lemma PaddedCountValue(n: nat)
    ensures Value(Pad(DecimalString(n))) == n % Pow10(Width)
    ensures n < Pow10(Width) ==> Value(Pad(DecimalString(n))) == n
  {
    var s := DecimalString(n);
    ValueOfDecimal(n);
    if |s| <= Width {
      BlanksAreZero(s, Width - |s|);
      DecimalLength(n);
      ModUnique(n, 0, n, Pow10(Width));
    } else {
      ValueOfSuffix(s, Width);
    }
  }

  /** Every character of a padded count has a glyph. */
  lemma PaddedCountIsSymbols(n: nat)
    ensures forall i :: 0 <= i < Width ==> IsSymbol(Pad(DecimalString(n))[i])
  {
  }

  /** Two counts below 10^5 give the same padded row exactly when they are equal. */
  lemma PaddedCountInjective(n: nat, m: nat)
    requires n < Pow10(Width) && m < Pow10(Width)
    ensures Pad(DecimalString(n)) == Pad(DecimalString(m)) <==> n == m
  {
    PaddedCountValue(n);
    PaddedCountValue(m);
  }

  /** The rows for 0, 7, 42, 123456, the empty text and "-5". */
  lemma PaddingExamples()
    ensures Pad(DecimalString(0)) == "____0"
    ensures Pad(DecimalString(7)) == "____7"
    ensures Pad(DecimalString(42)) == "___42"
    ensures Pad(DecimalString(123456)) == "23456"
    ensures Pad("") == "_____"
    ensures Pad("-5") == "___-5"
  {
  }
}
