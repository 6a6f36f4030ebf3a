/**
 * Decimal text: the two 100-entry digit tables that appendDateTime renders two-digit groups
 * with, zero-padded fixed-width decimal text, and the minimal decimal rendering of
 * strconv.AppendInt / strconv.AppendUint.
 */
module Decimal {
  import opened Bytes

  /** The ASCII digit for 0 <= d < 10. */
  function DigitByte(d: int): byte
    requires 0 <= d < 10
  {
    (Zero as int + d) as byte
  }

  predicate IsDigit(c: byte)
  {
    Zero <= c <= Zero + 9
  }

  /**
   * digits10: "0000000000111111111122…9999999999", byte n is the tens digit of n.
   * digits01: "0123456789012345678901…0123456789", byte n is the units digit of n.
   * Both are written here by that rule instead of as 100-byte literals.
   */
  const Digits10: seq<byte> := seq(100, n requires 0 <= n < 100 => DigitByte(n / 10))
  const Digits01: seq<byte> := seq(100, n requires 0 <= n < 100 => DigitByte(n % 10))

  function Pow10(w: nat): (p: nat)
    ensures p >= 1
  {
    if w == 0 then 1 else 10 * Pow10(w - 1)
  }

  /** The last `width` decimal digits of `n`, zero-padded on the left. */
  function PadDecimal(n: nat, width: nat): seq<byte>
  {
    if width == 0 then [] else PadDecimal(n / 10, width - 1) + [DigitByte(n % 10)]
  }

  /** The value of a text of decimal digits, most significant first. */
  function DigitsValue(s: seq<byte>): int
  {
    if s == [] then 0 else 10 * DigitsValue(s[..|s| - 1]) + (s[|s| - 1] as int - Zero as int)
  }

  /** A fixed-width field is `width` digits that read back as the value they render. */
  lemma {:induction false} PadDecimalRoundTrip(n: nat, width: nat)
    requires n < Pow10(width)
    ensures |PadDecimal(n, width)| == width
    ensures forall i :: 0 <= i < width ==> IsDigit(PadDecimal(n, width)[i])
    ensures DigitsValue(PadDecimal(n, width)) == n
  {
    if width > 0 {
      PadDecimalRoundTrip(n / 10, width - 1);
      var s := PadDecimal(n, width);
      assert s[..|s| - 1] == PadDecimal(n / 10, width - 1);
    }
  }

  /** Zero-padded decimal text never holds a quote, whatever its width. */
  lemma {:induction false} PadDecimalNoQuote(n: nat, width: nat)
    ensures Quote !in PadDecimal(n, width)
  {
    if width > 0 {
      PadDecimalNoQuote(n / 10, width - 1);
    }
  }

  /** A field of width w + 2 is its value / 100 in w digits followed by its value % 100 in two. */
  lemma SplitLastPair(n: nat, w: nat)
    ensures PadDecimal(n, w + 2) == PadDecimal(n / 100, w) + PadDecimal(n % 100, 2)
  {
    assert PadDecimal(n, w + 2) == PadDecimal(n / 10 / 10, w) + [DigitByte(n / 10 % 10)] + [DigitByte(n % 10)];
    assert PadDecimal(n % 100, 2) == PadDecimal(n % 100 / 10 / 10, 0) + [DigitByte(n % 100 / 10 % 10)] + [DigitByte(n % 100 % 10)];
  }

  /** The two table lookups of a value below 100 give its two-digit, zero-padded text. */
  lemma DigitTables(n: int)
    requires 0 <= n < 100
    ensures [Digits10[n], Digits01[n]] == PadDecimal(n, 2)
  {
    assert PadDecimal(n, 2) == PadDecimal(n / 10 / 10, 0) + [DigitByte(n / 10 % 10)] + [DigitByte(n % 10)];
  }

  /** strconv.AppendUint(…, 10): the shortest decimal text of `n`. */
  function FormatUint(n: nat): seq<byte>
  {
    if n < 10 then [DigitByte(n)] else FormatUint(n / 10) + [DigitByte(n % 10)]
  }

  /** strconv.AppendInt(…, 10): a leading '-' for negative values, then the magnitude. */
  function FormatInt(n: int): seq<byte>
  {
    if n < 0 then [Minus] + FormatUint(-n) else FormatUint(n)
  }

  /** The decimal text is all digits, has no leading zero, and reads back as `n`. */
  lemma {:induction false} FormatUintCanonical(n: nat)
    ensures |FormatUint(n)| >= 1
    ensures forall i :: 0 <= i < |FormatUint(n)| ==> IsDigit(FormatUint(n)[i])
    ensures FormatUint(n)[0] == Zero ==> n == 0 && FormatUint(n) == [Zero]
    ensures DigitsValue(FormatUint(n)) == n
  {
    if n >= 10 {
      FormatUintCanonical(n / 10);
      var s := FormatUint(n);
      assert s[..|s| - 1] == FormatUint(n / 10);
    }
  }

  /** The signed text starts with '-' exactly for negative values and carries the magnitude. */
  lemma FormatIntSign(n: int)
    ensures |FormatInt(n)| >= 1
    ensures FormatInt(n)[0] == Minus <==> n < 0
    ensures n < 0 ==> DigitsValue(FormatInt(n)[1..]) == -n
    ensures n >= 0 ==> DigitsValue(FormatInt(n)) == n
  {
    if n < 0 {
      FormatUintCanonical(-n);
      assert FormatInt(n)[1..] == FormatUint(-n);
    } else {
      FormatUintCanonical(n);
      assert IsDigit(FormatUint(n)[0]);
    }
  }
}
