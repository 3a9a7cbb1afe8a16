/** Decimal numbers as the C library prints and reads them. */
module Decimals {
  import opened Bytes

  predicate IsDigit(b: byte) { 48 <= b <= 57 }

  predicate AllDigits(s: seq<byte>) { forall i :: 0 <= i < |s| ==> IsDigit(s[i]) }

  /** The decimal number that `s` spells, with the digits of `r` in front. */
  function DecimalFrom(r: nat, s: seq<byte>): (n: nat)
    requires AllDigits(s)
    ensures n >= r
    decreases |s|
  {
    if s == [] then r else DecimalFrom(10 * r + (s[0] - 48), s[1..])
  }

  /** `sprintf("%d")` */
  function Decimal(n: nat): (s: seq<byte>)
    ensures AllDigits(s)
  {
    if n < 10 then [48 + n] else Decimal(n / 10) + [48 + n % 10]
  }

  /** The digits in print: each stands for its place, and there are no others. */
  lemma DigitsPrint(b: byte, d: nat)
    requires d < 10
    ensures IsDigit(b) <==> exists e | 0 <= e < 10 :: b == DIGITS[e] as int
    ensures Decimal(d) == Ascii([DIGITS[d]]) && DecimalFrom(0, Decimal(d)) == d
  {
    DigitsAre(d);
    if IsDigit(b) {
      DigitsAre(b - 48);
    }
    forall e | 0 <= e < 10
      ensures DIGITS[e] as int == 48 + e
    {
      DigitsAre(e);
    }
    DecimalReads(d);
  }

  lemma {:induction false} DecimalSnoc(r: nat, s: seq<byte>, b: byte)
    requires AllDigits(s) && IsDigit(b)
    ensures AllDigits(s + [b]) && DecimalFrom(r, s + [b]) == 10 * DecimalFrom(r, s) + (b - 48)
    decreases |s|
  {
    if s == [] {
      assert [b][1..] == [] && s + [b] == [b];
    } else {
      DecimalSnoc(10 * r + (s[0] - 48), s[1..], b);
      assert (s + [b])[1..] == s[1..] + [b] && (s + [b])[0] == s[0];
    }
  }

  /** A port that was printed is read back. */
  lemma {:induction false} DecimalReads(n: nat)
    ensures DecimalFrom(0, Decimal(n)) == n
  {
    if n < 10 {
      assert Decimal(n)[1..] == [];
    } else {
      DecimalReads(n / 10);
      DecimalSnoc(0, Decimal(n / 10), 48 + n % 10);
    }
  }
}
