/** Decimal and hexadecimal numerals, and the loop that writes one backwards into a small array. */
module Numerals {

  const DIGITS: string := "0123456789abcdef"

  predicate Base(base: nat) {
    base == 10 || base == 16
  }

  function Digit(d: nat): char
    requires d < 16
  {
    DIGITS[d]
  }

  function DigitValue(c: char): nat {
    if '0' <= c <= '9' then (c as int) - ('0' as int)
    else if 'a' <= c <= 'f' then (c as int) - ('a' as int) + 10
    else 0
  }

  function Numeral(n: nat, base: nat): (s: string)
    requires Base(base)
    ensures s != ""
  {
    if n < base then [Digit(n)] else Numeral(n / base, base) + [Digit(n % base)]
  }

  /** The number that a string of digits denotes. */
  function Value(s: string, base: nat): nat {
    if s == "" then 0 else Value(s[..|s| - 1], base) * base + DigitValue(s[|s| - 1])
  }

  lemma DigitValueOfDigit(d: nat)
    requires d < 16
    ensures DigitValue(Digit(d)) == d
  {
  }

  /** The digits are the characters '0' to '9' and 'a' to 'f', in order. */
  lemma DigitChars(d: nat)
    requires d < 16
    ensures Digit(d) as int == if d < 10 then 48 + d else 97 + (d - 10)
  {
  }

  /** A numeral reads back as its number. */
  lemma {:induction false} ReadBack(n: nat, base: nat)
    requires Base(base)
    ensures Value(Numeral(n, base), base) == n
  {
    if n < base {
      DigitValueOfDigit(n);
      assert [Digit(n)][..0] == "";
    } else {
      ReadBack(n / base, base);
      DigitValueOfDigit(n % base);
      var s := Numeral(n / base, base);
      assert (s + [Digit(n % base)])[..|s|] == s;
    }
  }

  /** A numeral has no superfluous zero in front. */
  lemma {:induction false} NoLeadingZero(n: nat, base: nat)
    requires Base(base) && n > 0
    ensures Numeral(n, base)[0] != '0'
  {
    if n < base {
      DigitValueOfDigit(n);
    } else {
      NoLeadingZero(n / base, base);
    }
  }

  function Zeros(k: nat): (z: string)
    ensures |z| == k
  {
    seq(k, _ => '0')
  }

  lemma {:induction false} ZerosWorthNothing(k: nat, base: nat)
    ensures Value(Zeros(k), base) == 0
  {
    if k > 0 {
      ZerosWorthNothing(k - 1, base);
      assert Zeros(k)[..k - 1] == Zeros(k - 1);
    }
  }

  /** Leading zeros do not change the number. */
  lemma {:induction false} LeadingZeros(k: nat, s: string, base: nat)
    ensures Value(Zeros(k) + s, base) == Value(s, base)
  {
    if s == "" {
      assert Zeros(k) + s == Zeros(k);
      ZerosWorthNothing(k, base);
    } else {
      LeadingZeros(k, s[..|s| - 1], base);
      assert (Zeros(k) + s)[..|Zeros(k) + s| - 1] == Zeros(k) + s[..|s| - 1];
    }
  }

  // ----- lengths -----

  function Power(base: nat, k: nat): nat {
    if k == 0 then 1 else base * Power(base, k - 1)
  }

  lemma {:induction false} PowerAdd(base: nat, a: nat, b: nat)
    ensures Power(base, a + b) == Power(base, a) * Power(base, b)
  {
    if a > 0 {
      PowerAdd(base, a - 1, b);
      assert base * (Power(base, a - 1) * Power(base, b)) == base * Power(base, a - 1) * Power(base, b);
    }
  }

  /** A number below base^k has at most k digits. */
  lemma {:induction false} NumeralLength(n: nat, base: nat, k: nat)
    requires Base(base) && k > 0 && n < Power(base, k)
    ensures |Numeral(n, base)| <= k
  {
    if n >= base {
      assert k > 1 by { assert Power(base, 1) == base * Power(base, 0); }
      NumeralLength(n / base, base, k - 1);
    }
  }

  lemma WordsFit()
    ensures Power(10, 11) > 0x1_0000_0000 && Power(10, 20) > 0x1_0000_0000_0000_0000 && Power(16, 11) > 0x1_0000_0000
  {
    assert Power(10, 5) == 100000 && Power(16, 5) == 0x10_0000;
    PowerAdd(10, 5, 5);
    PowerAdd(10, 10, 10);
    PowerAdd(16, 5, 5);
    assert Power(10, 11) == 10 * Power(10, 10) && Power(16, 11) == 16 * Power(16, 10);
  }

  /** The last digit, and the number without it. */
  function LastDigit(left: nat, base: nat): char
    requires Base(base)
  {
    Digit(left % base)
  }

  function Shorter(left: nat, base: nat): (r: nat)
    requires Base(base)
    ensures left > 0 ==> r < left
  {
    left / base
  }

  /** The digits still to be written when left remains. */
  function Remaining(left: nat, base: nat): string
    requires Base(base)
  {
    if left == 0 then "" else Numeral(left, base)
  }

  lemma NextDigit(left: nat, base: nat)
    requires Base(base)
    ensures Numeral(left, base) == Remaining(Shorter(left, base), base) + [LastDigit(left, base)]
    ensures left > 0 ==> Remaining(left, base) == Numeral(left, base)
    ensures Remaining(0, base) == ""
  {
    if left < base { assert left / base == 0 && left % base == left; }
  }

  /** The digit loop: fills tmp backwards from its end and returns where the numeral starts. */
  method WriteDigits(n: nat, base: nat, tmp: array<char>, end: nat) returns (p: nat)
    requires Base(base) && end <= tmp.Length && |Numeral(n, base)| <= end
    modifies tmp
    ensures p <= end && tmp[p..end] == Numeral(n, base)
  {
    hide Numeral, Remaining, LastDigit, Shorter;
    NextDigit(n, base);
    p := end - 1;
    tmp[p] := LastDigit(n, base);
    var left := Shorter(n, base);
    assert tmp[p..end] == [LastDigit(n, base)];
    while left != 0
      invariant p < end
      invariant Numeral(n, base) == Remaining(left, base) + tmp[p..end]
      decreases left
    {
      NextDigit(left, base);
      ghost var tail := tmp[p..end];
      p := p - 1;
      tmp[p] := LastDigit(left, base);
      assert tmp[p..end] == [LastDigit(left, base)] + tail;
      left := Shorter(left, base);
    }
    NextDigit(left, base);
  }
}
