/** Base-10 text of integers, without leading zeroes, and its parser. */
module Decimal {
  import opened Wrappers

  predicate IsDigit(c: char) {
    '0' <= c <= '9'
  }

  function Digit(d: nat): (c: char)
    requires d < 10
    ensures IsDigit(c)
  {
    ('0' as int + d) as char
  }

  function PrintNat(n: nat): (s: string)
    ensures s != [] && forall i :: 0 <= i < |s| ==> IsDigit(s[i])
  {
    if n < 10 then [Digit(n)] else PrintNat(n / 10) + [Digit(n % 10)]
  }

  function PrintInt(n: int): string {
    if n < 0 then "-" + PrintNat(-n) else PrintNat(n)
  }

  predicate AllDigits(s: string) {
    forall i :: 0 <= i < |s| ==> IsDigit(s[i])
  }

  function DigitsValue(s: string): nat
    requires AllDigits(s)
  {
    if s == [] then 0
    else
      var last := s[|s| - 1];
      assert IsDigit(last);
      DigitsValue(s[..|s| - 1]) * 10 + (last as int - '0' as int)
  }

  /** The parser of unsigned integers: digits, with an optional plus sign; values above `max` are refused. */
  function ParseNat(s: string, max: nat): Option<nat> {
    var digits := if s != [] && s[0] == '+' then s[1..] else s;
    if digits != [] && AllDigits(digits) && DigitsValue(digits) <= max then Some(DigitsValue(digits)) else None
  }

  lemma {:induction false} ValueOfPrint(n: nat)
    ensures DigitsValue(PrintNat(n)) == n
  {
    if n >= 10 {
      ValueOfPrint(n / 10);
      var s := PrintNat(n);
      assert s[..|s| - 1] == PrintNat(n / 10);
    } else {
      assert DigitsValue([Digit(n)]) == n;
    }
  }

  /** Printing and parsing undo each other. */
  lemma ParsePrint(n: nat, max: nat)
    requires n <= max
    ensures ParseNat(PrintNat(n), max) == Some(n)
  {
    ValueOfPrint(n);
  }

  /** No number but zero begins with the digit zero. */
  lemma {:induction false} FirstDigit(n: nat)
    ensures PrintNat(n)[0] == '0' <==> n == 0
  {
    if n >= 10 {
      FirstDigit(n / 10);
    }
  }

  function PowerOfTen(k: nat): (p: nat)
    ensures p > 0
  {
    if k == 0 then 1 else 10 * PowerOfTen(k - 1)
  }

  lemma DivideByTen(n: nat, p: nat)
    requires p > 0
    ensures n / 10 / p == n / (10 * p)
  {
    var q := n / 10;
    Quotient(n, 10 * p, q / p, 10 * (q % p) + n % 10);
  }

  lemma Quotient(n: nat, d: nat, q: nat, r: nat)
    requires r < d && n == d * q + r
    ensures n / d == q
  {
    var k := n / d;
    assert k < q ==> d * (k + 1) <= d * q;
    assert k > q ==> d * (q + 1) <= d * k;
  }

  /** The digits in place value: the k-th from the right counts the k-th power of ten. */
  lemma {:induction false} PlaceValue(n: nat, k: nat)
    requires k < |PrintNat(n)|
    ensures PrintNat(n)[|PrintNat(n)| - 1 - k] == "0123456789"[n / PowerOfTen(k) % 10]
  {
    if k > 0 {
      PlaceValue(n / 10, k - 1);
      DivideByTen(n, PowerOfTen(k - 1));
    }
  }

  function Zeros(k: nat): string {
    seq(k, _ => '0')
  }

  /** Digits are leading zeros and the text of their value. */
  lemma {:induction false} LeadingZeros(s: string) returns (k: nat)
    requires s != [] && AllDigits(s)
    ensures s == Zeros(k) + PrintNat(DigitsValue(s))
    decreases |s|
  {
    var front, last := s[..|s| - 1], s[|s| - 1];
    assert IsDigit(last) && s == front + [last];
    var d := last as int - '0' as int;
    if front == [] {
      k := 0;
      assert s == [Digit(d)];
    } else {
      k := LeadingZeros(front);
      if DigitsValue(front) == 0 {
        assert Zeros(k) + "0" == Zeros(k + 1);
        assert s == Zeros(k + 1) + [Digit(d)];
        k := k + 1;
      } else {
        assert (Zeros(k) + PrintNat(DigitsValue(front))) + [last] == Zeros(k) + (PrintNat(DigitsValue(front)) + [last]);
      }
    }
  }

  lemma {:induction false} ZerosValue(k: nat, n: nat)
    ensures AllDigits(Zeros(k) + PrintNat(n)) && DigitsValue(Zeros(k) + PrintNat(n)) == n
  {
    var s := Zeros(k) + PrintNat(n);
    if n >= 10 {
      ZerosValue(k, n / 10);
      assert s[..|s| - 1] == Zeros(k) + PrintNat(n / 10);
    } else {
      AllZeros(k);
      assert s[..|s| - 1] == Zeros(k);
    }
  }

  lemma {:induction false} AllZeros(k: nat)
    ensures AllDigits(Zeros(k)) && DigitsValue(Zeros(k)) == 0
  {
    if k > 0 {
      AllZeros(k - 1);
      assert Zeros(k)[..k - 1] == Zeros(k - 1);
    }
  }

  /** What parses: the text of a number up to the greatest allowed, behind zeros and perhaps a plus sign. */
  lemma ParseNatIff(s: string, max: nat, n: nat)
    ensures ParseNat(s, max) == Some(n)
            <==> n <= max && exists k :: s == Zeros(k) + PrintNat(n) || s == "+" + (Zeros(k) + PrintNat(n))
  {
    if ParseNat(s, max) == Some(n) {
      var digits := if s != [] && s[0] == '+' then s[1..] else s;
      var k := LeadingZeros(digits);
      assert s == Zeros(k) + PrintNat(n) || s == "+" + (Zeros(k) + PrintNat(n));
    }
    forall k | n <= max && (s == Zeros(k) + PrintNat(n) || s == "+" + (Zeros(k) + PrintNat(n)))
      ensures ParseNat(s, max) == Some(n)
    {
      var digits := Zeros(k) + PrintNat(n);
      ZerosValue(k, n);
      assert IsDigit(digits[0]);
      if s != digits {
        assert s[1..] == digits;
      }
    }
  }
}
