/** Decimal text of integers, as the standard library prints and parses it. */
module Decimal {
  import opened Common

  predicate AllDigits(s: string) { forall i :: 0 <= i < |s| ==> IsDigit(s[i]) }

  function Digit(n: nat): (c: char)
    requires n < 10
    ensures IsDigit(c)
  {
    '0' + n as char
  }

  function Digits(n: nat): (s: string)
    ensures s != [] && AllDigits(s)
  {
    if n < 10 then [Digit(n)] else Digits(n / 10) + [Digit(n % 10)]
  }

  function Show(n: int): string {
    if n < 0 then "-" + Digits(-n) else Digits(n)
  }

  function DigitValue(c: char): nat
    requires IsDigit(c)
  {
    (c - '0') as int
  }

  /** What a run of digits counts, leading zeros included. */
  function Value(s: string): nat
    requires AllDigits(s)
  {
    if s == [] then 0 else Value(s[..|s| - 1]) * 10 + DigitValue(s[|s| - 1])
  }

  /** The text as a signed 64-bit integer: an optional sign, then digits only, at least one, in range. */
  function ParseI64(s: string): Option<I64> {
    var signed := s != [] && (s[0] == '-' || s[0] == '+');
    var digits := if signed then s[1..] else s;
    if digits == [] || !AllDigits(digits) then None
    else
      var magnitude: int := Value(digits);
      var n := if signed && s[0] == '-' then -magnitude else magnitude;
      if I64_MIN <= n <= I64_MAX then Some(n) else None
  }

  lemma {:induction false} ValueOfDigits(n: nat)
    ensures Value(Digits(n)) == n
  {
    if n < 10 {
      assert Digits(n)[..0] == [];
    } else {
      ValueOfDigits(n / 10);
      var s := Digits(n);
      assert s[..|s| - 1] == Digits(n / 10);
    }
  }

  lemma ParseUnsigned(s: string, n: I64)
    requires s != [] && AllDigits(s) && Value(s) == n
    ensures ParseI64(s) == Some(n) && ParseI64("+" + s) == Some(n)
  {
    assert IsDigit(s[0]);
    assert ("+" + s)[1..] == s;
  }

  /** Distinct numbers have distinct decimal texts. */
  lemma DigitsInjective(m: nat, n: nat)
    requires Digits(m) == Digits(n)
    ensures m == n
  {
    ValueOfDigits(m);
    ValueOfDigits(n);
  }

  lemma ShowInjective(m: int, n: int)
    requires Show(m) == Show(n)
    ensures m == n
  {
    assert (m < 0) == (n < 0) by {
      assert IsDigit(Digits(if m < 0 then -m else m)[0]) && IsDigit(Digits(if n < 0 then -n else n)[0]);
    }
    if m < 0 {
      assert Show(m)[1..] == Digits(-m) && Show(n)[1..] == Digits(-n);
      DigitsInjective(-m, -n);
    } else {
      DigitsInjective(m, n);
    }
  }

  /** Every representable integer parses back from its own text. */
  lemma ParseShow(n: I64)
    ensures ParseI64(Show(n)) == Some(n)
  {
    var m: int := n;
    if m < 0 {
      assert Show(m)[1..] == Digits(-m);
      ValueOfDigits(-m);
    } else {
      ValueOfDigits(n);
      ParseUnsigned(Digits(n), n);
    }
  }

  function Zeros(k: nat): (s: string)
    ensures |s| == k && AllDigits(s)
  {
    seq(k, _ => '0')
  }

  lemma {:induction false} LeadingZerosCountNothing(k: nat, s: string)
    requires AllDigits(s)
    ensures AllDigits(Zeros(k) + s) && Value(Zeros(k) + s) == Value(s)
    decreases k + |s|
  {
    var t := Zeros(k) + s;
    if s != [] {
      LeadingZerosCountNothing(k, s[..|s| - 1]);
      assert t[..|t| - 1] == Zeros(k) + s[..|s| - 1];
    } else if k > 0 {
      LeadingZerosCountNothing(k - 1, []);
      assert t[..|t| - 1] == Zeros(k - 1) + [];
    }
  }

  /** One time has infinitely many header texts: a plus sign and leading zeros change nothing. */
  lemma SpellingsOfOneTime(n: I64, k: nat)
    requires 0 <= n
    ensures ParseI64(Zeros(k) + Digits(n)) == Some(n)
    ensures ParseI64("+" + Zeros(k) + Digits(n)) == Some(n)
  {
    LeadingZerosCountNothing(k, Digits(n));
    ValueOfDigits(n);
    ParseUnsigned(Zeros(k) + Digits(n), n);
    assert "+" + Zeros(k) + Digits(n) == "+" + (Zeros(k) + Digits(n));
  }

  // ---- What decimal text means ----

  function Power10(k: nat): nat { if k == 0 then 1 else 10 * Power10(k - 1) }

  /** What the digits of base 10 count. */
  function Counts(c: char): nat {
    match c
    case '0' => 0 case '1' => 1 case '2' => 2 case '3' => 3 case '4' => 4
    case '5' => 5 case '6' => 6 case '7' => 7 case '8' => 8 case _ => 9
  }

  /** Each digit times the power of ten of its place, from the left. */
  function PlaceValue(s: string): nat
    requires AllDigits(s)
  {
    if s == [] then 0 else Counts(s[0]) * Power10(|s| - 1) + PlaceValue(s[1..])
  }

  lemma {:induction false} PlaceValueOfLast(s: string, c: char)
    requires AllDigits(s) && IsDigit(c)
    ensures AllDigits(s + [c]) && PlaceValue(s + [c]) == 10 * PlaceValue(s) + Counts(c)
  {
    var longer := s + [c];
    if s == [] {
      assert longer[1..] == [];
    } else {
      assert longer[1..] == s[1..] + [c];
      PlaceValueOfLast(s[1..], c);
      Tenfold(Counts(s[0]), Power10(|s| - 1));
    }
  }

  lemma Tenfold(a: nat, b: nat)
    ensures a * (10 * b) == 10 * (a * b)
  {
  }

  lemma {:induction false} ValueIsPlaceValue(s: string)
    requires AllDigits(s)
    ensures Value(s) == PlaceValue(s)
  {
    if s != [] {
      var n := |s| - 1;
      assert s == s[..n] + [s[n]];
      ValueIsPlaceValue(s[..n]);
      PlaceValueOfLast(s[..n], s[n]);
    }
  }

  /** The decimal text of a number has its place value, and starts with a zero only when it is zero. */
  lemma {:induction false} DigitsCount(n: nat)
    ensures PlaceValue(Digits(n)) == n
    ensures Digits(n)[0] == '0' ==> Digits(n) == "0"
  {
    ValueOfDigits(n);
    ValueIsPlaceValue(Digits(n));
    if n >= 10 { NoLeadingZero(n); }
  }

  lemma {:induction false} NoLeadingZero(n: nat)
    requires 0 < n
    ensures Digits(n)[0] != '0'
  {
    if n >= 10 { NoLeadingZero(n / 10); }
  }

  /** Exactly the texts that parse, and to what: an optional sign, at least one digit, and a place value that
      a signed 64-bit integer holds. */
  lemma ParsesExactly(s: string, n: int)
    ensures ParseI64(s) == Some(n) <==>
              && -9223372036854775808 <= n <= 9223372036854775807
              && exists digits: string ::
                   && digits != "" && AllDigits(digits)
                   && (|| ((s == digits || s == "+" + digits) && n == PlaceValue(digits))
                       || (s == "-" + digits && -n == PlaceValue(digits)))
  {
    var signed := s != [] && (s[0] == '-' || s[0] == '+');
    var digits := if signed then s[1..] else s;
    if signed { assert s == [s[0]] + digits; }
    if AllDigits(digits) { ValueIsPlaceValue(digits); }
    forall other: string | other != "" && AllDigits(other) && (s == other || s == "+" + other || s == "-" + other)
      ensures other == digits
    {
      assert IsDigit(other[0]);
      assert ("+" + other)[1..] == other && ("-" + other)[1..] == other;
    }
  }
}
