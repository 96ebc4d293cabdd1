/** Decimal digits, integers in text, and exact powers of ten. */
module Decimal {
  import opened Strings

  predicate IsDigit(c: char) { '0' <= c <= '9' }

  function DigitOf(c: char): nat
    requires IsDigit(c)
  {
    c as int - '0' as int
  }

  function DigitChar(d: nat): (c: char)
    requires d < 10
    ensures IsDigit(c) && DigitOf(c) == d
  {
    (d + '0' as int) as char
  }

  predicate AllDigits(s: string) {
    forall i :: 0 <= i < |s| ==> IsDigit(s[i])
  }

  lemma AllDigitsConcat(a: string, b: string)
    ensures AllDigits(a + b) <==> AllDigits(a) && AllDigits(b)
  {
    if AllDigits(a + b) {
      assert forall i :: 0 <= i < |a| ==> a[i] == (a + b)[i];
      assert forall i :: 0 <= i < |b| ==> b[i] == (a + b)[|a| + i];
    }
  }

  /** The number a string of digits denotes; the empty string denotes zero. */
  function NatOf(s: string): nat
    requires AllDigits(s)
  {
    if s == "" then 0 else 10 * NatOf(s[..|s| - 1]) + DigitOf(s[|s| - 1])
  }

  /** strconv.Itoa on a natural number. */
  function Itoa(n: nat): string {
    if n < 10 then [DigitChar(n)] else Itoa(n / 10) + [DigitChar(n % 10)]
  }

  lemma {:induction false} ItoaDenotes(n: nat)
    ensures Itoa(n) != "" && AllDigits(Itoa(n)) && NatOf(Itoa(n)) == n
  {
    if n >= 10 {
      ItoaDenotes(n / 10);
      assert Itoa(n)[..|Itoa(n)| - 1] == Itoa(n / 10);
    }
  }

  lemma ItoaInjective(a: nat, b: nat)
    ensures Itoa(a) == Itoa(b) <==> a == b
  {
    ItoaDenotes(a);
    ItoaDenotes(b);
  }

  /** strconv.Itoa on any integer. */
  function IntText(n: int): string {
    if n < 0 then "-" + Itoa(-n) else Itoa(n)
  }

  lemma ParseIntText(n: int)
    ensures ParseInt(IntText(n)) == Some(n)
  {
    ItoaDenotes(if n < 0 then -n else n);
    if n < 0 { assert IntText(n)[1..] == Itoa(-n); } else { assert IsDigit(IntText(n)[0]); }
  }

  /** big.Int.SetString and strconv.Atoi in base ten: a sign, then digits. */
  function ParseInt(s: string): Option<int> {
    var digits := if s != "" && (s[0] == '+' || s[0] == '-') then s[1..] else s;
    if digits == "" || !AllDigits(digits) then None
    else
      var n: int := NatOf(digits);
      Some(if s[0] == '-' then -n else n)
  }

  /** A sign in front of digits: only a minus turns the number around. */
  lemma ParseSigned(sign: string, digits: string)
    requires digits != "" && AllDigits(digits) && (sign == "" || sign == "+" || sign == "-")
    ensures ParseInt(sign + digits) == Some(if sign == "-" then -(NatOf(digits) as int) else NatOf(digits))
  {
    var s := sign + digits;
    if sign == "" { assert s == digits && IsDigit(s[0]); } else { assert s[1..] == digits && s[0] == sign[0]; }
  }

  /** The ten digits in order. */
  lemma DigitsCount(i: nat)
    requires i < 10
    ensures var c := "0123456789"[i]; IsDigit(c) && DigitOf(c) == i && NatOf([c]) == i
  {
  }

  /** Two digit strings without leading zeros denote one number only if they are one string. */
  lemma {:induction false} NatOfInjective(a: string, b: string)
    requires AllDigits(a) && AllDigits(b) && NatOf(a) == NatOf(b)
    requires a != "" ==> a[0] != '0'
    requires b != "" ==> b[0] != '0'
    ensures a == b
  {
    NatOfPositive(a);
    NatOfPositive(b);
    if a != "" && b != "" {
      NatOfInjective(a[..|a| - 1], b[..|b| - 1]);
      assert a == a[..|a| - 1] + [a[|a| - 1]];
      assert b == b[..|b| - 1] + [b[|b| - 1]];
    }
  }

  lemma {:induction false} NatOfPositive(s: string)
    requires AllDigits(s) && (s != "" ==> s[0] != '0')
    ensures NatOf(s) > 0 <==> s != ""
  {
    if |s| > 1 { NatOfPositive(s[..|s| - 1]); }
  }

  lemma {:induction false} NatOfLeadingZero(s: string)
    requires AllDigits(s) && s != "" && s[0] == '0'
    ensures NatOf(s) == NatOf(s[1..])
  {
    if |s| > 1 {
      NatOfLeadingZero(s[..|s| - 1]);
      assert s[..|s| - 1][1..] == s[1..][..|s| - 2];
    }
  }

  // ----- Powers of ten -----

  /** x times ten to the power e. */
  function Scale(x: real, e: int): real
    decreases if e < 0 then -e else e
  {
    if e == 0 then x else if e > 0 then Scale(10.0 * x, e - 1) else Scale(x / 10.0, e + 1)
  }

  lemma {:induction false} ScaleSplit(x: real, e: int, k: nat)
    ensures Scale(x, e + k) == Scale(Scale(x, k), e)
    decreases k
  {
    if k > 0 { ScaleSplit(10.0 * x, e, k - 1); }
  }

  /** One more place is a factor of ten, in either direction. */
  lemma {:induction false} ScaleStep(x: real, e: int)
    ensures Scale(x, e + 1) == 10.0 * Scale(x, e)
    decreases if e < 0 then -e else e
  {
    if e > 0 { ScaleStep(10.0 * x, e - 1); } else if e < 0 { ScaleStep(x / 10.0, e + 1); }
  }

  lemma {:induction false} ScaleAdds(x: real, a: int, b: int)
    ensures Scale(x, a + b) == Scale(Scale(x, a), b)
    decreases if b < 0 then -b else b
  {
    if b > 0 {
      ScaleAdds(x, a, b - 1);
      ScaleStep(x, a + b - 1);
      ScaleStep(Scale(x, a), b - 1);
    } else if b < 0 {
      ScaleAdds(x, a, b + 1);
      ScaleStep(x, a + b);
      ScaleStep(Scale(x, a), b);
    }
  }

  lemma {:induction false} ScaleKeepsSign(x: real, e: int)
    ensures Scale(-x, e) == -Scale(x, e)
    ensures x > 0.0 <==> Scale(x, e) > 0.0
    decreases if e < 0 then -e else e
  {
    if e > 0 {
      assert 10.0 * -x == -(10.0 * x);
      ScaleKeepsSign(10.0 * x, e - 1);
    } else if e < 0 {
      assert -x / 10.0 == -(x / 10.0);
      ScaleKeepsSign(x / 10.0, e + 1);
    }
  }

  lemma {:induction false} ScaleInjective(x: real, y: real, e: int)
    requires Scale(x, e) == Scale(y, e)
    ensures x == y
    decreases if e < 0 then -e else e
  {
    if e > 0 { ScaleInjective(10.0 * x, 10.0 * y, e - 1); } else if e < 0 { ScaleInjective(x / 10.0, y / 10.0, e + 1); }
  }

  /** Scaling a natural number by k zeros gives a natural number that ends in zero. */
  lemma {:induction false} ScaleNat(n: nat, k: nat) returns (m: nat)
    ensures m as real == Scale(n as real, k)
    ensures if k == 0 then m == n else m % 10 == 0
    decreases k
  {
    if k == 0 { return n; }
    assert (10 * n) as real == 10.0 * n as real;
    m := ScaleNat(10 * n, k - 1);
  }
}
