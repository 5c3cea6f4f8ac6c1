/** Number literals: the grammar of section 6 of RFC 8259, and the decimal
    digits JavaScript writes for integers. */
module Decimal {
  import opened JsText
  import opened Option

  const ZERO: Unit := 48
  const MINUS: Unit := 45
  const PLUS: Unit := 43
  const DOT: Unit := 46

  predicate IsDigit(u: Unit) { 48 <= u <= 57 }

  /** The units that can occur in a number literal. */
  predicate IsNumberUnit(u: Unit) {
    IsDigit(u) || u == MINUS || u == PLUS || u == DOT || u == 101 || u == 69
  }

  predicate AllDigits(s: Text) { forall i | 0 <= i < |s| :: IsDigit(s[i]) }

  /** How many digits a text starts with. */
  function DigitRun(s: Text): (n: nat)
    ensures n <= |s|
    ensures forall i | 0 <= i < n :: IsDigit(s[i])
    ensures n < |s| ==> !IsDigit(s[n])
  {
    if s == [] || !IsDigit(s[0]) then 0 else 1 + DigitRun(s[1..])
  }

  function DropDigits(s: Text): Text { s[DigitRun(s)..] }

  predicate IsExponent(s: Text) {
    s == [] || (
      (s[0] == 101 || s[0] == 69)
      && (var d := if |s| >= 2 && (s[1] == PLUS || s[1] == MINUS) then s[2..] else s[1..];
          d != [] && AllDigits(d)))
  }

  predicate IsFraction(s: Text) {
    if s != [] && s[0] == DOT
    then |s| >= 2 && IsDigit(s[1]) && IsExponent(DropDigits(s[1..]))
    else IsExponent(s)
  }

  predicate IsUnsigned(s: Text) {
    s != [] && IsDigit(s[0])
    && IsFraction(if s[0] == ZERO then s[1..] else DropDigits(s))
  }

  /** A number literal of RFC 8259, section 6. */
  predicate IsNumber(s: Text) {
    IsUnsigned(if s != [] && s[0] == MINUS then s[1..] else s)
  }

  lemma NumberUnits(s: Text)
    requires IsNumber(s)
    ensures s != [] && (IsDigit(s[0]) || s[0] == MINUS)
    ensures forall i | 0 <= i < |s| :: IsNumberUnit(s[i])
  {
    var m := if s[0] == MINUS then 1 else 0;
    var u := s[m..];
    assert IsUnsigned(u);
    var k := if u[0] == ZERO then 1 else DigitRun(u);
    var f := u[k..];
    FractionUnits(f);
    forall i | 0 <= i < |s| ensures IsNumberUnit(s[i]) {
      if m <= i { assert s[i] == u[i - m]; }
      if m + k <= i { assert s[i] == f[i - m - k]; }
    }
  }

  lemma FractionUnits(f: Text)
    requires IsFraction(f)
    ensures forall i | 0 <= i < |f| :: IsNumberUnit(f[i])
  {
    if f != [] && f[0] == DOT {
      var d := f[1..];
      var k := DigitRun(d);
      var e := d[k..];
      ExponentUnits(e);
      forall i | 0 <= i < |f| ensures IsNumberUnit(f[i]) {
        if 1 <= i { assert f[i] == d[i - 1]; }
        if 1 + k <= i { assert f[i] == e[i - 1 - k]; }
      }
    } else {
      ExponentUnits(f);
    }
  }

  lemma ExponentUnits(s: Text)
    requires IsExponent(s)
    ensures forall i | 0 <= i < |s| :: IsNumberUnit(s[i])
  {
    if s != [] {
      var k := if |s| >= 2 && (s[1] == PLUS || s[1] == MINUS) then 2 else 1;
      var d := s[k..];
      forall i | 0 <= i < |s| ensures IsNumberUnit(s[i]) {
        if k <= i { assert s[i] == d[i - k]; }
      }
    }
  }

  /** `String(n)` for a natural number. */
  function Digits(n: nat): (s: Text)
    ensures s != [] && AllDigits(s)
  {
    if n < 10 then [ZERO + n] else Digits(n / 10) + [ZERO + n % 10]
  }

  /** The number an all-digit text denotes. */
  function ToNat(s: Text): nat
    requires AllDigits(s)
  {
    if s == [] then 0 else ToNat(s[..|s| - 1]) * 10 + (s[|s| - 1] - ZERO)
  }

  /** The integer a literal denotes, when it is written without fraction or exponent. */
  function IntegerOf(tok: Text): Option<int> {
    if tok != [] && AllDigits(tok) then Some(ToNat(tok))
    else if |tok| >= 2 && tok[0] == MINUS && AllDigits(tok[1..]) then Some(-(ToNat(tok[1..]) as int))
    else None
  }

  lemma {:induction false} ToNatDigits(n: nat)
    ensures ToNat(Digits(n)) == n
    ensures Digits(n)[0] == ZERO ==> n == 0
  {
    if n >= 10 {
      ToNatDigits(n / 10);
      var s := Digits(n);
      assert s[..|s| - 1] == Digits(n / 10);
    }
  }

  lemma DigitsIsNumber(n: nat)
    ensures IsNumber(Digits(n))
    ensures IntegerOf(Digits(n)) == Some(n)
  {
    ToNatDigits(n);
    var s := Digits(n);
    if s[0] == ZERO {
      assert n == 0 && s == [ZERO];
      assert s[1..] == [];
    } else {
      assert DigitRun(s) == |s|;
    }
  }

  /** `String(n)` for an integer. */
  function IntegerText(n: int): Text {
    if n < 0 then [MINUS] + Digits(-n) else Digits(n)
  }

  lemma IntegerTextIsNumber(n: int)
    ensures IsNumber(IntegerText(n))
    ensures IntegerOf(IntegerText(n)) == Some(n)
  {
    if n < 0 {
      DigitsIsNumber(-n);
      assert IntegerText(n)[1..] == Digits(-n);
      assert IntegerText(n)[0] == MINUS && !IsDigit(MINUS);
    } else {
      DigitsIsNumber(n);
    }
  }

  /** `String(n)` padded with zeros to exactly `k` digits; of `n` only the last `k` digits. */
  function Pad(n: nat, k: nat): (s: Text)
    ensures |s| == k && AllDigits(s)
  {
    if k == 0 then [] else Pad(n / 10, k - 1) + [ZERO + n % 10]
  }

  function Pow10(k: nat): (p: nat)
    ensures p >= 1
  {
    if k == 0 then 1 else 10 * Pow10(k - 1)
  }

  /** Equally padded numbers that fit are ordered by code units as they are as numbers. */
  lemma {:induction false} PadOrder(n: nat, m: nat, k: nat)
    requires n < Pow10(k) && m < Pow10(k)
    ensures Before(Pad(n, k), Pad(m, k)) <==> n < m
    ensures Pad(n, k) == Pad(m, k) <==> n == m
  {
    if k > 0 {
      PadOrder(n / 10, m / 10, k - 1);
      BeforeAppend(Pad(n / 10, k - 1), Pad(m / 10, k - 1), [ZERO + n % 10], [ZERO + m % 10]);
      assert Pad(n, k)[..k - 1] == Pad(n / 10, k - 1) && Pad(m, k)[..k - 1] == Pad(m / 10, k - 1);
      assert Pad(n, k)[k - 1] == ZERO + n % 10 && Pad(m, k)[k - 1] == ZERO + m % 10;
    }
  }
}
