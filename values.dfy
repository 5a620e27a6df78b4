/**
 * Values shared by the whole model: JavaScript's `null`/`undefined`
 * as `None`, and the numbers `parseFloat` produces, kept as exact
 * decimals in a canonical form so that `===` on them is `==` here.
 */
module Values {
  import opened Text

  datatype Option<+T> = None | Some(value: T)

  /** The number `mantissa` times ten to the power `exponent`. */
  datatype Decimal = Decimal(mantissa: int, exponent: int)

  /** One representation per number: no trailing zero in the mantissa, and zero is 0e0. */
  predicate Canonical(d: Decimal) {
    if d.mantissa == 0 then d.exponent == 0 else d.mantissa % 10 != 0
  }

  function Pow10(k: nat): (p: nat)
    ensures p >= 1
  {
    if k == 0 then 1 else 10 * Pow10(k - 1)
  }

  /** The two decimals denote the same number. */
  predicate SameValue(a: Decimal, b: Decimal) {
    if a.exponent <= b.exponent then a.mantissa == b.mantissa * Pow10(b.exponent - a.exponent)
    else b.mantissa == a.mantissa * Pow10(a.exponent - b.exponent)
  }

  function Abs(m: int): nat {
    if m < 0 then -m else m
  }

  /** The canonical decimal of m·10^e. */
  function Normalize(m: int, e: int): (d: Decimal)
    ensures Canonical(d)
    ensures d.mantissa == 0 <==> m == 0
    ensures m != 0 ==> d.exponent >= e && m == d.mantissa * Pow10(d.exponent - e)
    decreases Abs(m)
  {
    if m == 0 then Decimal(0, 0)
    else if m % 10 == 0 then
      var d := Normalize(m / 10, e + 1);
      assert m == (m / 10) * 10;
      assert Pow10(d.exponent - e) == 10 * Pow10(d.exponent - (e + 1));
      assert m == d.mantissa * Pow10(d.exponent - (e + 1)) * 10;
      d
    else Decimal(m, e)
  }

  lemma Pow10Positive(k: nat)
    requires k >= 1
    ensures Pow10(k) % 10 == 0
  {
    assert Pow10(k) == 10 * Pow10(k - 1);
  }

  lemma MultipleOfTen(m: int, k: int)
    ensures k >= 1 ==> (m * Pow10(k)) % 10 == 0
  {
    if k >= 1 {
      Pow10Positive(k);
      var q := Pow10(k) / 10;
      assert Pow10(k) == 10 * q;
      assert m * Pow10(k) == 10 * (m * q);
    }
  }

  /** Two canonical decimals that denote the same number are the same value. */
  lemma CanonicalUnique(a: Decimal, b: Decimal)
    requires Canonical(a) && Canonical(b) && SameValue(a, b)
    ensures a == b
  {
    MultipleOfTen(b.mantissa, b.exponent - a.exponent);
    MultipleOfTen(a.mantissa, a.exponent - b.exponent);
  }

  // ---------------------------------------------------------------------
  // parseFloat
  // ---------------------------------------------------------------------

  /** The longest prefix of `s` made of digits. */
  function LeadingDigits(s: string): (r: string)
    ensures AllDigits(r) && |r| <= |s| && r == s[..|r|]
    ensures |r| < |s| ==> !IsDigit(s[|r|])
  {
    if s != [] && IsDigit(s[0]) then
      var r := [s[0]] + LeadingDigits(s[1..]);
      assert r[1..] == s[1..][..|r| - 1];
      r
    else []
  }

  /** An `ExponentPart` (`e`, an optional sign, digits) at the start of `s`; 0 when there is none. */
  function ExponentValue(s: string): int {
    if |s| >= 2 && (s[0] == 'e' || s[0] == 'E') then
      var signed := s[1] == '+' || s[1] == '-';
      var digits := LeadingDigits(if signed then s[2..] else s[1..]);
      if digits == [] then 0
      else if s[1] == '-' then -(DigitsValue(digits) as int) else DigitsValue(digits)
    else 0
  }

  /** `s` starts with an unsigned decimal literal: a digit, or a point and a digit. */
  predicate StartsNumeral(u: string) {
    (|u| > 0 && IsDigit(u[0])) || (|u| > 1 && u[0] == '.' && IsDigit(u[1]))
  }

  function Unsigned(t: string): string {
    if |t| > 0 && (t[0] == '-' || t[0] == '+') then t[1..] else t
  }

  /**
   * `parseFloat(s)` on decimal literals: leading white space, an optional
   * sign, digits with an optional fraction and exponent, read exactly
   * (`None` stands for NaN). The longest such prefix is read and the rest
   * ignored.
   */
  function ParseFloat(s: string): (r: Option<Decimal>)
    ensures r.Some? <==> StartsNumeral(Unsigned(TrimStart(s)))
    ensures r.Some? ==> Canonical(r.value)
  {
    var t := TrimStart(s);
    ReadUnsigned(Unsigned(t), |t| > 0 && t[0] == '-')
  }

  /** Reads the unsigned decimal literal at the start of `u`, negated when `negative`. */
  function ReadUnsigned(u: string, negative: bool): (r: Option<Decimal>)
    ensures r.Some? <==> StartsNumeral(u)
    ensures r.Some? ==> Canonical(r.value)
  {
    var whole := LeadingDigits(u);
    var rest := u[|whole|..];
    var point := |rest| > 0 && rest[0] == '.';
    var fraction := if point then LeadingDigits(rest[1..]) else [];
    if whole == [] && fraction == [] then None
    else
      var tail := if point then rest[1 + |fraction|..] else rest;
      var m: int := DigitsValue(whole + fraction);
      Some(Normalize(if negative then -m else m, ExponentValue(tail) - |fraction|))
  }

  lemma LeadingDigitsOfDigits(s: string)
    requires AllDigits(s)
    ensures LeadingDigits(s) == s
  {
  }

  /** A numeral reads back as its number: `parseFloat(String(n)) === n`. */
  lemma ParseFloatOfNatToString(n: nat)
    ensures ParseFloat(NatToString(n)) == Some(Normalize(n, 0))
  {
    var s := NatToString(n);
    assert !IsSpace(s[0]);
    assert TrimStart(s) == s;
    assert Unsigned(s) == s;
    LeadingDigitsOfDigits(s);
    DigitsValueOfNatToString(n);
    assert s[|s|..] == [];
    assert s + [] == s;
    assert ReadUnsigned(s, false) == Some(Normalize(n, 0));
  }
}
