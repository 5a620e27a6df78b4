/**
 * The JavaScript string built-ins the scraper relies on, restated over
 * `string` (a sequence of Unicode scalar values): character classes of
 * regular expressions, `trim`, `toLowerCase`, `includes`, `startsWith`,
 * `endsWith`, and reading and writing base-10 digit strings.
 */
module Text {

  /** `\d` in a regular expression without the `u` flag. */
  predicate IsDigit(c: char) {
    '0' <= c <= '9'
  }

  predicate IsUpper(c: char) {
    'A' <= c <= 'Z'
  }

  /** `\w`: ASCII letters, digits and the underscore. */
  predicate IsWordChar(c: char) {
    IsDigit(c) || IsUpper(c) || ('a' <= c <= 'z') || c == '_'
  }

  /**
   * `\s`, which is also the set `String.prototype.trim` removes:
   * WhiteSpace and LineTerminator of ECMAScript, including the
   * Unicode space separators.
   */
  predicate IsSpace(c: char) {
    c == '\t' || c == '\n' || c == '\U{000B}' || c == '\U{000C}' || c == '\r'
    || c == ' ' || c == '\U{00A0}' || c == '\U{1680}'
    || ('\U{2000}' <= c <= '\U{200A}')
    || c == '\U{2028}' || c == '\U{2029}' || c == '\U{202F}' || c == '\U{205F}'
    || c == '\U{3000}' || c == '\U{FEFF}'
  }

  predicate AllDigits(s: string) {
    forall i :: 0 <= i < |s| ==> IsDigit(s[i])
  }

  predicate AllSpace(s: string) {
    forall i :: 0 <= i < |s| ==> IsSpace(s[i])
  }

  predicate HasDigit(s: string) {
    exists i :: 0 <= i < |s| && IsDigit(s[i])
  }

  // ---------------------------------------------------------------------
  // Case mapping (ASCII letters only)
  // ---------------------------------------------------------------------

  function LowerChar(c: char): (r: char)
    ensures IsUpper(c) ==> r as int == c as int + 32
    ensures !IsUpper(c) ==> r == c
  {
    if IsUpper(c) then (c as int + 32) as char else c
  }

  /** `toLowerCase`, restricted to the ASCII letters (see README). */
  function ToLower(s: string): (r: string)
    ensures |r| == |s|
    ensures forall i :: 0 <= i < |s| ==> r[i] == LowerChar(s[i])
  {
    seq(|s|, i requires 0 <= i < |s| => LowerChar(s[i]))
  }

  // ---------------------------------------------------------------------
  // Searching
  // ---------------------------------------------------------------------

  /** `s.includes(t)`. */
  predicate Contains(s: string, t: string) {
    exists i :: 0 <= i <= |s| - |t| && IsInfixAt(s, t, i)
  }

  /** `t` occurs in `s` at position `i`. */
  predicate IsInfixAt(s: string, t: string, i: int) {
    0 <= i <= |s| - |t| && s[i..i + |t|] == t
  }

  /** `s.startsWith(p)`. */
  predicate StartsWith(s: string, p: string) {
    |p| <= |s| && s[..|p|] == p
  }

  /** `s.endsWith(p)`. */
  predicate EndsWith(s: string, p: string) {
    |p| <= |s| && s[|s| - |p|..] == p
  }

  lemma ContainsInfix(a: string, t: string, b: string)
    ensures Contains(a + t + b, t)
  {
    var s := a + t + b;
    assert IsInfixAt(s, t, |a|);
  }

  // ---------------------------------------------------------------------
  // Trimming
  // ---------------------------------------------------------------------

  /** A string with no leading and no trailing `\s` character. */
  predicate IsTrimmed(s: string) {
    s == [] || (!IsSpace(s[0]) && !IsSpace(s[|s| - 1]))
  }

  /** Drops the leading `\s` characters: what is left is a suffix of `s`. */
  function TrimStart(s: string): (r: string)
    ensures |r| <= |s| && r == s[|s| - |r|..]
    ensures AllSpace(s[..|s| - |r|])
    ensures r != [] ==> !IsSpace(r[0])
  {
    if |s| > 0 && IsSpace(s[0]) then
      var r := TrimStart(s[1..]);
      assert s[1..][|s| - 1 - |r|..] == s[|s| - |r|..];
      assert forall i :: 0 < i < |s| - |r| ==> s[i] == s[1..][..|s| - 1 - |r|][i - 1];
      r
    else s
  }

  /** Drops the trailing `\s` characters: what is left is a prefix of `s`. */
  function TrimEnd(s: string): (r: string)
    ensures |r| <= |s| && r == s[..|r|]
    ensures AllSpace(s[|r|..])
    ensures r == [] ==> AllSpace(s)
    ensures r != [] ==> !IsSpace(r[|r| - 1])
  {
    if |s| > 0 && IsSpace(s[|s| - 1]) then
      var r := TrimEnd(s[..|s| - 1]);
      assert forall i :: |r| <= i < |s| - 1 ==> s[i] == s[..|s| - 1][|r|..][i - |r|];
      r
    else s
  }

  /**
   * `String.prototype.trim`: the infix of `s` left once the `\s`
   * characters at both ends are removed.
   */
  function Trim(s: string): (r: string)
    ensures IsTrimmed(r) && |r| <= |s|
  {
    var a := TrimStart(s);
    var r := TrimEnd(a);
    TrimEndKeepsStart(a, r);
    r
  }

  /** Trimming the end of a string that starts with a non-`\s` character leaves it trimmed at both ends. */
  lemma TrimEndKeepsStart(a: string, r: string)
    requires r == TrimEnd(a) && (a != [] ==> !IsSpace(a[0]))
    ensures IsTrimmed(r)
  {
    if r != [] {
      assert r[0] == a[0];
    }
  }

  /**
   * `r` is what trimming `s` leaves: a trimmed infix of `s` with nothing
   * but `\s` around it. At most one string is so (`TrimmedFromUnique`).
   */
  predicate TrimmedFrom(s: string, r: string) {
    IsTrimmed(r)
    && exists i :: 0 <= i <= |s| - |r| && r == s[i..i + |r|] && AllSpace(s[..i]) && AllSpace(s[i + |r|..])
  }

  /** What `trim` keeps is an infix of `s`, and what it drops at both ends is `\s`. */
  lemma TrimInfix(s: string)
    ensures TrimmedFrom(s, Trim(s))
  {
    var a := TrimStart(s);
    var r := TrimEnd(a);
    var i := |s| - |a|;
    TrimParts(s, a, r, i);
  }

  /** The parts `trim` keeps and drops, from those of its two halves. */
  lemma TrimParts(s: string, a: string, r: string, i: nat)
    requires i <= |s| && a == s[i..] && AllSpace(s[..i])
    requires |r| <= |a| && r == a[..|r|] && AllSpace(a[|r|..])
    ensures i <= |s| - |r| && r == s[i..i + |r|] && AllSpace(s[..i]) && AllSpace(s[i + |r|..])
  {
    assert a[..|r|] == s[i..i + |r|];
    assert a[|r|..] == s[i + |r|..];
  }

  /** The trimmed infix is unique, so `TrimmedFrom(s, r)` pins `r` down as `Trim(s)`. */
  lemma TrimmedFromUnique(s: string, r1: string, r2: string)
    requires TrimmedFrom(s, r1) && TrimmedFrom(s, r2)
    ensures r1 == r2
  {
    var i1 :| 0 <= i1 <= |s| - |r1| && r1 == s[i1..i1 + |r1|] && AllSpace(s[..i1]) && AllSpace(s[i1 + |r1|..]);
    var i2 :| 0 <= i2 <= |s| - |r2| && r2 == s[i2..i2 + |r2|] && AllSpace(s[..i2]) && AllSpace(s[i2 + |r2|..]);
    SameInfix(s, i1, r1, i2, r2);
  }

  /** Two trimmed infixes of `s` with only `\s` around each are the same infix. */
  lemma SameInfix(s: string, i1: nat, r1: string, i2: nat, r2: string)
    requires i1 + |r1| <= |s| && r1 == s[i1..i1 + |r1|] && IsTrimmed(r1)
    requires i2 + |r2| <= |s| && r2 == s[i2..i2 + |r2|] && IsTrimmed(r2)
    requires AllSpace(s[..i1]) && AllSpace(s[i1 + |r1|..]) && AllSpace(s[..i2]) && AllSpace(s[i2 + |r2|..])
    ensures r1 == r2
  {
    SpaceOutside(s, i1, |r1|);
    SpaceOutside(s, i2, |r2|);
    if r1 != [] && r2 != [] {
      TrimmedEnds(s, i1, r1);
      TrimmedEnds(s, i2, r2);
      Inside(s, i1, |r1|, i2);
      Inside(s, i2, |r2|, i1);
      Inside(s, i1, |r1|, i2 + |r2| - 1);
      Inside(s, i2, |r2|, i1 + |r1| - 1);
      assert i1 == i2 && |r1| == |r2|;
    } else if r1 != [] {
      TrimmedEnds(s, i1, r1);
      assert false;
    } else if r2 != [] {
      TrimmedEnds(s, i2, r2);
      assert false;
    }
  }

  /** A non-`\s` character of `s` lies inside any infix that has only `\s` around it. */
  lemma Inside(s: string, i: nat, n: nat, j: nat)
    requires i + n <= |s| && j < |s| && !IsSpace(s[j])
    requires forall k :: 0 <= k < |s| && (k < i || i + n <= k) ==> IsSpace(s[k])
    ensures i <= j < i + n
  {
  }

  /** A non-empty trimmed infix starts and ends with a non-`\s` character of `s`. */
  lemma TrimmedEnds(s: string, i: nat, r: string)
    requires r != [] && IsTrimmed(r) && i + |r| <= |s| && r == s[i..i + |r|]
    ensures !IsSpace(s[i]) && !IsSpace(s[i + |r| - 1])
  {
    assert r[0] == s[i] && r[|r| - 1] == s[i + |r| - 1];
  }

  /** The `\s` margins of an infix, position by position. */
  lemma SpaceOutside(s: string, i: nat, n: nat)
    requires i + n <= |s| && AllSpace(s[..i]) && AllSpace(s[i + n..])
    ensures forall k :: 0 <= k < |s| && (k < i || i + n <= k) ==> IsSpace(s[k])
  {
    forall k | 0 <= k < |s| && (k < i || i + n <= k) ensures IsSpace(s[k]) {
      if k < i {
        assert s[k] == s[..i][k];
      } else {
        assert s[k] == s[i + n..][k - i - n];
      }
    }
  }

  /** Trimming removes only `\s` characters: a string that is all `\s` trims to "", and only such a string does. */
  lemma {:induction false} TrimEmptyIff(s: string)
    ensures Trim(s) == [] <==> AllSpace(s)
  {
    var a := TrimStart(s);
    assert a != [] ==> a[0] == s[|s| - |a|];
    var r := TrimEnd(a);
    assert r == [] ==> a == [];
    forall k | 0 <= k < |s| && r == [] ensures IsSpace(s[k]) {
      assert s[k] == s[..|s| - |a|][k];
    }
  }

  /** A trimmed string trims to itself, so `trim` is idempotent. */
  lemma TrimTrimmed(s: string)
    requires IsTrimmed(s)
    ensures Trim(s) == s
  {
  }

  lemma TrimIdempotent(s: string)
    ensures Trim(Trim(s)) == Trim(s)
  {
    TrimTrimmed(Trim(s));
  }

  // ---------------------------------------------------------------------
  // Digits
  // ---------------------------------------------------------------------

  /** `s.replace(/[^\d]/g, '')`: the digits of `s`, in order. */
  function KeepDigits(s: string): (r: string)
    ensures AllDigits(r)
    ensures |r| <= |s|
    ensures HasDigit(s) <==> r != []
  {
    if s == [] then []
    else
      var rest := KeepDigits(s[1..]);
      assert HasDigit(s) <==> IsDigit(s[0]) || HasDigit(s[1..]) by {
        if HasDigit(s) {
          var i :| 0 <= i < |s| && IsDigit(s[i]);
          if i > 0 { assert s[1..][i - 1] == s[i]; }
        }
        if HasDigit(s[1..]) {
          var i :| 0 <= i < |s| - 1 && IsDigit(s[1..][i]);
          assert s[i + 1] == s[1..][i];
        }
      }
      if IsDigit(s[0]) then [s[0]] + rest else rest
  }

  lemma {:induction false} KeepDigitsAppend(a: string, b: string)
    ensures KeepDigits(a + b) == KeepDigits(a) + KeepDigits(b)
  {
    if a != [] {
      assert (a + b)[1..] == a[1..] + b;
      KeepDigitsAppend(a[1..], b);
    } else {
      assert a + b == b;
    }
  }

  /** Keeping the digits of a digit string changes nothing. */
  lemma {:induction false} KeepDigitsOfDigits(s: string)
    requires AllDigits(s)
    ensures KeepDigits(s) == s
  {
    if s != [] {
      KeepDigitsOfDigits(s[1..]);
    }
  }

  /** A string without digits contributes nothing. */
  lemma {:induction false} KeepDigitsNone(s: string)
    requires !HasDigit(s)
    ensures KeepDigits(s) == []
  {
  }

  function DigitValue(c: char): (d: nat)
    requires IsDigit(c)
    ensures d < 10
  {
    c as int - '0' as int
  }

  function DigitChar(d: nat): (c: char)
    requires d < 10
    ensures IsDigit(c) && DigitValue(c) == d
  {
    ('0' as int + d) as char
  }

  /** The number a digit string denotes in base 10 (`parseInt(s, 10)` on digits). */
  function DigitsValue(s: string): nat
    requires AllDigits(s)
  {
    if s == [] then 0 else DigitsValue(s[..|s| - 1]) * 10 + DigitValue(s[|s| - 1])
  }

  /** `String(n)` for a natural number: its base-10 numeral without leading zeros. */
  function NatToString(n: nat): (r: string)
    ensures r != [] && AllDigits(r)
    ensures r[0] == '0' ==> n == 0
  {
    if n < 10 then [DigitChar(n)] else NatToString(n / 10) + [DigitChar(n % 10)]
  }

  /** `String(i)` for an integer. */
  function IntToString(i: int): (r: string)
    ensures r != []
  {
    if i < 0 then "-" + NatToString(-i) else NatToString(i)
  }

  /** Reading back a numeral gives the number: the two functions above are inverse. */
  lemma {:induction false} DigitsValueOfNatToString(n: nat)
    ensures DigitsValue(NatToString(n)) == n
  {
    if n >= 10 {
      var s := NatToString(n);
      DigitsValueOfNatToString(n / 10);
      assert s[..|s| - 1] == NatToString(n / 10);
    }
  }

  /** Different numbers have different numerals. */
  lemma NatToStringInjective(m: nat, n: nat)
    requires NatToString(m) == NatToString(n)
    ensures m == n
  {
    DigitsValueOfNatToString(m);
    DigitsValueOfNatToString(n);
  }

  lemma {:induction false} DigitsValueAppend(s: string, c: char)
    requires AllDigits(s) && IsDigit(c)
    ensures DigitsValue(s + [c]) == DigitsValue(s) * 10 + DigitValue(c)
  {
    assert (s + [c])[..|s|] == s;
  }
}
