/**
 * The JavaScript string operations the application relies on: `toLowerCase`
 * (ASCII letters only), `includes`, the `<` order on strings and `parseInt`.
 */
module Strings {
  import opened Wrappers

  // ---------------------------------------------------------------------
  // Lower case

  function AsciiLowerChar(c: char): char {
    if 'A' <= c <= 'Z' then (c as int + 32) as char else c
  }

  /** `s.toLowerCase()`, restricted to the ASCII letters. */
  function AsciiLower(s: string): (r: string)
    ensures |r| == |s|
    ensures forall i :: 0 <= i < |s| ==> r[i] == AsciiLowerChar(s[i])
  {
    if |s| == 0 then [] else [AsciiLowerChar(s[0])] + AsciiLower(s[1..])
  }

  /** Lowering twice is lowering once, and lowering leaves no ASCII capital behind. */
  lemma AsciiLowerIdempotent(s: string)
    ensures AsciiLower(AsciiLower(s)) == AsciiLower(s)
    ensures forall i :: 0 <= i < |s| ==> !('A' <= AsciiLower(s)[i] <= 'Z')
  {
  }

  // ---------------------------------------------------------------------
  // Substrings

  /** `p` occurs in `s` starting at index `i`. */
  ghost predicate OccursAt(p: string, s: string, i: int) {
    0 <= i && i + |p| <= |s| && s[i..i + |p|] == p
  }

  /** `p` occurs in `s` at some position. */
  ghost predicate IsSubstring(p: string, s: string) {
    exists i :: OccursAt(p, s, i)
  }

  /** `s.includes(p)`, scanning `s` from the left. */
  function Includes(s: string, p: string): (b: bool)
    ensures b <==> IsSubstring(p, s)
    decreases |s|
  {
    if p <= s then
      assert OccursAt(p, s, 0);
      true
    else if |s| == 0 then
      false
    else
      var b := Includes(s[1..], p);
      assert b ==> IsSubstring(p, s) by {
        if b {
          var i :| OccursAt(p, s[1..], i);
          assert OccursAt(p, s, i + 1);
        }
      }
      assert IsSubstring(p, s) ==> b by {
        if IsSubstring(p, s) {
          var i :| OccursAt(p, s, i);
          assert i != 0;
          assert s[1..][i - 1..i - 1 + |p|] == s[i..i + |p|];
          assert OccursAt(p, s[1..], i - 1);
        }
      }
      b
  }

  /** Every string contains itself and the empty string. */
  lemma IncludesSelf(s: string)
    ensures Includes(s, s) && Includes(s, "")
  {
  }

  /** A string cannot contain a longer one. */
  lemma IncludesShorter(s: string, p: string)
    requires |s| < |p|
    ensures !Includes(s, p)
  {
  }

  // ---------------------------------------------------------------------
  // The `<` order on strings

  /**
   * The UTF-16 code units of one character: the character itself below U+10000,
   * otherwise its surrogate pair.
   */
  function CharUnits(c: char): (u: seq<int>)
    ensures 1 <= |u| <= 2
  {
    var n := c as int;
    if n < 0x10000 then [n] else [0xD800 + (n - 0x10000) / 0x400, 0xDC00 + (n - 0x10000) % 0x400]
  }

  /** The UTF-16 code units a JavaScript string is made of. */
  function CodeUnits(s: string): seq<int> {
    if |s| == 0 then [] else CharUnits(s[0]) + CodeUnits(s[1..])
  }

  /** Lexicographic order on code units: the first difference decides, and a proper prefix comes first. */
  predicate UnitsLess(a: seq<int>, b: seq<int>)
    decreases |a|
  {
    if |a| == 0 then |b| > 0
    else if |b| == 0 then false
    else if a[0] != b[0] then a[0] < b[0]
    else UnitsLess(a[1..], b[1..])
  }

  /** `a < b` on JavaScript strings, which compares UTF-16 code units, not code points. */
  predicate LexLess(a: string, b: string) {
    UnitsLess(CodeUnits(a), CodeUnits(b))
  }

  lemma {:induction false} UnitsLessIrreflexive(a: seq<int>)
    ensures !UnitsLess(a, a)
    decreases |a|
  {
    if |a| > 0 {
      UnitsLessIrreflexive(a[1..]);
    }
  }

  lemma {:induction false} UnitsLessAsymmetric(a: seq<int>, b: seq<int>)
    ensures UnitsLess(a, b) ==> !UnitsLess(b, a)
    decreases |a|
  {
    if |a| > 0 && |b| > 0 && a[0] == b[0] {
      UnitsLessAsymmetric(a[1..], b[1..]);
    }
  }

  lemma {:induction false} UnitsLessTransitive(a: seq<int>, b: seq<int>, c: seq<int>)
    requires UnitsLess(a, b) && UnitsLess(b, c)
    ensures UnitsLess(a, c)
    decreases |a|
  {
    if |a| > 0 && a[0] == b[0] && b[0] == c[0] {
      UnitsLessTransitive(a[1..], b[1..], c[1..]);
    }
  }

  lemma {:induction false} UnitsLessTotal(a: seq<int>, b: seq<int>)
    ensures a == b || UnitsLess(a, b) || UnitsLess(b, a)
    decreases |a|
  {
    if |a| > 0 && |b| > 0 && a[0] == b[0] {
      UnitsLessTotal(a[1..], b[1..]);
      if a[1..] == b[1..] {
        assert a == [a[0]] + a[1..] && b == [b[0]] + b[1..];
      }
    }
  }

  /**
   * A character's code units can be read off the front of a sequence: a
   * character below U+10000 is never a surrogate, while a pair starts with a
   * high surrogate, so the first unit tells how many units belong to it.
   */
  lemma CharUnitsPrefixFree(x: char, y: char, s: seq<int>, t: seq<int>)
    requires CharUnits(x) + s == CharUnits(y) + t
    ensures x == y && s == t
  {
    var ux, uy := CharUnits(x), CharUnits(y);
    assert ux[0] == (ux + s)[0] == (uy + t)[0] == uy[0];
    if |ux| == 2 && |uy| == 2 {
      assert ux[1] == (ux + s)[1] == (uy + t)[1] == uy[1];
    }
    assert x == y;
    assert s == (ux + s)[|ux|..] == (uy + t)[|uy|..] == t;
  }

  /** Different strings have different code units. */
  lemma {:induction false} CodeUnitsInjective(a: string, b: string)
    requires CodeUnits(a) == CodeUnits(b)
    ensures a == b
    decreases |a|
  {
    if |a| > 0 && |b| > 0 {
      CharUnitsPrefixFree(a[0], b[0], CodeUnits(a[1..]), CodeUnits(b[1..]));
      CodeUnitsInjective(a[1..], b[1..]);
      assert a == [a[0]] + a[1..] && b == [b[0]] + b[1..];
    }
  }

  lemma LexLessIrreflexive(a: string)
    ensures !LexLess(a, a)
  {
    UnitsLessIrreflexive(CodeUnits(a));
  }

  lemma LexLessAsymmetric(a: string, b: string)
    ensures LexLess(a, b) ==> !LexLess(b, a)
  {
    UnitsLessAsymmetric(CodeUnits(a), CodeUnits(b));
  }

  lemma LexLessTransitive(a: string, b: string, c: string)
    requires LexLess(a, b) && LexLess(b, c)
    ensures LexLess(a, c)
  {
    UnitsLessTransitive(CodeUnits(a), CodeUnits(b), CodeUnits(c));
  }

  /** Two different strings are always ordered one way or the other. */
  lemma LexLessTotal(a: string, b: string)
    ensures a == b || LexLess(a, b) || LexLess(b, a)
  {
    UnitsLessTotal(CodeUnits(a), CodeUnits(b));
    if CodeUnits(a) == CodeUnits(b) {
      CodeUnitsInjective(a, b);
    }
  }

  /**
   * The order is not the code-point order: U+10000 is stored as the surrogate
   * pair D800 DC00, so it sorts before U+FFFF.
   */
  lemma SurrogatePairSortsLow()
    ensures LexLess("\U{10000}", "\U{FFFF}")
    ensures "\U{FFFF}"[0] < "\U{10000}"[0]
  {
    assert CodeUnits("\U{10000}") == [0xD800, 0xDC00];
    assert CodeUnits("\U{FFFF}") == [0xFFFF];
  }

  // ---------------------------------------------------------------------
  // parseInt

  /** The characters `parseInt` skips before the number (StrWhiteSpaceChar of ECMAScript). */
  predicate IsJsWhiteSpace(c: char) {
    || c == '\t' || c == '\n' || c == '\U{000B}' || c == '\U{000C}' || c == '\r' || c == ' '
    || c == '\U{00A0}' || c == '\U{1680}' || '\U{2000}' <= c <= '\U{200A}'
    || c == '\U{2028}' || c == '\U{2029}' || c == '\U{202F}' || c == '\U{205F}'
    || c == '\U{3000}' || c == '\U{FEFF}'
  }

  function TrimStart(s: string): (r: string)
    ensures |r| <= |s| && r == s[|s| - |r|..]
    ensures |r| > 0 ==> !IsJsWhiteSpace(r[0])
  {
    if |s| > 0 && IsJsWhiteSpace(s[0]) then TrimStart(s[1..]) else s
  }

  /** The value of `c` as a digit in base 16 (`hex`) or base 10, if it is one. */
  function DigitValue(c: char, hex: bool): Option<nat> {
    if '0' <= c <= '9' then Some((c as int) - ('0' as int))
    else if hex && 'a' <= c <= 'f' then Some((c as int) - ('a' as int) + 10)
    else if hex && 'A' <= c <= 'F' then Some((c as int) - ('A' as int) + 10)
    else None
  }

  /** The longest prefix of `s` made of digits of the base. */
  function DigitPrefix(s: string, hex: bool): (r: string)
    ensures r <= s
    ensures forall i :: 0 <= i < |r| ==> DigitValue(r[i], hex).Some?
  {
    if |s| > 0 && DigitValue(s[0], hex).Some? then [s[0]] + DigitPrefix(s[1..], hex) else []
  }

  /** The number written by the digits `ds`, most significant first. */
  function DigitsValue(ds: string, hex: bool): nat
    requires forall i :: 0 <= i < |ds| ==> DigitValue(ds[i], hex).Some?
  {
    if |ds| == 0 then 0
    else
      var high := DigitsValue(ds[..|ds| - 1], hex);
      (if hex then high * 16 else high * 10) + DigitValue(ds[|ds| - 1], hex).value
  }

  /**
   * The unsigned part of `parseInt`: "0x" or "0X" switches to base 16, and the
   * longest run of digits that follows is the value; `None` when there is no digit.
   */
  function ParseMagnitude(u: string): Option<nat> {
    var hex := |u| >= 2 && u[0] == '0' && (u[1] == 'x' || u[1] == 'X');
    var ds := DigitPrefix(if hex then u[2..] else u, hex);
    if |ds| == 0 then None else Some(DigitsValue(ds, hex))
  }

  /** An optional sign, then the magnitude; "-" negates it. */
  function ParseSigned(t: string): Option<int> {
    if |t| > 0 && (t[0] == '-' || t[0] == '+') then
      match ParseMagnitude(t[1..])
      case None => None
      case Some(m) =>
        var v: int := if t[0] == '-' then -(m as int) else m as int;
        Some(v)
    else
      match ParseMagnitude(t)
      case None => None
      case Some(m) => Some(m)
  }

  /**
   * `parseInt(s)` with no radix: leading white space is skipped, then a signed
   * magnitude is read; `None` stands for NaN.
   */
  function ParseInt(s: string): Option<int> {
    ParseSigned(TrimStart(s))
  }

  // ---------------------------------------------------------------------
  // Decimal numerals, to state what parseInt reads back

  function DecimalDigit(d: nat): char
    requires d < 10
  {
    ('0' as int + d) as char
  }

  /** The decimal numeral of `n`, as `String(n)` writes it. */
  function Decimal(n: nat): (r: string)
    ensures |r| > 0
    ensures forall i :: 0 <= i < |r| ==> '0' <= r[i] <= '9'
  {
    if n < 10 then [DecimalDigit(n)] else Decimal(n / 10) + [DecimalDigit(n % 10)]
  }

  lemma {:induction false} DecimalValue(n: nat)
    ensures forall i :: 0 <= i < |Decimal(n)| ==> DigitValue(Decimal(n)[i], false).Some?
    ensures DigitsValue(Decimal(n), false) == n
  {
    var r := Decimal(n);
    if n >= 10 {
      DecimalValue(n / 10);
      assert r[..|r| - 1] == Decimal(n / 10);
    }
  }

  lemma {:induction false} DigitPrefixOfDigits(a: string, b: string, hex: bool)
    requires forall i :: 0 <= i < |a| ==> DigitValue(a[i], hex).Some?
    requires |b| == 0 || DigitValue(b[0], hex).None?
    ensures DigitPrefix(a + b, hex) == a
  {
    if |a| > 0 {
      DigitPrefixOfDigits(a[1..], b, hex);
      assert (a + b)[1..] == a[1..] + b;
    }
  }

  /** A decimal numeral is not read as base 16: only "0" followed by "x" or "X" is. */
  lemma DecimalNotHexPrefix(n: nat, suffix: string)
    requires n == 0 && |suffix| > 0 ==> suffix[0] != 'x' && suffix[0] != 'X'
    ensures var s := Decimal(n) + suffix; !(|s| >= 2 && s[0] == '0' && (s[1] == 'x' || s[1] == 'X'))
  {
    var s := Decimal(n) + suffix;
    if n >= 10 {
      var d := Decimal(n / 10);
      assert Decimal(n) == d + [DecimalDigit(n % 10)];
      if |d| == 1 {
        assert s[1] == DecimalDigit(n % 10);
      } else {
        assert s[1] == d[1];
      }
    }
  }

  /** The digits of a decimal numeral, followed by no further digit, read back as the number. */
  lemma ParseMagnitudeDecimal(n: nat, suffix: string)
    requires |suffix| == 0 || !('0' <= suffix[0] <= '9')
    requires n == 0 && |suffix| > 0 ==> suffix[0] != 'x' && suffix[0] != 'X'
    ensures ParseMagnitude(Decimal(n) + suffix) == Some(n)
  {
    DecimalValue(n);
    DecimalNotHexPrefix(n, suffix);
    DigitPrefixOfDigits(Decimal(n), suffix, false);
  }

  /**
   * Reading back what `String(n)` writes: `parseInt` of the decimal numeral of `n`
   * followed by text that does not continue the number (such as " INR") is `n`.
   * After "0" the text must not start with "x", which would switch to base 16.
   */
  lemma ParseIntDecimal(n: nat, suffix: string)
    requires |suffix| == 0 || !('0' <= suffix[0] <= '9')
    requires n == 0 && |suffix| > 0 ==> suffix[0] != 'x' && suffix[0] != 'X'
    ensures ParseInt(Decimal(n) + suffix) == Some(n)
  {
    var s := Decimal(n) + suffix;
    assert '0' <= s[0] <= '9';
    assert !IsJsWhiteSpace(s[0]);
    assert TrimStart(s) == s;
    ParseMagnitudeDecimal(n, suffix);
    assert ParseSigned(s) == Some(n);
  }
}
