/**
 * Integers as the page reads and prints them: ECMAScript's global parseInt(string) with no
 * radix argument (recipe.js:32), and the decimal rendering a template literal gives an
 * integer (recipe.js:133, 138, 140). NaN is None.
 */
module Numbers {
  import opened Wrappers
  import Text

  predicate IsDecimalDigit(c: char) {
    '0' <= c <= '9'
  }

  /** The value of c as a digit in any radix up to 16; 16 when it is no such digit. */
  function DigitValue(c: char): (v: nat)
    ensures v <= 16
    ensures v < 10 <==> IsDecimalDigit(c)
  {
    if '0' <= c <= '9' then c as int - '0' as int
    else if 'a' <= c <= 'f' then c as int - 'a' as int + 10
    else if 'A' <= c <= 'F' then c as int - 'A' as int + 10
    else 16
  }

  predicate IsRadixDigit(c: char, radix: nat) {
    DigitValue(c) < radix
  }

  /** Length of the longest prefix of s made of radix digits. */
  function DigitPrefixLength(s: string, radix: nat): (n: nat)
    ensures n <= |s|
    ensures forall i :: 0 <= i < n ==> IsRadixDigit(s[i], radix)
    ensures n == |s| || !IsRadixDigit(s[n], radix)
  {
    if s != [] && IsRadixDigit(s[0], radix) then 1 + DigitPrefixLength(s[1..], radix) else 0
  }

  /** The number a string of radix digits denotes, most significant digit first. */
  function ValueOf(ds: string, radix: nat): nat {
    if ds == [] then 0 else ValueOf(ds[..|ds| - 1], radix) * radix + DigitValue(ds[|ds| - 1])
  }

  /**
   * parseInt(s) with the radix left undefined: skip leading white space, take one optional
   * sign, then read the magnitude. The sign of -0 is not kept.
   */
  function ParseInt(s: string): Option<int> {
    ParseSigned(Text.TrimStart(s))
  }

  function ParseSigned(t: string): Option<int> {
    var negative := t != [] && t[0] == '-';
    var u := if t != [] && (t[0] == '-' || t[0] == '+') then t[1..] else t;
    match ParseMagnitude(u)
    case None => None
    case Some(n) => Some(if negative then -(n as int) else n)
  }

  predicate HasHexPrefix(u: string) {
    |u| >= 2 && u[0] == '0' && (u[1] == 'x' || u[1] == 'X')
  }

  /** Radix 16 after a "0x" or "0X" prefix, else radix 10; the longest run of digits; none is NaN. */
  function ParseMagnitude(u: string): Option<nat> {
    var radix := if HasHexPrefix(u) then 16 else 10;
    var v := if HasHexPrefix(u) then u[2..] else u;
    var n := DigitPrefixLength(v, radix);
    if n == 0 then None else Some(ValueOf(v[..n], radix))
  }

  function DigitChar(d: nat): (c: char)
    requires d < 10
    ensures IsDecimalDigit(c) && DigitValue(c) == d
  {
    ('0' as int + d) as char
  }

  /** The decimal digits of n, with no leading zero. */
  function NatToString(n: nat): (r: string)
    ensures r != []
    ensures forall i :: 0 <= i < |r| ==> IsDecimalDigit(r[i])
    ensures (r[0] == '0') == (n == 0)
  {
    if n < 10 then [DigitChar(n)] else NatToString(n / 10) + [DigitChar(n % 10)]
  }

  /** The decimal form of an integer, with a leading '-' when it is negative. */
  function IntToString(m: int): string {
    if m < 0 then "-" + NatToString(-m) else NatToString(m)
  }

  /** The printed form of an integer: an optional '-', then digits; no space, quote or edge blank. */
  lemma IntToStringIsNumeral(m: int)
    ensures ' ' !in IntToString(m) && '"' !in IntToString(m) && '\n' !in IntToString(m)
    ensures Text.IsTrimmed(IntToString(m))
  {
    var s := IntToString(m);
    var ds := NatToString(if m < 0 then -m else m);
    assert s == (if m < 0 then "-" else "") + ds;
    assert forall i :: 0 <= i < |s| ==> s[i] == '-' || IsDecimalDigit(s[i]);
  }

  /** Reading the digits NatToString writes gives back the number. */
  lemma {:induction false} ValueOfNatToString(n: nat)
    ensures ValueOf(NatToString(n), 10) == n
  {
    if n >= 10 {
      var ds := NatToString(n);
      assert ds[..|ds| - 1] == NatToString(n / 10);
      ValueOfNatToString(n / 10);
    }
  }

  /** The digit run of a + b is exactly a when a is all digits and b does not start with one. */
  lemma {:induction false} DigitPrefixOfConcat(a: string, b: string, radix: nat)
    requires forall i :: 0 <= i < |a| ==> IsRadixDigit(a[i], radix)
    requires b == [] || !IsRadixDigit(b[0], radix)
    ensures DigitPrefixLength(a + b, radix) == |a|
  {
    if a != [] {
      assert (a + b)[1..] == a[1..] + b;
      DigitPrefixOfConcat(a[1..], b, radix);
    }
  }

  /** The decimal digits of n followed by text that does not continue them read back as n. */
  lemma ParseMagnitudeOfNatToString(k: nat, rest: string)
    requires rest == [] || (!IsDecimalDigit(rest[0]) && (k != 0 || (rest[0] != 'x' && rest[0] != 'X')))
    ensures ParseMagnitude(NatToString(k) + rest) == Some(k)
  {
    var ds := NatToString(k);
    var u := ds + rest;
    assert !HasHexPrefix(u) by {
      if |ds| >= 2 {
        assert IsDecimalDigit(u[1]);
      } else if |u| >= 2 {
        assert u[0] == ds[0] && u[1] == rest[0];
      }
    }
    DigitPrefixOfConcat(ds, rest, 10);
    assert u[..|ds|] == ds;
    ValueOfNatToString(k);
  }

  /**
   * Whatever integer the page prints, parseInt reads it back, also when text follows it,
   * provided that text does not continue the number (another digit, or an 'x' after a lone 0).
   */
  lemma ParseIntOfIntToString(m: int, rest: string)
    requires rest == [] || (!IsDecimalDigit(rest[0]) && (m != 0 || (rest[0] != 'x' && rest[0] != 'X')))
    ensures ParseInt(IntToString(m) + rest) == Some(m)
  {
    var k: nat := if m < 0 then -m else m;
    ParseMagnitudeOfNatToString(k, rest);
    if m < 0 {
      ParseIntOfNegative(NatToString(k), rest, k);
      assert IntToString(m) + rest == "-" + NatToString(k) + rest;
    } else {
      ParseIntOfDigits(NatToString(k), rest, k);
    }
  }

  lemma ParseIntOfNegative(ds: string, rest: string, k: nat)
    requires ParseMagnitude(ds + rest) == Some(k)
    ensures ParseInt("-" + ds + rest) == Some(0 - k)
  {
    var s := "-" + ds + rest;
    assert s[1..] == ds + rest;
    TrimStartOfNonWhitespace(s);
  }

  lemma ParseIntOfDigits(ds: string, rest: string, k: nat)
    requires ds != [] && IsDecimalDigit(ds[0])
    requires ParseMagnitude(ds + rest) == Some(k)
    ensures ParseInt(ds + rest) == Some(k)
  {
    var s := ds + rest;
    assert s[0] == ds[0];
    TrimStartOfNonWhitespace(s);
    assert ParseSigned(s) == Some(k);
  }

  lemma TrimStartOfNonWhitespace(s: string)
    requires s != [] && (s[0] == '-' || IsDecimalDigit(s[0]))
    ensures Text.TrimStart(s) == s
  {
    assert !Text.IsWhitespace(s[0]);
  }

  /** Leading white space does not change what parseInt reads. */
  lemma {:induction false} ParseIntSkipsLeadingWhitespace(w: string, s: string)
    requires Text.AllWhitespace(w)
    ensures ParseInt(w + s) == ParseInt(s)
  {
    TrimStartOfWhitespacePrefix(w, s);
  }

  lemma {:induction false} TrimStartOfWhitespacePrefix(w: string, s: string)
    requires Text.AllWhitespace(w)
    ensures Text.TrimStart(w + s) == Text.TrimStart(s)
  {
    if w == [] {
      assert w + s == s;
    } else {
      assert (w + s)[1..] == w[1..] + s;
      TrimStartOfWhitespacePrefix(w[1..], s);
    }
  }

  // What parseInt makes of a few values the duration column could hold.

  lemma ParseIntReadsLeadingNumber()
    ensures ParseInt("90 mins") == Some(90)
  {
    assert "90 mins" == IntToString(90) + " mins";
    ParseIntOfIntToString(90, " mins");
  }

  /** An 'x' after a number other than 0 only ends it. */
  lemma ParseIntStopsAtLetterX()
    ensures ParseInt("12x") == Some(12)
  {
    assert "12x" == IntToString(12) + "x";
    ParseIntOfIntToString(12, "x");
  }

  lemma ParseIntOfHexNumber()
    ensures ParseInt("0x1F") == Some(31)
  {
    var h := "1F";
    DigitPrefixOfConcat(h, [], 16);
    assert h + [] == h && h[..2] == h;
    assert ValueOf(h, 16) == 31 by {
      assert h[..1] == "1";
      assert ValueOf("1", 16) == 1 by {
        assert "1"[..0] == [];
      }
    }
    assert HasHexPrefix("0x1F") && "0x1F"[2..] == h;
    assert ParseMagnitude("0x1F") == Some(31);
    TrimStartOfNonWhitespace("0x1F");
  }

  /** A field that starts with a letter has no number to read: it is NaN. */
  lemma ParseIntOfWordIsNaN(s: string)
    requires s != [] && ('a' <= s[0] <= 'z' || 'A' <= s[0] <= 'Z')
    ensures ParseInt(s) == None
  {
    TrimStartOfLetter(s);
  }

  lemma ParseIntOfEmptyIsNaN()
    ensures ParseInt("") == None
  {
    assert Text.TrimStart("") == "";
    assert DigitPrefixLength("", 10) == 0;
  }

  /** parseInt("NaN") is NaN: there are no digits to read. */
  lemma ParseIntOfNaNIsNaN()
    ensures ParseInt("NaN") == None
  {
    ParseIntOfWordIsNaN("NaN");
  }

  lemma TrimStartOfLetter(s: string)
    requires s != [] && ('a' <= s[0] <= 'z' || 'A' <= s[0] <= 'Z')
    ensures Text.TrimStart(s) == s
  {
    assert !Text.IsWhitespace(s[0]);
  }
}
