/**
 * String helpers shared by the parser and the segmenters: white space, trimming,
 * splitting on a single character, and joining back.
 *
 * White space is the set ECMAScript uses both for String.prototype.trim and for the
 * regular-expression class \s: the WhiteSpace and LineTerminator code points.
 */
module Text {

  /**
   * TAB, LF, VT, FF, CR, SPACE, NO-BREAK SPACE, the other space separators of Unicode
   * (U+1680, U+2000 to U+200A, U+202F, U+205F, U+3000), LINE and PARAGRAPH SEPARATOR, and
   * the byte order mark U+FEFF.
   */
  predicate IsWhitespace(c: char) {
    '\t' <= c <= '\r' || c == ' ' || c == '\U{00A0}' || c == '\U{1680}'
    || '\U{2000}' <= c <= '\U{200A}' || c == '\U{2028}' || c == '\U{2029}'
    || c == '\U{202F}' || c == '\U{205F}' || c == '\U{3000}' || c == '\U{FEFF}'
  }

  predicate AllWhitespace(s: string) {
    forall i :: 0 <= i < |s| ==> IsWhitespace(s[i])
  }

  /** Neither end of s is white space. */
  predicate IsTrimmed(s: string) {
    s == [] || (!IsWhitespace(s[0]) && !IsWhitespace(s[|s| - 1]))
  }

  /** String.prototype.trimStart: drops leading white space. */
  function TrimStart(s: string): string {
    if s != [] && IsWhitespace(s[0]) then TrimStart(s[1..]) else s
  }

  /** String.prototype.trimEnd: drops trailing white space. */
  function TrimEnd(s: string): string {
    if s != [] && IsWhitespace(s[|s| - 1]) then TrimEnd(s[..|s| - 1]) else s
  }

  /** TrimStart keeps a suffix of s that does not start with white space, and drops only white space. */
  lemma {:induction false} TrimStartFacts(s: string)
    ensures |TrimStart(s)| <= |s| && TrimStart(s) == s[|s| - |TrimStart(s)|..]
    ensures AllWhitespace(s[..|s| - |TrimStart(s)|])
    ensures TrimStart(s) == [] || !IsWhitespace(TrimStart(s)[0])
  {
    if s != [] && IsWhitespace(s[0]) {
      TrimStartFacts(s[1..]);
      var r := TrimStart(s[1..]);
      assert s[..|s| - |r|] == [s[0]] + s[1..][..|s| - 1 - |r|];
    }
  }

  /** TrimEnd keeps a prefix of s that does not end with white space, and drops only white space. */
  lemma {:induction false} TrimEndFacts(s: string)
    ensures |TrimEnd(s)| <= |s| && TrimEnd(s) == s[..|TrimEnd(s)|]
    ensures AllWhitespace(s[|TrimEnd(s)|..])
    ensures TrimEnd(s) == [] || !IsWhitespace(TrimEnd(s)[|TrimEnd(s)| - 1])
  {
    if s != [] && IsWhitespace(s[|s| - 1]) {
      TrimEndFacts(s[..|s| - 1]);
      var r := TrimEnd(s[..|s| - 1]);
      assert s[|r|..] == s[..|s| - 1][|r|..] + [s[|s| - 1]];
    }
  }

  /** String.prototype.trim: white space removed from both ends. */
  function Trim(s: string): (r: string)
    ensures IsTrimmed(r)
  {
    var t := TrimStart(s);
    var r := TrimEnd(t);
    TrimStartFacts(s);
    TrimEndFacts(t);
    assert r != [] ==> r[0] == t[0];
    r
  }

  /** Trim keeps the middle of s: what it removes at either end is white space. */
  lemma TrimKeepsMiddle(s: string)
    ensures exists i, j :: 0 <= i <= j <= |s| && Trim(s) == s[i..j] && AllWhitespace(s[..i]) && AllWhitespace(s[j..])
  {
    var t := TrimStart(s);
    TrimStartFacts(s);
    TrimEndFacts(t);
    TrimBounds(s, t, TrimEnd(t));
  }

  /** A middle part r of a suffix t of s, with white space on both sides, is a trim of s. */
  lemma TrimBounds(s: string, t: string, r: string)
    requires |t| <= |s| && t == s[|s| - |t|..] && AllWhitespace(s[..|s| - |t|])
    requires |r| <= |t| && r == t[..|r|] && AllWhitespace(t[|r|..])
    ensures exists i, j :: 0 <= i <= j <= |s| && r == s[i..j] && AllWhitespace(s[..i]) && AllWhitespace(s[j..])
  {
    var i := |s| - |t|;
    var j := i + |r|;
    assert s[i..j] == s[i..][..|r|];
    assert s[j..] == t[|r|..];
  }

  /** Trim adds no character. */
  lemma TrimKeepsNoNewChar(s: string, c: char)
    requires c !in s
    ensures c !in Trim(s)
  {
    TrimKeepsMiddle(s);
    var i, j :| 0 <= i <= j <= |s| && Trim(s) == s[i..j];
    forall k | 0 <= k < |Trim(s)|
      ensures Trim(s)[k] != c
    {
      assert Trim(s)[k] == s[i + k];
    }
  }

  lemma TrimOfTrimmed(s: string)
    requires IsTrimmed(s)
    ensures Trim(s) == s
  {
  }

  /** Array.prototype.map(i => i.trim()). */
  function TrimAll(ps: seq<string>): seq<string> {
    seq(|ps|, i requires 0 <= i < |ps| => Trim(ps[i]))
  }

  /** Trimming pieces that are already trimmed changes nothing. */
  lemma TrimAllOfTrimmed(ps: seq<string>)
    requires forall i :: 0 <= i < |ps| ==> IsTrimmed(ps[i])
    ensures TrimAll(ps) == ps
  {
    forall i | 0 <= i < |ps|
      ensures TrimAll(ps)[i] == ps[i]
    {
      TrimOfTrimmed(ps[i]);
    }
  }

  /** String.prototype.split with a one-character separator: the pieces between occurrences of d. */
  function SplitOn(s: string, d: char): (r: seq<string>)
    ensures r != []
    ensures forall p :: p in r ==> d !in p
  {
    if s == [] then [[]]
    else
      var rest := SplitOn(s[1..], d);
      assert s == [s[0]] + s[1..];
      if s[0] == d then [[]] + rest
      else [[s[0]] + rest[0]] + rest[1..]
  }

  /** There is one more piece than there are separators. */
  lemma {:induction false} SplitOnCount(s: string, d: char)
    ensures |SplitOn(s, d)| == multiset(s)[d] + 1
  {
    if s != [] {
      SplitOnCount(s[1..], d);
      assert s == [s[0]] + s[1..];
      assert multiset(s) == multiset{s[0]} + multiset(s[1..]);
    }
  }

  /** Array.prototype.join with a one-character separator. */
  function Join(ps: seq<string>, d: char): string {
    if ps == [] then []
    else if |ps| == 1 then ps[0]
    else ps[0] + [d] + Join(ps[1..], d)
  }

  /** A character that is in no piece and is not the separator is not in the joined string. */
  lemma {:induction false} JoinAvoids(ps: seq<string>, d: char, c: char)
    requires c != d
    requires forall i :: 0 <= i < |ps| ==> c !in ps[i]
    ensures c !in Join(ps, d)
  {
    if |ps| > 1 {
      JoinAvoids(ps[1..], d, c);
    }
  }

  /** The joined string starts as the first piece does. */
  lemma JoinStart(ps: seq<string>, d: char)
    requires ps != [] && ps[0] != []
    ensures Join(ps, d) != [] && Join(ps, d)[0] == ps[0][0]
  {
  }

  /** The joined string ends as the last piece does. */
  lemma {:induction false} JoinLast(ps: seq<string>, d: char)
    requires ps != [] && ps[|ps| - 1] != []
    ensures Join(ps, d) != []
    ensures Join(ps, d)[|Join(ps, d)| - 1] == ps[|ps| - 1][|ps[|ps| - 1]| - 1]
  {
    if |ps| > 1 {
      JoinLast(ps[1..], d);
    }
  }

  /** Joining the pieces of a split gives back the original string. */
  lemma {:induction false} JoinSplitOn(s: string, d: char)
    ensures Join(SplitOn(s, d), d) == s
  {
    if s != [] {
      JoinSplitOn(s[1..], d);
      var rest := SplitOn(s[1..], d);
      if s[0] == d {
        assert SplitOn(s, d) == [[]] + rest;
        assert Join([[]] + rest, d) == [] + [d] + Join(rest, d);
      } else if |rest| == 1 {
        assert SplitOn(s, d) == [[s[0]] + rest[0]];
      } else {
        var first := [s[0]] + rest[0];
        assert SplitOn(s, d) == [first] + rest[1..];
        assert rest == [rest[0]] + rest[1..];
        assert Join(rest, d) == rest[0] + [d] + Join(rest[1..], d);
        assert Join([first] + rest[1..], d) == first + [d] + Join(rest[1..], d);
      }
    }
  }

  /** A string without the separator is a single piece. */
  lemma {:induction false} SplitOnWithoutSeparator(s: string, d: char)
    requires d !in s
    ensures SplitOn(s, d) == [s]
  {
    if s != [] {
      assert s[0] != d && s == [s[0]] + s[1..];
      SplitOnWithoutSeparator(s[1..], d);
    }
  }

  /** Splitting at one occurrence of the separator splits the two sides independently. */
  lemma {:induction false} SplitOnAtSeparator(a: string, b: string, d: char)
    ensures SplitOn(a + [d] + b, d) == SplitOn(a, d) + SplitOn(b, d)
  {
    var s := a + [d] + b;
    if a == [] {
      assert s[1..] == b;
    } else {
      assert s[1..] == a[1..] + [d] + b;
      SplitOnAtSeparator(a[1..], b, d);
    }
  }

  /** A separator-free piece in front of a string adds one piece in front of its split. */
  lemma SplitOnPrepend(w: string, rest: string, d: char)
    requires d !in w
    ensures SplitOn(w + [d] + rest, d) == [w] + SplitOn(rest, d)
  {
    SplitOnWithoutSeparator(w, d);
    SplitOnAtSeparator(w, rest, d);
  }

  /** Splitting a join of separator-free pieces gives back the pieces. */
  lemma {:induction false} SplitOnJoin(ps: seq<string>, d: char)
    requires ps != []
    requires forall p :: p in ps ==> d !in p
    ensures SplitOn(Join(ps, d), d) == ps
  {
    if |ps| == 1 {
      SplitOnWithoutSeparator(ps[0], d);
    } else {
      SplitOnJoin(ps[1..], d);
      SplitOnAtSeparator(ps[0], Join(ps[1..], d), d);
      SplitOnWithoutSeparator(ps[0], d);
      assert ps == [ps[0]] + ps[1..];
    }
  }
}
