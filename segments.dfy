/**
 * The detail view's text segmentation (recipe.js:162, 169-186). The ingredient list is the
 * ingredients field split on ',' with every piece trimmed. The instructions are split into
 * steps: on step numbers such as "1) " when the text contains a ')', on '.' otherwise; blank
 * pieces are dropped, the rest trimmed, and each step is shown with exactly one final '.'.
 */
module Segments {
  import opened Wrappers
  import Text
  import Numbers

  /** The ingredient list: split on ',' and trim, keeping empty pieces. */
  function Ingredients(raw: string): seq<string> {
    Text.TrimAll(Text.SplitOn(raw, ','))
  }

  /** One ingredient per comma and one more, each trimmed and free of ','. */
  lemma IngredientCount(raw: string)
    ensures |Ingredients(raw)| == multiset(raw)[','] + 1
    ensures forall p :: p in Ingredients(raw) ==> Text.IsTrimmed(p) && ',' !in p
  {
    Text.SplitOnCount(raw, ',');
    var pieces := Text.SplitOn(raw, ',');
    forall p | p in Ingredients(raw)
      ensures Text.IsTrimmed(p) && ',' !in p
    {
      var i :| 0 <= i < |pieces| && p == Text.Trim(pieces[i]);
      assert pieces[i] in pieces;
      Text.TrimKeepsNoNewChar(pieces[i], ',');
    }
  }

  /**
   * Writing a list of comma-free items joined by ',' and reading it back gives the items
   * trimmed, in their order, blank ones included.
   */
  lemma IngredientsOfList(items: seq<string>)
    requires items != []
    requires forall p :: p in items ==> ',' !in p
    ensures Ingredients(Text.Join(items, ',')) == Text.TrimAll(items)
  {
    Text.SplitOnJoin(items, ',');
  }

  lemma EmptyIngredientIsKept()
    ensures Ingredients("pork, ,corn") == ["pork", "", "corn"]
  {
    var items := ["pork", " ", "corn"];
    JoinOfPorkBlankCorn();
    IngredientsOfList(items);
    TrimOfPorkBlankCorn();
  }

  // The literal facts of EmptyIngredientIsKept, proved apart to keep that proof small.

  lemma JoinOfPorkBlankCorn()
    ensures Text.Join(["pork", " ", "corn"], ',') == "pork, ,corn"
  {
    var items := ["pork", " ", "corn"];
    assert items[1..] == [" ", "corn"];
    assert items[1..][1..] == ["corn"];
  }

  lemma TrimOfPorkBlankCorn()
    ensures Text.TrimAll(["pork", " ", "corn"]) == ["pork", "", "corn"]
  {
    assert Text.Trim(" ") == "" by {
      assert Text.TrimStart(" ") == Text.TrimStart("");
    }
    Text.TrimOfTrimmed("pork");
    Text.TrimOfTrimmed("corn");
  }

  // The step-number delimiter /\d+\)\s*/: a run of ASCII digits, a ')', then every white
  // space character that follows (the regular expression's \s, the same set as trim's).

  /** The end of the longest run of characters satisfying inRun that starts at i. */
  function RunEnd(s: string, i: nat, inRun: char -> bool): (k: nat)
    requires i <= |s|
    ensures i <= k <= |s|
    decreases |s| - i
  {
    if i < |s| && inRun(s[i]) then RunEnd(s, i + 1, inRun) else i
  }

  /** The run is all inRun and cannot be extended. */
  lemma {:induction false} RunEndFacts(s: string, i: nat, inRun: char -> bool)
    requires i <= |s|
    ensures forall j :: i <= j < RunEnd(s, i, inRun) ==> inRun(s[j])
    ensures RunEnd(s, i, inRun) == |s| || !inRun(s[RunEnd(s, i, inRun)])
    decreases |s| - i
  {
    if i < |s| && inRun(s[i]) {
      RunEndFacts(s, i + 1, inRun);
    }
  }

  /**
   * Where the delimiter that starts at q ends, if one starts there. The digit run is greedy
   * and backtracking to a shorter one cannot help, since a ')' is not a digit.
   */
  function DelimiterEnd(s: string, q: nat): (r: Option<nat>)
    requires q < |s|
    ensures r.Some? ==> q < r.value <= |s|
  {
    if !Numbers.IsDecimalDigit(s[q]) then None
    else
      var k := RunEnd(s, q, Numbers.IsDecimalDigit);
      if k < |s| && s[k] == ')' then Some(RunEnd(s, k + 1, Text.IsWhitespace)) else None
  }

  /**
   * String.prototype.split with a regular expression, as ECMAScript's RegExp.prototype[@@split]
   * runs it: p is where the current piece starts, q where a match is tried next. The
   * delimiter never matches the empty string, so an empty text is one empty piece.
   */
  function SplitNumberedFrom(s: string, p: nat, q: nat): seq<string>
    requires p <= q <= |s|
    decreases |s| - q
  {
    if q == |s| then [s[p..]]
    else
      match DelimiterEnd(s, q)
      case Some(e) => [s[p..q]] + SplitNumberedFrom(s, e, e)
      case None => SplitNumberedFrom(s, p, q + 1)
  }

  /** The split of a text at every step-number delimiter. */
  function SplitNumbered(s: string): seq<string> {
    SplitNumberedFrom(s, 0, 0)
  }

  /** No digit of s is immediately followed by ')': there is no step number left in it. */
  predicate NoStepNumber(s: string) {
    forall i :: 0 <= i < |s| - 1 ==> !(Numbers.IsDecimalDigit(s[i]) && s[i + 1] == ')')
  }

  /** The longest run is determined by its two defining facts. */
  lemma {:induction false} RunEndIs(s: string, i: nat, inRun: char -> bool, k: nat)
    requires i <= k <= |s|
    requires forall j :: i <= j < k ==> inRun(s[j])
    requires k == |s| || !inRun(s[k])
    ensures RunEnd(s, i, inRun) == k
    decreases k - i
  {
    if i < k {
      assert inRun(s[i]);
      RunEndIs(s, i + 1, inRun, k);
    }
  }

  /** A digit directly followed by ')' starts a delimiter. */
  lemma DelimiterAtStepNumber(s: string, i: nat)
    requires i + 1 < |s| && Numbers.IsDecimalDigit(s[i]) && s[i + 1] == ')'
    ensures DelimiterEnd(s, i).Some?
  {
    RunEndIs(s, i, Numbers.IsDecimalDigit, i + 1);
  }

  /**
   * A delimiter found at q is a step number there: digits from q up to the ')' that ends
   * them, so the text holds a digit directly followed by ')'.
   */
  lemma StepNumberAtDelimiter(s: string, q: nat)
    requires q < |s| && DelimiterEnd(s, q).Some?
    ensures var k := RunEnd(s, q, Numbers.IsDecimalDigit);
      q < k < |s| && s[k] == ')' && forall j :: q <= j < k ==> Numbers.IsDecimalDigit(s[j])
    ensures !NoStepNumber(s)
  {
    var k := RunEnd(s, q, Numbers.IsDecimalDigit);
    RunEndFacts(s, q, Numbers.IsDecimalDigit);
    assert Numbers.IsDecimalDigit(s[k - 1]) && s[k] == ')';
  }

  /** A stretch of s where no delimiter starts holds no step number. */
  lemma StretchWithoutDelimiter(s: string, p: nat, q: nat)
    requires p <= q <= |s|
    requires forall j :: p <= j < q ==> DelimiterEnd(s, j).None?
    ensures NoStepNumber(s[p..q])
  {
    var piece := s[p..q];
    forall i | 0 <= i < |piece| - 1
      ensures !(Numbers.IsDecimalDigit(piece[i]) && piece[i + 1] == ')')
    {
      if Numbers.IsDecimalDigit(piece[i]) && piece[i + 1] == ')' {
        DelimiterAtStepNumber(s, p + i);
        assert false;
      }
    }
  }

  lemma {:induction false} SplitNumberedFromHasNoStepNumber(s: string, p: nat, q: nat)
    requires p <= q <= |s|
    requires forall j :: p <= j < q ==> DelimiterEnd(s, j).None?
    ensures forall piece :: piece in SplitNumberedFrom(s, p, q) ==> NoStepNumber(piece)
    decreases |s| - q
  {
    if q == |s| {
      StretchWithoutDelimiter(s, p, q);
      assert s[p..q] == s[p..];
    } else {
      match DelimiterEnd(s, q)
      case Some(e) =>
        StretchWithoutDelimiter(s, p, q);
        SplitNumberedFromHasNoStepNumber(s, e, e);
      case None =>
        SplitNumberedFromHasNoStepNumber(s, p, q + 1);
    }
  }

  /** Every step number is consumed by the split: no piece still holds one. */
  lemma PiecesHaveNoStepNumber(s: string)
    ensures forall piece :: piece in SplitNumbered(s) ==> NoStepNumber(piece)
  {
    SplitNumberedFromHasNoStepNumber(s, 0, 0);
  }

  /** Trying matches over a stretch where none starts changes nothing. */
  lemma {:induction false} SkipStretch(s: string, p: nat, q: nat, q': nat)
    requires p <= q <= q' <= |s|
    requires forall j :: q <= j < q' ==> DelimiterEnd(s, j).None?
    ensures SplitNumberedFrom(s, p, q) == SplitNumberedFrom(s, p, q')
    decreases q' - q
  {
    if q < q' {
      SkipStretch(s, p, q + 1, q');
    }
  }

  /** A text without step numbers is one piece. */
  lemma WithoutStepNumber(s: string)
    requires NoStepNumber(s)
    ensures SplitNumbered(s) == [s]
  {
    forall j | 0 <= j < |s|
      ensures DelimiterEnd(s, j).None?
    {
      if DelimiterEnd(s, j).Some? {
        StepNumberAtDelimiter(s, j);
      }
    }
    SkipStretch(s, 0, 0, |s|);
  }

  /** Runs look only to the right, so text in front of s shifts them and nothing else. */
  lemma {:induction false} RunEndShift(x: string, s: string, i: nat, inRun: char -> bool)
    requires i <= |s|
    ensures RunEnd(x + s, |x| + i, inRun) == |x| + RunEnd(s, i, inRun)
    decreases |s| - i
  {
    if i < |s| && inRun(s[i]) {
      RunEndShift(x, s, i + 1, inRun);
    }
  }

  lemma DelimiterEndShift(x: string, s: string, q: nat)
    requires q < |s|
    ensures DelimiterEnd(s, q).None? ==> DelimiterEnd(x + s, |x| + q).None?
    ensures DelimiterEnd(s, q).Some? ==> DelimiterEnd(x + s, |x| + q) == Some(|x| + DelimiterEnd(s, q).value)
  {
    var t := x + s;
    assert t[|x| + q] == s[q];
    if Numbers.IsDecimalDigit(s[q]) {
      var k := RunEnd(s, q, Numbers.IsDecimalDigit);
      RunEndShift(x, s, q, Numbers.IsDecimalDigit);
      if k < |s| {
        assert t[|x| + k] == s[k];
        if s[k] == ')' {
          RunEndShift(x, s, k + 1, Text.IsWhitespace);
        }
      }
    }
  }

  lemma {:induction false} SplitNumberedFromShift(x: string, s: string, p: nat, q: nat)
    requires p <= q <= |s|
    ensures SplitNumberedFrom(x + s, |x| + p, |x| + q) == SplitNumberedFrom(s, p, q)
    decreases |s| - q
  {
    var t := x + s;
    if q == |s| {
      assert |x| + q == |t|;
      assert t[|x| + p..] == s[p..];
    } else if DelimiterEnd(s, q).Some? {
      var e := DelimiterEnd(s, q).value;
      SplitNumberedFromShift(x, s, e, e);
      ShiftAtMatch(x, s, p, q, e);
    } else {
      SplitNumberedFromShift(x, s, p, q + 1);
      ShiftWithoutMatch(x, s, p, q);
    }
  }

  lemma ShiftAtMatch(x: string, s: string, p: nat, q: nat, e: nat)
    requires p <= q < |s| && DelimiterEnd(s, q) == Some(e)
    requires SplitNumberedFrom(x + s, |x| + e, |x| + e) == SplitNumberedFrom(s, e, e)
    ensures SplitNumberedFrom(x + s, |x| + p, |x| + q) == SplitNumberedFrom(s, p, q)
  {
    var t := x + s;
    DelimiterEndShift(x, s, q);
    SplitAtMatch(t, |x| + p, |x| + q, |x| + e);
    SplitAtMatch(s, p, q, e);
    assert t[|x| + p..|x| + q] == s[p..q];
  }

  lemma ShiftWithoutMatch(x: string, s: string, p: nat, q: nat)
    requires p <= q < |s| && DelimiterEnd(s, q).None?
    requires SplitNumberedFrom(x + s, |x| + p, |x| + q + 1) == SplitNumberedFrom(s, p, q + 1)
    ensures SplitNumberedFrom(x + s, |x| + p, |x| + q) == SplitNumberedFrom(s, p, q)
  {
    DelimiterEndShift(x, s, q);
    SkipStretch(x + s, |x| + p, |x| + q, |x| + q + 1);
  }

  /** A match at q closes the piece that started at p. */
  lemma SplitAtMatch(s: string, p: nat, q: nat, e: nat)
    requires p <= q < |s| && DelimiterEnd(s, q) == Some(e)
    ensures SplitNumberedFrom(s, p, q) == [s[p..q]] + SplitNumberedFrom(s, e, e)
  {
  }

  /** No delimiter starts inside a text without step numbers that does not end in a digit. */
  lemma NoDelimiterIn(a: string, rest: string, j: nat)
    requires NoStepNumber(a) && (a == [] || !Numbers.IsDecimalDigit(a[|a| - 1]))
    requires j < |a|
    ensures DelimiterEnd(a + rest, j).None?
  {
    var s := a + rest;
    if Numbers.IsDecimalDigit(s[j]) {
      var k := RunEnd(s, j, Numbers.IsDecimalDigit);
      RunEndFacts(s, j, Numbers.IsDecimalDigit);
      assert s[|a| - 1] == a[|a| - 1];
      assert k < |a|;
      assert s[k - 1] == a[k - 1] && s[k] == a[k];
    }
  }

  /** The delimiter n + ")" + w, with n the step's digits and w all the white space after it. */
  lemma DelimiterAt(a: string, n: string, w: string, b: string)
    requires n != [] && forall i :: 0 <= i < |n| ==> Numbers.IsDecimalDigit(n[i])
    requires Text.AllWhitespace(w)
    requires b == [] || !Text.IsWhitespace(b[0])
    ensures var s := a + n + ")" + w + b;
      DelimiterEnd(s, |a|) == Some(|a| + |n| + 1 + |w|)
  {
    var s := a + n + ")" + w + b;
    var k := |a| + |n|;
    assert s[k] == ')';
    RunEndIs(s, |a|, Numbers.IsDecimalDigit, k);
    RunEndIs(s, k + 1, Text.IsWhitespace, k + 1 + |w|);
  }

  /** The first delimiter of s ends the first piece. */
  lemma FirstDelimiter(s: string, q: nat, e: nat)
    requires q < |s|
    requires forall j :: 0 <= j < q ==> DelimiterEnd(s, j).None?
    requires DelimiterEnd(s, q) == Some(e)
    ensures SplitNumbered(s) == [s[..q]] + SplitNumberedFrom(s, e, e)
  {
    SkipStretch(s, 0, 0, q);
  }

  /**
   * The split is determined piece by piece: the text before the first step number is the
   * first piece, and the rest is split the same way. With WithoutStepNumber this gives the
   * split of every text.
   */
  lemma SplitAtStepNumber(a: string, n: string, w: string, b: string)
    requires NoStepNumber(a) && (a == [] || !Numbers.IsDecimalDigit(a[|a| - 1]))
    requires n != [] && forall i :: 0 <= i < |n| ==> Numbers.IsDecimalDigit(n[i])
    requires Text.AllWhitespace(w)
    requires b == [] || !Text.IsWhitespace(b[0])
    ensures SplitNumbered(a + n + ")" + w + b) == [a] + SplitNumbered(b)
  {
    var x := a + n + ")" + w;
    var s := x + b;
    forall j | 0 <= j < |a|
      ensures DelimiterEnd(s, j).None?
    {
      NoDelimiterIn(a, n + ")" + w + b, j);
      assert a + (n + ")" + w + b) == s;
    }
    DelimiterAt(a, n, w, b);
    FirstDelimiter(s, |a|, |x|);
    assert s[..|a|] == a;
    SplitNumberedFromShift(x, b, 0, 0);
  }

  /** The numbered format is chosen exactly when the text contains a ')'. */
  function Pieces(instructions: string): seq<string> {
    if ')' in instructions then SplitNumbered(instructions) else Text.SplitOn(instructions, '.')
  }

  /** Array.prototype.filter(i => i.trim().length > 0), keeping the order. */
  function KeepNonBlank(ps: seq<string>): (r: seq<string>)
    ensures forall p :: p in r <==> p in ps && Text.Trim(p) != []
    ensures |r| <= |ps|
  {
    if ps == [] then []
    else
      var rest := KeepNonBlank(ps[1..]);
      assert ps == [ps[0]] + ps[1..];
      if Text.Trim(ps[0]) != [] then [ps[0]] + rest else rest
  }

  /** The steps, in order: non-blank pieces, trimmed. */
  function Steps(instructions: string): seq<string> {
    Text.TrimAll(KeepNonBlank(Pieces(instructions)))
  }

  /** Every step is non-empty and trimmed, in either format. */
  lemma StepsAreNonEmptyAndTrimmed(instructions: string)
    ensures forall st :: st in Steps(instructions) ==> st != [] && Text.IsTrimmed(st)
  {
    var kept := KeepNonBlank(Pieces(instructions));
    forall st | st in Steps(instructions)
      ensures st != [] && Text.IsTrimmed(st)
    {
      var i :| 0 <= i < |kept| && st == Text.Trim(kept[i]);
      assert kept[i] in kept;
    }
  }

  /**
   * A ')' that is not part of a step number still selects the numbered format, so the text
   * becomes a single step, sentences included.
   */
  lemma ParenWithoutStepNumber(instructions: string)
    requires ')' in instructions && NoStepNumber(instructions)
    requires Text.Trim(instructions) != []
    ensures Steps(instructions) == [Text.Trim(instructions)]
  {
    WithoutStepNumber(instructions);
  }

  /** instruction.replace(/\.$/, ''): at most one final '.' is removed. */
  function StripFinalDot(x: string): string {
    if x != [] && x[|x| - 1] == '.' then x[..|x| - 1] else x
  }

  /** A step as shown: its final '.' removed, if any, and one '.' appended. */
  function Render(x: string): (r: string)
    ensures r != [] && r[|r| - 1] == '.'
  {
    StripFinalDot(x) + "."
  }

  /** A step that ends in '.' is shown as it is; any other gets a '.' added. */
  lemma RenderAddsDotOnlyWhenMissing(x: string)
    ensures x != [] && x[|x| - 1] == '.' ==> Render(x) == x
    ensures x == [] || x[|x| - 1] != '.' ==> Render(x) == x + "."
  {
    if x != [] && x[|x| - 1] == '.' {
      assert x[..|x| - 1] + "." == x;
    }
  }

  /** Rendering a rendered step changes nothing. */
  lemma RenderIsIdempotent(x: string)
    ensures Render(Render(x)) == Render(x)
  {
    RenderAddsDotOnlyWhenMissing(Render(x));
  }

  /** The instruction list as shown. */
  function RenderedSteps(instructions: string): seq<string> {
    var steps := Steps(instructions);
    seq(|steps|, i requires 0 <= i < |steps| => Render(steps[i]))
  }

  /**
   * Each shown step is its step with at most its own final '.' taken off and one '.' put
   * back: the text before the shown '.' is the step's, and showing it again adds nothing.
   */
  lemma ShownStepsKeepTheirText(instructions: string)
    ensures |RenderedSteps(instructions)| == |Steps(instructions)|
    ensures forall i :: 0 <= i < |Steps(instructions)| ==>
      RenderedSteps(instructions)[i][|RenderedSteps(instructions)[i]| - 1] == '.'
      && StripFinalDot(RenderedSteps(instructions)[i]) == StripFinalDot(Steps(instructions)[i])
      && Render(RenderedSteps(instructions)[i]) == RenderedSteps(instructions)[i]
  {
    var steps := Steps(instructions);
    forall i | 0 <= i < |steps|
      ensures StripFinalDot(RenderedSteps(instructions)[i]) == StripFinalDot(steps[i])
      ensures Render(RenderedSteps(instructions)[i]) == RenderedSteps(instructions)[i]
    {
      var shown := StripFinalDot(steps[i]) + ".";
      assert shown[..|shown| - 1] == StripFinalDot(steps[i]);
      RenderIsIdempotent(steps[i]);
    }
  }

  /** A text that does not start with white space is not blank. */
  lemma NotBlank(a: string)
    requires a != [] && !Text.IsWhitespace(a[0])
    ensures Text.Trim(a) != []
  {
    Text.TrimEndFacts(a);
  }

  /** One piece is kept exactly when it is not blank. */
  lemma KeepNonBlankOfOne(x: string)
    ensures KeepNonBlank([x]) == if Text.Trim(x) != [] then [x] else []
  {
    assert [x][1..] == [];
  }

  /**
   * The filter works piece by piece: filtering two runs of pieces gives their two filtered
   * runs one after the other, so every non-blank piece is kept, as often as it occurs and in
   * its place in the order.
   */
  lemma {:induction false} KeepNonBlankAppend(a: seq<string>, b: seq<string>)
    ensures KeepNonBlank(a + b) == KeepNonBlank(a) + KeepNonBlank(b)
  {
    if a != [] {
      assert (a + b)[0] == a[0];
      assert (a + b)[1..] == a[1..] + b;
      KeepNonBlankCons(a);
      KeepNonBlankCons(a + b);
      KeepNonBlankAppend(a[1..], b);
    } else {
      assert a + b == b;
    }
  }

  lemma KeepNonBlankCons(ps: seq<string>)
    requires ps != []
    ensures KeepNonBlank(ps) == (if Text.Trim(ps[0]) != [] then [ps[0]] else []) + KeepNonBlank(ps[1..])
  {
  }

  /** Blank pieces are dropped and the others kept, in order. */
  lemma KeepNonBlankOfThree(x: string, y: string, z: string)
    ensures KeepNonBlank([x, y, z]) == (if Text.Trim(x) != [] then [x] else [])
      + (if Text.Trim(y) != [] then [y] else []) + (if Text.Trim(z) != [] then [z] else [])
  {
    assert [x, y, z] == [x] + [y] + [z];
    KeepNonBlankAppend([x] + [y], [z]);
    KeepNonBlankAppend([x], [y]);
    KeepNonBlankOfOne(x);
    KeepNonBlankOfOne(y);
    KeepNonBlankOfOne(z);
  }

  lemma TwoNumberedPieces(a: string, b: string)
    requires NoStepNumber(a) && a != [] && !Numbers.IsDecimalDigit(a[|a| - 1]) && !Text.IsWhitespace(a[0])
    requires NoStepNumber(b) && (b == [] || !Text.IsWhitespace(b[0]))
    ensures SplitNumbered("1) " + a + "2) " + b) == ["", a, b]
  {
    var rest := a + "2" + ")" + " " + b;
    WithoutStepNumber(b);
    SplitAtStepNumber(a, "2", " ", b);
    SplitAtStepNumber("", "1", " ", rest);
    assert "" + "1" + ")" + " " + rest == "1) " + a + "2) " + b;
  }

  /** Two steps numbered "1) " and "2) ": the empty piece before "1)" is dropped. */
  lemma TwoNumberedSteps(a: string, b: string)
    requires NoStepNumber(a) && a != [] && !Numbers.IsDecimalDigit(a[|a| - 1]) && !Text.IsWhitespace(a[0])
    requires NoStepNumber(b) && b != [] && !Text.IsWhitespace(b[0])
    ensures Steps("1) " + a + "2) " + b) == [Text.Trim(a), Text.Trim(b)]
  {
    var text := "1) " + a + "2) " + b;
    TwoNumberedPieces(a, b);
    assert text[1] == ')';
    NotBlank(a);
    NotBlank(b);
    KeepNonBlankOfThree("", a, b);
  }

  lemma TwoSentencePieces(a: string, b: string)
    requires '.' !in a && '.' !in b
    ensures Text.SplitOn(a + "." + b + ".", '.') == [a, b, ""]
  {
    var tail := b + ['.'] + "";
    Text.SplitOnWithoutSeparator(b, '.');
    Text.SplitOnAtSeparator(b, "", '.');
    assert Text.SplitOn(tail, '.') == [b, ""];
    Text.SplitOnPrepend(a, tail, '.');
    assert a + "." + b + "." == a + ['.'] + tail;
  }

  /** Two sentences, each ended by '.': the empty piece after the last '.' is dropped. */
  lemma TwoSentences(a: string, b: string)
    requires '.' !in a && ')' !in a && Text.Trim(a) != []
    requires '.' !in b && ')' !in b && Text.Trim(b) != []
    ensures Steps(a + "." + b + ".") == [Text.Trim(a), Text.Trim(b)]
  {
    var text := a + "." + b + ".";
    TwoSentencePieces(a, b);
    assert ')' !in text;
    KeepNonBlankOfThree(a, b, "");
  }

  /** The period format: "Boil. Simmer." gives the steps "Boil" and "Simmer". */
  lemma BoilThenSimmer()
    ensures Steps("Boil. Simmer.") == ["Boil", "Simmer"]
  {
    BoilAndSimmer();
    TwoSentences("Boil", " Simmer");
  }

  /** The literal facts of BoilThenSimmer, proved apart to keep that proof small. */
  lemma BoilAndSimmer()
    ensures '.' !in "Boil" && ')' !in "Boil" && '.' !in " Simmer" && ')' !in " Simmer"
    ensures "Boil" + "." + " Simmer" + "." == "Boil. Simmer."
    ensures Text.Trim("Boil") == "Boil" && Text.Trim(" Simmer") == "Simmer"
  {
    assert Text.TrimStart("Boil") == "Boil" && Text.TrimEnd("Boil") == "Boil";
    assert " Simmer"[1..] == "Simmer";
    assert Text.TrimStart(" Simmer") == "Simmer" && Text.TrimEnd("Simmer") == "Simmer";
  }
}
