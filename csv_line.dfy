/**
 * parseCSVLine (recipe.js:57-77): one pass over a line with two pieces of state, the field
 * being read and whether a double quote is open. A '"' flips the quote state and is dropped,
 * a ',' outside quotes ends the field, every other character is kept, and every field is
 * trimmed. A doubled '""' is not an escaped quote here: it just flips the state twice.
 */
module CsvLine {
  import Text

  /** The loop's variables between two characters: `result`, `current` and `inQuotes`. */
  datatype ScanState = ScanState(fields: seq<string>, current: string, inQuotes: bool)

  const Start := ScanState([], "", false)

  /** One turn of the loop body on the character c. */
  function Step(st: ScanState, c: char): ScanState {
    if c == '"' then st.(inQuotes := !st.inQuotes)
    else if c == ',' && !st.inQuotes then ScanState(st.fields + [Text.Trim(st.current)], "", st.inQuotes)
    else st.(current := st.current + [c])
  }

  /** The state once the loop has read all of prefix. */
  function ScanPrefix(prefix: string): ScanState {
    if prefix == [] then Start else Step(ScanPrefix(prefix[..|prefix| - 1]), prefix[|prefix| - 1])
  }

  /** The fields of a line: the ones pushed inside the loop, then the trimmed last one. */
  function ParseLine(line: string): seq<string> {
    var st := ScanPrefix(line);
    st.fields + [Text.Trim(st.current)]
  }

  // A reference description that does not run the scanner: a quote is open before
  // position i exactly when line[..i] holds an odd number of '"'.

  function QuoteCount(s: string): nat {
    multiset(s)['"']
  }

  /** Position i of s holds a field separator: a ',' with an even number of '"' before it. */
  predicate IsSeparatorAt(s: string, i: nat)
    requires i < |s|
  {
    s[i] == ',' && QuoteCount(s[..i]) % 2 == 0
  }

  function SeparatorCount(s: string): nat {
    if s == [] then 0
    else SeparatorCount(s[..|s| - 1]) + (if IsSeparatorAt(s, |s| - 1) then 1 else 0)
  }

  /** s with every '"' removed. */
  function RemoveQuotes(s: string): (r: string)
    ensures '"' !in r
  {
    if s == [] then []
    else RemoveQuotes(s[..|s| - 1]) + (if s[|s| - 1] == '"' then [] else [s[|s| - 1]])
  }

  predicate CleanField(f: string) {
    Text.IsTrimmed(f) && '"' !in f
  }

  /** A quote is open exactly when an odd number of '"' was read. */
  lemma {:induction false} QuoteStateIsParity(s: string)
    ensures ScanPrefix(s).inQuotes <==> QuoteCount(s) % 2 == 1
  {
    if s != [] {
      var init := s[..|s| - 1];
      QuoteStateIsParity(init);
      assert s == init + [s[|s| - 1]];
      assert multiset(s) == multiset(init) + multiset{s[|s| - 1]};
    }
  }

  /** One field is pushed per separator. */
  lemma {:induction false} PushedFieldCount(s: string)
    ensures |ScanPrefix(s).fields| == SeparatorCount(s)
  {
    if s != [] {
      var init := s[..|s| - 1];
      PushedFieldCount(init);
      QuoteStateIsParity(init);
    }
  }

  /** Pushed fields are trimmed and quote-free, and the field being read holds no '"'. */
  lemma {:induction false} ScannedFieldsAreClean(s: string)
    ensures forall f :: f in ScanPrefix(s).fields ==> CleanField(f)
    ensures '"' !in ScanPrefix(s).current
  {
    if s != [] {
      var st := ScanPrefix(s[..|s| - 1]);
      ScannedFieldsAreClean(s[..|s| - 1]);
      Text.TrimKeepsNoNewChar(st.current, '"');
    }
  }

  /** parseCSVLine returns one more field than the line has separators, so never none. */
  lemma FieldCount(line: string)
    ensures |ParseLine(line)| == SeparatorCount(line) + 1
  {
    PushedFieldCount(line);
  }

  /** Every field is trimmed and holds no '"'. */
  lemma FieldsAreClean(line: string)
    ensures forall f :: f in ParseLine(line) ==> CleanField(f)
  {
    ScannedFieldsAreClean(line);
    Text.TrimKeepsNoNewChar(ScanPrefix(line).current, '"');
  }

  /**
   * A line without separators is one field: the whole line, quotes removed, trimmed. So a
   * ',' inside quotes stays in the field, and an unmatched '"' simply runs to the end.
   */
  lemma {:induction false} ScanWithoutSeparator(s: string)
    requires SeparatorCount(s) == 0
    ensures ScanPrefix(s).fields == [] && ScanPrefix(s).current == RemoveQuotes(s)
  {
    if s != [] {
      var init := s[..|s| - 1];
      ScanWithoutSeparator(init);
      QuoteStateIsParity(init);
    }
  }

  lemma SingleField(line: string)
    requires SeparatorCount(line) == 0
    ensures ParseLine(line) == [Text.Trim(RemoveQuotes(line))]
  {
    ScanWithoutSeparator(line);
  }

  /** Fields pushed before do not influence a step. */
  lemma StepAfterFields(done: seq<string>, st: ScanState, c: char)
    ensures Step(ScanState(done + st.fields, st.current, st.inQuotes), c)
         == ScanState(done + Step(st, c).fields, Step(st, c).current, Step(st, c).inQuotes)
  {
    if c == ',' && !st.inQuotes {
      assert done + st.fields + [Text.Trim(st.current)] == done + (st.fields + [Text.Trim(st.current)]);
    }
  }

  /** The state after a separator: the fields of a, then whatever b alone produces. */
  lemma {:induction false} ScanAfterSeparator(a: string, b: string)
    requires QuoteCount(a) % 2 == 0
    ensures ScanPrefix(a + [','] + b)
         == ScanState(ParseLine(a) + ScanPrefix(b).fields, ScanPrefix(b).current, ScanPrefix(b).inQuotes)
  {
    var s := a + [','] + b;
    if b == [] {
      QuoteStateIsParity(a);
      assert s[..|s| - 1] == a;
      assert ScanPrefix(s) == Step(ScanPrefix(a), ',');
    } else {
      var init := b[..|b| - 1];
      var c := b[|b| - 1];
      ScanAfterSeparator(a, init);
      assert s[..|s| - 1] == a + [','] + init;
      assert ScanPrefix(s) == Step(ScanPrefix(a + [','] + init), c);
      assert ScanPrefix(b) == Step(ScanPrefix(init), c);
      StepAfterFields(ParseLine(a), ScanPrefix(init), c);
    }
  }

  /**
   * Splitting at a separator: when a holds an even number of '"', the ',' after it ends a
   * field and the fields of a + "," + b are those of a followed by those of b. With
   * SingleField this determines parseCSVLine on every line.
   */
  lemma SplitAtSeparator(a: string, b: string)
    requires QuoteCount(a) % 2 == 0
    ensures ParseLine(a + [','] + b) == ParseLine(a) + ParseLine(b)
  {
    var st := ScanPrefix(b);
    ScanAfterSeparator(a, b);
    assert ParseLine(a) + st.fields + [Text.Trim(st.current)] == ParseLine(a) + (st.fields + [Text.Trim(st.current)]);
  }

  /** The loop of parseCSVLine, proved to compute ParseLine. */
  method ParseCsvLine(line: string) returns (result: seq<string>)
    ensures result == ParseLine(line)
    ensures |result| == SeparatorCount(line) + 1
    ensures forall f :: f in result ==> CleanField(f)
  {
    result := [];
    var current := "";
    var inQuotes := false;
    for i := 0 to |line|
      invariant ScanState(result, current, inQuotes) == ScanPrefix(line[..i])
    {
      assert line[..i + 1][..i] == line[..i];
      var c := line[i];
      if c == '"' {
        inQuotes := !inQuotes;
      } else if c == ',' && !inQuotes {
        result := result + [Text.Trim(current)];
        current := "";
      } else {
        current := current + [c];
      }
    }
    assert line[..|line|] == line;
    result := result + [Text.Trim(current)];
    FieldCount(line);
    FieldsAreClean(line);
  }

  /** A field with neither ',' nor '"' is read as it is. */
  lemma {:induction false} PlainText(s: string)
    requires ',' !in s && '"' !in s
    ensures SeparatorCount(s) == 0 && RemoveQuotes(s) == s
  {
    if s != [] {
      PlainText(s[..|s| - 1]);
    }
  }

  /** Inside an opening '"' no ',' separates, and the quote itself is dropped. */
  lemma {:induction false} OpenQuote(inner: string)
    requires '"' !in inner
    ensures SeparatorCount(['"'] + inner) == 0 && RemoveQuotes(['"'] + inner) == inner
  {
    var s := ['"'] + inner;
    if inner != [] {
      var init := inner[..|inner| - 1];
      var c := inner[|inner| - 1];
      assert inner == init + [c];
      assert '"' !in init && c != '"';
      OpenQuote(init);
      assert s[..|s| - 1] == ['"'] + init;
      assert QuoteCount(['"'] + init) == 1 by {
        assert multiset(['"'] + init) == multiset{'"'} + multiset(init);
      }
      assert !IsSeparatorAt(s, |s| - 1);
      assert RemoveQuotes(s) == RemoveQuotes(['"'] + init) + [c];
    }
  }

  /**
   * A quoted field keeps its commas, and an unmatched opening quote runs to the end of the
   * line without an error.
   */
  lemma QuotedField(inner: string)
    requires '"' !in inner
    ensures ParseLine(['"'] + inner + ['"']) == [Text.Trim(inner)]
    ensures ParseLine(['"'] + inner) == [Text.Trim(inner)]
  {
    var s := ['"'] + inner;
    OpenQuote(inner);
    assert (s + ['"'])[..|s|] == s;
    SingleField(s);
    SingleField(s + ['"']);
  }

  lemma EmptyLineIsOneEmptyField()
    ensures ParseLine("") == [""]
  {
  }

  lemma PlainField(s: string)
    requires ',' !in s && '"' !in s && Text.IsTrimmed(s)
    ensures ParseLine(s) == [s]
  {
    PlainText(s);
    SingleField(s);
    Text.TrimOfTrimmed(s);
  }

  /** A quoted field followed by a plain one. */
  lemma QuotedThenPlain(inner: string, d: string)
    requires ',' !in d && '"' !in d && Text.IsTrimmed(d)
    requires '"' !in inner
    ensures ParseLine((['"'] + inner + ['"']) + [','] + d) == [Text.Trim(inner), d]
  {
    var q := ['"'] + inner + ['"'];
    QuotedField(inner);
    PlainField(d);
    assert QuoteCount(q) == 2 by {
      assert multiset(q) == multiset{'"'} + multiset(inner) + multiset{'"'};
    }
    SplitAtSeparator(q, d);
  }

  /** A plain field, a quoted one and a plain one, separated by commas. */
  lemma PlainQuotedPlain(a: string, inner: string, d: string)
    requires ',' !in a && '"' !in a && Text.IsTrimmed(a)
    requires ',' !in d && '"' !in d && Text.IsTrimmed(d)
    requires '"' !in inner
    ensures ParseLine(a + [','] + ((['"'] + inner + ['"']) + [','] + d)) == [a, Text.Trim(inner), d]
  {
    QuotedThenPlain(inner, d);
    PlainField(a);
    assert QuoteCount(a) == 0;
    SplitAtSeparator(a, (['"'] + inner + ['"']) + [','] + d);
  }

  /** The line a,"b,c",d has three fields: the quoted comma stays in the middle one. */
  lemma QuotedCommaExample()
    ensures ParseLine("a,\"b,c\",d") == ["a", "b,c", "d"]
  {
    PlainQuotedPlain("a", "b,c", "d");
    Text.TrimOfTrimmed("b,c");
    assert "a" + [','] + ((['"'] + "b,c" + ['"']) + [','] + "d") == "a,\"b,c\",d";
  }

  /** A plain field, then an opening quote that is never closed. */
  lemma PlainThenUnmatchedQuote(a: string, inner: string)
    requires ',' !in a && '"' !in a && Text.IsTrimmed(a)
    requires '"' !in inner
    ensures ParseLine(a + [','] + (['"'] + inner)) == [a, Text.Trim(inner)]
  {
    QuotedField(inner);
    PlainField(a);
    assert QuoteCount(a) == 0;
    SplitAtSeparator(a, ['"'] + inner);
  }

  /** An unmatched quote runs to the end of the line, taking the comma with it. */
  lemma UnmatchedQuoteExample()
    ensures ParseLine("a,\"b,c") == ["a", "b,c"]
  {
    PlainThenUnmatchedQuote("a", "b,c");
    Text.TrimOfTrimmed("b,c");
    assert "a" + [','] + (['"'] + "b,c") == "a,\"b,c";
  }
}
