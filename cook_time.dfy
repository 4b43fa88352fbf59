/**
 * formatCookTime (recipe.js:131-143): a duration in minutes as words. Under an hour it is
 * "<m> minutes"; otherwise whole hours, pluralised when more than one, then the remaining
 * minutes when there are any.
 */
module CookTime {
  import opened Wrappers
  import Numbers
  import Text

  function HourWord(hours: int): string {
    if hours > 1 then "hours" else "hour"
  }

  /**
   * The words of the duration, in order. The source's Math.floor(minutes / 60) and
   * minutes % 60 only run when minutes >= 60, where they agree with Dafny's / and %.
   */
  function CookTimeWords(minutes: int): seq<string> {
    if minutes < 60 then [Numbers.IntToString(minutes), "minutes"]
    else
      var hours := minutes / 60;
      var mins := minutes % 60;
      if mins == 0 then [Numbers.IntToString(hours), HourWord(hours)]
      else [Numbers.IntToString(hours), HourWord(hours), Numbers.IntToString(mins), "minutes"]
  }

  /** The template literal puts one space between consecutive words. */
  function FormatCookTime(minutes: int): string {
    Text.Join(CookTimeWords(minutes), ' ')
  }

  const NaNWords: seq<string> := ["NaN", "hour", "NaN", "minutes"]

  /**
   * The page passes whatever parseInt produced. NaN is not below 60, and both NaN / 60 and
   * NaN % 60 print as NaN, so an unreadable duration shows as "NaN hour NaN minutes".
   */
  function FormatCookTimeValue(minutes: Option<int>): string {
    match minutes
    case Some(m) => FormatCookTime(m)
    case None => Text.Join(NaNWords, ' ')
  }

  /**
   * A reader for the formatter's output, used to state that formatting loses nothing: it
   * splits the text into words and undoes each of the three shapes.
   */
  ghost function ReadCookTime(s: string): Option<int> {
    ReadWords(Text.SplitOn(s, ' '))
  }

  ghost predicate IsHourWord(w: string) {
    w == "hour" || w == "hours"
  }

  ghost function ReadWords(words: seq<string>): Option<int> {
    if |words| == 2 && words[1] == "minutes" then Numbers.ParseInt(words[0])
    else if |words| == 2 && IsHourWord(words[1]) then
      match Numbers.ParseInt(words[0])
      case Some(h) => Some(60 * h)
      case None => None
    else if |words| == 4 && IsHourWord(words[1]) && words[3] == "minutes" then
      match (Numbers.ParseInt(words[0]), Numbers.ParseInt(words[2]))
      case (Some(h), Some(m)) => Some(60 * h + m)
      case _ => None
    else None
  }

  /** The printed form of an integer is one word, and parseInt reads it back. */
  lemma IntToStringIsOneWord(m: int)
    ensures ' ' !in Numbers.IntToString(m)
    ensures Numbers.ParseInt(Numbers.IntToString(m)) == Some(m)
  {
    var s := Numbers.IntToString(m);
    Numbers.IntToStringIsNumeral(m);
    Numbers.ParseIntOfIntToString(m, []);
    assert s + [] == s;
  }

  /** No word of a duration holds a space. */
  lemma CookTimeWordsAreSpaceFree(minutes: int)
    ensures forall w :: w in CookTimeWords(minutes) ==> ' ' !in w
  {
    var words := CookTimeWords(minutes);
    var hours, mins := minutes / 60, minutes % 60;
    if minutes < 60 {
      var n := Numbers.IntToString(minutes);
      assert words == [n, "minutes"];
      IntToStringIsOneWord(minutes);
      SpaceFreeWords(n, "minutes", [], words);
    } else if mins == 0 {
      var h := Numbers.IntToString(hours);
      assert words == [h, HourWord(hours)];
      IntToStringIsOneWord(hours);
      SpaceFreeWords(h, HourWord(hours), [], words);
    } else {
      var h, r := Numbers.IntToString(hours), Numbers.IntToString(mins);
      assert words == [h, HourWord(hours), r, "minutes"];
      IntToStringIsOneWord(hours);
      IntToStringIsOneWord(mins);
      SpaceFreeWords(h, HourWord(hours), [r, "minutes"], words);
    }
  }

  /** So splitting the text on spaces gives the words back. */
  lemma CookTimeWordsSplitBack(minutes: int)
    ensures Text.SplitOn(FormatCookTime(minutes), ' ') == CookTimeWords(minutes)
  {
    CookTimeWordsAreSpaceFree(minutes);
    Text.SplitOnJoin(CookTimeWords(minutes), ' ');
  }

  lemma SpaceFreeWords(a: string, b: string, more: seq<string>, words: seq<string>)
    requires words == [a, b] + more
    requires ' ' !in a && ' ' !in b && forall w :: w in more ==> ' ' !in w
    ensures forall w :: w in words ==> ' ' !in w
  {
  }

  /** "<n> minutes" reads back as n. */
  lemma ReadMinutes(n: string, k: int)
    requires Numbers.ParseInt(n) == Some(k)
    ensures ReadWords([n, "minutes"]) == Some(k)
  {
  }

  /** "<h> hour" or "<h> hours" reads back as h hours. */
  lemma ReadHours(h: string, unit: string, k: int)
    requires Numbers.ParseInt(h) == Some(k) && IsHourWord(unit)
    ensures ReadWords([h, unit]) == Some(60 * k)
  {
  }

  /** "<h> hour(s) <r> minutes" reads back as h hours and r minutes. */
  lemma ReadHoursAndMinutes(h: string, unit: string, r: string, k: int, m: int)
    requires Numbers.ParseInt(h) == Some(k) && IsHourWord(unit) && Numbers.ParseInt(r) == Some(m)
    ensures ReadWords([h, unit, r, "minutes"]) == Some(60 * k + m)
  {
  }

  /** Each word list reads back as the number of minutes it was made from. */
  lemma ReadCookTimeWords(minutes: int)
    ensures ReadWords(CookTimeWords(minutes)) == Some(minutes)
  {
    var hours, mins := minutes / 60, minutes % 60;
    if minutes < 60 {
      IntToStringIsOneWord(minutes);
      ReadMinutes(Numbers.IntToString(minutes), minutes);
    } else if mins == 0 {
      IntToStringIsOneWord(hours);
      ReadHours(Numbers.IntToString(hours), HourWord(hours), hours);
    } else {
      IntToStringIsOneWord(hours);
      IntToStringIsOneWord(mins);
      ReadHoursAndMinutes(Numbers.IntToString(hours), HourWord(hours), Numbers.IntToString(mins), hours, mins);
    }
  }

  /** Every duration the page prints reads back as the same number of minutes. */
  lemma FormatCookTimeReadsBack(minutes: int)
    ensures ReadCookTime(FormatCookTime(minutes)) == Some(minutes)
  {
    CookTimeWordsSplitBack(minutes);
    ReadCookTimeWords(minutes);
  }

  /** The NaN text reads back as NaN: parseInt finds no digits in "NaN". */
  lemma NaNReadsBack()
    ensures ReadCookTime(Text.Join(NaNWords, ' ')) == None
  {
    assert forall w :: w in NaNWords ==> ' ' !in w;
    Text.SplitOnJoin(NaNWords, ' ');
    Numbers.TrimStartOfLetter("NaN");
  }

  /** Formatting the parsed duration loses nothing, NaN included: NaN reads back as NaN. */
  lemma FormatCookTimeValueReadsBack(minutes: Option<int>)
    ensures ReadCookTime(FormatCookTimeValue(minutes)) == minutes
  {
    if minutes.Some? {
      FormatCookTimeReadsBack(minutes.value);
    } else {
      NaNReadsBack();
    }
  }

  lemma NaNText()
    ensures FormatCookTimeValue(None) == "NaN hour NaN minutes"
  {
  }

  lemma UnderAnHourExample()
    ensures FormatCookTime(45) == "45 minutes"
  {
    assert Numbers.NatToString(45) == "45";
  }

  lemma WholeHoursExample()
    ensures FormatCookTime(120) == "2 hours"
  {
    assert Numbers.NatToString(2) == "2";
  }

  lemma HourAndMinutesWords()
    ensures CookTimeWords(90) == ["1", "hour", "30", "minutes"]
  {
    assert Numbers.NatToString(1) == "1";
    assert Numbers.NatToString(30) == "30";
  }

  lemma HourAndMinutesExample()
    ensures FormatCookTime(90) == "1 hour 30 minutes"
  {
    HourAndMinutesWords();
    JoinOfFour("1", "hour", "30", "minutes");
    assert "1" + " " + ("hour" + " " + ("30" + " " + "minutes")) == "1 hour 30 minutes";
  }

  lemma JoinOfFour(a: string, b: string, c: string, d: string)
    ensures Text.Join([a, b, c, d], ' ') == a + " " + (b + " " + (c + " " + d))
  {
    assert [c, d][1..] == [d];
    assert Text.Join([c, d], ' ') == c + " " + d;
    assert [b, c, d][1..] == [c, d];
    assert Text.Join([b, c, d], ' ') == b + " " + (c + " " + d);
    assert [a, b, c, d][1..] == [b, c, d];
  }
}
