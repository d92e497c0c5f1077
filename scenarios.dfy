/**
 * The messages of the repository's test database, read through the model:
 * each scenario states, for every selector value or for the values the
 * tests use, what TransChoice and Translate return.
 */
module Scenarios {
  import opened Wrappers
  import opened Strings
  import opened Choices
  import opened ChoiceFactory
  import opened Localization

  // ---------------------------------------------------------------------
  // Choice texts

  /** Printable ASCII up to `Z`, the lower-case letters and the kana and
      CJK ideographs: none of them is white space, `{`, `[` or `|`. */
  predicate IsProseChar(c: char) {
    (' ' <= c <= 'Z') || ('a' <= c <= 'z') || ('\U{3040}' <= c <= '\U{9FFF}')
  }

  predicate Prose(s: string) {
    forall k :: 0 <= k < |s| ==> IsProseChar(s[k])
  }

  lemma ProseConcat(a: string, b: string)
    requires Prose(a) && Prose(b)
    ensures Prose(a + b)
  {
    forall k | 0 <= k < |a + b| ensures IsProseChar((a + b)[k]) {
      if k < |a| { assert (a + b)[k] == a[k]; } else { assert (a + b)[k] == b[k - |a|]; }
    }
  }

  /** Prose around a `:value` placeholder. */
  lemma ProseAround(a: string, b: string)
    requires Prose(a) && Prose(b)
    ensures Prose(a + ":value" + b)
  {
    assert Prose(":value");
    ProseConcat(a, ":value");
    ProseConcat(a + ":value", b);
  }

  /** A choice whose text is prose without blank ends renders and reads
      back, and adds no `|` to a message. */
  lemma ProseRenderable(c: Choice)
    requires Valid(c) && BoundsInInt32(c.selector)
    requires Prose(c.text) && c.text != [] && c.text[0] != ' ' && c.text[|c.text| - 1] != ' '
    ensures Renderable(c) && '|' !in c.text
  {
    forall ch | ch in c.text ensures ch != '{' && ch != '[' && ch != '|' {
      var k :| 0 <= k < |c.text| && c.text[k] == ch;
    }
  }

  // ---------------------------------------------------------------------
  // choice_test

  /** The message's segments, each written as its pattern, its gap and its
      text; the message is them joined by `|`. */
  const ChoiceTestSegments: seq<string> := [
    "{0}" + " " + "zero",
    "{1}" + " " + "one",
    "[2,5]" + " " + "between two and five",
    "[6,*]" + " " + "greater than six"
  ]

  const ChoiceTestText: string := Join(ChoiceTestSegments, '|')

  const Zero := Choice("zero", Single(0))
  const One := Choice("one", Single(1))
  const TwoToFive := Choice("between two and five", Range(2, 5))
  const SixUp := Choice("greater than six", Above(6))

  lemma ZeroRendered() ensures Render(Zero, " ") == "{0}" + " " + "zero" {
    assert ShowInt(0) == "0";
    assert Spelled(SingleShape, "0", "") == "{0}";
  }

  lemma OneRendered() ensures Render(One, " ") == "{1}" + " " + "one" {
    assert ShowInt(1) == "1";
    assert Spelled(SingleShape, "1", "") == "{1}";
  }

  lemma TwoToFiveRendered() ensures Render(TwoToFive, " ") == "[2,5]" + " " + "between two and five" {
    assert ShowInt(2) == "2" && ShowInt(5) == "5";
    assert Spelled(RangeShape, "2", "5") == "[2,5]";
  }

  lemma SixUpRendered() ensures Render(SixUp, " ") == "[6,*]" + " " + "greater than six" {
    assert ShowInt(6) == "6";
    assert Spelled(AboveShape, "6", "*") == "[6,*]";
  }

  const ChoiceTestChoices: seq<Choice> := [Zero, One, TwoToFive, SixUp]

  /** The segments are the four choices rendered with one space each. */
  lemma ChoiceTestRendered()
    ensures Rendered(ChoiceTestChoices, " ") == ChoiceTestSegments
  {
    ZeroRendered();
    OneRendered();
    TwoToFiveRendered();
    SixUpRendered();
  }

  lemma ChoiceTestRenderable()
    ensures forall i :: 0 <= i < |ChoiceTestChoices| ==>
      Renderable(ChoiceTestChoices[i]) && '|' !in ChoiceTestChoices[i].text
  {
    ProseRenderable(Zero);
    ProseRenderable(One);
    TwoToFiveRenderable();
    SixUpRenderable();
  }

  lemma TwoToFiveRenderable() ensures Renderable(TwoToFive) && '|' !in TwoToFive.text {
    ProseRenderable(TwoToFive);
  }

  lemma SixUpRenderable() ensures Renderable(SixUp) && '|' !in SixUp.text {
    ProseRenderable(SixUp);
  }

  lemma ChoiceTestSelected(select: int)
    ensures Selected(ChoiceTestChoices, select).text ==
      if select == 0 then "zero"
      else if 2 <= select <= 5 then "between two and five"
      else if 6 <= select then "greater than six"
      else "one"
  {
    var cs := ChoiceTestChoices;
    if select == 0 {
      assert IsMatch(cs[0], select);
    } else if select == 1 {
      assert IsMatch(cs[1], select);
    } else if 2 <= select <= 5 {
      assert IsMatch(cs[2], select);
    } else if 6 <= select {
      assert IsMatch(cs[3], select);
    } else {
      assert forall i :: 0 <= i < |cs| ==> !IsMatch(cs[i], select);
    }
  }

  /** TransChoice("choice_test", select): `zero` for 0, `between two and
      five` for 2 to 5, `greater than six` from 6 on, and `one` for 1 and,
      through the fallback to the second choice, for every other value. */
  lemma ChoiceTestSelects(select: int)
    ensures ParseResult(ChoiceTestText, select, []) == Ok(
      if select == 0 then "zero"
      else if 2 <= select <= 5 then "between two and five"
      else if 6 <= select then "greater than six"
      else "one")
  {
    ChoiceTestRenderable();
    ChoiceTestRendered();
    ParseRendered(ChoiceTestChoices, " ", select, []);
    ChoiceTestSelected(select);
  }

  // ---------------------------------------------------------------------
  // range_test: "[*,-1]value is minus|{0}value is zero|[1,*]value is plus"

  const RangeTestSegments: seq<string> := [
    "[*,-1]" + "value is minus",
    "{0}" + "value is zero",
    "[1,*]" + "value is plus"
  ]

  const RangeTestText: string := Join(RangeTestSegments, '|')

  const Minus := Choice("value is minus", Below(-1))
  const IsZero := Choice("value is zero", Single(0))
  const Plus := Choice("value is plus", Above(1))

  const RangeTestChoices: seq<Choice> := [Minus, IsZero, Plus]

  lemma MinusRendered() ensures Render(Minus, "") == "[*,-1]" + "value is minus" {
    assert ShowNat(1) == "1";
    assert ShowInt(-1) == "-1";
    assert Spelled(BelowShape, "*", "-1") == "[*,-1]";
  }

  lemma IsZeroRendered() ensures Render(IsZero, "") == "{0}" + "value is zero" {
    assert ShowInt(0) == "0";
    assert Spelled(SingleShape, "0", "") == "{0}";
  }

  lemma PlusRendered() ensures Render(Plus, "") == "[1,*]" + "value is plus" {
    assert ShowInt(1) == "1";
    assert Spelled(AboveShape, "1", "*") == "[1,*]";
  }

  /** The segments are the three choices rendered with nothing in between. */
  lemma RangeTestRendered()
    ensures Rendered(RangeTestChoices, "") == RangeTestSegments
  {
    MinusRendered();
    IsZeroRendered();
    PlusRendered();
  }

  lemma MinusRenderable() ensures Renderable(Minus) && '|' !in Minus.text {
    ProseRenderable(Minus);
  }

  lemma IsZeroRenderable() ensures Renderable(IsZero) && '|' !in IsZero.text {
    ProseRenderable(IsZero);
  }

  lemma PlusRenderable() ensures Renderable(Plus) && '|' !in Plus.text {
    ProseRenderable(Plus);
  }

  lemma RangeTestSelected(select: int)
    ensures Selected(RangeTestChoices, select).text ==
      if select <= -1 then "value is minus" else if select == 0 then "value is zero" else "value is plus"
  {
    var cs := RangeTestChoices;
    if select <= -1 {
      assert IsMatch(cs[0], select);
    } else if select == 0 {
      assert IsMatch(cs[1], select);
    } else {
      assert IsMatch(cs[2], select);
    }
  }

  /** TransChoice("range_test", select): the three choices cover every
      value, so the fallback never applies. */
  lemma RangeTestSelects(select: int)
    ensures ParseResult(RangeTestText, select, []) == Ok(
      if select <= -1 then "value is minus" else if select == 0 then "value is zero" else "value is plus")
  {
    MinusRenderable();
    IsZeroRenderable();
    PlusRenderable();
    RangeTestRendered();
    ParseRendered(RangeTestChoices, "", select, []);
    RangeTestSelected(select);
  }

  // ---------------------------------------------------------------------
  // Segments no pattern matches

  /** A pattern that does not match at the start of a segment and whose
      opening character appears nowhere else does not occur in it. */
  lemma AbsentUnlessAtStart(shape: Shape, s: string)
    requires s != [] && MatchAt(shape, s, 0).None?
    requires forall k :: 1 <= k < |s| ==> s[k] != Opener(shape)
    ensures !Occurs(shape, s)
  {
    NoOpenerNoMatch(shape, s, 1);
    assert FindFirst(shape, s, 0) == FindFirst(shape, s, 1);
  }

  // ---------------------------------------------------------------------
  // parse_failed_between_data: "[0] first choice|[5,2] second choice"

  const FailedBetweenSegments: seq<string> := [
    "[0]" + " first choice",
    "[5,2]" + " second choice"
  ]

  const FailedBetweenText: string := Join(FailedBetweenSegments, '|')

  /** `[0]` is none of the four patterns: the first segment falls back to
      a single-value choice on position 0 and keeps its text. */
  lemma FirstSegmentFallsBack()
    ensures CreateChoice(FailedBetweenSegments[0], 0) == Ok(Choice(FailedBetweenSegments[0], Single(0)))
  {
    var s := FailedBetweenSegments[0];
    assert s[0] == '[' && s[1] == '0' && s[2] == ']';
    assert forall k :: 1 <= k < |s| ==> s[k] != '[' && s[k] != '{';
    assert RunEnd(s, 2) == 2;
    AbsentUnlessAtStart(SingleShape, s);
    AbsentUnlessAtStart(RangeShape, s);
    AbsentUnlessAtStart(AboveShape, s);
    AbsentUnlessAtStart(BelowShape, s);
    CreateChoiceFallback(s, 0);
  }

  /** `[5,2]` is a range whose minimum is not below its maximum. */
  lemma SecondSegmentFails()
    ensures CreateChoice(FailedBetweenSegments[1], 1) == Err(InvalidDataException(RangeMessage))
  {
    var s := FailedBetweenSegments[1];
    assert Spelled(RangeShape, "5", "2") == "[5,2]";
    assert IsNumRun("5") && IsNumRun("2");
    LeadingMatch(RangeShape, "5", "2", " second choice");
    assert forall k :: 0 <= k < |s| ==> s[k] != '{';
    NoOpenerNoMatch(SingleShape, s, 0);
    CreateChoiceRange(s, 1);
    assert ShowInt(5) == "5" && ShowInt(2) == "2";
    ParseShowInt(5);
    ParseShowInt(2);
  }

  /** TransChoice("parse_failed_between_data", select) throws the range
      exception for every selector value: all segments are built before
      any is selected. */
  lemma FailedBetweenThrows(select: int, params: seq<Binding>)
    ensures ParseResult(FailedBetweenText, select, params) == Err(InvalidDataException(RangeMessage))
  {
    var segs := FailedBetweenSegments;
    assert '|' !in segs[0] && '|' !in segs[1];
    SplitJoin(segs, '|');
    assert FailedBetweenText == segs[0] + "|" + segs[1];
    FirstSegmentFallsBack();
    SecondSegmentFails();
    assert BuildChoices(segs, 0) == Ok([]);
    assert [] + [Choice(segs[0], Single(0))] == [Choice(segs[0], Single(0))];
    assert BuildChoices(segs, 1) == Ok([Choice(segs[0], Single(0))]);
  }

  // ---------------------------------------------------------------------
  // full_function_test: choices whose texts hold a `:value` placeholder

  const FirstText: string := "first choice result value = " + ":value" + ""
  const SecondText: string := "second choice, value is between 2 <= " + ":value" + " <= 5"
  const ThirdText: string := "third choice the " + ":value" + " greater than six"

  const First := Choice(FirstText, Single(0))
  const Second := Choice(SecondText, Range(2, 5))
  const Third := Choice(ThirdText, Above(6))

  const FullChoices: seq<Choice> := [First, Second, Third]

  const FullSegments: seq<string> := [
    "{0}" + " " + FirstText,
    "[2,5]" + " " + SecondText,
    "[6,*]" + " " + ThirdText
  ]

  const FullText: string := Join(FullSegments, '|')

  lemma FullRendered()
    ensures Rendered(FullChoices, " ") == FullSegments
  {
    assert ShowInt(0) == "0" && ShowInt(2) == "2" && ShowInt(5) == "5" && ShowInt(6) == "6";
    assert Spelled(SingleShape, "0", "") == "{0}";
    assert Spelled(RangeShape, "2", "5") == "[2,5]";
    assert Spelled(AboveShape, "6", "*") == "[6,*]";
  }

  lemma FirstProse() ensures Prose("first choice result value = ") {}
  lemma SecondProse() ensures Prose("second choice, value is between 2 <= ") {}
  lemma ThirdProse() ensures Prose("third choice the ") && Prose(" greater than six") {}

  lemma FirstRenderable() ensures Renderable(First) && '|' !in First.text {
    FirstProse();
    ProseAround("first choice result value = ", "");
    ProseRenderable(First);
  }

  lemma SecondRenderable() ensures Renderable(Second) && '|' !in Second.text {
    SecondProse();
    assert Prose(" <= 5");
    ProseAround("second choice, value is between 2 <= ", " <= 5");
    ProseRenderable(Second);
  }

  lemma ThirdRenderable() ensures Renderable(Third) && '|' !in Third.text {
    ThirdProse();
    ProseAround("third choice the ", " greater than six");
    ProseRenderable(Third);
  }

  lemma FullSelected(select: int)
    ensures Selected(FullChoices, select).text ==
      if select == 0 then FirstText else if 6 <= select then ThirdText else SecondText
  {
    var cs := FullChoices;
    if select == 0 {
      assert IsMatch(cs[0], select);
    } else if 2 <= select <= 5 {
      assert IsMatch(cs[1], select);
    } else if 6 <= select {
      assert IsMatch(cs[2], select);
    } else {
      assert forall i :: 0 <= i < |cs| ==> !IsMatch(cs[i], select);
    }
  }

  /** Each choice text has its `:value` replaced by the parameter. */
  lemma FirstSubstituted(value: string)
    ensures Substituted(FirstText, [("value", value)]) == "first choice result value = " + value
  {
    assert Placeholder("value") == ":value";
    assert ':' !in "first choice result value = ";
    SubstitutedOne("first choice result value = ", "value", "", value);
    assert "first choice result value = " + value + "" == "first choice result value = " + value;
  }

  lemma SecondSubstituted(value: string)
    ensures Substituted(SecondText, [("value", value)]) == "second choice, value is between 2 <= " + value + " <= 5"
  {
    assert Placeholder("value") == ":value";
    assert ':' !in "second choice, value is between 2 <= " && ':' !in " <= 5";
    SubstitutedOne("second choice, value is between 2 <= ", "value", " <= 5", value);
  }

  lemma ThirdSubstituted(value: string)
    ensures Substituted(ThirdText, [("value", value)]) == "third choice the " + value + " greater than six"
  {
    assert Placeholder("value") == ":value";
    assert ':' !in "third choice the " && ':' !in " greater than six";
    SubstitutedOne("third choice the ", "value", " greater than six", value);
  }

  /** TransChoice("full_function_test", select, ("value", value)): the
      selected text with the value filled in; values other than 0 and 6
      upwards, in range or not, give the second choice. */
  lemma FullFunctionSelects(select: int, value: string)
    ensures ParseResult(FullText, select, [("value", value)]) == Ok(
      if select == 0 then "first choice result value = " + value
      else if 6 <= select then "third choice the " + value + " greater than six"
      else "second choice, value is between 2 <= " + value + " <= 5")
  {
    FirstRenderable();
    SecondRenderable();
    ThirdRenderable();
    FullRendered();
    ParseRendered(FullChoices, " ", select, [("value", value)]);
    FullSelected(select);
    FirstSubstituted(value);
    SecondSubstituted(value);
    ThirdSubstituted(value);
  }

  /** Without parameters the placeholder stays in the text. */
  lemma FullFunctionWithoutParams()
    ensures ParseResult(FullText, 0, []) == Ok(FirstText)
  {
    FirstRenderable();
    SecondRenderable();
    ThirdRenderable();
    FullRendered();
    ParseRendered(FullChoices, " ", 0, []);
    FullSelected(0);
  }

  // ---------------------------------------------------------------------
  // Explicit languages: explicit_translate_test and german_only

  datatype Language = Japanese | English | Chinese | German

  const ExplicitRecord: Record<Language> :=
    Record("日本語", map[Japanese := "日本語", English := "英語", Chinese := "中国語"])

  /** Only a German text; the language-less Text is never read below. */
  const GermanOnly: Record<Language> := Record("", map[German := "ドイツ語"])

  const TestDatabase: map<string, Record<Language>> :=
    map["explicit_translate_test" := ExplicitRecord, "german_only" := GermanOnly]

  /** With Japanese as the default language, a language the record has is
      used quietly, and German falls back to Japanese with a warning. */
  lemma ExplicitResolves(lang: Language)
    ensures Resolve(ExplicitRecord, lang, Japanese) ==
      match lang
      case Japanese => (Some("日本語"), Quiet)
      case English => (Some("英語"), Quiet)
      case Chinese => (Some("中国語"), Quiet)
      case German => (Some("日本語"), Warning)
  {
  }

  /** A record's own language is used quietly even when the default is
      missing; a record with neither the requested nor the default language yields
      the key and an error entry, for Translate and TransChoice alike; a
      key that is not in the database is returned as it is, quietly. */
  method ExplicitFallbackFails() returns (
    german: string, germanLog: Log,
    germanOnly: string, germanOnlyLog: Log,
    english: string, englishLog: Log,
    chinese: Result<string, Exception>, chineseLog: Log,
    missing: string, missingChoice: Result<string, Exception>)
    ensures german == "日本語" && germanLog == Warning
    ensures germanOnly == "ドイツ語" && germanOnlyLog == Quiet
    ensures english == "german_only" && englishLog == Error
    ensures chinese == Ok("german_only") && chineseLog == Error
    ensures missing == "test" && missingChoice == Ok("ignore key")
  {
    var i18n := new I18n(Japanese);
    i18n.SetDatabase(TestDatabase);
    german, germanLog := i18n.TranslateIn(German, "explicit_translate_test", []);
    germanOnly, germanOnlyLog := i18n.TranslateIn(German, "german_only", []);
    english, englishLog := i18n.TranslateIn(English, "german_only", []);
    chinese, chineseLog := i18n.TransChoiceIn(Chinese, "german_only", 0, []);
    missing := i18n.Translate("test", []);
    missingChoice := i18n.TransChoice("ignore key", 0, []);
  }

  // ---------------------------------------------------------------------
  // The messages as the test database writes them

  /** The segments are those of the test database's message, which joins
      them with `|`. */
  lemma ChoiceTestLiteral()
    ensures ChoiceTestSegments == ["{0} zero", "{1} one", "[2,5] between two and five", "[6,*] greater than six"]
  {
    var p := ChoiceTestSegments;
    assert p[0] == "{0} zero" && p[1] == "{1} one";
    assert p[2] == "[2,5] between two and five" && p[3] == "[6,*] greater than six";
  }

  lemma RangeTestLiteral()
    ensures RangeTestSegments == ["[*,-1]value is minus", "{0}value is zero", "[1,*]value is plus"]
  {
    var p := RangeTestSegments;
    assert p[0] == "[*,-1]value is minus" && p[1] == "{0}value is zero" && p[2] == "[1,*]value is plus";
  }

  lemma FailedBetweenLiteral()
    ensures FailedBetweenSegments == ["[0] first choice", "[5,2] second choice"]
  {
    var p := FailedBetweenSegments;
    assert p[0] == "[0] first choice" && p[1] == "[5,2] second choice";
  }

  lemma FullLiteral()
    ensures FullSegments == [
      "{0} " + "first choice result value = :value",
      "[2,5] " + "second choice, value is between 2 <= :value <= 5",
      "[6,*] " + "third choice the :value greater than six"
    ]
  {
    var p := FullSegments;
    assert FirstText == "first choice result value = :value";
    assert SecondText == "second choice, value is between 2 <= :value <= 5";
    assert ThirdText == "third choice the :value greater than six";
    assert p[0] == "{0} " + FirstText && p[1] == "[2,5] " + SecondText && p[2] == "[6,*] " + ThirdText;
  }
}
