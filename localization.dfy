/**
 * The resolver (class I18n): key lookup, the requested-language /
 * default-language / key fallback, parameter substitution (ReplaceParam)
 * and choice selection (Parse).
 *
 * The static class's state, the database (null until SetDatabase) and
 * DefaultLanguage, becomes the fields of one I18n object. The database is
 * a map from keys to records; a record has the text the language-less
 * overloads use and the texts per language that
 * `Translate(lang, out result)` looks up. Parameter values are already
 * strings (the C# code calls `ToString()` on them), and the Unity log is
 * reduced to the kind of entry a call writes.
 */
module Localization {
  import opened Wrappers
  import opened Strings
  import opened Choices
  import opened ChoiceFactory

  /** One database entry: `Text` and the texts of `Translate(lang, out result)`. */
  datatype Record<Lang> = Record(text: string, translations: map<Lang, string>)

  /** The log entry a call writes: none, Debug.LogWarning or Debug.LogError. */
  datatype Log = Quiet | Warning | Error

  /** One `(name, value)` parameter, its value already a string. */
  type Binding = (string, string)

  // ---------------------------------------------------------------------
  // ReplaceParam

  /** The placeholder a parameter fills: its name behind a colon. */
  function Placeholder(name: string): (p: string)
    ensures p != [] && p[0] == ':' && p[1..] == name
  {
    ":" + name
  }

  /** The text after the bindings are applied one after the other, each
      replacing every occurrence of its placeholder in the text the
      previous ones left. */
  function Substituted(text: string, params: seq<Binding>): string
    decreases |params|
  {
    if params == [] then text
    else Substituted(Replace(text, Placeholder(params[0].0), params[0].1), params[1..])
  }

  /** ReplaceParam(text, param): the foreach loop over the bindings. A null
      parameter array and an empty one both leave the text as it is. */
  method ReplaceParam(text: string, params: seq<Binding>) returns (result: string)
    ensures result == Substituted(text, params)
  {
    result := text;
    var i := 0;
    while i < |params|
      invariant 0 <= i <= |params|
      invariant Substituted(result, params[i..]) == Substituted(text, params)
    {
      var (key, value) := params[i];
      assert params[i..][1..] == params[i + 1..];
      result := Replace(result, Placeholder(key), value);
      i := i + 1;
    }
  }

  /** Applying two lists of bindings one after the other is applying
      their concatenation. */
  lemma {:induction false} SubstitutedConcat(text: string, ps: seq<Binding>, qs: seq<Binding>)
    ensures Substituted(text, ps + qs) == Substituted(Substituted(text, ps), qs)
    decreases |ps|
  {
    if ps == [] {
      assert ps + qs == qs;
    } else {
      assert (ps + qs)[0] == ps[0];
      assert (ps + qs)[1..] == ps[1..] + qs;
      SubstitutedConcat(Replace(text, Placeholder(ps[0].0), ps[0].1), ps[1..], qs);
    }
  }

  /** A binding whose placeholder does not occur changes nothing. */
  lemma SubstitutedSkipsAbsent(text: string, b: Binding, rest: seq<Binding>)
    requires !Contains(text, Placeholder(b.0))
    ensures Substituted(text, [b] + rest) == Substituted(text, rest)
  {
    assert ([b] + rest)[1..] == rest;
    ReplaceAbsent(text, Placeholder(b.0), b.1);
  }

  /** Text without a colon holds no placeholder, so no binding changes it. */
  lemma {:induction false} SubstitutedWithoutColon(text: string, params: seq<Binding>)
    requires ':' !in text
    ensures Substituted(text, params) == text
    decreases |params|
  {
    if params != [] {
      NotContainsFirst(text, Placeholder(params[0].0));
      ReplaceAbsent(text, Placeholder(params[0].0), params[0].1);
      SubstitutedWithoutColon(text, params[1..]);
    }
  }

  /** A lone placeholder in colon-free text is replaced by its value and
      nothing else changes. */
  lemma SubstitutedOne(a: string, name: string, b: string, value: string)
    requires ':' !in a && ':' !in b
    ensures Substituted(a + Placeholder(name) + b, [(name, value)]) == a + value + b
  {
    var p := Placeholder(name);
    assert a + p + b == a + (p + b);
    ReplaceSkip(a, p + b, p, value);
    ReplaceHere(p, b, value);
    NotContainsFirst(b, p);
    ReplaceAbsent(b, p, value);
    assert [(name, value)][1..] == [];
    assert a + (value + b) == a + value + b;
  }

  /** The bindings are not applied in one pass: a value written by an
      earlier binding is searched again by the later ones. */
  lemma SubstitutedRescans()
    ensures Substituted(":a", [("a", ":b"), ("b", "x")]) == "x"
  {
    var ps: seq<Binding> := [("a", ":b"), ("b", "x")];
    assert StartsWith(":a", ":a");
    assert Replace(":a", ":a", ":b") == ":b" + Replace("", ":a", ":b");
    assert ps[1..] == [("b", "x")];
    assert StartsWith(":b", ":b");
    assert Replace(":b", ":b", "x") == "x" + Replace("", ":b", "x");
    assert ps[1..][1..] == [];
  }

  // ---------------------------------------------------------------------
  // Parse

  /** The loop that fills `choices`, after its first `n` rounds: the choices
      of `segs[..n]`, each built with its own position, or the exception
      of the first segment that could not be built. */
  function BuildChoices(segs: seq<string>, n: nat): (r: Result<seq<Choice>, Exception>)
    requires n <= |segs|
    ensures r.Ok? ==> |r.value| == n
  {
    if n == 0 then Ok([])
    else
      var cs :- BuildChoices(segs, n - 1);
      var c :- CreateChoice(segs[n - 1], n - 1);
      Ok(cs + [c])
  }

  /** The loop succeeds exactly when every segment builds, and then holds
      each segment's choice at the segment's position; otherwise it fails
      with the exception of the first segment that does not build. */
  lemma {:induction false} BuildChoicesMeaning(segs: seq<string>, n: nat)
    requires n <= |segs|
    ensures var r := BuildChoices(segs, n);
      && (r.Ok? <==> forall i :: 0 <= i < n ==> CreateChoice(segs[i], i).Ok?)
      && (r.Ok? ==> forall i :: 0 <= i < n ==> CreateChoice(segs[i], i) == Ok(r.value[i]))
      && (r.Err? ==> exists i :: (0 <= i < n && CreateChoice(segs[i], i) == Err(r.error)
            && forall j :: 0 <= j < i ==> CreateChoice(segs[j], j).Ok?))
  {
    if n > 0 {
      BuildChoicesMeaning(segs, n - 1);
      var prev := BuildChoices(segs, n - 1);
      var c := CreateChoice(segs[n - 1], n - 1);
      if prev.Ok? && c.Ok? {
        assert BuildChoices(segs, n).value == prev.value + [c.value];
      } else if prev.Ok? {
        assert forall j :: 0 <= j < n - 1 ==> CreateChoice(segs[j], j).Ok?;
      }
    }
  }

  /** Once a segment has failed, the later rounds keep its exception. */
  lemma {:induction false} BuildChoicesStaysFailed(segs: seq<string>, n: nat, m: nat)
    requires n <= m <= |segs| && BuildChoices(segs, n).Err?
    ensures BuildChoices(segs, m) == BuildChoices(segs, n)
    decreases m - n
  {
    if n < m {
      BuildChoicesStaysFailed(segs, n, m - 1);
    }
  }

  /** `choices.FirstOrDefault(c => c.IsMatch(select))`, as a position. */
  function FirstMatch(cs: seq<Choice>, v: int): (r: Option<nat>)
    ensures r.Some? ==> r.value < |cs| && IsMatch(cs[r.value], v)
    ensures r.Some? ==> forall j :: 0 <= j < r.value ==> !IsMatch(cs[j], v)
    ensures r.None? <==> forall j :: 0 <= j < |cs| ==> !IsMatch(cs[j], v)
  {
    if cs == [] then None
    else if IsMatch(cs[0], v) then Some(0)
    else
      match FirstMatch(cs[1..], v)
      case None => None
      case Some(i) => Some(i + 1)
  }

  /** The choice Parse picks: the first that matches the selector value,
      and the second segment's choice when none does. */
  function Selected(cs: seq<Choice>, v: int): (c: Choice)
    requires |cs| >= 2
    ensures (exists i :: 0 <= i < |cs| && IsMatch(cs[i], v)) ==>
      exists i :: 0 <= i < |cs| && c == cs[i] && IsMatch(c, v) && forall j :: 0 <= j < i ==> !IsMatch(cs[j], v)
    ensures (forall i :: 0 <= i < |cs| ==> !IsMatch(cs[i], v)) ==> c == cs[1]
  {
    match FirstMatch(cs, v)
    case Some(i) => cs[i]
    case None => cs[1]
  }

  /** What Parse(original, select, param) returns or throws. */
  function ParseResult(original: string, select: int, params: seq<Binding>): Result<string, Exception> {
    if '|' !in original then Ok(Substituted(original, params))
    else
      var segs := Split(original, '|');
      SplitCount(original, '|');
      var cs :- BuildChoices(segs, |segs|);
      Ok(Substituted(Selected(cs, select).text, params))
  }

  /** Parse: text without `|` only has its parameters filled in; otherwise
      every segment becomes a choice, in order, and the selected choice's
      text has its parameters filled in. */
  method Parse(original: string, select: int, params: seq<Binding>) returns (r: Result<string, Exception>)
    ensures r == ParseResult(original, select, params)
  {
    if '|' !in original {
      var s := ReplaceParam(original, params);
      return Ok(s);
    }
    var splitted := Split(original, '|');
    SplitCount(original, '|');
    var choices: seq<Choice> := [];
    var index := 0;
    while index < |splitted|
      invariant 0 <= index <= |splitted|
      invariant BuildChoices(splitted, index) == Ok(choices)
    {
      var c := CreateChoice(splitted[index], index);
      if c.Err? {
        BuildChoicesStaysFailed(splitted, index + 1, |splitted|);
        return Err(c.error);
      }
      assert BuildChoices(splitted, index + 1) == Ok(choices + [c.value]);
      choices := choices + [c.value];
      index := index + 1;
    }
    var choice := Selected(choices, select);
    var s := ReplaceParam(choice.text, params);
    r := Ok(s);
  }

  /** Text without `|` builds no choice, so Parse cannot fail on it. */
  lemma ParseWithoutBar(original: string, select: int, params: seq<Binding>)
    requires '|' !in original
    ensures ParseResult(original, select, params) == Ok(Substituted(original, params))
  {
  }

  /** With a `|`, there are at least two segments, so the fallback to the
      second one always has a choice to fall back to. */
  lemma FallbackInBounds(original: string)
    requires '|' in original
    ensures |Split(original, '|')| >= 2
  {
    SplitCount(original, '|');
  }

  /** Every segment is built before any is selected: a segment that cannot
      be built makes the call fail, even when an earlier segment matches. */
  lemma ParseFailsOnAnyBadSegment(original: string, select: int, params: seq<Binding>, k: nat)
    requires '|' in original
    requires k < |Split(original, '|')| && CreateChoice(Split(original, '|')[k], k).Err?
    ensures ParseResult(original, select, params).Err?
  {
    var segs := Split(original, '|');
    BuildChoicesMeaning(segs, |segs|);
  }

  /** With every segment built, Parse returns the selected choice's text
      with the parameters filled in. */
  lemma ParseSelects(original: string, select: int, params: seq<Binding>)
    requires '|' in original
    requires BuildChoices(Split(original, '|'), |Split(original, '|')|).Ok?
    ensures var cs := BuildChoices(Split(original, '|'), |Split(original, '|')|).value;
      |cs| >= 2 && ParseResult(original, select, params) == Ok(Substituted(Selected(cs, select).text, params))
  {
    SplitCount(original, '|');
  }

  /** A message written as `|`-joined rendered choices reads back as those
      choices: Parse selects among exactly them. */
  lemma ParseRendered(cs: seq<Choice>, gap: string, select: int, params: seq<Binding>)
    requires |cs| >= 2 && AllWhite(gap)
    requires forall i :: 0 <= i < |cs| ==> Renderable(cs[i]) && '|' !in cs[i].text
    ensures ParseResult(Join(Rendered(cs, gap), '|'), select, params) == Ok(Substituted(Selected(cs, select).text, params))
  {
    var segs := Rendered(cs, gap);
    forall i | 0 <= i < |segs| ensures '|' !in segs[i] {
      RenderHasNoBar(cs[i], gap);
    }
    SplitJoin(segs, '|');
    var original := Join(segs, '|');
    assert original == segs[0] + ['|'] + Join(segs[1..], '|');
    assert original[|segs[0]|] == '|';
    BuildRendered(cs, gap);
  }

  /** Every rendered segment builds back into its choice. */
  lemma BuildRendered(cs: seq<Choice>, gap: string)
    requires AllWhite(gap)
    requires forall i :: 0 <= i < |cs| ==> Renderable(cs[i])
    ensures BuildChoices(Rendered(cs, gap), |cs|) == Ok(cs)
  {
    var segs := Rendered(cs, gap);
    forall i | 0 <= i < |segs| ensures CreateChoice(segs[i], i) == Ok(cs[i]) {
      CreateChoiceRender(cs[i], gap, i);
    }
    BuildChoicesAll(segs, cs);
  }

  /** When every segment builds into the matching choice, the loop
      collects exactly those choices. */
  lemma {:induction false} BuildChoicesAll(segs: seq<string>, cs: seq<Choice>)
    requires |cs| <= |segs|
    requires forall i :: 0 <= i < |cs| ==> CreateChoice(segs[i], i) == Ok(cs[i])
    ensures BuildChoices(segs, |cs|) == Ok(cs)
  {
    if cs != [] {
      var n := |cs| - 1;
      BuildChoicesAll(segs, cs[..n]);
      assert cs == cs[..n] + [cs[n]];
    }
  }

  /** The segments of a message written from choices, each with the same
      white space between its pattern and its text. */
  function Rendered(cs: seq<Choice>, gap: string): (segs: seq<string>)
    ensures |segs| == |cs| && forall i :: 0 <= i < |cs| ==> segs[i] == Render(cs[i], gap)
  {
    seq(|cs|, i requires 0 <= i < |cs| => Render(cs[i], gap))
  }

  /** Render adds no `|` of its own. */
  lemma RenderHasNoBar(c: Choice, gap: string)
    requires Renderable(c) && AllWhite(gap) && '|' !in c.text
    ensures '|' !in Render(c, gap)
  {
    BoundGroupsFit(c);
    SpelledChars(KindOf(c.selector), Group1(c.selector), Group2(c.selector));
    assert !IsWhiteSpace('|');
  }

  // ---------------------------------------------------------------------
  // Language fallback

  /** The text a call with an explicit language works on, and the log entry
      it writes: the requested language's text, else the default
      language's with a warning, else none with an error. */
  function Resolve<Lang>(rec: Record<Lang>, lang: Lang, default: Lang): (res: (Option<string>, Log))
    ensures res.0.Some? <==> lang in rec.translations || default in rec.translations
    ensures res.1 == Quiet <==> lang in rec.translations
    ensures res.1 == Error <==> res.0.None?
    ensures lang in rec.translations ==> res.0 == Some(rec.translations[lang])
    ensures lang !in rec.translations && default in rec.translations ==> res.0 == Some(rec.translations[default])
  {
    if lang in rec.translations then (Some(rec.translations[lang]), Quiet)
    else if default in rec.translations then (Some(rec.translations[default]), Warning)
    else (None, Error)
  }

  /** Asking for the default language never warns. */
  lemma ResolveDefaultNeverWarns<Lang>(rec: Record<Lang>, default: Lang)
    ensures Resolve(rec, default, default).1 != Warning
  {
  }

  /** Whatever text is resolved is one of the record's translations. */
  lemma ResolvedIsATranslation<Lang>(rec: Record<Lang>, lang: Lang, default: Lang)
    requires Resolve(rec, lang, default).0.Some?
    ensures Resolve(rec, lang, default).0.value in rec.translations.Values
  {
  }

  // ---------------------------------------------------------------------
  // The resolver

  /** I18n: the database, absent until SetDatabase, and the default
      language the explicit-language overloads fall back to. */
  class I18n<Lang(==)> {
    var database: Option<map<string, Record<Lang>>>
    var defaultLanguage: Lang

    constructor(defaultLanguage: Lang)
      ensures database == None && this.defaultLanguage == defaultLanguage
    {
      database := None;
      this.defaultLanguage := defaultLanguage;
    }

    /** IsInitialized: a database has been set. */
    predicate IsInitialized()
      reads this
    {
      database.Some?
    }

    /** SetDatabase(database): replaces the database, nothing else. */
    method SetDatabase(db: map<string, Record<Lang>>)
      modifies this
      ensures database == Some(db) && IsInitialized()
      ensures defaultLanguage == old(defaultLanguage)
    {
      database := Some(db);
    }

    /** The DefaultLanguage setter: replaces the default language, nothing else. */
    method SetDefaultLanguage(lang: Lang)
      modifies this
      ensures defaultLanguage == lang
      ensures database == old(database)
    {
      defaultLanguage := lang;
    }

    /** Translate(key, param): the key itself when it is missing, else the
        record's text with its parameters filled in; never split on `|`. */
    method Translate(key: string, params: seq<Binding>) returns (r: string)
      requires IsInitialized()
      ensures key !in database.value ==> r == key
      ensures key in database.value ==> r == Substituted(database.value[key].text, params)
    {
      var db := database.value;
      if key !in db {
        return key;
      }
      r := ReplaceParam(db[key].text, params);
    }

    /** Translate(lang, key, param), with the log entry it writes. */
    method TranslateIn(lang: Lang, key: string, params: seq<Binding>) returns (r: string, log: Log)
      requires IsInitialized()
      ensures key !in database.value ==> r == key && log == Quiet
      ensures key in database.value ==>
        var (text, entry) := Resolve(database.value[key], lang, defaultLanguage);
        log == entry && r == (if text.Some? then Substituted(text.value, params) else key)
    {
      var db := database.value;
      if key !in db {
        return key, Quiet;
      }
      var data := db[key];
      if lang in data.translations {
        r := ReplaceParam(data.translations[lang], params);
        return r, Quiet;
      }
      if defaultLanguage in data.translations {
        r := ReplaceParam(data.translations[defaultLanguage], params);
        return r, Warning;
      }
      return key, Error;
    }

    /** TransChoice(key, select, param): the key itself when it is
        missing, else what Parse makes of the record's text. */
    method TransChoice(key: string, select: int, params: seq<Binding>) returns (r: Result<string, Exception>)
      requires IsInitialized()
      ensures key !in database.value ==> r == Ok(key)
      ensures key in database.value ==> r == ParseResult(database.value[key].text, select, params)
    {
      var db := database.value;
      if key !in db {
        return Ok(key);
      }
      r := Parse(db[key].text, select, params);
    }

    /** TransChoice(lang, key, select, param), with the log entry it writes. */
    method TransChoiceIn(lang: Lang, key: string, select: int, params: seq<Binding>)
      returns (r: Result<string, Exception>, log: Log)
      requires IsInitialized()
      ensures key !in database.value ==> r == Ok(key) && log == Quiet
      ensures key in database.value ==>
        var (text, entry) := Resolve(database.value[key], lang, defaultLanguage);
        log == entry && r == (if text.Some? then ParseResult(text.value, select, params) else Ok(key))
    {
      var db := database.value;
      if key !in db {
        return Ok(key), Quiet;
      }
      var data := db[key];
      if lang in data.translations {
        r := Parse(data.translations[lang], select, params);
        return r, Quiet;
      }
      if defaultLanguage in data.translations {
        r := Parse(data.translations[defaultLanguage], select, params);
        return r, Warning;
      }
      return Ok(key), Error;
    }
  }
}
