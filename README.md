# SimpleI18n resolver and choice parser, in Dafny

This project models the core of SimpleI18n, a Unity localisation package. That core has three parts:

- **The resolver (`I18n`).**
  - It looks a key up in a database.
  - It falls back from the requested language to the default language, and then to the key itself.
  - It fills `:name` placeholders in the text (`ReplaceParam`).
  - For choice messages, `Parse` splits the text on `|`, turns every segment into a choice and picks the first choice that matches the selector. If none matches, it picks the second segment.
- **The segment parser (`ChoiceFactory`).** It recognises four fixed patterns, tried in this order:
  - `{n}` gives a single-value choice.
  - `[a,b]` gives a range choice.
  - `[a,*]` gives an "at least" choice.
  - `[*,b]` gives an "at most" choice.

  The bound is read from the leftmost occurrence of the first pattern that occurs anywhere in the segment. Every occurrence of that pattern is deleted, and the rest of the segment is whitespace-trimmed to become the display text. A segment with no pattern becomes a single-value choice on its own index, with its text kept as it is.
- **The four choice kinds** (Single, Range, Above, Below). Each is an immutable text plus bounds, with an `IsMatch` test. A range rejects `min >= max` when it is constructed.

The model has six modules:

- `Wrappers`: Option, Result and the .NET exceptions that can escape.
- `Strings`: the .NET string operations the code relies on:
  - `Trim`;
  - `Split` on one character, with its inverse `Join`;
  - ordinal `Replace`;
  - `int.Parse` over the 32-bit range.
- `Choices`: the choice kinds.
- `ChoiceFactory`: the four patterns as hand-written scanners, leftmost search, delete-all, and `CreateChoice`.
- `Localization`: `ReplaceParam`, `Parse`, the language fallback, and the `I18n` object.
- `Scenarios`: the repository's test data, restated as lemmas.

### Substitution is sequential

`ReplaceParam` performs one whole-string `Replace` per binding, in the order of the bindings. A value written by an earlier binding is therefore scanned again by later bindings (`SubstitutedRescans`: with bindings `a := ":b"` then `b := "x"`, the text `":a"` becomes `"x"`).

### Main results

- **Round trip of the parser.** Take a valid choice (for a range, min < max) whose bounds are in the 32-bit range and whose text is trimmed and free of `{` and `[`. Write it back as its pattern, a whitespace gap and its text. `CreateChoice` then gives the same choice back (`CreateChoiceRender`).
- **Round trip of a message.** Write two or more such choices, with texts also free of `|`, and join them with `|`. `Parse` of that message selects exactly what `Selected` says (`ParseRendered`).
- **The `Parse` and `ReplaceParam` loops** are proved against the specification functions `ParseResult` and `Substituted`.

## Model

| member | source | states |
|---|---|---|
| Strings.Trim | Packages/I18n/Runtime/Choice/ChoiceFactory.cs:82 | `String.Trim`: the result is the input with a maximal whitespace prefix and suffix removed, and it starts and ends with non-whitespace |
| Strings.TrimUnique | Packages/I18n/Runtime/Choice/ChoiceFactory.cs:82 | trimming `white + core + white` gives back a trimmed core exactly |
| Strings.TrimIdempotent | Packages/I18n/Runtime/Choice/ChoiceFactory.cs:82 | trimming twice is the same as trimming once |
| Strings.TrimmedFixed | Packages/I18n/Runtime/Choice/ChoiceFactory.cs:82 | a text without surrounding whitespace is left unchanged by `Trim` |
| Strings.Split | Packages/I18n/Runtime/I18n.cs:69 | `String.Split("\|")` yields at least one part, and no part holds the separator |
| Strings.SplitCount | Packages/I18n/Runtime/I18n.cs:64-69 | the number of parts is one more than the number of separators; there are at least two parts exactly when the text holds a `\|` |
| Strings.JoinSplit | Packages/I18n/Runtime/I18n.cs:69 | joining the parts with the separator restores the original text |
| Strings.SplitJoin | Packages/I18n/Runtime/I18n.cs:69 | splitting a join of separator-free parts gives those parts back |
| Strings.Replace | Packages/I18n/Runtime/I18n.cs:93 | ordinal `String.Replace`, scanning left to right; its meaning is stated by the Replace lemmas below |
| Strings.ReplaceAbsent | Packages/I18n/Runtime/I18n.cs:93 | `String.Replace` of a pattern that does not occur changes nothing |
| Strings.ReplaceWithItself | Packages/I18n/Runtime/I18n.cs:93 | replacing a pattern by itself changes nothing |
| Strings.ReplaceLength | Packages/I18n/Runtime/I18n.cs:93 | the new length is the old length plus, for each non-overlapping occurrence, the difference in length between replacement and pattern |
| Strings.ReplaceSkip | Packages/I18n/Runtime/I18n.cs:93 | a prefix without the pattern's first character is copied unchanged and the scan resumes after it |
| Strings.ReplaceHere | Packages/I18n/Runtime/I18n.cs:93 | an occurrence at the scan position is replaced and the scan resumes after it |
| Strings.ParseInt32 | Packages/I18n/Runtime/Choice/ChoiceFactory.cs:51-52 | `int.Parse`: a result is always in the 32-bit range, and a failure is a FormatException or an OverflowException on that text |
| Strings.ParsedTextIsSignedDigits | Packages/I18n/Runtime/Choice/ChoiceFactory.cs:51-52 | only an optional `-` followed by decimal digits parses |
| Strings.ParseRejectsUnsigned | Packages/I18n/Runtime/Choice/ChoiceFactory.cs:51-52 | any other text, such as a lone `-`, `1-2` or `--1`, fails with a FormatException on that text |
| Strings.ParseDigits | Packages/I18n/Runtime/Choice/ChoiceFactory.cs:51-52 | a run of digits, with or without a leading `-`, parses to its value when that value is in the 32-bit range and fails with an OverflowException otherwise |
| Strings.ParseShowInt | Packages/I18n/Runtime/Choice/ChoiceFactory.cs:42 | every 32-bit integer written in decimal parses back to itself |
| Choices.IsMatch | Packages/I18n/Runtime/Choice/SingleValueChoice.cs:14-15 | the four `IsMatch` tests in one predicate (also RangeValueChoice.cs:26-27, AboveValueChoice.cs:13-14, BelowValueChoice.cs:13-14); the per-kind lemmas below state each |
| Choices.NewRange | Packages/I18n/Runtime/Choice/RangeValueChoice.cs:10-24 | the constructor succeeds exactly when min < max and keeps text and bounds as given; otherwise it throws InvalidDataException with the message "最小値が最大値を超えています" |
| Choices.RangeRejectsEqualBounds | Packages/I18n/Runtime/Choice/RangeValueChoice.cs:20-22 | `[n,n]` never constructs |
| Choices.RangeMatchesInclusive | Packages/I18n/Runtime/Choice/RangeValueChoice.cs:26-27 | a range matches v exactly when min <= v <= max, inclusive at both ends |
| Choices.RangeMatchesBothEnds | Packages/I18n/Runtime/Choice/RangeValueChoice.cs:20-27 | every constructed range matches both of its endpoints, which are distinct |
| Choices.SingleMatchesExactly | Packages/I18n/Runtime/Choice/SingleValueChoice.cs:14-15 | a single-value choice matches v exactly when v is its value |
| Choices.SingleMatchesAtMostOne | Packages/I18n/Runtime/Choice/SingleValueChoice.cs:14-15 | no two different integers match the same single-value choice |
| Choices.AboveMatchesFromMin | Packages/I18n/Runtime/Choice/AboveValueChoice.cs:13-14 | an "at least" choice matches v exactly when min <= v |
| Choices.AboveUpwardClosed | Packages/I18n/Runtime/Choice/AboveValueChoice.cs:13-14 | if v matches, every larger w matches |
| Choices.BelowMatchesUpToMax | Packages/I18n/Runtime/Choice/BelowValueChoice.cs:13-14 | an "at most" choice matches v exactly when v <= max |
| Choices.BelowDownwardClosed | Packages/I18n/Runtime/Choice/BelowValueChoice.cs:13-14 | if v matches, every smaller w matches |
| ChoiceFactory.MatchAt | Packages/I18n/Runtime/Choice/ChoiceFactory.cs:11-14 | a match of one of the four patterns starting at a position lies inside the text and is not empty |
| ChoiceFactory.MatchAtSpelled | Packages/I18n/Runtime/Choice/ChoiceFactory.cs:11-14 | what the scanner accepts is exactly the pattern spelled with its groups: `[-\d]+` runs for number groups, `*` for star groups |
| ChoiceFactory.MatchAtComplete | Packages/I18n/Runtime/Choice/ChoiceFactory.cs:11-14 | every spelled instance of a pattern in the text is found, with the same groups |
| ChoiceFactory.PatternsExclusiveAt | Packages/I18n/Runtime/Choice/ChoiceFactory.cs:11-14 | no two of the four patterns match at the same position |
| ChoiceFactory.FindFirst | Packages/I18n/Runtime/Choice/ChoiceFactory.cs:36 | `Regex.Match`: a result is a genuine match at or after the start position |
| ChoiceFactory.FindFirstLeftmost | Packages/I18n/Runtime/Choice/ChoiceFactory.cs:36 | the match found is the leftmost one: no position before it matches |
| ChoiceFactory.Occurs | Packages/I18n/Runtime/Choice/ChoiceFactory.cs:28 | `Regex.IsMatch`: the leftmost search finds a match; FindFirstNone and OccursAnywhere state what that means |
| ChoiceFactory.FindFirstNone | Packages/I18n/Runtime/Choice/ChoiceFactory.cs:28 | `Regex.IsMatch` fails exactly when no position matches, because the regexes are unanchored |
| ChoiceFactory.OccursAnywhere | Packages/I18n/Runtime/Choice/ChoiceFactory.cs:28 | a pattern spelled anywhere in a segment, not only at its start, counts as occurring |
| ChoiceFactory.NoOpenerNoMatch | Packages/I18n/Runtime/Choice/ChoiceFactory.cs:11-14 | a text without the pattern's opening bracket has no match |
| ChoiceFactory.DeleteFrom | Packages/I18n/Runtime/Choice/ChoiceFactory.cs:82 | `Regex.Replace(text, "")`: from a position on, every match found by the leftmost search is cut out and the search resumes where the match ended |
| ChoiceFactory.Deleted | Packages/I18n/Runtime/Choice/ChoiceFactory.cs:82 | the same deletion read one position at a time: a match at the front is dropped, any other first character is kept |
| ChoiceFactory.DeletedIsDeleteFrom | Packages/I18n/Runtime/Choice/ChoiceFactory.cs:82 | the two readings of deletion agree on every text and from every position |
| ChoiceFactory.DeleteSkip | Packages/I18n/Runtime/Choice/ChoiceFactory.cs:82 | text without the pattern's opening bracket is kept as it is, and deletion goes on after it |
| ChoiceFactory.DeleteHere | Packages/I18n/Runtime/Choice/ChoiceFactory.cs:82 | a match at the front is removed whole, and deletion goes on after it |
| ChoiceFactory.DeleteKeepsOtherPattern | Packages/I18n/Runtime/Choice/ChoiceFactory.cs:82 | a match of another of the four patterns stays in the text whole |
| ChoiceFactory.TrimText | Packages/I18n/Runtime/Choice/ChoiceFactory.cs:80-83 | the text is trimmed and no longer than the segment; when the pattern does not occur it is the segment trimmed |
| ChoiceFactory.DeleteFromShorter | Packages/I18n/Runtime/Choice/ChoiceFactory.cs:82 | `Regex.Replace(text, "")` never lengthens the text |
| ChoiceFactory.DeleteAllEffect | Packages/I18n/Runtime/Choice/ChoiceFactory.cs:82 | deleting an absent pattern changes nothing; deleting a present one removes at least three characters |
| ChoiceFactory.DeleteKeepsForeign | Packages/I18n/Runtime/Choice/ChoiceFactory.cs:80-83 | deletion keeps every character that cannot belong to the pattern, in order |
| ChoiceFactory.Leftmost | Packages/I18n/Runtime/Choice/ChoiceFactory.cs:36 | `Regex.Match` on a segment where the pattern occurs: a genuine match, and no position before it starts one (also lines 47, 60, 71) |
| ChoiceFactory.CreateSingle | Packages/I18n/Runtime/Choice/ChoiceFactory.cs:34-43 | the value is group 1 of the leftmost `{n}`; it succeeds exactly when that group parses; the text is the segment with every `{n}` deleted and trimmed; otherwise it fails with the parse error |
| ChoiceFactory.CreateRange | Packages/I18n/Runtime/Choice/ChoiceFactory.cs:45-56 | min and max are groups 1 and 2 of the leftmost `[a,b]`, parsed in that order; it succeeds exactly when both parse and min < max; its error is the first failure met |
| ChoiceFactory.CreateAbove | Packages/I18n/Runtime/Choice/ChoiceFactory.cs:58-67 | the lower bound is group 1 of the leftmost `[a,*]`; it succeeds exactly when that group parses |
| ChoiceFactory.CreateBelow | Packages/I18n/Runtime/Choice/ChoiceFactory.cs:69-78 | the upper bound is group 2 of the leftmost `[*,b]`; it succeeds exactly when that group parses |
| ChoiceFactory.Create | Packages/I18n/Runtime/Choice/ChoiceFactory.cs:16-22 | each CreateList entry builds a choice of its own kind with the trimmed text; the only errors are parse failures and, for ranges only, the invalid-range error |
| ChoiceFactory.CreateFrom | Packages/I18n/Runtime/Choice/ChoiceFactory.cs:24-32 | the first-match loop over CreateList only ever returns valid choices |
| ChoiceFactory.CreateFromFirst | Packages/I18n/Runtime/Choice/ChoiceFactory.cs:26-29 | the first pattern in list order that occurs decides the result |
| ChoiceFactory.CreateFromNone | Packages/I18n/Runtime/Choice/ChoiceFactory.cs:31 | when no pattern occurs, the result is a single-value choice on the index, with the segment untrimmed |
| ChoiceFactory.CreateChoice | Packages/I18n/Runtime/Choice/ChoiceFactory.cs:24-32 | every choice it returns is valid, which for a range means min < max |
| ChoiceFactory.CreateChoiceSingle | Packages/I18n/Runtime/Choice/ChoiceFactory.cs:18 | `{n}` has priority over every other pattern |
| ChoiceFactory.CreateChoiceRange | Packages/I18n/Runtime/Choice/ChoiceFactory.cs:19 | without `{n}`, `[a,b]` decides |
| ChoiceFactory.CreateChoiceAbove | Packages/I18n/Runtime/Choice/ChoiceFactory.cs:20 | without `{n}` or `[a,b]`, `[a,*]` decides |
| ChoiceFactory.CreateChoiceBelow | Packages/I18n/Runtime/Choice/ChoiceFactory.cs:21 | `[*,b]` decides only when none of the other three occurs |
| ChoiceFactory.CreateChoiceFallback | Packages/I18n/Runtime/Choice/ChoiceFactory.cs:31 | a segment with none of the patterns falls back to `Single(index)` with its text verbatim |
| ChoiceFactory.LeadingMatch | Packages/I18n/Runtime/Choice/ChoiceFactory.cs:36 | a pattern spelled at the start of a text is the leftmost match, with the spelled groups |
| ChoiceFactory.RenderedLeftmost | Packages/I18n/Runtime/Choice/ChoiceFactory.cs:36-75 | the written pattern of a choice is the leftmost match of its kind, and its groups are the choice's bounds in decimal |
| ChoiceFactory.RenderedDeletes | Packages/I18n/Runtime/Choice/ChoiceFactory.cs:82 | deleting the pattern from a written choice leaves the gap and the text |
| ChoiceFactory.RenderedTrimText | Packages/I18n/Runtime/Choice/ChoiceFactory.cs:80-83 | TrimText of a written choice is exactly the choice's text |
| ChoiceFactory.RenderedOtherPatternsAbsent | Packages/I18n/Runtime/Choice/ChoiceFactory.cs:26-29 | no pattern of another kind occurs in a written choice |
| ChoiceFactory.CreateChoiceRender | Packages/I18n/Runtime/Choice/ChoiceFactory.cs:24-83 | parsing a written choice gives the same choice back, at any index: the round trip |
| Localization.Placeholder | Packages/I18n/Runtime/I18n.cs:93 | the placeholder for a name is `:` followed by the name |
| Localization.ReplaceParam | Packages/I18n/Runtime/I18n.cs:87-96 | the loop over the bindings returns `Substituted`: each binding's whole-string Replace, applied in order |
| Localization.SubstitutedConcat | Packages/I18n/Runtime/I18n.cs:91-93 | substituting two lists of bindings one after the other is the same as substituting their concatenation |
| Localization.SubstitutedSkipsAbsent | Packages/I18n/Runtime/I18n.cs:93 | a binding whose placeholder does not occur changes nothing |
| Localization.SubstitutedWithoutColon | Packages/I18n/Runtime/I18n.cs:89-95 | a text without `:` comes back unchanged, whatever the bindings |
| Localization.SubstitutedOne | Packages/I18n/Runtime/I18n.cs:93 | one placeholder is replaced by its value and the rest of the text is kept |
| Localization.SubstitutedRescans | Packages/I18n/Runtime/I18n.cs:92-93 | a value written by an earlier binding is rewritten by a later one |
| Localization.BuildChoices | Packages/I18n/Runtime/I18n.cs:70-74 | building the first n segments yields n choices |
| Localization.BuildChoicesMeaning | Packages/I18n/Runtime/I18n.cs:70-74 | building succeeds exactly when every segment's CreateChoice, with its own index, succeeds; the choices are those results in order; the error is that of the first failing segment |
| Localization.BuildChoicesStaysFailed | Packages/I18n/Runtime/I18n.cs:70-74 | once a segment has failed, building more segments keeps that error |
| Localization.BuildChoicesAll | Packages/I18n/Runtime/I18n.cs:70-74 | when each segment creates a given choice, building yields exactly those choices |
| Localization.FirstMatch | Packages/I18n/Runtime/I18n.cs:76 | `FirstOrDefault(IsMatch)`: the index of the first matching choice, with no earlier one matching, or none exactly when no choice matches |
| Localization.Selected | Packages/I18n/Runtime/I18n.cs:76 | the selected choice is the first match in segment order, or else `choices[1]` whatever its selector |
| Localization.Parse | Packages/I18n/Runtime/I18n.cs:62-78 | the loop that adds a choice per segment returns `ParseResult`: substitution alone without `\|`, else the first error, else the selected choice's text with substitution |
| Localization.ParseWithoutBar | Packages/I18n/Runtime/I18n.cs:64-67 | text without `\|` is only substituted: no choice is built and no error can arise |
| Localization.FallbackInBounds | Packages/I18n/Runtime/I18n.cs:64-76 | text with a `\|` splits into at least two segments, so `choices[1]` exists |
| Localization.ParseFailsOnAnyBadSegment | Packages/I18n/Runtime/I18n.cs:70-76 | any failing segment, even after a matching one, fails the whole call |
| Localization.ParseSelects | Packages/I18n/Runtime/I18n.cs:69-77 | when every segment builds, the result is the selected choice's text with substitution |
| Localization.RenderHasNoBar | Packages/I18n/Runtime/I18n.cs:69 | a written choice whose text has no `\|` stays one segment |
| Localization.BuildRendered | Packages/I18n/Runtime/I18n.cs:70-74 | building the segments of written choices gives back those choices |
| Localization.ParseRendered | Packages/I18n/Runtime/I18n.cs:62-78 | Parse of a message written from two or more choices gives the selected choice's text with substitution |
| Localization.Resolve | Packages/I18n/Runtime/I18n.cs:26-33 | the requested language's text quietly if present, else the default language's text with a warning, else no text and an error |
| Localization.ResolveDefaultNeverWarns | Packages/I18n/Runtime/I18n.cs:26-31 | asking for the default language never produces a warning |
| Localization.ResolvedIsATranslation | Packages/I18n/Runtime/I18n.cs:26-30 | a resolved text is always one of the record's translations |
| Localization.I18n.constructor | Packages/I18n/Runtime/I18n.cs:9-15 | the object starts with no database and the given default language |
| Localization.I18n.IsInitialized | Packages/I18n/Runtime/I18n.cs:11 | `IsInitialized`: a database has been set |
| Localization.I18n.SetDatabase | Packages/I18n/Runtime/I18n.cs:11-13 | SetDatabase installs the database, after which IsInitialized holds; the default language is unchanged |
| Localization.I18n.SetDefaultLanguage | Packages/I18n/Runtime/I18n.cs:15 | the DefaultLanguage setter changes the default language and nothing else |
| Localization.I18n.Translate | Packages/I18n/Runtime/I18n.cs:17-21 | a missing key is returned verbatim; otherwise the result is the record's text with substitution, never split on `\|` |
| Localization.I18n.TranslateIn | Packages/I18n/Runtime/I18n.cs:23-34 | a missing key gives the key quietly; otherwise Resolve decides the text and log entry, and an unresolved record gives the key with an error |
| Localization.I18n.TransChoice | Packages/I18n/Runtime/I18n.cs:43-47 | a missing key gives the key; otherwise Parse of the record's text |
| Localization.I18n.TransChoiceIn | Packages/I18n/Runtime/I18n.cs:49-60 | like TranslateIn, with Parse in place of substitution |
| Scenarios.ChoiceTestLiteral | Packages/I18n/Tests/I18nTest.cs:32 | the modelled choice_test message has exactly the test database's segments |
| Scenarios.RangeTestLiteral | Packages/I18n/Tests/I18nTest.cs:36 | the modelled range_test message has exactly the test database's segments |
| Scenarios.FailedBetweenLiteral | Packages/I18n/Tests/I18nTest.cs:38 | the modelled parse_failed_between_data message has exactly the test database's segments |
| Scenarios.FullLiteral | Packages/I18n/Tests/I18nTest.cs:35 | the modelled full_function_test message has exactly the test database's segments |
| Scenarios.ChoiceTestSelects | Packages/I18n/Tests/I18nTest.cs:145-152 | for choice_test, every selector gives the text the tests expect: zero, one, 2..5, 6 and up, and "one" when nothing matches |
| Scenarios.RangeTestSelects | Packages/I18n/Tests/I18nTest.cs:162-166 | for range_test: minus for v <= -1, zero for 0, plus for v >= 1 |
| Scenarios.SecondSegmentFails | Packages/I18n/Tests/I18nTest.cs:38 | the segment `[5,2] second choice` fails with the invalid-range error |
| Scenarios.FailedBetweenThrows | Packages/I18n/Tests/I18nTest.cs:216-220 | parse_failed_between_data fails with InvalidDataException("最小値が最大値を超えています") for every selector |
| Scenarios.FullFunctionSelects | Packages/I18n/Tests/I18nTest.cs:153-161 | full_function_test with a `value` binding gives the first text for 0, the third for 6 and up, and the second (the fallback) for everything else |
| Scenarios.FullFunctionWithoutParams | Packages/I18n/Tests/I18nTest.cs:154 | without bindings, the `:value` placeholder stays in the text |
| Scenarios.ExplicitResolves | Packages/I18n/Tests/I18nTest.cs:172-175 | explicit_translate_test resolves Japanese, English and Chinese quietly, and German falls back to Japanese with a warning |
| Scenarios.ExplicitFallbackFails | Packages/I18n/Tests/I18nTest.cs:238-246 | german_only requested in English or Chinese gives the key with an error, in German its own text; missing keys come back verbatim |

## Left out

- Unity logging: only the kind of entry (none, warning, error) is kept, not the message wording.
- `SystemLanguage`: the language is a type parameter with equality.
- The database interfaces (`IDatabase`, `ITranslateDataSet`): they have no logic, so a database is a map from key to a record of the language-less text and the per-language texts.
- `object.ToString()` on parameter values: values are already strings, and the NullReferenceException of a null value is left out.
- A null parameter array (`param == null`) behaves like an empty list of bindings, which also leaves the text unchanged.
- The .NET regex engine in general: the four fixed patterns are hand-written scanners. `\d` is read as the ASCII digits; the regex engine also accepts other Unicode decimal digits, which `int.Parse` would then reject.
- Strings.ParseInt32: it models `int.Parse` only on what the patterns can capture, text made of `-` and digits. A leading `+`, surrounding whitespace and culture-specific signs cannot reach it; the model treats them as a FormatException, which .NET would not.
- The `Groups.Count` guards in the `Create*` methods: after a successful match every group exists, so the guards cannot fire and are not modelled.
- Localization.I18n.Translate: a call before SetDatabase throws NullReferenceException in the code; the model requires IsInitialized instead. The same applies to TranslateIn, TransChoice and TransChoiceIn.
- The static class is modelled as one I18n object, with the database and the default language as its fields.
- A record's `Text` is always present. In the test data, `Text` of german_only would throw KeyNotFoundException, but no modelled scenario reads it.
- The rank_test, parse_failed_data, inline argument and translate_only test cases are not restated as scenarios. Their behaviour follows from ParseSelects, CreateChoiceFallback and the Substituted lemmas.
