/**
 * ChoiceFactory: turns one `|`-separated segment and its position into a
 * choice. Four fixed regular expressions are tried in a fixed order:
 *
 *   Single  \{([-\d]+)\}
 *   Range   \[([-\d]+),([-\d]+)\]
 *   Above   \[([-\d]+),(\*)\]
 *   Below   \[(\*),([-\d]+)\]
 *
 * The first pattern that occurs anywhere in the segment decides the kind;
 * its leftmost occurrence supplies the bound(s), every occurrence of it is
 * deleted and the rest is trimmed. A segment in which no pattern occurs
 * becomes a single-value choice on its own position, text untouched.
 *
 * The patterns are written out as scanners (MatchAt) and, separately, as
 * the words they match (GroupsFit, Spelled); MatchAt is proved to find
 * exactly those words (MatchAtSpelled, MatchAtComplete).
 */
module ChoiceFactory {
  import opened Wrappers
  import opened Strings
  import opened Choices

  /** The four patterns of the factory's CreateList. */
  datatype Shape = SingleShape | RangeShape | AboveShape | BelowShape

  /** The order in which CreateChoice tries the patterns. */
  const Priority: seq<Shape> := [SingleShape, RangeShape, AboveShape, BelowShape]

  /** The character class `[-\d]`, with `\d` read as the ASCII digits. */
  predicate IsNumChar(c: char) {
    c == '-' || IsDigit(c)
  }

  /** `[-\d]+` */
  predicate IsNumRun(s: string) {
    s != [] && forall i :: 0 <= i < |s| ==> IsNumChar(s[i])
  }

  /** One match of a pattern in a segment: `s[start..end]` and the text of
      its groups (the one-group Single pattern leaves `g2` empty). */
  datatype Match = Match(start: nat, end: nat, g1: string, g2: string)

  // ---------------------------------------------------------------------
  // The language of each pattern

  /** The group texts a match of `shape` can capture. */
  predicate GroupsFit(shape: Shape, g1: string, g2: string) {
    match shape
    case SingleShape => IsNumRun(g1) && g2 == ""
    case RangeShape => IsNumRun(g1) && IsNumRun(g2)
    case AboveShape => IsNumRun(g1) && g2 == "*"
    case BelowShape => g1 == "*" && IsNumRun(g2)
  }

  /** The text of a match of `shape` whose groups captured `g1` and `g2`. */
  function Spelled(shape: Shape, g1: string, g2: string): string {
    if shape == SingleShape then "{" + g1 + "}" else "[" + g1 + "," + g2 + "]"
  }

  // ---------------------------------------------------------------------
  // Scanning

  /** End of the longest run of `[-\d]` characters that starts at `i`. */
  function RunEnd(s: string, i: nat): (j: nat)
    requires i <= |s|
    ensures i <= j <= |s|
    ensures forall k :: i <= k < j ==> IsNumChar(s[k])
    ensures j < |s| ==> !IsNumChar(s[j])
    decreases |s| - i
  {
    if i < |s| && IsNumChar(s[i]) then RunEnd(s, i + 1) else i
  }

  /** End of a group that starts at `i`: `(\*)` when `star`, else `([-\d]+)`.
      A `[-\d]+` group is always followed by a delimiter outside the class,
      so its greedy run is the only candidate. */
  function GroupEnd(star: bool, s: string, i: nat): (e: Option<nat>)
    requires i <= |s|
    ensures star ==> (e.Some? <==> i < |s| && s[i] == '*')
    ensures star && e.Some? ==> e.value == i + 1 && s[i..e.value] == "*"
    ensures !star ==> (e.Some? <==> i < |s| && IsNumChar(s[i]))
    ensures !star && e.Some? ==> e.value == RunEnd(s, i) && IsNumRun(s[i..e.value])
  {
    if star then
      if i < |s| && s[i] == '*' then Some(i + 1) else None
    else
      var j := RunEnd(s, i);
      if j > i then Some(j) else None
  }

  lemma SliceAround(s: string, i: nat, j: nat)
    requires i < j < |s|
    ensures s[i..j + 1] == [s[i]] + s[i + 1..j] + [s[j]]
  {
  }

  /** The steps of a brace pattern at `i`: `{`, a `([-\d]+)` group, `}`. */
  function BraceScan(s: string, i: nat): (m: Option<Match>)
    requires i < |s|
    ensures m.Some? ==> m.value.start == i < m.value.end <= |s|
  {
    var e := GroupEnd(false, s, i + 1);
    if e.None? then None
    else
      var j := e.value;
      if j < |s| && s[j] == '}' then Some(Match(i, j + 1, s[i + 1..j], "")) else None
  }

  /** What BraceScan finds is the text of a brace match. */
  lemma BraceScanSpelled(s: string, i: nat)
    requires i < |s| && s[i] == '{'
    ensures var m := BraceScan(s, i);
      m.Some? ==> && GroupsFit(SingleShape, m.value.g1, m.value.g2)
                  && s[i..m.value.end] == Spelled(SingleShape, m.value.g1, m.value.g2)
  {
    var m := BraceScan(s, i);
    if m.Some? {
      SliceAround(s, i, m.value.end - 1);
    }
  }

  /** When both scanning steps succeed, BraceScan returns the match they
      delimit. */
  lemma BraceScanAt(s: string, i: nat, j: nat)
    requires i < j < |s| && GroupEnd(false, s, i + 1) == Some(j) && s[j] == '}'
    ensures BraceScan(s, i) == Some(Match(i, j + 1, s[i + 1..j], ""))
  {
  }

  lemma BracketSlices(s: string, i: nat, j1: nat, j2: nat)
    requires i < j1 < j2 < |s|
    ensures s[i..j2 + 1] == [s[i]] + s[i + 1..j1] + [s[j1]] + s[j1 + 1..j2] + [s[j2]]
  {
  }

  /** The steps of a bracket pattern at `i`: `[`, a group, `,`, a group,
      `]`, where the groups are `(\*)` or `([-\d]+)` as `star1`, `star2` say. */
  function BracketScan(star1: bool, star2: bool, s: string, i: nat): (m: Option<Match>)
    requires i < |s|
    ensures m.Some? ==> m.value.start == i < m.value.end <= |s|
  {
    var e1 := GroupEnd(star1, s, i + 1);
    if e1.None? then None
    else
      var j1 := e1.value;
      if !(j1 < |s| && s[j1] == ',') then None
      else
        var e2 := GroupEnd(star2, s, j1 + 1);
        if e2.None? then None
        else
          var j2 := e2.value;
          if !(j2 < |s| && s[j2] == ']') then None
          else Some(Match(i, j2 + 1, s[i + 1..j1], s[j1 + 1..j2]))
  }

  /** What BracketScan finds is the text of a bracket match. */
  lemma BracketScanSpelled(shape: Shape, s: string, i: nat)
    requires shape != SingleShape && i < |s| && s[i] == '['
    ensures var m := BracketScan(shape == BelowShape, shape == AboveShape, s, i);
      m.Some? ==> && GroupsFit(shape, m.value.g1, m.value.g2)
                  && s[i..m.value.end] == Spelled(shape, m.value.g1, m.value.g2)
  {
    var star1, star2 := shape == BelowShape, shape == AboveShape;
    var m := BracketScan(star1, star2, s, i);
    if m.Some? {
      var j1 := GroupEnd(star1, s, i + 1).value;
      var j2 := GroupEnd(star2, s, j1 + 1).value;
      assert m.value == Match(i, j2 + 1, s[i + 1..j1], s[j1 + 1..j2]);
      BracketGroups(star1, star2, s, i, j1, j2);
      BracketSlices(s, i, j1, j2);
    }
  }

  /** The groups delimited by successful bracket steps are `*` or a
      `[-\d]+` run, as the steps say. */
  lemma BracketGroups(star1: bool, star2: bool, s: string, i: nat, j1: nat, j2: nat)
    requires i < j1 < |s| && j1 < j2 <= |s|
    requires GroupEnd(star1, s, i + 1) == Some(j1) && GroupEnd(star2, s, j1 + 1) == Some(j2)
    ensures if star1 then s[i + 1..j1] == "*" else IsNumRun(s[i + 1..j1])
    ensures if star2 then s[j1 + 1..j2] == "*" else IsNumRun(s[j1 + 1..j2])
  {
  }

  /** The match of `shape` that starts at position `i`, if there is one. */
  function MatchAt(shape: Shape, s: string, i: nat): (m: Option<Match>)
    requires i <= |s|
    ensures m.Some? ==> m.value.start == i < m.value.end <= |s|
  {
    if i < |s| && s[i] == Opener(shape) then
      if shape == SingleShape then BraceScan(s, i)
      else BracketScan(shape == BelowShape, shape == AboveShape, s, i)
    else None
  }

  /** MatchAt is sound: what it finds is the text of a match of `shape`,
      with groups the pattern can capture. */
  lemma MatchAtSpelled(shape: Shape, s: string, i: nat)
    requires i <= |s| && MatchAt(shape, s, i).Some?
    ensures var m := MatchAt(shape, s, i).value;
      && GroupsFit(shape, m.g1, m.g2)
      && s[i..m.end] == Spelled(shape, m.g1, m.g2)
  {
    if shape == SingleShape {
      BraceScanSpelled(s, i);
    } else {
      BracketScanSpelled(shape, s, i);
    }
  }

  /** The first character of every match. */
  function Opener(shape: Shape): char {
    if shape == SingleShape then '{' else '['
  }

  /** A run that stops at a character outside the class is the greedy run. */
  lemma {:induction false} RunEndAt(s: string, i: nat, j: nat)
    requires i <= j < |s|
    requires forall k :: i <= k < j ==> IsNumChar(s[k])
    requires !IsNumChar(s[j])
    ensures RunEnd(s, i) == j
    decreases j - i
  {
    if i < j {
      RunEndAt(s, i + 1, j);
    }
  }

  /** A group's text followed by a character outside `[-\d]` is where
      GroupEnd finds that group. */
  lemma GroupAt(star: bool, s: string, i: nat, g: string)
    requires if star then g == "*" else IsNumRun(g)
    requires i + |g| < |s| && s[i..i + |g|] == g && !IsNumChar(s[i + |g|])
    ensures GroupEnd(star, s, i) == Some(i + |g|)
  {
    assert forall k :: i <= k < i + |g| ==> s[k] == g[k - i] by {
      forall k | i <= k < i + |g| ensures s[k] == g[k - i] {
        assert s[i..i + |g|][k - i] == s[k];
      }
    }
    if !star {
      RunEndAt(s, i, i + |g|);
    }
  }

  lemma SubSlice(s: string, i: nat, n: nat, a: nat, b: nat)
    requires i + n <= |s| && a <= b <= n
    ensures s[i..i + n][a..b] == s[i + a..i + b]
  {
    var t := s[i..i + n];
    assert forall k :: 0 <= k < b - a ==> t[a..b][k] == t[a + k] == s[i + a + k];
  }

  /** Where the text of a brace match stands, its pieces stand. */
  lemma BraceParts(s: string, i: nat, g1: string)
    requires i + |g1| + 2 <= |s| && s[i..i + |g1| + 2] == "{" + g1 + "}"
    ensures s[i] == '{' && s[i + 1..i + 1 + |g1|] == g1 && s[i + 1 + |g1|] == '}'
  {
    var w := "{" + g1 + "}";
    assert s[i] == s[i..i + |w|][0];
    assert s[i + 1 + |g1|] == s[i..i + |w|][1 + |g1|];
    SubSlice(s, i, |w|, 1, 1 + |g1|);
    assert w[1..1 + |g1|] == g1;
  }

  /** Where the text of a bracket match stands, its pieces stand. */
  lemma BracketParts(s: string, i: nat, g1: string, g2: string)
    requires i + |g1| + |g2| + 3 <= |s| && s[i..i + |g1| + |g2| + 3] == "[" + g1 + "," + g2 + "]"
    ensures var j1 := i + 1 + |g1|; var j2 := j1 + 1 + |g2|;
      && s[i] == '[' && s[i + 1..j1] == g1 && s[j1] == ','
      && s[j1 + 1..j2] == g2 && s[j2] == ']'
  {
    var w := "[" + g1 + "," + g2 + "]";
    var j1 := i + 1 + |g1|;
    var j2 := j1 + 1 + |g2|;
    var t := s[i..i + |w|];
    assert s[i] == t[0];
    assert s[j1] == t[1 + |g1|];
    assert s[j2] == t[2 + |g1| + |g2|];
    SubSlice(s, i, |w|, 1, 1 + |g1|);
    assert w[1..1 + |g1|] == g1;
    SubSlice(s, i, |w|, 2 + |g1|, 2 + |g1| + |g2|);
    assert w[2 + |g1|..2 + |g1| + |g2|] == g2;
  }

  lemma BraceComplete(s: string, i: nat, g1: string)
    requires IsNumRun(g1)
    requires i + |g1| + 2 <= |s| && s[i..i + |g1| + 2] == "{" + g1 + "}"
    ensures MatchAt(SingleShape, s, i) == Some(Match(i, i + |g1| + 2, g1, ""))
  {
    BraceParts(s, i, g1);
    GroupAt(false, s, i + 1, g1);
    BraceScanAt(s, i, i + 1 + |g1|);
  }

  /** The scanning steps of BracketScan all succeed on the text of a
      bracket match, stopping exactly at its delimiters. */
  lemma BracketSteps(star1: bool, star2: bool, s: string, i: nat, g1: string, g2: string)
    requires if star1 then g1 == "*" else IsNumRun(g1)
    requires if star2 then g2 == "*" else IsNumRun(g2)
    requires i + |g1| + |g2| + 3 <= |s| && s[i..i + |g1| + |g2| + 3] == "[" + g1 + "," + g2 + "]"
    ensures var j1 := i + 1 + |g1|; var j2 := j1 + 1 + |g2|;
      && s[i] == '[' && GroupEnd(star1, s, i + 1) == Some(j1) && s[j1] == ','
      && GroupEnd(star2, s, j1 + 1) == Some(j2) && s[j2] == ']'
      && s[i + 1..j1] == g1 && s[j1 + 1..j2] == g2
  {
    BracketParts(s, i, g1, g2);
    GroupAt(star1, s, i + 1, g1);
    GroupAt(star2, s, i + 2 + |g1|, g2);
  }

  /** When each scanning step succeeds, BracketScan returns the match the
      steps delimit. */
  lemma BracketScanAt(star1: bool, star2: bool, s: string, i: nat, j1: nat, j2: nat)
    requires i < j1 < j2 < |s|
    requires GroupEnd(star1, s, i + 1) == Some(j1) && s[j1] == ','
    requires GroupEnd(star2, s, j1 + 1) == Some(j2) && s[j2] == ']'
    ensures BracketScan(star1, star2, s, i) == Some(Match(i, j2 + 1, s[i + 1..j1], s[j1 + 1..j2]))
  {
  }

  lemma BracketComplete(shape: Shape, s: string, i: nat, g1: string, g2: string)
    requires shape != SingleShape && GroupsFit(shape, g1, g2)
    requires i + |g1| + |g2| + 3 <= |s| && s[i..i + |g1| + |g2| + 3] == "[" + g1 + "," + g2 + "]"
    ensures MatchAt(shape, s, i) == Some(Match(i, i + |g1| + |g2| + 3, g1, g2))
  {
    var j1 := i + 1 + |g1|;
    var j2 := j1 + 1 + |g2|;
    BracketSteps(shape == BelowShape, shape == AboveShape, s, i, g1, g2);
    BracketScanAt(shape == BelowShape, shape == AboveShape, s, i, j1, j2);
  }

  /** MatchAt misses no match: wherever the text of a match of `shape`
      stands in `s`, MatchAt finds it, with the same groups. Together with
      MatchAtSpelled: at each position there is at most one match, and
      MatchAt returns exactly it. */
  lemma MatchAtComplete(shape: Shape, s: string, i: nat, g1: string, g2: string)
    requires GroupsFit(shape, g1, g2)
    requires i + |Spelled(shape, g1, g2)| <= |s|
    requires s[i..i + |Spelled(shape, g1, g2)|] == Spelled(shape, g1, g2)
    ensures MatchAt(shape, s, i) == Some(Match(i, i + |Spelled(shape, g1, g2)|, g1, g2))
  {
    if shape == SingleShape {
      BraceComplete(s, i, g1);
    } else {
      BracketComplete(shape, s, i, g1, g2);
    }
  }

  /** At one position at most one of the four patterns matches. */
  lemma PatternsExclusiveAt(s: string, i: nat, a: Shape, b: Shape)
    requires i <= |s|
    requires MatchAt(a, s, i).Some? && MatchAt(b, s, i).Some?
    ensures a == b
  {
    var ma, mb := MatchAt(a, s, i).value, MatchAt(b, s, i).value;
    MatchAtSpelled(a, s, i);
    MatchAtSpelled(b, s, i);
    assert s[i..ma.end][0] == Spelled(a, ma.g1, ma.g2)[0];
    assert s[i..mb.end][0] == Spelled(b, mb.g1, mb.g2)[0];
  }

  /** Regex.Match: the leftmost match at or after `from`. */
  function FindFirst(shape: Shape, s: string, from: nat): (m: Option<Match>)
    requires from <= |s|
    ensures m.Some? ==> from <= m.value.start <= |s| && MatchAt(shape, s, m.value.start) == m
    decreases |s| - from
  {
    if MatchAt(shape, s, from).Some? then MatchAt(shape, s, from)
    else if from == |s| then None
    else FindFirst(shape, s, from + 1)
  }

  /** FindFirst misses nothing before the match it returns: that match
      is the leftmost one at or after `from`. */
  lemma {:induction false} FindFirstLeftmost(shape: Shape, s: string, from: nat)
    requires from <= |s|
    ensures var m := FindFirst(shape, s, from);
      m.Some? ==> forall k :: from <= k < m.value.start ==> MatchAt(shape, s, k).None?
    decreases |s| - from
  {
    var m := FindFirst(shape, s, from);
    if MatchAt(shape, s, from).Some? {
      assert m == MatchAt(shape, s, from);
    } else if from < |s| {
      assert m == FindFirst(shape, s, from + 1);
      FindFirstLeftmost(shape, s, from + 1);
    }
  }

  /** FindFirst finds no match exactly when no position at or after
      `from` starts one. */
  lemma {:induction false} FindFirstNone(shape: Shape, s: string, from: nat)
    requires from <= |s|
    ensures FindFirst(shape, s, from).None? <==> forall k :: from <= k <= |s| ==> MatchAt(shape, s, k).None?
    decreases |s| - from
  {
    var m := FindFirst(shape, s, from);
    if MatchAt(shape, s, from).Some? {
      assert m == MatchAt(shape, s, from);
    } else if from < |s| {
      assert m == FindFirst(shape, s, from + 1);
      FindFirstNone(shape, s, from + 1);
    }
  }

  /** Regex.IsMatch: the pattern occurs somewhere in `s`. */
  predicate Occurs(shape: Shape, s: string) {
    FindFirst(shape, s, 0).Some?
  }

  /** The patterns are not anchored: one standing anywhere counts. */
  lemma OccursAnywhere(shape: Shape, pre: string, g1: string, g2: string, post: string)
    requires GroupsFit(shape, g1, g2)
    ensures Occurs(shape, pre + Spelled(shape, g1, g2) + post)
  {
    var w := Spelled(shape, g1, g2);
    var s := pre + w + post;
    assert s[|pre|..|pre| + |w|] == w;
    MatchAtComplete(shape, s, |pre|, g1, g2);
    FindFirstNone(shape, s, 0);
  }

  /** Without its opening character from `from` on, a pattern has no match there. */
  lemma NoOpenerNoMatch(shape: Shape, s: string, from: nat)
    requires from <= |s|
    requires forall k :: from <= k < |s| ==> s[k] != Opener(shape)
    ensures FindFirst(shape, s, from).None?
  {
    forall k | from <= k <= |s| ensures MatchAt(shape, s, k).None? {
    }
    FindFirstNone(shape, s, from);
  }

  // ---------------------------------------------------------------------
  // Deleting every match

  /** Regex.Replace(text, ""): from `i` on, delete every match found by
      scanning left to right, each search resuming where the last match ended. */
  function DeleteFrom(shape: Shape, s: string, i: nat): string
    requires i <= |s|
    decreases |s| - i
  {
    match FindFirst(shape, s, i)
    case None => s[i..]
    case Some(m) => s[i..m.start] + DeleteFrom(shape, s, m.end)
  }

  /** ChoiceFactory.TrimText: delete every match of the pattern, then Trim. */
  function TrimText(shape: Shape, s: string): (r: string)
    ensures Trimmed(r) && |r| <= |s|
    ensures !Occurs(shape, s) ==> r == Trim(s)
  {
    DeleteAllEffect(shape, s);
    Trim(DeleteFrom(shape, s, 0))
  }

  /** Deletion only ever removes text. */
  lemma {:induction false} DeleteFromShorter(shape: Shape, s: string, i: nat)
    requires i <= |s|
    ensures |DeleteFrom(shape, s, i)| <= |s| - i
    decreases |s| - i
  {
    match FindFirst(shape, s, i)
    case None =>
    case Some(m) => DeleteFromShorter(shape, s, m.end);
  }

  /** With no match, deletion leaves the segment as it is; with one, the
      segment loses at least the three characters of the leftmost match. */
  lemma DeleteAllEffect(shape: Shape, s: string)
    ensures !Occurs(shape, s) ==> DeleteFrom(shape, s, 0) == s
    ensures Occurs(shape, s) ==> |DeleteFrom(shape, s, 0)| <= |s| - 3
  {
    if Occurs(shape, s) {
      var m := FindFirst(shape, s, 0).value;
      MatchAtSpelled(shape, s, m.start);
      assert |Spelled(shape, m.g1, m.g2)| >= 3;
      DeleteFromShorter(shape, s, m.end);
    }
  }

  /** Characters that a match of `shape` can consist of. */
  predicate InPattern(shape: Shape, c: char) {
    IsNumChar(c) ||
    if shape == SingleShape then c == '{' || c == '}'
    else c == '[' || c == ']' || c == ',' || c == '*'
  }

  /** The characters no match of `shape` can contain, in order. */
  function Foreign(shape: Shape, s: string): string {
    if s == [] then []
    else if InPattern(shape, s[0]) then Foreign(shape, s[1..])
    else [s[0]] + Foreign(shape, s[1..])
  }

  lemma {:induction false} ForeignAppend(shape: Shape, a: string, b: string)
    ensures Foreign(shape, a + b) == Foreign(shape, a) + Foreign(shape, b)
  {
    if a != [] {
      assert (a + b)[1..] == a[1..] + b;
      assert (a + b)[0] == a[0];
      ForeignAppend(shape, a[1..], b);
      if !InPattern(shape, a[0]) {
        assert [a[0]] + (Foreign(shape, a[1..]) + Foreign(shape, b)) == ([a[0]] + Foreign(shape, a[1..])) + Foreign(shape, b);
      }
    } else {
      assert a + b == b;
    }
  }

  lemma {:induction false} ForeignOfPatternChars(shape: Shape, s: string)
    requires forall k :: 0 <= k < |s| ==> InPattern(shape, s[k])
    ensures Foreign(shape, s) == []
  {
    if s != [] {
      ForeignOfPatternChars(shape, s[1..]);
    }
  }

  /** Every character of a match belongs to its pattern, and only the
      first one can open a match. */
  lemma SpelledChars(shape: Shape, g1: string, g2: string)
    requires GroupsFit(shape, g1, g2)
    ensures var w := Spelled(shape, g1, g2);
      && (forall k :: 0 <= k < |w| ==> InPattern(shape, w[k]))
      && (forall k :: 1 <= k < |w| ==> w[k] != '{' && w[k] != '[')
  {
    var w := Spelled(shape, g1, g2);
    forall k | 0 <= k < |w| ensures InPattern(shape, w[k]) && (k >= 1 ==> w[k] != '{' && w[k] != '[') {
      if shape == SingleShape {
        assert w == "{" + g1 + "}";
        if 0 < k < |w| - 1 { assert w[k] == g1[k - 1]; }
      } else {
        assert w == "[" + g1 + "," + g2 + "]";
        if 0 < k < 1 + |g1| { assert w[k] == g1[k - 1]; }
        else if 1 + |g1| < k < |w| - 1 { assert w[k] == g2[k - 2 - |g1|]; }
      }
    }
  }

  /** Cutting out a stretch of pattern characters leaves the foreign
      characters as they were. */
  lemma ForeignAroundCut(shape: Shape, s: string, i: nat, a: nat, b: nat)
    requires i <= a <= b <= |s|
    requires forall k :: a <= k < b ==> InPattern(shape, s[k])
    ensures Foreign(shape, s[i..]) == Foreign(shape, s[i..a]) + Foreign(shape, s[b..])
  {
    var pre, w, post := s[i..a], s[a..b], s[b..];
    assert s[i..] == (pre + w) + post;
    ForeignOfPatternChars(shape, w);
    ForeignAppend(shape, pre + w, post);
    ForeignAppend(shape, pre, w);
    assert Foreign(shape, pre) + [] == Foreign(shape, pre);
  }

  /** The characters of a match found in `s` all belong to its pattern. */
  lemma MatchChars(shape: Shape, s: string, m: Match)
    requires m.start <= |s| && MatchAt(shape, s, m.start) == Some(m)
    ensures forall k :: m.start <= k < m.end ==> InPattern(shape, s[k])
  {
    var w := Spelled(shape, m.g1, m.g2);
    MatchAtSpelled(shape, s, m.start);
    SpelledChars(shape, m.g1, m.g2);
    forall k | m.start <= k < m.end ensures InPattern(shape, s[k]) {
      assert s[k] == w[k - m.start];
    }
  }

  /** Deleting the matches of one pattern keeps every character that
      cannot belong to such a match, in order: the rest of the text,
      including brackets of other kinds of pattern, survives. */
  lemma {:induction false} DeleteKeepsForeign(shape: Shape, s: string, i: nat)
    requires i <= |s|
    ensures Foreign(shape, DeleteFrom(shape, s, i)) == Foreign(shape, s[i..])
    decreases |s| - i
  {
    var f := FindFirst(shape, s, i);
    if f.Some? {
      var m := f.value;
      var rest := DeleteFrom(shape, s, m.end);
      assert DeleteFrom(shape, s, i) == s[i..m.start] + rest;
      DeleteKeepsForeign(shape, s, m.end);
      MatchChars(shape, s, m);
      ForeignAroundCut(shape, s, i, m.start, m.end);
      ForeignAppend(shape, s[i..m.start], rest);
    }
  }

  /** A match depends only on the text it covers: the same text at a
      position of another string is the same match there. */
  lemma MatchTransfer(shape: Shape, s: string, i: nat, t: string, k: nat)
    requires i <= |s| && MatchAt(shape, s, i).Some?
    requires var n := MatchAt(shape, s, i).value;
      k + (n.end - i) <= |t| && t[k..k + (n.end - i)] == s[i..n.end]
    ensures var n := MatchAt(shape, s, i).value;
      MatchAt(shape, t, k) == Some(Match(k, k + (n.end - i), n.g1, n.g2))
  {
    var n := MatchAt(shape, s, i).value;
    MatchAtSpelled(shape, s, i);
    MatchAtComplete(shape, t, k, n.g1, n.g2);
  }

  /** Where no match follows, deletion keeps the rest of the text. */
  lemma DeleteStepNone(shape: Shape, s: string, i: nat)
    requires i <= |s| && FindFirst(shape, s, i).None?
    ensures DeleteFrom(shape, s, i) == s[i..]
  {
  }

  /** Where the next match is `m`, deletion keeps the text before it and
      goes on after it. */
  lemma DeleteStepSome(shape: Shape, s: string, i: nat, m: Match)
    requires i <= |s| && FindFirst(shape, s, i) == Some(m)
    ensures i <= m.start < m.end <= |s|
    ensures DeleteFrom(shape, s, i) == s[i..m.start] + DeleteFrom(shape, s, m.end)
  {
  }

  /** Where no match starts at `i`, deletion keeps the character there. */
  lemma DeleteKeepsChar(shape: Shape, s: string, i: nat)
    requires i < |s| && MatchAt(shape, s, i).None?
    ensures DeleteFrom(shape, s, i) == [s[i]] + DeleteFrom(shape, s, i + 1)
  {
    var f := FindFirst(shape, s, i + 1);
    assert FindFirst(shape, s, i) == f;
    if f.None? {
      KeepsCharBeforeNone(shape, s, i);
    } else {
      KeepsCharBeforeSome(shape, s, i, f.value);
    }
  }

  lemma KeepsCharBeforeNone(shape: Shape, s: string, i: nat)
    requires i < |s| && FindFirst(shape, s, i).None? && FindFirst(shape, s, i + 1).None?
    ensures DeleteFrom(shape, s, i) == [s[i]] + DeleteFrom(shape, s, i + 1)
  {
    DeleteStepNone(shape, s, i);
    DeleteStepNone(shape, s, i + 1);
    assert s[i..] == [s[i]] + s[i + 1..];
  }

  lemma KeepsCharBeforeSome(shape: Shape, s: string, i: nat, m: Match)
    requires i < |s| && FindFirst(shape, s, i) == Some(m) && FindFirst(shape, s, i + 1) == Some(m)
    ensures DeleteFrom(shape, s, i) == [s[i]] + DeleteFrom(shape, s, i + 1)
  {
    DeleteStepSome(shape, s, i, m);
    DeleteStepSome(shape, s, i + 1, m);
    ConsSlice(s, i, m.start, DeleteFrom(shape, s, m.end));
  }

  lemma ConsSlice(s: string, i: nat, j: nat, r: string)
    requires i < j <= |s|
    ensures s[i..j] + r == [s[i]] + (s[i + 1..j] + r)
  {
    assert s[i..j] == [s[i]] + s[i + 1..j];
  }

  /** Deletion read one position at a time: a match at the front is
      dropped, any other first character is kept. */
  function Deleted(shape: Shape, s: string): string
    decreases |s|
  {
    if s == [] then []
    else match MatchAt(shape, s, 0)
      case Some(m) => Deleted(shape, s[m.end..])
      case None => [s[0]] + Deleted(shape, s[1..])
  }

  /** The scan one position at a time deletes what the scan from match to
      match deletes. */
  lemma {:induction false} DeletedIsDeleteFrom(shape: Shape, s: string, i: nat)
    requires i <= |s|
    ensures Deleted(shape, s[i..]) == DeleteFrom(shape, s, i)
    decreases |s| - i
  {
    if i == |s| {
      assert s[i..] == [];
    } else if MatchAt(shape, s, i).Some? {
      var m := MatchAt(shape, s, i).value;
      DeletedIsDeleteFrom(shape, s, m.end);
      DeletedStepMatch(shape, s, i, m);
    } else {
      DeletedIsDeleteFrom(shape, s, i + 1);
      DeletedStepKeep(shape, s, i);
    }
  }

  /** The induction step of DeletedIsDeleteFrom where a match starts at `i`. */
  lemma DeletedStepMatch(shape: Shape, s: string, i: nat, m: Match)
    requires i < |s| && MatchAt(shape, s, i) == Some(m)
    requires Deleted(shape, s[m.end..]) == DeleteFrom(shape, s, m.end)
    ensures Deleted(shape, s[i..]) == DeleteFrom(shape, s, i)
  {
    DeletedAtMatch(shape, s, i, m);
    DeleteFromAtMatch(shape, s, i, m);
  }

  lemma DeletedAtMatch(shape: Shape, s: string, i: nat, m: Match)
    requires i < |s| && MatchAt(shape, s, i) == Some(m)
    ensures m.end <= |s| && Deleted(shape, s[i..]) == Deleted(shape, s[m.end..])
  {
    MatchInSuffix(shape, s, i, m);
    DeletedDropsMatch(shape, s[i..], Match(0, m.end - i, m.g1, m.g2));
  }

  /** The induction step of DeletedIsDeleteFrom where no match starts at `i`. */
  lemma DeletedStepKeep(shape: Shape, s: string, i: nat)
    requires i < |s| && MatchAt(shape, s, i).None?
    requires Deleted(shape, s[i + 1..]) == DeleteFrom(shape, s, i + 1)
    ensures Deleted(shape, s[i..]) == DeleteFrom(shape, s, i)
  {
    NoMatchInSuffix(shape, s, i);
    DeletedKeepsFirst(shape, s[i..]);
    DeleteKeepsChar(shape, s, i);
  }

  /** A match at `i` is a match at the front of the text from `i` on. */
  lemma MatchInSuffix(shape: Shape, s: string, i: nat, m: Match)
    requires i < |s| && MatchAt(shape, s, i) == Some(m)
    ensures MatchAt(shape, s[i..], 0) == Some(Match(0, m.end - i, m.g1, m.g2))
    ensures s[i..][m.end - i..] == s[m.end..]
  {
    SuffixSlices(s, i, m.end - i);
    MatchTransfer(shape, s, i, s[i..], 0);
  }

  /** No match at `i` is no match at the front of the text from `i` on. */
  lemma NoMatchInSuffix(shape: Shape, s: string, i: nat)
    requires i < |s| && MatchAt(shape, s, i).None?
    ensures MatchAt(shape, s[i..], 0).None?
    ensures s[i..] != [] && s[i..][0] == s[i] && s[i..][1..] == s[i + 1..]
  {
    var t := s[i..];
    if MatchAt(shape, t, 0).Some? {
      SuffixSlices(s, i, MatchAt(shape, t, 0).value.end);
      MatchTransfer(shape, t, 0, s, i);
      assert false;
    }
    SuffixSlices(s, i, 1);
  }

  lemma DeletedDropsMatch(shape: Shape, t: string, n: Match)
    requires MatchAt(shape, t, 0) == Some(n)
    ensures n.end <= |t| && Deleted(shape, t) == Deleted(shape, t[n.end..])
  {
  }

  lemma DeletedKeepsFirst(shape: Shape, t: string)
    requires t != [] && MatchAt(shape, t, 0).None?
    ensures Deleted(shape, t) == [t[0]] + Deleted(shape, t[1..])
  {
  }

  lemma DeleteFromAtMatch(shape: Shape, s: string, i: nat, m: Match)
    requires i <= |s| && MatchAt(shape, s, i) == Some(m)
    ensures m.end <= |s| && DeleteFrom(shape, s, i) == DeleteFrom(shape, s, m.end)
  {
    DeleteStepSome(shape, s, i, m);
    assert s[i..m.start] == [];
  }

  lemma SuffixSlices(s: string, i: nat, n: nat)
    requires i + n <= |s|
    ensures s[i..][0..n] == s[i..i + n] && s[i..][n..] == s[i + n..]
  {
  }

  /** Text without the opener is kept whole by the position-wise deletion. */
  lemma {:induction false} DeletedSkip(shape: Shape, a: string, b: string)
    requires Opener(shape) !in a
    ensures Deleted(shape, a + b) == a + Deleted(shape, b)
    decreases |a|
  {
    if a == [] {
      assert a + b == b;
    } else {
      NoOpenerFront(shape, a, b);
      DeletedKeepsFirst(shape, a + b);
      DeletedSkip(shape, a[1..], b);
      ConsAppend(a, Deleted(shape, b));
    }
  }

  /** Text that does not start with the opener starts no match, and
      neither does any later part of it. */
  lemma NoOpenerFront(shape: Shape, a: string, b: string)
    requires a != [] && Opener(shape) !in a
    ensures MatchAt(shape, a + b, 0).None?
    ensures (a + b)[0] == a[0] && (a + b)[1..] == a[1..] + b && Opener(shape) !in a[1..]
  {
    assert (a + b)[0] == a[0] && a[0] in a;
    assert (a + b)[1..] == a[1..] + b;
    assert forall c :: c in a[1..] ==> c in a;
  }

  lemma ConsAppend(a: string, r: string)
    requires a != []
    ensures a + r == [a[0]] + (a[1..] + r)
  {
    assert a == [a[0]] + a[1..];
  }

  /** The position-wise deletion drops a match at the front. */
  lemma DeletedHere(shape: Shape, g1: string, g2: string, b: string)
    requires GroupsFit(shape, g1, g2)
    ensures Deleted(shape, Spelled(shape, g1, g2) + b) == Deleted(shape, b)
  {
    var w := Spelled(shape, g1, g2);
    var s := w + b;
    assert s[0..|w|] == w;
    MatchAtComplete(shape, s, 0, g1, g2);
    assert s[|w|..] == b;
  }

  /** The position-wise deletion keeps a match of another pattern whole. */
  lemma DeletedOtherPattern(shape: Shape, other: Shape, g1: string, g2: string, b: string)
    requires other != shape && GroupsFit(other, g1, g2)
    ensures var w := Spelled(other, g1, g2);
      Deleted(shape, w + b) == w + Deleted(shape, b)
  {
    var w := Spelled(other, g1, g2);
    OtherPatternFront(shape, other, g1, g2, b);
    DeletedKeepsFirst(shape, w + b);
    DeletedSkip(shape, w[1..], b);
    ConsAppend(w, Deleted(shape, b));
  }

  /** A match of another pattern starts no match of `shape`, and the rest
      of it holds no opener. */
  lemma OtherPatternFront(shape: Shape, other: Shape, g1: string, g2: string, b: string)
    requires other != shape && GroupsFit(other, g1, g2)
    ensures var w := Spelled(other, g1, g2);
      && w != [] && MatchAt(shape, w + b, 0).None?
      && (w + b)[0] == w[0] && (w + b)[1..] == w[1..] + b && Opener(shape) !in w[1..]
  {
    var w := Spelled(other, g1, g2);
    var s := w + b;
    assert s[0..|w|] == w;
    MatchAtComplete(other, s, 0, g1, g2);
    if MatchAt(shape, s, 0).Some? {
      PatternsExclusiveAt(s, 0, shape, other);
      assert false;
    }
    SpelledChars(other, g1, g2);
    assert Opener(shape) !in w[1..] by {
      forall k | 0 <= k < |w[1..]| ensures w[1..][k] != Opener(shape) {
        assert w[1..][k] == w[k + 1];
      }
    }
    assert s[1..] == w[1..] + b;
  }

  /** Text without the pattern's opening bracket survives deletion. */
  lemma DeleteSkip(shape: Shape, a: string, b: string)
    requires Opener(shape) !in a
    ensures DeleteFrom(shape, a + b, 0) == a + DeleteFrom(shape, b, 0)
  {
    DeletedIsDeleteFrom(shape, a + b, 0);
    DeletedIsDeleteFrom(shape, b, 0);
    assert (a + b)[0..] == a + b && b[0..] == b;
    DeletedSkip(shape, a, b);
  }

  /** A match at the front is deleted, and deletion goes on after it. */
  lemma DeleteHere(shape: Shape, g1: string, g2: string, b: string)
    requires GroupsFit(shape, g1, g2)
    ensures DeleteFrom(shape, Spelled(shape, g1, g2) + b, 0) == DeleteFrom(shape, b, 0)
  {
    var s := Spelled(shape, g1, g2) + b;
    DeletedIsDeleteFrom(shape, s, 0);
    DeletedIsDeleteFrom(shape, b, 0);
    assert s[0..] == s && b[0..] == b;
    DeletedHere(shape, g1, g2, b);
  }

  /** A pattern of another kind is not deleted: `[2,5]` stays when `{n}`
      is deleted, and `[2,5]` stays when `[a,*]` is. */
  lemma DeleteKeepsOtherPattern(shape: Shape, other: Shape, g1: string, g2: string, b: string)
    requires other != shape && GroupsFit(other, g1, g2)
    ensures var w := Spelled(other, g1, g2);
      DeleteFrom(shape, w + b, 0) == w + DeleteFrom(shape, b, 0)
  {
    var s := Spelled(other, g1, g2) + b;
    DeletedIsDeleteFrom(shape, s, 0);
    DeletedIsDeleteFrom(shape, b, 0);
    assert s[0..] == s && b[0..] == b;
    DeletedOtherPattern(shape, other, g1, g2, b);
  }

  // ---------------------------------------------------------------------
  // The Create methods

  /** The leftmost match of a pattern that occurs (Regex.Match). */
  function Leftmost(shape: Shape, s: string): (m: Match)
    requires Occurs(shape, s)
    ensures m.start < m.end <= |s| && MatchAt(shape, s, m.start) == Some(m)
    ensures forall k :: 0 <= k < m.start ==> MatchAt(shape, s, k).None?
  {
    FindFirstLeftmost(shape, s, 0);
    FindFirst(shape, s, 0).value
  }

  /** CreateSingle: `{n}`; the value is group 1 of the leftmost match. */
  function CreateSingle(text: string): (r: Result<Choice, Exception>)
    requires Occurs(SingleShape, text)
    ensures var g := Leftmost(SingleShape, text).g1;
      && (r.Ok? <==> ParseInt32(g).Ok?)
      && (r.Ok? ==> r.value == Choice(TrimText(SingleShape, text), Single(ParseInt32(g).value)))
      && (r.Err? ==> r.error == ParseInt32(g).error)
  {
    var m := Leftmost(SingleShape, text);
    var value :- ParseInt32(m.g1);
    Ok(Choice(TrimText(SingleShape, text), Single(value)))
  }

  /** CreateRange: `[a,b]`; min is group 1, max group 2, both parsed before
      the constructor validates min < max. */
  function CreateRange(text: string): (r: Result<Choice, Exception>)
    requires Occurs(RangeShape, text)
    ensures var m := Leftmost(RangeShape, text);
      var (lo, hi) := (ParseInt32(m.g1), ParseInt32(m.g2));
      && (r.Ok? <==> lo.Ok? && hi.Ok? && lo.value < hi.value)
      && (r.Ok? ==> r.value == Choice(TrimText(RangeShape, text), Range(lo.value, hi.value)))
      && (lo.Err? ==> r == Err(lo.error))
      && (lo.Ok? && hi.Err? ==> r == Err(hi.error))
      && (lo.Ok? && hi.Ok? && lo.value >= hi.value ==> r == Err(InvalidDataException(RangeMessage)))
  {
    var m := Leftmost(RangeShape, text);
    var min :- ParseInt32(m.g1);
    var max :- ParseInt32(m.g2);
    NewRange(TrimText(RangeShape, text), min, max)
  }

  /** CreateAbove: `[a,*]`; the lower bound is group 1. */
  function CreateAbove(text: string): (r: Result<Choice, Exception>)
    requires Occurs(AboveShape, text)
    ensures var g := Leftmost(AboveShape, text).g1;
      && (r.Ok? <==> ParseInt32(g).Ok?)
      && (r.Ok? ==> r.value == Choice(TrimText(AboveShape, text), Above(ParseInt32(g).value)))
      && (r.Err? ==> r.error == ParseInt32(g).error)
  {
    var m := Leftmost(AboveShape, text);
    var min :- ParseInt32(m.g1);
    Ok(Choice(TrimText(AboveShape, text), Above(min)))
  }

  /** CreateBelow: `[*,b]`; the upper bound is group 2 (group 1 is the star). */
  function CreateBelow(text: string): (r: Result<Choice, Exception>)
    requires Occurs(BelowShape, text)
    ensures var g := Leftmost(BelowShape, text).g2;
      && (r.Ok? <==> ParseInt32(g).Ok?)
      && (r.Ok? ==> r.value == Choice(TrimText(BelowShape, text), Below(ParseInt32(g).value)))
      && (r.Err? ==> r.error == ParseInt32(g).error)
  {
    var m := Leftmost(BelowShape, text);
    var max :- ParseInt32(m.g2);
    Ok(Choice(TrimText(BelowShape, text), Below(max)))
  }

  /** The CreateMethod paired with each pattern in CreateList. */
  function Create(shape: Shape, text: string): (r: Result<Choice, Exception>)
    requires Occurs(shape, text)
    ensures r.Ok? ==> Valid(r.value) && r.value.text == TrimText(shape, text)
    ensures r.Ok? ==> KindOf(r.value.selector) == shape
    ensures r.Err? ==> r.error.FormatException? || r.error.OverflowException? || r.error == InvalidDataException(RangeMessage)
    ensures r.Err? && r.error.InvalidDataException? ==> shape == RangeShape
  {
    match shape
    case SingleShape => CreateSingle(text)
    case RangeShape => CreateRange(text)
    case AboveShape => CreateAbove(text)
    case BelowShape => CreateBelow(text)
  }

  /** The pattern a selector is written with. */
  function KindOf(sel: Selector): Shape {
    match sel
    case Single(_) => SingleShape
    case Range(_, _) => RangeShape
    case Above(_) => AboveShape
    case Below(_) => BelowShape
  }

  /** The loop over CreateList, from its `k`-th entry: the first pattern
      that occurs decides; after the last one, the positional fallback. */
  function CreateFrom(shapes: seq<Shape>, text: string, index: int): (r: Result<Choice, Exception>)
    ensures r.Ok? ==> Valid(r.value)
  {
    if shapes == [] then Ok(Choice(text, Single(index)))
    else if Occurs(shapes[0], text) then Create(shapes[0], text)
    else CreateFrom(shapes[1..], text, index)
  }

  /** The first pattern in the list that occurs decides the choice. */
  lemma {:induction false} CreateFromFirst(shapes: seq<Shape>, text: string, index: int, k: nat)
    requires k < |shapes| && Occurs(shapes[k], text)
    requires forall j :: 0 <= j < k ==> !Occurs(shapes[j], text)
    ensures CreateFrom(shapes, text, index) == Create(shapes[k], text)
  {
    if k > 0 {
      assert !Occurs(shapes[0], text);
      assert forall j :: 0 <= j < k - 1 ==> shapes[1..][j] == shapes[j + 1];
      CreateFromFirst(shapes[1..], text, index, k - 1);
    }
  }

  /** When no pattern in the list occurs, the segment becomes a
      single-value choice on its position, its text untouched. */
  lemma {:induction false} CreateFromNone(shapes: seq<Shape>, text: string, index: int)
    requires forall j :: 0 <= j < |shapes| ==> !Occurs(shapes[j], text)
    ensures CreateFrom(shapes, text, index) == Ok(Choice(text, Single(index)))
  {
    if shapes != [] {
      assert !Occurs(shapes[0], text);
      assert forall j :: 0 <= j < |shapes| - 1 ==> shapes[1..][j] == shapes[j + 1];
      CreateFromNone(shapes[1..], text, index);
    }
  }

  /** ChoiceFactory.CreateChoice(text, index): the loop over CreateList. */
  function CreateChoice(text: string, index: int): (r: Result<Choice, Exception>)
    ensures r.Ok? ==> Valid(r.value)
  {
    CreateFrom(Priority, text, index)
  }

  // CreateChoice tries the patterns in the order Single, Range, Above,
  // Below; the first that occurs decides, and a segment with none of them
  // is a single-value choice on its position with its text kept verbatim.

  /** A Single pattern anywhere in the segment decides. */
  lemma CreateChoiceSingle(text: string, index: int)
    requires Occurs(SingleShape, text)
    ensures CreateChoice(text, index) == CreateSingle(text)
  {
    assert Priority[0] == SingleShape;
    CreateFromFirst(Priority, text, index, 0);
  }

  /** Without a Single pattern, a Range pattern decides. */
  lemma CreateChoiceRange(text: string, index: int)
    requires !Occurs(SingleShape, text) && Occurs(RangeShape, text)
    ensures CreateChoice(text, index) == CreateRange(text)
  {
    assert Priority[0] == SingleShape && Priority[1] == RangeShape;
    CreateFromFirst(Priority, text, index, 1);
  }

  /** Without a Single or Range pattern, an Above pattern decides. */
  lemma CreateChoiceAbove(text: string, index: int)
    requires !Occurs(SingleShape, text) && !Occurs(RangeShape, text) && Occurs(AboveShape, text)
    ensures CreateChoice(text, index) == CreateAbove(text)
  {
    assert Priority[0] == SingleShape && Priority[1] == RangeShape && Priority[2] == AboveShape;
    CreateFromFirst(Priority, text, index, 2);
  }

  /** A Below pattern decides only when no other pattern occurs. */
  lemma CreateChoiceBelow(text: string, index: int)
    requires !Occurs(SingleShape, text) && !Occurs(RangeShape, text) && !Occurs(AboveShape, text)
    requires Occurs(BelowShape, text)
    ensures CreateChoice(text, index) == CreateBelow(text)
  {
    assert Priority[0] == SingleShape && Priority[1] == RangeShape;
    assert Priority[2] == AboveShape && Priority[3] == BelowShape;
    CreateFromFirst(Priority, text, index, 3);
  }

  /** With no pattern at all, the segment is a single-value choice on its
      own position, its text untouched and untrimmed. */
  lemma CreateChoiceFallback(text: string, index: int)
    requires forall shape :: !Occurs(shape, text)
    ensures CreateChoice(text, index) == Ok(Choice(text, Single(index)))
  {
    assert forall j :: 0 <= j < |Priority| ==> !Occurs(Priority[j], text);
    CreateFromNone(Priority, text, index);
  }

  // ---------------------------------------------------------------------
  // Writing a choice back

  /** The first group text that writes down a selector's bound(s). */
  function Group1(sel: Selector): string {
    match sel
    case Single(n) => ShowInt(n)
    case Range(lo, _) => ShowInt(lo)
    case Above(lo) => ShowInt(lo)
    case Below(_) => "*"
  }

  /** The second group text that writes down a selector's bound(s). */
  function Group2(sel: Selector): string {
    match sel
    case Single(_) => ""
    case Range(_, hi) => ShowInt(hi)
    case Above(_) => "*"
    case Below(hi) => ShowInt(hi)
  }

  /** A choice written in the segment syntax: its pattern, the white
      space `gap`, then its text. */
  function Render(c: Choice, gap: string): string {
    Spelled(KindOf(c.selector), Group1(c.selector), Group2(c.selector)) + gap + c.text
  }

  predicate InInt32(n: int) {
    Int32Min <= n <= Int32Max
  }

  /** The choices Render writes so that reading gives them back: 32-bit
      bounds, a valid range, and a text that is already trimmed and holds
      no opening brace or bracket. */
  predicate Renderable(c: Choice) {
    && Valid(c)
    && BoundsInInt32(c.selector)
    && '{' !in c.text && '[' !in c.text
    && Trimmed(c.text)
  }

  /** Every bound of the selector is a 32-bit value. */
  predicate BoundsInInt32(sel: Selector) {
    match sel
    case Single(n) => InInt32(n)
    case Range(lo, hi) => InInt32(lo) && InInt32(hi)
    case Above(lo) => InInt32(lo)
    case Below(hi) => InInt32(hi)
  }

  lemma ShowIntIsNumRun(n: int)
    ensures IsNumRun(ShowInt(n))
  {
    var s := ShowInt(n);
    if n < 0 {
      assert forall k :: 1 <= k < |s| ==> s[k] == ShowNat(-n)[k - 1];
    }
  }

  /** The groups Render writes fit the pattern, and int.Parse reads the
      bounds back from them. */
  lemma BoundGroupsFit(c: Choice)
    requires Renderable(c)
    ensures GroupsFit(KindOf(c.selector), Group1(c.selector), Group2(c.selector))
    ensures match c.selector
      case Single(n) => ParseInt32(Group1(c.selector)) == Ok(n)
      case Range(lo, hi) => ParseInt32(Group1(c.selector)) == Ok(lo) && ParseInt32(Group2(c.selector)) == Ok(hi)
      case Above(lo) => ParseInt32(Group1(c.selector)) == Ok(lo)
      case Below(hi) => ParseInt32(Group2(c.selector)) == Ok(hi)
  {
    match c.selector {
      case Single(n) => ShowIntIsNumRun(n); ParseShowInt(n);
      case Range(lo, hi) => ShowIntIsNumRun(lo); ShowIntIsNumRun(hi); ParseShowInt(lo); ParseShowInt(hi);
      case Above(lo) => ShowIntIsNumRun(lo); ParseShowInt(lo);
      case Below(hi) => ShowIntIsNumRun(hi); ParseShowInt(hi);
    }
  }

  /** A segment that opens with a match of `shape` has that match as its
      leftmost one. */
  lemma LeadingMatch(shape: Shape, g1: string, g2: string, rest: string)
    requires GroupsFit(shape, g1, g2)
    ensures var w := Spelled(shape, g1, g2);
      FindFirst(shape, w + rest, 0) == Some(Match(0, |w|, g1, g2))
  {
    var w := Spelled(shape, g1, g2);
    var s := w + rest;
    assert s[0..|w|] == w;
    MatchAtComplete(shape, s, 0, g1, g2);
  }

  /** In a rendered choice, its own pattern's leftmost match is the one at
      the start. */
  lemma RenderedLeftmost(c: Choice, gap: string)
    requires Renderable(c)
    ensures var shape, g1, g2 := KindOf(c.selector), Group1(c.selector), Group2(c.selector);
      FindFirst(shape, Render(c, gap), 0) == Some(Match(0, |Spelled(shape, g1, g2)|, g1, g2))
  {
    BoundGroupsFit(c);
    var w := Spelled(KindOf(c.selector), Group1(c.selector), Group2(c.selector));
    assert Render(c, gap) == w + (gap + c.text);
    LeadingMatch(KindOf(c.selector), Group1(c.selector), Group2(c.selector), gap + c.text);
  }

  /** Deleting its own pattern from a rendered choice deletes exactly the
      pattern written in front of the gap and the text. */
  lemma RenderedDeletes(c: Choice, gap: string)
    requires Renderable(c) && AllWhite(gap)
    ensures DeleteFrom(KindOf(c.selector), Render(c, gap), 0) == gap + c.text
  {
    var shape, g1, g2 := KindOf(c.selector), Group1(c.selector), Group2(c.selector);
    var rest := gap + c.text;
    BoundGroupsFit(c);
    assert Render(c, gap) == Spelled(shape, g1, g2) + rest;
    DeleteHere(shape, g1, g2, rest);
    RenderedRestNoOpener(c, gap);
    DeleteSkip(shape, rest, []);
    assert rest + [] == rest;
  }

  /** Neither the gap nor a renderable text holds an opening bracket. */
  lemma RenderedRestNoOpener(c: Choice, gap: string)
    requires Renderable(c) && AllWhite(gap)
    ensures Opener(KindOf(c.selector)) !in gap + c.text
  {
    var rest := gap + c.text;
    forall k | 0 <= k < |rest| ensures rest[k] != Opener(KindOf(c.selector)) {
      if k < |gap| { assert rest[k] == gap[k]; } else { assert rest[k] == c.text[k - |gap|]; }
    }
  }

  /** Reading a rendered choice's text back gives the text. */
  lemma RenderedTrimText(c: Choice, gap: string)
    requires Renderable(c) && AllWhite(gap)
    ensures TrimText(KindOf(c.selector), Render(c, gap)) == c.text
  {
    RenderedDeletes(c, gap);
    assert gap + c.text == gap + c.text + [];
    TrimUnique(gap, c.text, []);
  }

  /** In a rendered choice no other pattern occurs. */
  lemma RenderedOtherPatternsAbsent(c: Choice, gap: string, other: Shape)
    requires Renderable(c) && AllWhite(gap) && other != KindOf(c.selector)
    ensures !Occurs(other, Render(c, gap))
  {
    var shape, g1, g2 := KindOf(c.selector), Group1(c.selector), Group2(c.selector);
    var s := Render(c, gap);
    BoundGroupsFit(c);
    var w := Spelled(shape, g1, g2);
    SpelledChars(shape, g1, g2);
    assert forall k :: 1 <= k < |s| ==> s[k] != Opener(other) by {
      forall k | 1 <= k < |s| ensures s[k] != Opener(other) {
        if k < |w| { assert s[k] == w[k]; }
        else if k < |w| + |gap| { assert s[k] == gap[k - |w|]; }
        else { assert s[k] == c.text[k - |w| - |gap|]; }
      }
    }
    if MatchAt(other, s, 0).Some? {
      RenderedLeftmost(c, gap);
      PatternsExclusiveAt(s, 0, shape, other);
    }
    NoOpenerNoMatch(other, s, 1);
  }

  /** Reading a rendered choice gives it back, whatever its position. */
  lemma CreateChoiceRender(c: Choice, gap: string, index: int)
    requires Renderable(c) && AllWhite(gap)
    ensures CreateChoice(Render(c, gap), index) == Ok(c)
  {
    var s := Render(c, gap);
    RenderedLeftmost(c, gap);
    RenderedTrimText(c, gap);
    BoundGroupsFit(c);
    var m := Leftmost(KindOf(c.selector), s);
    assert m.g1 == Group1(c.selector) && m.g2 == Group2(c.selector);
    match c.selector {
      case Single(n) =>
        CreateChoiceSingle(s, index);
        assert CreateSingle(s) == Ok(c);
      case Range(lo, hi) =>
        RenderedOtherPatternsAbsent(c, gap, SingleShape);
        CreateChoiceRange(s, index);
        assert CreateRange(s) == Ok(c);
      case Above(lo) =>
        RenderedOtherPatternsAbsent(c, gap, SingleShape);
        RenderedOtherPatternsAbsent(c, gap, RangeShape);
        CreateChoiceAbove(s, index);
        assert CreateAbove(s) == Ok(c);
      case Below(hi) =>
        RenderedOtherPatternsAbsent(c, gap, SingleShape);
        RenderedOtherPatternsAbsent(c, gap, RangeShape);
        RenderedOtherPatternsAbsent(c, gap, AboveShape);
        CreateChoiceBelow(s, index);
        assert CreateBelow(s) == Ok(c);
    }
  }
}
