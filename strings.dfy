/**
 * The .NET string operations the localization core relies on, with the
 * semantics the C# code gets from them: String.Trim, String.Split on one
 * character, String.Contains, ordinal String.Replace and int.Parse.
 */
module Strings {
  import opened Wrappers

  // ---------------------------------------------------------------------
  // String.Trim()

  /** Char.IsWhiteSpace: the Unicode space, line and paragraph separators
      plus the control characters U+0009..U+000D and U+0085. */
  predicate IsWhiteSpace(c: char) {
    var n := c as int;
    || (0x09 <= n <= 0x0D) || n == 0x20 || n == 0x85 || n == 0xA0 || n == 0x1680
    || (0x2000 <= n <= 0x200A) || n == 0x2028 || n == 0x2029 || n == 0x202F
    || n == 0x205F || n == 0x3000
  }

  predicate AllWhite(s: string) {
    forall i :: 0 <= i < |s| ==> IsWhiteSpace(s[i])
  }

  /** Every character of `s` from `lo` up to `hi` is white space. */
  predicate WhiteBetween(s: string, lo: int, hi: int)
    requires 0 <= lo <= hi <= |s|
  {
    forall i :: lo <= i < hi ==> IsWhiteSpace(s[i])
  }

  /** Length of the longest all-white prefix of `s`. */
  function LeadingWhite(s: string): (k: nat)
    ensures k <= |s| && WhiteBetween(s, 0, k)
    ensures k < |s| ==> !IsWhiteSpace(s[k])
  {
    if s == [] || !IsWhiteSpace(s[0]) then 0
    else
      var k' := LeadingWhite(s[1..]);
      assert forall i :: 1 <= i < k' + 1 ==> s[i] == s[1..][i - 1];
      k' + 1
  }

  /** Length of the longest all-white suffix of `s`. */
  function TrailingWhite(s: string): (k: nat)
    ensures k <= |s| && WhiteBetween(s, |s| - k, |s|)
    ensures k < |s| ==> !IsWhiteSpace(s[|s| - k - 1])
  {
    if s == [] || !IsWhiteSpace(s[|s| - 1]) then 0
    else
      var k' := TrailingWhite(s[..|s| - 1]);
      assert forall i :: |s| - 1 - k' <= i < |s| - 1 ==> s[i] == s[..|s| - 1][i];
      k' + 1
  }

  /** String.Trim(): the slice of `s` left after dropping white space at
      both ends; what was dropped is all white and the slice neither starts
      nor ends with white space. */
  function Trim(s: string): (r: string)
    ensures LeadingWhite(s) + |r| <= |s|
    ensures r == s[LeadingWhite(s)..LeadingWhite(s) + |r|]
    ensures WhiteBetween(s, 0, LeadingWhite(s)) && WhiteBetween(s, LeadingWhite(s) + |r|, |s|)
    ensures Trimmed(r)
  {
    var t := s[LeadingWhite(s)..];
    var r := t[..|t| - TrailingWhite(t)];
    assert forall i :: LeadingWhite(s) + |r| <= i < |s| ==> s[i] == t[i - LeadingWhite(s)];
    r
  }

  /** Neither end of `s` is white space. */
  predicate Trimmed(s: string) {
    s != [] ==> !IsWhiteSpace(s[0]) && !IsWhiteSpace(s[|s| - 1])
  }

  /** The leading-white count is the only index with its two properties. */
  lemma LeadingWhiteUnique(s: string, k: nat)
    requires k <= |s| && WhiteBetween(s, 0, k)
    requires k < |s| ==> !IsWhiteSpace(s[k])
    ensures LeadingWhite(s) == k
  {
  }

  /** The trailing-white count is the only length with its two properties. */
  lemma TrailingWhiteUnique(s: string, k: nat)
    requires k <= |s| && WhiteBetween(s, |s| - k, |s|)
    requires k < |s| ==> !IsWhiteSpace(s[|s| - k - 1])
    ensures TrailingWhite(s) == k
  {
  }

  /** The characterisation of Trim pins the result down: any split of `s`
      into white space, a core without white ends, and white space trims to
      that core. */
  lemma TrimUnique(a: string, core: string, b: string)
    requires AllWhite(a) && AllWhite(b) && Trimmed(core)
    ensures Trim(a + core + b) == core
  {
    var s := a + core + b;
    assert forall i :: 0 <= i < |a| ==> s[i] == a[i];
    if core == [] {
      assert forall i :: |a| <= i < |s| ==> s[i] == b[i - |a|];
      LeadingWhiteUnique(s, |s|);
    } else {
      assert s[|a|] == core[0];
      LeadingWhiteUnique(s, |a|);
      var t := s[|a|..];
      assert t == core + b;
      assert forall i :: |t| - |b| <= i < |t| ==> t[i] == b[i - (|t| - |b|)];
      assert t[|t| - |b| - 1] == core[|core| - 1];
      TrailingWhiteUnique(t, |b|);
      assert t[..|t| - |b|] == core;
    }
  }

  /** Trimming twice is trimming once. */
  lemma TrimIdempotent(s: string)
    ensures Trim(Trim(s)) == Trim(s)
  {
    TrimmedFixed(Trim(s));
  }

  /** Text without white ends is left alone by Trim. */
  lemma TrimmedFixed(s: string)
    requires Trimmed(s)
    ensures Trim(s) == s
  {
    assert s == [] + s + [];
    TrimUnique([], s, []);
  }

  // ---------------------------------------------------------------------
  // String.Split(separator)

  /** String.Split on one separator: every separator ends a segment and
      no segment holds the separator. */
  function Split(s: string, sep: char): (parts: seq<string>)
    ensures |parts| >= 1
    ensures forall i :: 0 <= i < |parts| ==> sep !in parts[i]
  {
    if s == [] then [""]
    else
      var rest := Split(s[1..], sep);
      if s[0] == sep then [""] + rest
      else
        assert forall c :: c in [s[0]] + rest[0] ==> c == s[0] || c in rest[0];
        [[s[0]] + rest[0]] + rest[1..]
  }

  /** There is always one more segment than separators; so there is more
      than one segment exactly when the separator occurs. */
  lemma {:induction false} SplitCount(s: string, sep: char)
    ensures |Split(s, sep)| == multiset(s)[sep] + 1
    ensures sep in s <==> |Split(s, sep)| >= 2
  {
    if s != [] {
      SplitCount(s[1..], sep);
      assert s == [s[0]] + s[1..];
      assert multiset(s) == multiset{s[0]} + multiset(s[1..]);
      assert sep in s <==> s[0] == sep || sep in s[1..];
    }
  }

  /** String.Join: the inverse of Split. */
  function Join(parts: seq<string>, sep: char): (s: string)
    requires |parts| >= 1
  {
    if |parts| == 1 then parts[0] else parts[0] + [sep] + Join(parts[1..], sep)
  }

  /** Joining the split segments with the separator restores the string. */
  lemma {:induction false} JoinSplit(s: string, sep: char)
    ensures Join(Split(s, sep), sep) == s
  {
    if s != [] {
      var rest := Split(s[1..], sep);
      JoinSplit(s[1..], sep);
      var parts := Split(s, sep);
      if s[0] == sep {
        assert parts == [""] + rest;
        assert parts[1..] == rest;
        assert Join(parts, sep) == "" + [sep] + Join(rest, sep);
        assert "" + [sep] + s[1..] == s;
      } else {
        JoinCons(s[0], rest, sep);
        assert parts == [[s[0]] + rest[0]] + rest[1..];
        assert [s[0]] + s[1..] == s;
      }
    }
  }

  /** Putting a character in front of the first segment puts it in front
      of the joined string. */
  lemma JoinCons(c: char, parts: seq<string>, sep: char)
    requires |parts| >= 1
    ensures Join([[c] + parts[0]] + parts[1..], sep) == [c] + Join(parts, sep)
  {
    var q := [[c] + parts[0]] + parts[1..];
    assert q[0] == [c] + parts[0];
    if |parts| > 1 {
      assert q[1..] == parts[1..];
      assert ([c] + parts[0]) + [sep] + Join(parts[1..], sep) == [c] + (parts[0] + [sep] + Join(parts[1..], sep));
    }
  }

  /** Splitting a separator-free prefix onto a string extends its first part. */
  lemma {:induction false} SplitPrefix(a: string, t: string, sep: char)
    requires sep !in a
    ensures Split(a + t, sep) == [a + Split(t, sep)[0]] + Split(t, sep)[1..]
  {
    if a != [] {
      assert (a + t)[1..] == a[1..] + t;
      assert (a + t)[0] == a[0] && a[0] != sep;
      SplitPrefix(a[1..], t, sep);
      var r := Split(a[1..] + t, sep);
      var q := Split(t, sep);
      assert r == [a[1..] + q[0]] + q[1..];
      assert r[0] == a[1..] + q[0] && r[1..] == q[1..];
      assert Split(a + t, sep) == [[a[0]] + r[0]] + r[1..];
      assert [a[0]] + (a[1..] + q[0]) == a + q[0];
    } else {
      var r := Split(t, sep);
      assert a + t == t && a + r[0] == r[0];
      assert r == [r[0]] + r[1..];
    }
  }

  lemma {:induction false} SplitJoin(parts: seq<string>, sep: char)
    requires |parts| >= 1
    requires forall i :: 0 <= i < |parts| ==> sep !in parts[i]
    ensures Split(Join(parts, sep), sep) == parts
  {
    if |parts| == 1 {
      SplitPrefix(parts[0], "", sep);
      assert parts[0] + "" == parts[0];
    } else {
      var t := Join(parts[1..], sep);
      SplitJoin(parts[1..], sep);
      assert Join(parts, sep) == parts[0] + ([sep] + t);
      SplitPrefix(parts[0], [sep] + t, sep);
      assert ([sep] + t)[1..] == t;
      assert Split([sep] + t, sep) == [""] + parts[1..];
      assert parts[0] + "" == parts[0];
    }
  }

  // ---------------------------------------------------------------------
  // String.Contains and ordinal String.Replace

  predicate StartsWith(s: string, prefix: string) {
    |prefix| <= |s| && s[..|prefix|] == prefix
  }

  /** Ordinal substring search. */
  predicate Contains(s: string, pattern: string)
    decreases |s|
  {
    StartsWith(s, pattern) || (s != [] && Contains(s[1..], pattern))
  }

  /** Ordinal String.Replace: scans left to right and replaces every
      non-overlapping occurrence of `pattern`. */
  function Replace(s: string, pattern: string, replacement: string): string
    requires pattern != []
    decreases |s|
  {
    if s == [] then []
    else if StartsWith(s, pattern) then replacement + Replace(s[|pattern|..], pattern, replacement)
    else [s[0]] + Replace(s[1..], pattern, replacement)
  }

  /** Number of occurrences that Replace rewrites. */
  function Occurrences(s: string, pattern: string): nat
    requires pattern != []
    decreases |s|
  {
    if s == [] then 0
    else if StartsWith(s, pattern) then 1 + Occurrences(s[|pattern|..], pattern)
    else Occurrences(s[1..], pattern)
  }

  lemma {:induction false} ReplaceAbsent(s: string, pattern: string, replacement: string)
    requires pattern != [] && !Contains(s, pattern)
    ensures Replace(s, pattern, replacement) == s
  {
    if s != [] {
      ReplaceAbsent(s[1..], pattern, replacement);
      assert [s[0]] + s[1..] == s;
    }
  }

  lemma {:induction false} ReplaceWithItself(s: string, pattern: string)
    requires pattern != []
    ensures Replace(s, pattern, pattern) == s
  {
    if s != [] {
      if StartsWith(s, pattern) {
        ReplaceWithItself(s[|pattern|..], pattern);
        assert s == s[..|pattern|] + s[|pattern|..];
      } else {
        ReplaceWithItself(s[1..], pattern);
        assert [s[0]] + s[1..] == s;
      }
    }
  }

  /** Each rewritten occurrence changes the length by the difference of the
      two strings. */
  lemma {:induction false} ReplaceLength(s: string, pattern: string, replacement: string)
    requires pattern != []
    ensures |Replace(s, pattern, replacement)| == |s| + Occurrences(s, pattern) * (|replacement| - |pattern|)
  {
    if s != [] {
      var d := |replacement| - |pattern|;
      if StartsWith(s, pattern) {
        var rest := s[|pattern|..];
        ReplaceLength(rest, pattern, replacement);
        var n := Occurrences(rest, pattern);
        assert Replace(s, pattern, replacement) == replacement + Replace(rest, pattern, replacement);
        assert Occurrences(s, pattern) == 1 + n;
        assert |rest| == |s| - |pattern|;
        MulSucc(n, d);
      } else {
        ReplaceLength(s[1..], pattern, replacement);
        assert Replace(s, pattern, replacement) == [s[0]] + Replace(s[1..], pattern, replacement);
        assert Occurrences(s, pattern) == Occurrences(s[1..], pattern);
      }
    }
  }

  lemma MulSucc(n: int, d: int)
    ensures (1 + n) * d == d + n * d
  {
  }

  /** A string lacking the first character of `pattern` does not contain it. */
  lemma {:induction false} NotContainsFirst(s: string, pattern: string)
    requires pattern != [] && pattern[0] !in s
    ensures !Contains(s, pattern)
  {
    if s != [] {
      assert s[0] != pattern[0];
      NotContainsFirst(s[1..], pattern);
    }
  }

  /** A stretch without the pattern's first character cannot start an
      occurrence, so Replace copies it unchanged. */
  lemma {:induction false} ReplaceSkip(a: string, b: string, pattern: string, replacement: string)
    requires pattern != [] && pattern[0] !in a
    ensures Replace(a + b, pattern, replacement) == a + Replace(b, pattern, replacement)
  {
    if a == [] {
      assert a + b == b;
    } else {
      assert (a + b)[0] == a[0] != pattern[0];
      assert (a + b)[1..] == a[1..] + b;
      ReplaceSkip(a[1..], b, pattern, replacement);
    }
  }

  /** An occurrence at the front is rewritten, and the scan resumes after it. */
  lemma ReplaceHere(pattern: string, b: string, replacement: string)
    requires pattern != []
    ensures Replace(pattern + b, pattern, replacement) == replacement + Replace(b, pattern, replacement)
  {
    assert (pattern + b)[..|pattern|] == pattern;
    assert (pattern + b)[|pattern|..] == b;
  }

  // ---------------------------------------------------------------------
  // int.Parse

  const Int32Min: int := -0x8000_0000
  const Int32Max: int := 0x7FFF_FFFF

  predicate IsDigit(c: char) {
    '0' <= c <= '9'
  }

  predicate AllDigits(s: string) {
    forall i :: 0 <= i < |s| ==> IsDigit(s[i])
  }

  function DigitValue(c: char): int requires IsDigit(c) {
    c as int - '0' as int
  }

  /** Decimal value of a digit string (leading zeros allowed). */
  function DigitsValue(s: string): nat
    requires AllDigits(s)
  {
    if s == [] then 0 else DigitsValue(s[..|s| - 1]) * 10 + DigitValue(s[|s| - 1])
  }

  /** int.Parse on text whose characters are all `-` or ASCII digits (what
      the choice patterns capture): an optional leading minus, at least one
      digit, and a value in 32-bit range. */
  function ParseInt32(s: string): (r: Result<int, Exception>)
    ensures r.Ok? ==> Int32Min <= r.value <= Int32Max
    ensures r.Err? ==> r.error == FormatException(s) || r.error == OverflowException(s)
  {
    var negative := s != [] && s[0] == '-';
    var digits := if negative then s[1..] else s;
    if digits == [] || !AllDigits(digits) then Err(FormatException(s))
    else
      var v: int := if negative then -(DigitsValue(digits) as int) else DigitsValue(digits);
      if v < Int32Min || Int32Max < v then Err(OverflowException(s)) else Ok(v)
  }

  /** What int.Parse accepts: an optional minus followed by at least one
      digit, and nothing else. */
  lemma ParsedTextIsSignedDigits(s: string)
    requires ParseInt32(s).Ok?
    ensures s != [] && (s[0] == '-' || IsDigit(s[0]))
    ensures s[0] == '-' ==> |s| >= 2
    ensures forall k :: 0 < k < |s| ==> IsDigit(s[k])
  {
    var digits := if s[0] == '-' then s[1..] else s;
    assert forall k :: 0 < k < |s| ==> s[k] == if s[0] == '-' then digits[k - 1] else digits[k];
  }

  /** An optional minus, then one or more digits. */
  predicate SignedDigits(s: string) {
    (s != [] && AllDigits(s)) || (|s| >= 2 && s[0] == '-' && AllDigits(s[1..]))
  }

  /** Any other text, such as `-`, `1-2` or `--1`, is a FormatException. */
  lemma ParseRejectsUnsigned(s: string)
    requires !SignedDigits(s)
    ensures ParseInt32(s) == Err(FormatException(s))
  {
    if s != [] && s[0] == '-' && |s| >= 2 {
      assert !AllDigits(s[1..]);
    }
  }

  /** A digit string, with or without a minus in front, parses to its
      decimal value when that fits in 32 bits, and is an OverflowException
      otherwise. */
  lemma ParseDigits(d: string)
    requires d != [] && AllDigits(d)
    ensures ParseInt32(d) ==
      if DigitsValue(d) <= Int32Max then Ok(DigitsValue(d) as int) else Err(OverflowException(d))
    ensures ParseInt32("-" + d) ==
      if Int32Min <= -(DigitsValue(d) as int) then Ok(-(DigitsValue(d) as int)) else Err(OverflowException("-" + d))
  {
    assert d[0] != '-';
    assert ("-" + d)[0] == '-' && ("-" + d)[1..] == d;
  }

  function DigitChar(d: int): (c: char)
    requires 0 <= d < 10
    ensures IsDigit(c) && DigitValue(c) == d
  {
    ('0' as int + d) as char
  }

  /** Decimal rendering of a natural number, as Int32.ToString gives it. */
  function ShowNat(n: nat): (s: string)
    ensures s != [] && AllDigits(s)
  {
    if n < 10 then [DigitChar(n)] else ShowNat(n / 10) + [DigitChar(n % 10)]
  }

  function ShowInt(n: int): string {
    if n < 0 then "-" + ShowNat(-n) else ShowNat(n)
  }

  lemma {:induction false} ShowNatValue(n: nat)
    ensures DigitsValue(ShowNat(n)) == n
  {
    if n >= 10 {
      ShowNatValue(n / 10);
      var s := ShowNat(n);
      assert s[..|s| - 1] == ShowNat(n / 10);
    }
  }

  /** int.Parse reads back what ToString wrote, for every 32-bit value. */
  lemma ParseShowInt(n: int)
    requires Int32Min <= n <= Int32Max
    ensures ParseInt32(ShowInt(n)) == Ok(n)
  {
    var s := ShowInt(n);
    if n < 0 {
      ShowNatValue(-n);
      assert s[0] == '-';
      assert s[1..] == ShowNat(-n);
      assert DigitsValue(s[1..]) == -n;
    } else {
      ShowNatValue(n);
      assert IsDigit(s[0]);
    }
  }
}
