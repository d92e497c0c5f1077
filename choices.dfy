/**
 * The four IChoice implementations. Each is an immutable pair of display
 * text and bound(s), set once by its constructor, with an integer
 * `IsMatch` predicate; only RangeValueChoice validates its bounds.
 */
module Choices {
  import opened Wrappers

  /** The class of a choice together with its readonly bound(s). */
  datatype Selector =
    | Single(value: int)          // SingleValueChoice(text, value)
    | Range(min: int, max: int)   // RangeValueChoice(text, min, max)
    | Above(min: int)             // AboveValueChoice(text, min)
    | Below(max: int)             // BelowValueChoice(text, max)

  /** One choice: its `Text` and the selector its `IsMatch` consults. */
  datatype Choice = Choice(text: string, selector: Selector)

  /** Message of the InvalidDataException thrown by RangeValueChoice.Validate. */
  const RangeMessage: string := "最小値が最大値を超えています"

  /** What the constructors guarantee of every choice they return. */
  predicate Valid(c: Choice) {
    c.selector.Range? ==> c.selector.min < c.selector.max
  }

  /** IChoice.IsMatch(value). */
  predicate IsMatch(c: Choice, value: int) {
    match c.selector
    case Single(n) => n == value
    case Range(lo, hi) => lo <= value && value <= hi
    case Above(lo) => lo <= value
    case Below(hi) => value <= hi
  }

  /** `new RangeValueChoice(text, min, max)`: the constructor stores the
      fields and then Validate throws unless min is strictly below max. */
  function NewRange(text: string, min: int, max: int): (r: Result<Choice, Exception>)
    ensures r.Ok? <==> min < max
    ensures r.Ok? ==> r.value.text == text && r.value.selector == Range(min, max) && Valid(r.value)
    ensures r.Err? ==> r.error == InvalidDataException(RangeMessage)
  {
    if min >= max then Err(InvalidDataException(RangeMessage))
    else Ok(Choice(text, Range(min, max)))
  }

  // ---------------------------------------------------------------------
  // SingleValueChoice

  /** A single-value choice matches its value and nothing else. */
  lemma SingleMatchesExactly(text: string, n: int, v: int)
    ensures IsMatch(Choice(text, Single(n)), v) <==> v == n
  {
  }

  /** At most one integer matches a single-value choice. */
  lemma SingleMatchesAtMostOne(c: Choice, v: int, w: int)
    requires c.selector.Single? && IsMatch(c, v) && IsMatch(c, w)
    ensures v == w
  {
  }

  // ---------------------------------------------------------------------
  // RangeValueChoice

  /** Both ends of a range are inclusive; nothing outside it matches. */
  lemma RangeMatchesInclusive(text: string, lo: int, hi: int, v: int)
    ensures IsMatch(Choice(text, Range(lo, hi)), v) <==> lo <= v <= hi
  {
  }

  /** Equal bounds never construct. */
  lemma RangeRejectsEqualBounds(text: string, n: int)
    ensures NewRange(text, n, n) == Err(InvalidDataException(RangeMessage))
  {
  }

  /** Every constructed range matches two distinct values: its endpoints. */
  lemma RangeMatchesBothEnds(text: string, lo: int, hi: int)
    requires NewRange(text, lo, hi).Ok?
    ensures var c := NewRange(text, lo, hi).value;
      IsMatch(c, lo) && IsMatch(c, hi) && lo != hi
  {
  }

  // ---------------------------------------------------------------------
  // AboveValueChoice

  lemma AboveMatchesFromMin(text: string, lo: int, v: int)
    ensures IsMatch(Choice(text, Above(lo)), v) <==> lo <= v
  {
  }

  /** The values an above-choice matches are closed upwards. */
  lemma AboveUpwardClosed(c: Choice, v: int, w: int)
    requires c.selector.Above? && IsMatch(c, v) && v <= w
    ensures IsMatch(c, w)
  {
  }

  // ---------------------------------------------------------------------
  // BelowValueChoice

  lemma BelowMatchesUpToMax(text: string, hi: int, v: int)
    ensures IsMatch(Choice(text, Below(hi)), v) <==> v <= hi
  {
  }

  /** The values a below-choice matches are closed downwards. */
  lemma BelowDownwardClosed(c: Choice, v: int, w: int)
    requires c.selector.Below? && IsMatch(c, v) && w <= v
    ensures IsMatch(c, w)
  {
  }
}
