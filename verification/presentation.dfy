/**
 * Two presentation rules of `buildAccordions` and
 * `_applyCustomSubtextFromCSS` that are decisions rather than DOM work:
 * where the divider lines go, and how the `--wm-accordion-subtext` custom
 * property's value is unquoted.
 */
module Presentation {
  import opened Wrappers
  import opened Text

  // ---------------------------------------------------------------------------
  // Dividers
  // ---------------------------------------------------------------------------

  /** The divider settings: `dividersEnabled`, `dividersShowFirst`, `dividersShowLast`. */
  datatype DividerSettings = DividerSettings(enabled: bool, showFirst: bool, showLast: bool)

  /** Whether an item gets a divider above it and one below it. */
  datatype Dividers = Dividers(top: bool, bottom: bool)

  /**
   * The dividers of item `index` of `count`: a top divider on the first
   * item only, when `dividersShowFirst`; a bottom divider on every item but
   * the last, and on the last when `dividersShowLast`; nothing when
   * dividers are disabled.
   */
  function DividersFor(d: DividerSettings, index: nat, count: nat): (r: Dividers)
    requires index < count
    ensures r.top <==> d.enabled && d.showFirst && index == 0
    ensures r.bottom <==> d.enabled && (index < count - 1 || d.showLast)
  {
    var isFirst := index == 0;
    var isLast := index == count - 1;
    Dividers(d.enabled && isFirst && d.showFirst,
             d.enabled && ((isLast && d.showLast) || !isLast))
  }

  function B2I(b: bool): nat {
    if b then 1 else 0
  }

  /** The dividers of items `from` .. `count - 1`. */
  function DividerCountFrom(d: DividerSettings, from: nat, count: nat): nat
    requires from <= count
    decreases count - from
  {
    if from == count then 0
    else
      var r := DividersFor(d, from, count);
      B2I(r.top) + B2I(r.bottom) + DividerCountFrom(d, from + 1, count)
  }

  /** The dividers of items `from` onward, when `from` is not the first item. */
  lemma {:induction false} DividerCountTail(d: DividerSettings, from: nat, count: nat)
    requires 1 <= from < count && d.enabled
    ensures DividerCountFrom(d, from, count) == count - 1 - from + B2I(d.showLast)
    decreases count - from
  {
    if from + 1 < count {
      DividerCountTail(d, from + 1, count);
    }
  }

  /**
   * A list of `count` items is drawn with one divider between each pair of
   * neighbours, plus the optional first and last ones: `count - 1` dividers
   * between items, and none at all when dividers are disabled.
   */
  lemma DividerCount(d: DividerSettings, count: nat)
    requires count >= 1
    ensures DividerCountFrom(d, 0, count) ==
      if d.enabled then B2I(d.showFirst) + (count - 1) + B2I(d.showLast) else 0
  {
    if d.enabled {
      if count > 1 {
        DividerCountTail(d, 1, count);
      }
    } else {
      DividerCountDisabled(d, 0, count);
    }
  }

  lemma {:induction false} DividerCountDisabled(d: DividerSettings, from: nat, count: nat)
    requires from <= count && !d.enabled
    ensures DividerCountFrom(d, from, count) == 0
    decreases count - from
  {
    if from < count {
      DividerCountDisabled(d, from + 1, count);
    }
  }

  // ---------------------------------------------------------------------------
  // Subtext
  // ---------------------------------------------------------------------------

  function Clamp(i: int, len: nat): (r: nat)
    ensures r <= len
  {
    if i < 0 then 0 else if i > len then len else i
  }

  /**
   * `String.prototype.substring(start, end)`: both indices are clamped to
   * the string and swapped when the start lies after the end.
   */
  function JsSubstring(s: string, start: int, end: int): (r: string)
    ensures |r| <= |s|
  {
    var a := Clamp(start, |s|);
    var b := Clamp(end, |s|);
    if a <= b then s[a..b] else s[b..a]
  }

  /** Within bounds and in order, `substring` is the slice. */
  lemma JsSubstringSlice(s: string, start: int, end: int)
    requires 0 <= start <= end <= |s|
    ensures JsSubstring(s, start, end) == s[start..end]
  {
  }

  /** The order of the two indices does not matter. */
  lemma JsSubstringSwaps(s: string, start: int, end: int)
    ensures JsSubstring(s, start, end) == JsSubstring(s, end, start)
  {
  }

  /** An index below 0 counts as 0, one past the end as the length. */
  lemma JsSubstringClamps(s: string, start: int, end: int)
    ensures JsSubstring(s, start, end) == JsSubstring(s, Clamp(start, |s|), Clamp(end, |s|))
  {
  }

  predicate IsQuote(c: char) {
    c == '"' || c == '\''
  }

  /** Starts and ends with the same kind of quote (which may be one and the same character). */
  predicate Quoted(s: string) {
    s != [] && IsQuote(s[0]) && s[|s| - 1] == s[0]
  }

  /**
   * The text a `--wm-accordion-subtext` value puts in the subtext element:
   * nothing (the element is left alone) when it trims to empty; otherwise
   * the trimmed value with one pair of matching surrounding quotes removed
   * by `substring(1, length - 1)`.
   */
  function SubtextOverride(raw: string): (r: Option<string>)
    ensures r.None? <==> Trim(raw) == ""
    ensures r.Some? && !Quoted(Trim(raw)) ==> r.value == Trim(raw)
    ensures r.Some? && Quoted(Trim(raw)) && |Trim(raw)| >= 2 ==>
      Trim(raw) == [Trim(raw)[0]] + r.value + [Trim(raw)[0]]
  {
    var v := Trim(raw);
    if v == "" then None
    else if Quoted(v) then
      if |v| >= 2 then
        Unquote(v);
        Some(JsSubstring(v, 1, |v| - 1))
      else
        Some(JsSubstring(v, 1, |v| - 1))
    else Some(v)
  }

  /** `substring(1, length - 1)` of a quoted text is what lies between its quotes. */
  lemma Unquote(v: string)
    requires Quoted(v) && |v| >= 2
    ensures v == [v[0]] + JsSubstring(v, 1, |v| - 1) + [v[0]]
  {
    JsSubstringSlice(v, 1, |v| - 1);
    assert v == [v[0]] + v[1..|v| - 1] + [v[|v| - 1]];
  }

  /**
   * A quoted text comes back out unchanged, blanks inside the quotes
   * included: the quotes shield them from the trim.
   */
  lemma SubtextUnquotes(text: string, q: char)
    requires IsQuote(q)
    ensures SubtextOverride([q] + text + [q]) == Some(text)
  {
    var v := [q] + text + [q];
    StripOfStripped(v, Whitespace);
    assert v[1..|v| - 1] == text;
  }

  /** Also with nothing between the quotes: the element is emptied, not left alone. */
  lemma SubtextEmptyQuotes(q: char)
    requires IsQuote(q)
    ensures SubtextOverride([q, q]) == Some("")
  {
    StripOfStripped([q, q], Whitespace);
  }

  /**
   * A lone quote both starts and ends the value; `substring(1, 0)` swaps
   * its indices and returns the quote itself.
   */
  lemma SubtextLoneQuote(q: char)
    requires IsQuote(q)
    ensures SubtextOverride([q]) == Some([q])
  {
    StripOfStripped([q], Whitespace);
  }

  /** Mismatched quotes stay, with whatever lies between them. */
  lemma SubtextMismatchedQuotes(text: string, q1: char, q2: char)
    requires IsQuote(q1) && IsQuote(q2) && q1 != q2
    ensures SubtextOverride([q1] + text + [q2]) == Some([q1] + text + [q2])
  {
    StripOfStripped([q1] + text + [q2], Whitespace);
  }
}
