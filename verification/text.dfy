/**
 * The JavaScript string primitives the accordion relies on, restated over
 * `seq<char>`: ASCII `toLowerCase`, `trim`, `split` with a string separator
 * (and its inverse `join`), and the decimal rendering a number gets inside a
 * template literal.
 */
module Text {
  import opened Wrappers

  // ---------------------------------------------------------------------------
  // Lower-casing (ASCII only)
  // ---------------------------------------------------------------------------

  predicate IsAsciiUpper(c: char) {
    'A' <= c <= 'Z'
  }

  /** `String.prototype.toLowerCase` on one character, restricted to ASCII. */
  function ToLowerChar(c: char): char {
    if IsAsciiUpper(c) then (c as int + 32) as char else c
  }

  function ToLower(s: string): (r: string)
    ensures |r| == |s|
    ensures forall i :: 0 <= i < |s| ==> r[i] == ToLowerChar(s[i])
  {
    seq(|s|, i requires 0 <= i < |s| => ToLowerChar(s[i]))
  }

  // ---------------------------------------------------------------------------
  // Trimming
  // ---------------------------------------------------------------------------

  /**
   * The characters `String.prototype.trim` removes: ECMAScript WhiteSpace
   * (TAB, VT, FF, SP, NBSP, ZWNBSP and the Zs category) and LineTerminator
   * (LF, CR, LS, PS).
   */
  predicate IsJsWhitespace(c: char) {
    || c == '\t' || c == '\n' || c == '\U{000B}' || c == '\U{000C}' || c == '\r'
    || c == ' ' || c == '\U{00A0}' || c == '\U{1680}'
    || ('\U{2000}' <= c <= '\U{200A}')
    || c == '\U{2028}' || c == '\U{2029}' || c == '\U{202F}' || c == '\U{205F}'
    || c == '\U{3000}' || c == '\U{FEFF}'
  }

  /**
   * The character classes stripped from the ends of a text: ECMAScript
   * whitespace (`trim`) and the dash (`.replace(/^-+|-+$/g, "")`).
   */
  datatype CharClass = Whitespace | Dash

  predicate InClass(c: char, p: CharClass) {
    match p
    case Whitespace => IsJsWhitespace(c)
    case Dash => c == '-'
  }

  /** Every character of `s` is in class `p`. */
  predicate All(s: string, p: CharClass) {
    forall k :: 0 <= k < |s| ==> InClass(s[k], p)
  }

  /** Drops the leading characters of class `p`: the longest suffix not starting with one. */
  function DropLeading(s: string, p: CharClass): (r: string)
    ensures |r| <= |s| && r == s[|s| - |r|..]
    ensures All(s[..|s| - |r|], p)
    ensures r != [] ==> !InClass(r[0], p)
    decreases |s|
  {
    if |s| > 0 && InClass(s[0], p) then
      var r := DropLeading(s[1..], p);
      assert s[1..][..|s| - 1 - |r|] == s[1..|s| - |r|];
      r
    else
      s
  }

  /** Drops the trailing characters of class `p`: the longest prefix not ending with one. */
  function DropTrailing(s: string, p: CharClass): (r: string)
    ensures |r| <= |s| && r == s[..|r|]
    ensures All(s[|r|..], p)
    ensures r != [] ==> !InClass(r[|r| - 1], p)
    decreases |s|
  {
    if |s| > 0 && InClass(s[|s| - 1], p) then
      var r := DropTrailing(s[..|s| - 1], p);
      assert All(s[|r|..], p) by {
        forall k | 0 <= k < |s| - |r| ensures InClass(s[|r|..][k], p) {
          if k < |s| - 1 - |r| {
            assert s[|r|..][k] == s[..|s| - 1][|r|..][k];
          }
        }
      }
      r
    else
      s
  }

  /** `r` sits in `s` at index `i`, between two margins made of characters of class `p`. */
  predicate Margins(s: string, i: int, r: string, p: CharClass) {
    && 0 <= i <= |s| - |r|
    && r == s[i..i + |r|]
    && All(s[..i], p)
    && All(s[i + |r|..], p)
  }

  /**
   * Removes both margins of characters of class `p`: the result is an infix of
   * the input between two such margins, and it neither starts nor
   * ends with one.
   */
  function Strip(s: string, p: CharClass): (r: string)
    ensures |r| <= |s|
    ensures Margins(s, |s| - |DropLeading(s, p)|, r, p)
    ensures r != [] ==> !InClass(r[0], p) && !InClass(r[|r| - 1], p)
  {
    var t := DropLeading(s, p);
    var r := DropTrailing(t, p);
    StripMargins(s, t, r, p);
    r
  }

  lemma StripMargins(s: string, t: string, r: string, p: CharClass)
    requires |t| <= |s| && t == s[|s| - |t|..]
    requires |r| <= |t| && r == t[..|r|]
    requires All(t[|r|..], p)
    requires All(s[..|s| - |t|], p)
    requires t != [] ==> !InClass(t[0], p)
    ensures Margins(s, |s| - |t|, r, p)
    ensures r != [] ==> !InClass(r[0], p)
  {
    var i := |s| - |t|;
    assert s[i + |r|..] == t[|r|..];
  }

  /** A string with no character of class `p` at either end is its own strip. */
  lemma StripOfStripped(s: string, p: CharClass)
    requires s != [] ==> !InClass(s[0], p) && !InClass(s[|s| - 1], p)
    ensures Strip(s, p) == s
  {
    assert DropLeading(s, p) == s;
  }

  /** `String.prototype.trim`. */
  function Trim(s: string): string {
    Strip(s, Whitespace)
  }

  // ---------------------------------------------------------------------------
  // split / join
  // ---------------------------------------------------------------------------

  /** `sep` occurs in `s` starting at index `i`. */
  predicate OccursAt(s: string, sep: string, i: int) {
    0 <= i && i + |sep| <= |s| && s[i..i + |sep|] == sep
  }

  predicate Contains(s: string, sep: string) {
    exists i :: 0 <= i <= |s| && OccursAt(s, sep, i)
  }

  /** The first occurrence of `sep` at or after `from`, as `indexOf` finds it. */
  function FindFrom(s: string, sep: string, from: nat): (r: Option<nat>)
    requires |sep| > 0 && from <= |s|
    ensures r.Some? ==> from <= r.value && OccursAt(s, sep, r.value)
    ensures r.Some? ==> forall k :: from <= k < r.value ==> !OccursAt(s, sep, k)
    ensures r.None? ==> forall k :: from <= k ==> !OccursAt(s, sep, k)
    decreases |s| - from
  {
    if from + |sep| > |s| then None
    else if OccursAt(s, sep, from) then Some(from)
    else FindFrom(s, sep, from + 1)
  }

  /** Joins a non-empty list of parts with `sep` between neighbours (`Array.prototype.join`). */
  function Join(parts: seq<string>, sep: string): string
    requires |parts| >= 1
    decreases |parts|
  {
    if |parts| == 1 then parts[0] else parts[0] + sep + Join(parts[1..], sep)
  }

  /**
   * `String.prototype.split` with a non-empty string separator: the parts
   * between the occurrences of `sep` found scanning left to right. Joining
   * them back gives the input, and no part contains the separator. Each
   * separator taken out is the leftmost one: no occurrence starts inside
   * the part before it (which matters for `__` in `a___b`).
   */
  function Split(s: string, sep: string): (parts: seq<string>)
    requires |sep| > 0
    ensures |parts| >= 1
    ensures Join(parts, sep) == s
    ensures forall j :: 0 <= j < |parts| ==> !Contains(parts[j], sep)
    ensures forall j :: 0 <= j < |parts| - 1 ==> !Contains(parts[j] + sep[..|sep| - 1], sep)
    decreases |s|
  {
    match FindFrom(s, sep, 0)
    case None => [s]
    case Some(i) =>
      var head := s[..i];
      var rest := Split(s[i + |sep|..], sep);
      SplitHead(s, sep, i);
      var parts := [head] + rest;
      assert parts[1..] == rest;
      assert forall j :: 1 <= j < |parts| ==> parts[j] == rest[j - 1];
      parts
  }

  /**
   * The text before the first occurrence of `sep` holds no `sep`, not even
   * one that would run into the occurrence itself.
   */
  lemma SplitHead(s: string, sep: string, i: nat)
    requires |sep| > 0 && FindFrom(s, sep, 0) == Some(i)
    ensures i + |sep| <= |s|
    ensures s == s[..i] + sep + s[i + |sep|..]
    ensures !Contains(s[..i], sep)
    ensures !Contains(s[..i] + sep[..|sep| - 1], sep)
  {
    var head := s[..i];
    assert s == head + sep + s[i + |sep|..] by {
      assert s[i..i + |sep|] == sep;
    }
    var h := head + sep[..|sep| - 1];
    assert h == s[..i + |sep| - 1];
    NoEarlyOccurrence(s, sep, i, h);
    assert !Contains(head, sep) by {
      forall k | OccursAt(head, sep, k) ensures false {
        assert head[k..k + |sep|] == s[k..k + |sep|];
        assert OccursAt(s, sep, k);
      }
    }
  }

  /**
   * When `sep` first occurs in `s` at `i`, the text up to just before that
   * occurrence ends does not contain `sep`.
   */
  lemma NoEarlyOccurrence(s: string, sep: string, i: nat, h: string)
    requires |sep| > 0 && i + |sep| <= |s|
    requires forall k :: 0 <= k < i ==> !OccursAt(s, sep, k)
    requires h == s[..i + |sep| - 1]
    ensures !Contains(h, sep)
  {
    forall k | 0 <= k <= |h| ensures !OccursAt(h, sep, k) {
      if k + |sep| <= |h| {
        assert h[k..k + |sep|] == s[k..k + |sep|];
        assert !OccursAt(s, sep, k);
      }
    }
  }

  /** Joining two lists is joining their joins. */
  lemma {:induction false} JoinAppend(p: seq<string>, q: seq<string>, sep: string)
    requires |p| >= 1 && |q| >= 1
    ensures Join(p + q, sep) == Join(p, sep) + sep + Join(q, sep)
    decreases |p|
  {
    if |p| == 1 {
      assert (p + q)[1..] == q;
    } else {
      assert (p + q)[1..] == p[1..] + q;
      JoinAppend(p[1..], q, sep);
    }
  }

  lemma ContainsChar(p: string, c: char)
    ensures Contains(p, [c]) <==> c in p
  {
    if c in p {
      var k :| 0 <= k < |p| && p[k] == c;
      assert p[k..k + 1] == [c];
      assert OccursAt(p, [c], k);
    }
    if Contains(p, [c]) {
      var k :| 0 <= k <= |p| && OccursAt(p, [c], k);
      assert p[k] == p[k..k + 1][0] == c;
    }
  }

  /**
   * For a one-character separator the split is the ONLY list of
   * separator-free parts that joins back to the input.
   */
  lemma {:induction false} SplitUnique(parts: seq<string>, c: char)
    requires |parts| >= 1
    requires forall j :: 0 <= j < |parts| ==> c !in parts[j]
    ensures Split(Join(parts, [c]), [c]) == parts
    decreases |parts|
  {
    var s := Join(parts, [c]);
    var p0 := parts[0];
    ContainsChar(p0, c);
    if |parts| == 1 {
      assert s == p0;
    } else {
      var tail := Join(parts[1..], [c]);
      assert s == p0 + [c] + tail;
      assert OccursAt(s, [c], |p0|) by {
        assert s[|p0|..|p0| + 1] == [c];
      }
      match FindFrom(s, [c], 0)
      case None =>
        assert false;
      case Some(i) =>
        forall k | 0 <= k < |p0| ensures !OccursAt(s, [c], k) {
          assert s[k] == p0[k];
        }
        assert i == |p0|;
        assert s[..i] == p0;
        assert s[i + 1..] == tail;
        SplitUnique(parts[1..], c);
    }
  }

  /** No part of a split on a one-character separator holds that character. */
  lemma SplitLacksChar(s: string, c: char)
    ensures forall j :: 0 <= j < |Split(s, [c])| ==> c !in Split(s, [c])[j]
  {
    var parts := Split(s, [c]);
    forall j | 0 <= j < |parts| ensures c !in parts[j] {
      ContainsChar(parts[j], c);
    }
  }

  /** Two lists of separator-free parts, joined and glued with the separator, split back into both. */
  lemma SplitJoinedPair(pa: seq<string>, pb: seq<string>, c: char)
    requires |pa| >= 1 && |pb| >= 1
    requires forall j :: 0 <= j < |pa| ==> c !in pa[j]
    requires forall j :: 0 <= j < |pb| ==> c !in pb[j]
    ensures Split(Join(pa, [c]) + [c] + Join(pb, [c]), [c]) == pa + pb
  {
    JoinAppend(pa, pb, [c]);
    var parts := pa + pb;
    forall j | 0 <= j < |parts| ensures c !in parts[j] {
      if j < |pa| {
        assert parts[j] == pa[j];
      } else {
        assert parts[j] == pb[j - |pa|];
      }
    }
    SplitUnique(parts, c);
  }

  /** Splitting on a one-character separator distributes over that separator. */
  lemma SplitConcat(a: string, b: string, c: char)
    ensures Split(a + [c] + b, [c]) == Split(a, [c]) + Split(b, [c])
  {
    var pa := Split(a, [c]);
    var pb := Split(b, [c]);
    SplitLacksChar(a, c);
    SplitLacksChar(b, c);
    SplitJoinedPair(pa, pb, c);
  }

  // ---------------------------------------------------------------------------
  // Decimal rendering
  // ---------------------------------------------------------------------------

  predicate IsDigit(c: char) {
    '0' <= c <= '9'
  }

  function DigitChar(d: nat): (c: char)
    requires d < 10
    ensures IsDigit(c)
  {
    ('0' as int + d) as char
  }

  /** The number a decimal digit stands for. */
  function DigitValue(c: char): int {
    c as int - '0' as int
  }

  /** The number a run of decimal digits denotes, most significant first. */
  function DecimalValue(s: string): int
    decreases |s|
  {
    if s == [] then 0 else 10 * DecimalValue(s[..|s| - 1]) + DigitValue(s[|s| - 1])
  }

  /**
   * The decimal text of a non-negative integer, as `${n}` renders it: the
   * digits denote `n`, and only `0` itself starts with a `0`.
   */
  function NatToString(n: nat): (r: string)
    ensures |r| >= 1
    ensures |r| == 1 <==> n < 10
    ensures forall k :: 0 <= k < |r| ==> IsDigit(r[k])
    ensures DecimalValue(r) == n
    ensures r[0] == '0' <==> n == 0
    decreases n
  {
    if n < 10 then [DigitChar(n)]
    else
      var front := NatToString(n / 10);
      var r := front + [DigitChar(n % 10)];
      assert r[..|r| - 1] == front;
      r
  }

  /** Distinct numbers render as distinct texts. */
  lemma {:induction false} NatToStringInjective(a: nat, b: nat)
    requires NatToString(a) == NatToString(b)
    ensures a == b
    decreases a
  {
    var s := NatToString(a);
    if a < 10 {
      assert b < 10;
    } else {
      assert b >= 10;
      assert s[|s| - 1] == DigitChar(a % 10) == DigitChar(b % 10);
      assert s[..|s| - 1] == NatToString(a / 10) == NatToString(b / 10);
      NatToStringInjective(a / 10, b / 10);
    }
  }
}
