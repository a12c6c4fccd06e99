/**
 * Normalising the item sources in `init`: a fetched collection cut to
 * `accordionLimit`, or one item per `<button>` in the markup whose content
 * comes from its `data-target` selector list or, without one, from the
 * section after the accordion's own section.
 */
module Items {
  import opened Wrappers
  import opened Text

  // ---------------------------------------------------------------------------
  // Collection mode: the item limit
  // ---------------------------------------------------------------------------

  /** `settings.accordionLimit` as `typeof` sees it: a number, or anything else (the default is `false`). */
  datatype LimitSetting = NumericLimit(n: int) | NotANumber

  function Min(a: int, b: int): int {
    if a <= b then a else b
  }

  /** The end index `Array.prototype.slice(0, end)` uses on a list of length `len`: a negative end counts from the back. */
  function SliceEnd(len: nat, end: int): (e: nat)
    ensures e <= len
  {
    if end < 0 then (if len + end < 0 then 0 else len + end)
    else if end > len then len
    else end
  }

  /**
   * `items.slice(0, accordionLimit)` with `accordionLimit` replaced by
   * `Math.min(limit, items.length)` when it is a number. The result is
   * always a prefix of the input. A non-negative limit keeps
   * `min(limit, n)` items; a negative one, like `slice`, drops that many
   * from the end; a non-number keeps everything.
   */
  function ApplyLimit<T>(items: seq<T>, limit: LimitSetting): (r: seq<T>)
    ensures |r| <= |items| && r == items[..|r|]
    ensures limit.NotANumber? ==> r == items
    ensures limit.NumericLimit? && limit.n >= 0 ==> |r| == Min(limit.n, |items|)
    ensures limit.NumericLimit? && limit.n < 0 ==>
      |r| == (if |items| + limit.n < 0 then 0 else |items| + limit.n)
  {
    match limit
    case NotANumber => items
    case NumericLimit(n) => items[..SliceEnd(|items|, Min(n, |items|))]
  }

  /** Applying the same limit twice changes nothing when it is not negative. */
  lemma ApplyLimitIdempotent<T>(items: seq<T>, limit: LimitSetting)
    requires limit.NotANumber? || limit.n >= 0
    ensures ApplyLimit(ApplyLimit(items, limit), limit) == ApplyLimit(items, limit)
  {
  }

  // ---------------------------------------------------------------------------
  // Button mode: the `data-target` selector list
  // ---------------------------------------------------------------------------

  predicate CommaFree(parts: seq<string>) {
    forall j :: 0 <= j < |parts| ==> ',' !in parts[j]
  }

  /** Trimming cannot introduce a character. */
  lemma TrimKeepsOut(s: string, c: char)
    requires c !in s
    ensures c !in Trim(s)
  {
    var r := Trim(s);
    var k := |s| - |DropLeading(s, Whitespace)|;
    assert Margins(s, k, r, Whitespace);
    assert forall m :: 0 <= m < |r| ==> r[m] == s[k + m];
  }

  /** Trims every part and drops the parts that trim to nothing (`.map(s => s.trim()).filter(s => s)`). */
  function TrimNonEmpty(parts: seq<string>): (r: seq<string>)
    ensures |r| <= |parts|
    ensures forall j :: 0 <= j < |r| ==> r[j] != "" && Trim(r[j]) == r[j]
  {
    if parts == [] then []
    else
      var t := Trim(parts[0]);
      var rest := TrimNonEmpty(parts[1..]);
      StripOfStripped(t, Whitespace);
      if t == "" then rest else [t] + rest
  }

  lemma {:induction false} TrimNonEmptyCommaFree(parts: seq<string>)
    requires CommaFree(parts)
    ensures CommaFree(TrimNonEmpty(parts))
    decreases |parts|
  {
    if parts != [] {
      TrimKeepsOut(parts[0], ',');
      assert CommaFree(parts[1..]) by {
        forall j | 0 <= j < |parts[1..]| ensures ',' !in parts[1..][j] {
          assert parts[1..][j] == parts[j + 1];
        }
      }
      TrimNonEmptyCommaFree(parts[1..]);
    }
  }

  lemma {:induction false} TrimNonEmptyAppend(p: seq<string>, q: seq<string>)
    ensures TrimNonEmpty(p + q) == TrimNonEmpty(p) + TrimNonEmpty(q)
    decreases |p|
  {
    if p == [] {
      assert p + q == q;
    } else {
      assert (p + q)[0] == p[0];
      assert (p + q)[1..] == p[1..] + q;
      TrimNonEmptyAppend(p[1..], q);
    }
  }

  /**
   * `dataTarget.split(",").map(s => s.trim()).filter(s => s)`: the selectors
   * named in a `data-target` attribute, each non-empty, without whitespace
   * at either end and without a comma.
   */
  function SplitTargets(dataTarget: string): (r: seq<string>)
    ensures forall j :: 0 <= j < |r| ==> r[j] != "" && Trim(r[j]) == r[j] && ',' !in r[j]
  {
    var parts := Split(dataTarget, ",");
    assert CommaFree(parts) by {
      forall j | 0 <= j < |parts| ensures ',' !in parts[j] {
        ContainsChar(parts[j], ',');
      }
    }
    TrimNonEmptyCommaFree(parts);
    TrimNonEmpty(parts)
  }

  /** A comma splits the list: the selectors of `a,b` are those of `a` followed by those of `b`. */
  lemma SplitTargetsConcat(a: string, b: string)
    ensures SplitTargets(a + "," + b) == SplitTargets(a) + SplitTargets(b)
  {
    SplitConcat(a, b, ',');
    TrimNonEmptyAppend(Split(a, ","), Split(b, ","));
  }

  /** Without a comma there is one selector, the trimmed text, unless that is empty. */
  lemma SplitTargetsSingle(s: string)
    requires ',' !in s
    ensures SplitTargets(s) == if Trim(s) == "" then [] else [Trim(s)]
  {
    SplitUnique([s], ',');
    assert Join([s], ",") == s;
  }

  /** Where a trigger's content comes from. */
  datatype ContentPlan =
    | Targets(selectors: seq<string>)  // every element each selector matches, in selector order
    | NextSectionSibling               // the element after the accordion's enclosing section

  /** A `<button>` found in the accordion's markup, with its optional `data-target`. */
  datatype Trigger = Trigger(text: string, dataTarget: Option<string>)

  /**
   * The content plan of one trigger: an explicit, non-empty `data-target`
   * is split into selectors (even when none survive the trimming);
   * otherwise the section-sibling fallback is used.
   */
  function PlanFor(t: Trigger): (p: ContentPlan)
    ensures p.NextSectionSibling? <==> t.dataTarget.None? || t.dataTarget.value == ""
    ensures p.Targets? ==> p.selectors == SplitTargets(t.dataTarget.value)
  {
    match t.dataTarget
    case Some(d) => if d != "" then Targets(SplitTargets(d)) else NextSectionSibling
    case None => NextSectionSibling
  }

  /** A string of whitespace trims to nothing. */
  lemma TrimBlank(s: string)
    requires All(s, Whitespace)
    ensures Trim(s) == ""
  {
  }

  lemma {:induction false} TrimNonEmptyBlank(parts: seq<string>)
    requires forall j :: 0 <= j < |parts| ==> All(parts[j], Whitespace)
    ensures TrimNonEmpty(parts) == []
    decreases |parts|
  {
    if parts != [] {
      TrimBlank(parts[0]);
      TrimNonEmptyBlank(parts[1..]);
    }
  }

  /** Every character of a part occurs in the joined text. */
  lemma {:induction false} JoinKeepsChars(parts: seq<string>, sep: string, j: nat, k: nat)
    requires |parts| >= 1 && j < |parts| && k < |parts[j]|
    ensures parts[j][k] in Join(parts, sep)
    decreases |parts|
  {
    if j > 0 {
      JoinKeepsChars(parts[1..], sep, j - 1, k);
      assert Join(parts, sep) == parts[0] + sep + Join(parts[1..], sep);
    } else if |parts| > 1 {
      assert Join(parts, sep) == parts[0] + (sep + Join(parts[1..], sep));
    }
  }

  /**
   * A non-empty `data-target` made only of blanks and commas is truthy, so
   * there is no section fallback, yet it names no selector: the item gets
   * no content.
   */
  lemma BlankTargetsSelectNothing(t: Trigger)
    requires t.dataTarget.Some? && t.dataTarget.value != ""
    requires forall k :: 0 <= k < |t.dataTarget.value| ==>
      t.dataTarget.value[k] == ',' || IsJsWhitespace(t.dataTarget.value[k])
    ensures PlanFor(t) == Targets([])
  {
    var d := t.dataTarget.value;
    var parts := Split(d, ",");
    forall j | 0 <= j < |parts| ensures All(parts[j], Whitespace) {
      ContainsChar(parts[j], ',');
      forall k | 0 <= k < |parts[j]| ensures IsJsWhitespace(parts[j][k]) {
        JoinKeepsChars(parts, ",", j, k);
      }
    }
    TrimNonEmptyBlank(parts);
  }

  // ---------------------------------------------------------------------------
  // The normalised item list
  // ---------------------------------------------------------------------------

  /** One entry of a fetched collection. */
  datatype CollectionItem = CollectionItem(title: string, body: string)

  datatype Content = Body(html: string) | Relocated(plan: ContentPlan)

  /** One accordion item before it is given an id. */
  datatype Entry = Entry(title: string, content: Content)

  function FromCollection(items: seq<CollectionItem>): (r: seq<Entry>)
    ensures |r| == |items|
    ensures forall i :: 0 <= i < |items| ==> r[i] == Entry(items[i].title, Body(items[i].body))
  {
    seq(|items|, i requires 0 <= i < |items| => Entry(items[i].title, Body(items[i].body)))
  }

  function FromTriggers(triggers: seq<Trigger>): (r: seq<Entry>)
    ensures |r| == |triggers|
    ensures forall i :: 0 <= i < |triggers| ==> r[i] == Entry(triggers[i].text, Relocated(PlanFor(triggers[i])))
  {
    seq(|triggers|, i requires 0 <= i < |triggers| => Entry(triggers[i].text, Relocated(PlanFor(triggers[i]))))
  }

  /**
   * The item list `init` builds. `source` is the `data-source` attribute,
   * `fetched` what the collection fetch returned for it, `triggers` the
   * buttons in the markup. A non-empty source wins; otherwise buttons are
   * used; with neither the instance stays inert (`None`).
   */
  function Normalise(source: Option<string>, fetched: seq<CollectionItem>, limit: LimitSetting,
                     triggers: seq<Trigger>): (r: Option<seq<Entry>>)
    ensures r.None? <==> (source.None? || source.value == "") && triggers == []
    ensures source.Some? && source.value != "" ==>
      r == Some(FromCollection(ApplyLimit(fetched, limit)))
    ensures (source.None? || source.value == "") && triggers != [] ==>
      r == Some(FromTriggers(triggers))
  {
    if source.Some? && source.value != "" then Some(FromCollection(ApplyLimit(fetched, limit)))
    else if triggers != [] then Some(FromTriggers(triggers))
    else None
  }

  /**
   * In collection mode the titles are the first `min(limit, n)` fetched
   * titles in their original order; in button mode the limit is ignored
   * and every button gives one item.
   */
  lemma NormaliseTitles(source: Option<string>, fetched: seq<CollectionItem>, limit: LimitSetting,
                        triggers: seq<Trigger>, n: nat)
    requires limit == NumericLimit(n)
    ensures source.Some? && source.value != "" ==>
      var r := Normalise(source, fetched, limit, triggers).value;
      |r| == Min(n, |fetched|) && forall i :: 0 <= i < |r| ==> r[i].title == fetched[i].title
    ensures (source.None? || source.value == "") && triggers != [] ==>
      |Normalise(source, fetched, limit, triggers).value| == |triggers|
  {
  }
}
