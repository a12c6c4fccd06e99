/**
 * Item identifiers (`turnStringIntoId`). A title is lower-cased, every
 * maximal run of characters outside `[a-z0-9-]` becomes a single `-`, and the
 * leading and trailing dashes are stripped; this is the base id. The base is
 * returned if no element of the document already carries it, otherwise
 * `base-1`, `base-2`, ... is tried until a free one is found. The document's
 * ids are passed in explicitly as a set.
 */
module Slug {
  import opened Text

  // ---------------------------------------------------------------------------
  // Base id
  // ---------------------------------------------------------------------------

  /** The characters the id keeps: `[a-z0-9-]`. */
  predicate IsSlugChar(c: char) {
    ('a' <= c <= 'z') || ('0' <= c <= '9') || c == '-'
  }

  predicate IsSlugText(s: string) {
    forall k :: 0 <= k < |s| ==> IsSlugChar(s[k])
  }

  /** No character of `s` is kept: `s` is (part of) one run that collapses. */
  predicate NoSlugChars(s: string) {
    forall k :: 0 <= k < |s| ==> !IsSlugChar(s[k])
  }

  /**
   * The left-to-right scan behind `.replace(/[^a-z0-9-]+/g, "-")`: `inRun`
   * says whether the previous character already started a replaced run.
   */
  function Collapse(s: string, inRun: bool): (r: string)
    ensures IsSlugText(r)
    ensures |r| <= |s|
    decreases |s|
  {
    if s == [] then []
    else if IsSlugChar(s[0]) then [s[0]] + Collapse(s[1..], false)
    else if inRun then Collapse(s[1..], true)
    else "-" + Collapse(s[1..], true)
  }

  /** `.replace(/[^a-z0-9-]+/g, "-")`. */
  function CollapseRuns(s: string): string {
    Collapse(s, false)
  }

  /** The base id of a title, before de-duplication. */
  function BaseId(title: string): (r: string)
    ensures IsSlugText(r)
    ensures r != [] ==> r[0] != '-' && r[|r| - 1] != '-'
  {
    var s := CollapseRuns(ToLower(title));
    var r := Strip(s, Dash);
    SlugTextInfix(s, |s| - |DropLeading(s, Dash)|, r);
    r
  }

  lemma SlugTextInfix(s: string, i: int, r: string)
    requires IsSlugText(s)
    requires 0 <= i <= |s| - |r| && r == s[i..i + |r|]
    ensures IsSlugText(r)
  {
    forall k | 0 <= k < |r| ensures IsSlugChar(r[k]) {
      assert r[k] == s[i + k];
    }
  }

  // ---------------------------------------------------------------------------
  // Properties of the run collapse
  // ---------------------------------------------------------------------------

  /** Text made only of kept characters passes through unchanged. */
  lemma {:induction false} CollapseKeepsSlugText(s: string, inRun: bool)
    requires IsSlugText(s)
    ensures Collapse(s, inRun) == s
    decreases |s|
  {
    if s != [] {
      CollapseKeepsSlugText(s[1..], false);
      assert s == [s[0]] + s[1..];
    }
  }

  /** Inside a run, further characters of the run add nothing. */
  lemma {:induction false} CollapseInsideRun(s: string)
    requires NoSlugChars(s)
    ensures Collapse(s, true) == []
    decreases |s|
  {
    if s != [] {
      CollapseInsideRun(s[1..]);
    }
  }

  /** A non-empty run of other characters becomes exactly one dash. */
  lemma CollapseOfRun(s: string)
    requires s != [] && NoSlugChars(s)
    ensures CollapseRuns(s) == "-"
  {
    CollapseInsideRun(s[1..]);
  }

  /** Whether the scan is inside a run after reading `a` from state `inRun`. */
  function RunStateAfter(a: string, inRun: bool): bool {
    if a == [] then inRun else !IsSlugChar(a[|a| - 1])
  }

  /** What the scan emits for one character `c` read in state `inRun`. */
  function Emit(c: char, inRun: bool): string {
    if IsSlugChar(c) then [c] else if inRun then [] else "-"
  }

  /** One step of the scan. */
  lemma CollapseStep(s: string, inRun: bool)
    requires s != []
    ensures Collapse(s, inRun) == Emit(s[0], inRun) + Collapse(s[1..], !IsSlugChar(s[0]))
  {
  }

  /** The state after `a` is the state after its tail, entered from the state its first character leaves. */
  lemma RunStateAfterTail(a: string, inRun: bool)
    requires a != []
    ensures RunStateAfter(a[1..], !IsSlugChar(a[0])) == RunStateAfter(a, inRun)
  {
    if |a| > 1 {
      assert a[1..][|a| - 2] == a[|a| - 1];
    }
  }

  /** The scan of `a + b` is the scan of `a` followed by the scan of `b` from where `a` left off. */
  lemma {:induction false} CollapseAppend(a: string, b: string, inRun: bool)
    ensures Collapse(a + b, inRun) == Collapse(a, inRun) + Collapse(b, RunStateAfter(a, inRun))
    decreases |a|
  {
    if a == [] {
      assert a + b == b;
    } else {
      var next := !IsSlugChar(a[0]);
      var t := a[1..];
      var ab := a + b;
      assert ab[0] == a[0];
      assert ab[1..] == t + b;
      CollapseStep(ab, inRun);
      CollapseStep(a, inRun);
      CollapseAppend(t, b, next);
      RunStateAfterTail(a, inRun);
      var e := Emit(a[0], inRun);
      var left := Collapse(t, next);
      var rest := Collapse(b, RunStateAfter(a, inRun));
      assert e + (left + rest) == (e + left) + rest;
    }
  }

  /**
   * The collapse works run by run: cutting the input anywhere except in the
   * middle of a run of other characters cuts the output at the same place.
   * Together with the two lemmas above this determines `CollapseRuns`.
   */
  lemma CollapseConcat(a: string, b: string)
    requires a == [] || b == [] || IsSlugChar(a[|a| - 1]) || IsSlugChar(b[0])
    ensures CollapseRuns(a + b) == CollapseRuns(a) + CollapseRuns(b)
  {
    CollapseAppend(a, b, false);
    if b != [] && RunStateAfter(a, false) {
      assert Collapse(b, true) == [b[0]] + Collapse(b[1..], false);
    }
  }

  /** Slugging is idempotent: a base id is its own base id. */
  lemma BaseIdIdempotent(title: string)
    ensures BaseId(BaseId(title)) == BaseId(title)
  {
    var b := BaseId(title);
    assert ToLower(b) == b;
    CollapseKeepsSlugText(b, false);
    StripOfStripped(b, Dash);
  }

  // ---------------------------------------------------------------------------
  // De-duplication
  // ---------------------------------------------------------------------------

  /** The k-th fallback candidate, `${baseId}-${counter}`. */
  function Suffixed(base: string, k: nat): (r: string)
    ensures IsSlugText(base) ==> IsSlugText(r)
  {
    base + "-" + NatToString(k)
  }

  /** The candidates tried before the counter passes `k`: the base and `base-1` .. `base-k`. */
  ghost function Tried(base: string, k: nat): set<string>
    decreases k
  {
    if k == 0 then {base} else Tried(base, k - 1) + {Suffixed(base, k)}
  }

  lemma SuffixedInjective(base: string, i: nat, j: nat)
    requires Suffixed(base, i) == Suffixed(base, j)
    ensures i == j
  {
    var n := |base| + 1;
    assert NatToString(i) == Suffixed(base, i)[n..];
    assert NatToString(j) == Suffixed(base, j)[n..];
    NatToStringInjective(i, j);
  }

  /** All the candidates are distinct, so `k` rounds of the loop have seen `k + 1` taken ids. */
  lemma {:induction false} TriedSize(base: string, k: nat)
    ensures |Tried(base, k)| == k + 1
    ensures forall x :: x in Tried(base, k) ==> x == base || exists j :: 1 <= j <= k && x == Suffixed(base, j)
    decreases k
  {
    if k > 0 {
      TriedSize(base, k - 1);
      var c := Suffixed(base, k);
      var prev := Tried(base, k - 1);
      forall x | x in prev ensures x != c {
        if x != base {
          var j :| 1 <= j <= k - 1 && x == Suffixed(base, j);
          if x == c {
            SuffixedInjective(base, j, k);
          }
        } else {
          assert |c| > |base|;
        }
      }
    }
  }

  /**
   * The `while` loop from counter `k` on, when the base and every suffix
   * below `k` are taken: the first free candidate `base-m` with `m >= k`.
   */
  function NextFree(base: string, existing: set<string>, k: nat): (r: string)
    requires k >= 1
    requires Tried(base, k - 1) <= existing
    ensures r !in existing
    decreases |existing| - k
  {
    var c := Suffixed(base, k);
    if c !in existing then
      c
    else
      TriedSize(base, k);
      SubsetSize(Tried(base, k), existing);
      NextFree(base, existing, k + 1)
  }

  /** The candidate `NextFree` returns is `base-m` with every candidate below it taken. */
  lemma {:induction false} NextFreeIsLeast(base: string, existing: set<string>, k: nat)
    requires k >= 1
    requires Tried(base, k - 1) <= existing
    ensures exists m :: k <= m && NextFree(base, existing, k) == Suffixed(base, m) && Tried(base, m - 1) <= existing
    decreases |existing| - k
  {
    var c := Suffixed(base, k);
    if c in existing {
      TriedSize(base, k);
      SubsetSize(Tried(base, k), existing);
      NextFreeIsLeast(base, existing, k + 1);
    }
  }

  lemma SubsetSize(a: set<string>, b: set<string>)
    requires a <= b
    ensures |a| <= |b|
  {
    assert b == a + (b - a);
  }

  /** `turnStringIntoId` after the base is computed: the base itself when no element carries it. */
  function UniqueId(base: string, existing: set<string>): (r: string)
    ensures r !in existing
    ensures base !in existing ==> r == base
  {
    if base !in existing then base else NextFree(base, existing, 1)
  }

  /**
   * When the base is taken, the id is `base-m` for the least `m >= 1` whose
   * candidate is free: the base and `base-1` .. `base-(m-1)` are all taken.
   */
  lemma UniqueIdIsLeast(base: string, existing: set<string>)
    requires base in existing
    ensures exists m :: 1 <= m && UniqueId(base, existing) == Suffixed(base, m) && Tried(base, m - 1) <= existing
  {
    NextFreeIsLeast(base, existing, 1);
  }

  /** `turnStringIntoId(title)` against the set of ids the document already holds. */
  function AssignId(title: string, existing: set<string>): (r: string)
    ensures r !in existing
    ensures IsSlugText(r)
  {
    var base := BaseId(title);
    UniqueIdKeepsSlugText(base, existing);
    UniqueId(base, existing)
  }

  lemma UniqueIdKeepsSlugText(base: string, existing: set<string>)
    requires IsSlugText(base)
    ensures IsSlugText(UniqueId(base, existing))
  {
    if base in existing {
      UniqueIdIsLeast(base, existing);
    }
  }

  /**
   * A title without any kept character has the empty base id, and no
   * fallback token replaces it: the id is "" when that is free, and `-m`
   * otherwise.
   */
  lemma SymbolOnlyTitle(title: string, existing: set<string>)
    requires NoSlugChars(ToLower(title))
    ensures BaseId(title) == ""
    ensures "" !in existing ==> AssignId(title, existing) == ""
    ensures "" in existing ==>
      exists m :: 1 <= m && AssignId(title, existing) == "-" + NatToString(m)
  {
    SymbolOnlyBase(title);
    if "" in existing {
      EmptyBaseSuffixed(existing);
    }
  }

  lemma SymbolOnlyBase(title: string)
    requires NoSlugChars(ToLower(title))
    ensures BaseId(title) == ""
  {
    var s := ToLower(title);
    if s != [] {
      CollapseOfRun(s);
    }
  }

  lemma EmptyBaseSuffixed(existing: set<string>)
    requires "" in existing
    ensures exists m :: 1 <= m && UniqueId("", existing) == "-" + NatToString(m)
  {
    UniqueIdIsLeast("", existing);
    var m :| 1 <= m && UniqueId("", existing) == Suffixed("", m);
    assert Suffixed("", m) == "-" + NatToString(m);
  }

  /** Two items titled "Intro" get "intro" and then "intro-1". */
  lemma TwoIntros()
    ensures AssignId("Intro", {}) == "intro"
    ensures AssignId("Intro", {"intro"}) == "intro-1"
  {
    IntroBase();
    IntroSuffixed();
  }

  lemma IntroSuffixed()
    ensures UniqueId("intro", {"intro"}) == "intro-1"
  {
    var e := {"intro"};
    assert NatToString(1) == "1";
    assert Suffixed("intro", 1) == "intro-1";
    assert "intro-1" !in e;
    assert NextFree("intro", e, 1) == "intro-1";
  }

  lemma IntroBase()
    ensures BaseId("Intro") == "intro"
  {
    assert ToLower("Intro") == "intro";
    CollapseKeepsSlugText("intro", false);
    StripOfStripped("intro", Dash);
  }
}
