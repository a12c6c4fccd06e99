/**
 * Which items start open (`buildAccordions`). First a set of candidate ids
 * is computed from `initialOpen`; the slugs it holds are computed while none
 * of this instance's items exist yet. Then the items are given their ids one
 * by one, each against the document's ids plus the ids of the items built
 * before it, and an item starts open when its id is a candidate; in
 * single-open mode only the first such item does.
 *
 * Since `turnStringIntoId(t)` is `UniqueId(BaseId(t), ...)`, the functions
 * below take the titles' base ids (`BaseIds(titles)`) and apply `UniqueId`.
 */
module InitialOpen {
  import opened Slug

  /** `settings.initialOpen` by JavaScript type (the default is `false`). */
  datatype InitialSetting = Null | Bool(b: bool) | Number(n: int) | Str(s: string)

  predicate IsKeyword(setting: InitialSetting) {
    setting == Str("all") || setting == Str("first")
  }

  // ---------------------------------------------------------------------------
  // Item ids
  // ---------------------------------------------------------------------------

  function BaseIds(titles: seq<string>): (bases: seq<string>)
    ensures |bases| == |titles|
    ensures forall i :: 0 <= i < |titles| ==> bases[i] == BaseId(titles[i])
  {
    seq(|titles|, i requires 0 <= i < |titles| => BaseId(titles[i]))
  }

  function SetOf(s: seq<string>): set<string> {
    set x | x in s
  }

  /**
   * The ids the items receive in list order: the last base is made unique
   * against the ids already `taken` in the document plus those given to the
   * items before it. The ids are pairwise distinct and none was taken before.
   */
  function AssignIds(bases: seq<string>, taken: set<string>): (ids: seq<string>)
    ensures |ids| == |bases|
    ensures forall i :: 0 <= i < |ids| ==> ids[i] !in taken
    ensures forall i, j :: 0 <= i < j < |ids| ==> ids[i] != ids[j]
    decreases |bases|
  {
    if bases == [] then []
    else
      var prev := AssignIds(bases[..|bases| - 1], taken);
      var id := UniqueId(bases[|bases| - 1], taken + SetOf(prev));
      DistinctAppend(prev, id, taken);
      prev + [id]
  }

  lemma DistinctAppend(prev: seq<string>, id: string, taken: set<string>)
    requires forall i :: 0 <= i < |prev| ==> prev[i] !in taken
    requires forall i, j :: 0 <= i < j < |prev| ==> prev[i] != prev[j]
    requires id !in taken + SetOf(prev)
    ensures var ids := prev + [id];
      && (forall i :: 0 <= i < |ids| ==> ids[i] !in taken)
      && (forall i, j :: 0 <= i < j < |ids| ==> ids[i] != ids[j])
  {
    assert forall i :: 0 <= i < |prev| ==> prev[i] in SetOf(prev);
  }

  /** Building a prefix of the list gives a prefix of the ids. */
  lemma {:induction false} AssignIdsPrefix(bases: seq<string>, taken: set<string>, k: nat)
    requires k <= |bases|
    ensures AssignIds(bases[..k], taken) == AssignIds(bases, taken)[..k]
    decreases |bases|
  {
    if k < |bases| {
      var init := bases[..|bases| - 1];
      assert init[..k] == bases[..k];
      AssignIdsPrefix(init, taken, k);
    } else {
      assert bases[..k] == bases;
    }
  }

  /**
   * Item `i` gets `turnStringIntoId(titles[i])` computed with the ids of
   * items `0..i-1` already in the document: its base made unique against
   * those ids and the document's.
   */
  lemma AssignIdsStep(bases: seq<string>, taken: set<string>, i: nat)
    requires i < |bases|
    ensures var ids := AssignIds(bases, taken);
      ids[i] == UniqueId(bases[i], taken + SetOf(ids[..i]))
  {
    var ids := AssignIds(bases, taken);
    AssignIdsPrefix(bases, taken, i + 1);
    AssignIdsPrefix(bases, taken, i);
    var pre := bases[..i + 1];
    assert pre[..|pre| - 1] == bases[..i];
    var preIds := AssignIds(pre, taken);
    assert preIds == ids[..i + 1];
    assert preIds[i] == ids[i];
    assert preIds[..i] == ids[..i];
  }

  // ---------------------------------------------------------------------------
  // The candidate set, as written
  // ---------------------------------------------------------------------------

  /**
   * `itemsToOpenInitially`: "all" in multiple mode gives the slug of every
   * title; "first", or "all" in single mode, gives the slug of the first
   * title; a positive number `n` the slug of title `n` if there is one; any
   * other string is itself the candidate; anything else gives nothing. Every
   * slug is computed against the document's ids alone.
   */
  function Candidates(setting: InitialSetting, bases: seq<string>, multiple: bool,
                      taken: set<string>): (c: set<string>)
    ensures |c| <= 1 || (setting == Str("all") && multiple)
    ensures setting.Null? || setting.Bool? || (setting.Number? && setting.n <= 0) ==> c == {}
    ensures setting.Number? && setting.n > |bases| ==> c == {}
    ensures setting.Str? && !IsKeyword(setting) ==> c == {setting.s}
    ensures setting.Number? || IsKeyword(setting) ==>
      forall x :: x in c ==> exists i :: 0 <= i < |bases| && x == UniqueId(bases[i], taken)
    ensures setting.Number? && 1 <= setting.n <= |bases| ==>
      c == {UniqueId(bases[setting.n - 1], taken)}
    ensures setting == Str("first") || (setting == Str("all") && !multiple) ==>
      c == if bases == [] then {} else {UniqueId(bases[0], taken)}
    ensures setting == Str("all") && multiple ==>
      forall i :: 0 <= i < |bases| ==> UniqueId(bases[i], taken) in c
  {
    match setting
    case Null => {}
    case Bool(_) => {}
    case Number(n) =>
      if n > 0 && n - 1 < |bases| then {UniqueId(bases[n - 1], taken)} else {}
    case Str(s) =>
      if s == "all" && multiple then
        set i | 0 <= i < |bases| :: UniqueId(bases[i], taken)
      else if s == "first" || s == "all" then
        (if |bases| > 0 then {UniqueId(bases[0], taken)} else {})
      else
        {s}
  }

  // ---------------------------------------------------------------------------
  // Applying the candidates item by item
  // ---------------------------------------------------------------------------

  /** No id before position `i` is a candidate. */
  predicate NoEarlierCandidate(ids: seq<string>, cand: set<string>, i: int)
    requires 0 <= i <= |ids|
  {
    forall j :: 0 <= j < i ==> ids[j] !in cand
  }

  /**
   * The `forEach` over the items with its `firstMarkedToOpenProcessed`
   * flag (`processed`): in multiple mode an item opens iff its id is a
   * candidate; in single mode only while no earlier item has matched.
   */
  function OpenFlagsFrom(ids: seq<string>, cand: set<string>, multiple: bool,
                         processed: bool): (r: seq<bool>)
    ensures |r| == |ids|
    ensures multiple ==> forall i :: 0 <= i < |ids| ==> (r[i] <==> ids[i] in cand)
    ensures !multiple ==> forall i :: 0 <= i < |ids| ==>
      (r[i] <==> !processed && ids[i] in cand && NoEarlierCandidate(ids, cand, i))
    decreases |ids|
  {
    if ids == [] then []
    else
      var marked := ids[0] in cand;
      var rest := OpenFlagsFrom(ids[1..], cand, multiple, processed || (!multiple && marked));
      assert forall i :: 1 <= i <= |ids| ==>
        (NoEarlierCandidate(ids, cand, i) <==> !marked && NoEarlierCandidate(ids[1..], cand, i - 1));
      if !multiple && marked && processed then [false] + rest
      else [marked] + rest
  }

  /** The open flag of every item, in list order. */
  function OpenFlags(ids: seq<string>, cand: set<string>, multiple: bool): (r: seq<bool>)
    ensures |r| == |ids|
  {
    OpenFlagsFrom(ids, cand, multiple, false)
  }

  predicate AtMostOneTrue(flags: seq<bool>) {
    forall i, j :: 0 <= i < |flags| && 0 <= j < |flags| && flags[i] && flags[j] ==> i == j
  }

  /**
   * An item starts open iff its id is a candidate, and, in single mode,
   * no earlier item's id is; so in single mode at most one item starts open.
   */
  lemma OpenFlagsMeaning(ids: seq<string>, cand: set<string>, multiple: bool)
    ensures var r := OpenFlags(ids, cand, multiple);
      && (forall i :: 0 <= i < |ids| ==>
           (r[i] <==> ids[i] in cand && (multiple || NoEarlierCandidate(ids, cand, i))))
      && (!multiple ==> AtMostOneTrue(r))
  {
  }

  /**
   * The open flags as the code computes them from the titles' base ids:
   * item `i` starts open iff the id it receives is among the slugs computed
   * up front and, in single mode, no earlier item's id is.
   */
  function InitialFlags(setting: InitialSetting, bases: seq<string>, multiple: bool,
                        taken: set<string>): (r: seq<bool>)
    ensures |r| == |bases|
    ensures var ids := AssignIds(bases, taken);
      var cand := Candidates(setting, bases, multiple, taken);
      forall i :: 0 <= i < |r| ==>
        (r[i] <==> ids[i] in cand && (multiple || NoEarlierCandidate(ids, cand, i)))
    ensures !multiple ==> AtMostOneTrue(r)
  {
    var ids := AssignIds(bases, taken);
    var cand := Candidates(setting, bases, multiple, taken);
    OpenFlagsMeaning(ids, cand, multiple);
    OpenFlags(ids, cand, multiple)
  }

  // ---------------------------------------------------------------------------
  // The duplicate-title divergence and its correction
  // ---------------------------------------------------------------------------

  lemma TwoIntroBases()
    ensures BaseIds(["Intro", "Intro"]) == ["intro", "intro"]
  {
    IntroBase();
  }

  lemma TwoIntroIds()
    ensures AssignIds(["intro", "intro"], {}) == ["intro", "intro-1"]
  {
    IntroSuffixed();
    var bases := ["intro", "intro"];
    assert bases[..1] == ["intro"];
    assert ["intro"][..0] == [];
    assert AssignIds(["intro"], {}) == ["intro"];
    assert SetOf(["intro"]) == {"intro"};
  }

  /**
   * Two items titled "Intro" with `initialOpen: 2`: the candidate is the
   * slug of the second title computed before any item exists, "intro",
   * which is the FIRST item's id, so item 1 opens and item 2 stays closed.
   */
  lemma DuplicateTitlesOpenWrongItem(multiple: bool)
    ensures InitialFlags(Number(2), BaseIds(["Intro", "Intro"]), multiple, {}) == [true, false]
  {
    TwoIntroBases();
    TwoIntroIds();
    IntroCandidates(Number(2), multiple);
    FirstOfTwoOpens(multiple);
  }

  /** Title `n`'s `turnStringIntoId` against the document is the unique form of its base id. */
  lemma SlugOfTitle(titles: seq<string>, taken: set<string>, n: nat)
    requires n < |titles|
    ensures AssignId(titles[n], taken) == UniqueId(BaseIds(titles)[n], taken)
  {
  }

  /**
   * `initialOpen: n` puts in the candidate set `turnStringIntoId` of title
   * `n`, run against the document as it is before the build.
   */
  lemma CandidateOfPosition(titles: seq<string>, multiple: bool, taken: set<string>, n: nat)
    requires n < |titles|
    ensures Candidates(Number(n + 1), BaseIds(titles), multiple, taken) == {AssignId(titles[n], taken)}
  {
    SlugOfTitle(titles, taken, n);
  }

  /** "first", and "all" in single mode, put in the first title's `turnStringIntoId`. */
  lemma CandidateOfFirst(setting: InitialSetting, titles: seq<string>, multiple: bool, taken: set<string>)
    requires titles != [] && (setting == Str("first") || (setting == Str("all") && !multiple))
    ensures Candidates(setting, BaseIds(titles), multiple, taken) == {AssignId(titles[0], taken)}
  {
    SlugOfTitle(titles, taken, 0);
  }

  /** "all" in multiple mode puts in every title's `turnStringIntoId`, and nothing else. */
  lemma CandidatesOfAll(titles: seq<string>, taken: set<string>)
    ensures var c := Candidates(Str("all"), BaseIds(titles), true, taken);
      && (forall i :: 0 <= i < |titles| ==> AssignId(titles[i], taken) in c)
      && (forall x :: x in c ==> exists i :: 0 <= i < |titles| && x == AssignId(titles[i], taken))
  {
    var bases := BaseIds(titles);
    var c := Candidates(Str("all"), bases, true, taken);
    forall i | 0 <= i < |titles| ensures AssignId(titles[i], taken) in c {
      SlugOfTitle(titles, taken, i);
    }
    forall x | x in c ensures exists i :: 0 <= i < |titles| && x == AssignId(titles[i], taken) {
      var i :| 0 <= i < |bases| && x == UniqueId(bases[i], taken);
      SlugOfTitle(titles, taken, i);
    }
  }

  /** Ids "intro" and "intro-1" against the candidate "intro": only the first opens. */
  lemma FirstOfTwoOpens(multiple: bool)
    ensures OpenFlags(["intro", "intro-1"], {"intro"}, multiple) == [true, false]
  {
    var ids := ["intro", "intro-1"];
    OpenFlagsMeaning(ids, {"intro"}, multiple);
    var r := OpenFlags(ids, {"intro"}, multiple);
    assert NoEarlierCandidate(ids, {"intro"}, 0);
    assert r[0];
    assert ids[1] !in {"intro"};
  }

  /** With "all" in multiple mode the second "Intro" does not open either. */
  lemma DuplicateTitlesAllLeavesCopyClosed()
    ensures InitialFlags(Str("all"), BaseIds(["Intro", "Intro"]), true, {}) == [true, false]
  {
    TwoIntroBases();
    TwoIntroIds();
    IntroCandidates(Str("all"), true);
    FirstOfTwoOpens(true);
  }

  /** Both the position 2 and "all" in multiple mode give the one candidate "intro". */
  lemma IntroCandidates(setting: InitialSetting, multiple: bool)
    requires setting == Number(2) || (setting == Str("all") && multiple)
    ensures Candidates(setting, ["intro", "intro"], multiple, {}) == {"intro"}
  {
    var bases := ["intro", "intro"];
    assert UniqueId(bases[0], {}) == "intro";
    assert UniqueId(bases[1], {}) == "intro";
  }

  /**
   * The candidate set with positions resolved to the ids the items actually
   * receive, so that `initialOpen: n` names item `n` as the 1-based number
   * of lines 395-397 says.
   */
  function IntendedCandidates(setting: InitialSetting, ids: seq<string>, multiple: bool): (c: set<string>)
    ensures |c| <= 1 || (setting == Str("all") && multiple)
    ensures setting.Str? && !IsKeyword(setting) ==> c == {setting.s}
    ensures setting.Number? || IsKeyword(setting) ==> forall x :: x in c ==> x in ids
  {
    match setting
    case Null => {}
    case Bool(_) => {}
    case Number(n) =>
      if n > 0 && n - 1 < |ids| then {ids[n - 1]} else {}
    case Str(s) =>
      if s == "all" && multiple then SetOf(ids)
      else if s == "first" || s == "all" then (if |ids| > 0 then {ids[0]} else {})
      else {s}
  }

  /**
   * The corrected open flags: as `InitialFlags`, with the candidates drawn
   * from the ids the items actually receive.
   */
  function IntendedFlags(setting: InitialSetting, bases: seq<string>, multiple: bool,
                         taken: set<string>): (r: seq<bool>)
    ensures |r| == |bases|
    ensures var ids := AssignIds(bases, taken);
      var cand := IntendedCandidates(setting, ids, multiple);
      forall i :: 0 <= i < |r| ==>
        (r[i] <==> ids[i] in cand && (multiple || NoEarlierCandidate(ids, cand, i)))
    ensures !multiple ==> AtMostOneTrue(r)
  {
    var ids := AssignIds(bases, taken);
    var cand := IntendedCandidates(setting, ids, multiple);
    OpenFlagsMeaning(ids, cand, multiple);
    OpenFlags(ids, cand, multiple)
  }

  /** Corrected: `initialOpen: n` opens exactly item `n`, in either mode, whatever the titles. */
  lemma IntendedPositionOpensThatItem(bases: seq<string>, taken: set<string>, multiple: bool, n: int)
    requires 1 <= n <= |bases|
    ensures forall i :: 0 <= i < |bases| ==>
      (IntendedFlags(Number(n), bases, multiple, taken)[i] <==> i == n - 1)
  {
    var ids := AssignIds(bases, taken);
    var cand := IntendedCandidates(Number(n), ids, multiple);
    assert cand == {ids[n - 1]};
    OpenFlagsMeaning(ids, cand, multiple);
    assert NoEarlierCandidate(ids, cand, n - 1);
  }

  /** Corrected: "all" in multiple mode opens every item. */
  lemma IntendedAllOpensEveryItem(bases: seq<string>, taken: set<string>)
    ensures forall i :: 0 <= i < |bases| ==> IntendedFlags(Str("all"), bases, true, taken)[i]
  {
    var ids := AssignIds(bases, taken);
    OpenFlagsMeaning(ids, IntendedCandidates(Str("all"), ids, true), true);
  }

  /** Corrected: "first", and "all" in single mode, open exactly the first item. */
  lemma IntendedFirstOpensFirstItem(setting: InitialSetting, bases: seq<string>, multiple: bool,
                                    taken: set<string>)
    requires setting == Str("first") || (setting == Str("all") && !multiple)
    ensures forall i :: 0 <= i < |bases| ==>
      (IntendedFlags(setting, bases, multiple, taken)[i] <==> i == 0)
  {
    var ids := AssignIds(bases, taken);
    var cand := IntendedCandidates(setting, ids, multiple);
    OpenFlagsMeaning(ids, cand, multiple);
    assert NoEarlierCandidate(ids, cand, 0);
  }

  /** Base ids that are free and pairwise distinct: no de-duplication happens. */
  predicate DistinctFree(bases: seq<string>, taken: set<string>) {
    && (forall i :: 0 <= i < |bases| ==> bases[i] !in taken)
    && (forall i, j :: 0 <= i < j < |bases| ==> bases[i] != bases[j])
  }

  lemma {:induction false} AssignIdsOfDistinctBases(bases: seq<string>, taken: set<string>)
    requires DistinctFree(bases, taken)
    ensures AssignIds(bases, taken) == bases
    decreases |bases|
  {
    if bases != [] {
      var n := |bases| - 1;
      var init := bases[..n];
      assert DistinctFree(init, taken);
      AssignIdsOfDistinctBases(init, taken);
      assert bases[n] !in SetOf(init);
      assert init + [bases[n]] == bases;
    }
  }

  /**
   * The divergence needs a collision: when the titles' base ids are free
   * and pairwise distinct, the code as written opens exactly what is intended.
   */
  lemma AsWrittenAgreesWhenBasesDistinct(setting: InitialSetting, bases: seq<string>,
                                         multiple: bool, taken: set<string>)
    requires DistinctFree(bases, taken)
    ensures InitialFlags(setting, bases, multiple, taken) == IntendedFlags(setting, bases, multiple, taken)
  {
    AssignIdsOfDistinctBases(bases, taken);
    CandidatesOfFreeBases(setting, bases, multiple, taken);
  }

  /** With free bases every slug the candidate set holds is its base. */
  lemma CandidatesOfFreeBases(setting: InitialSetting, bases: seq<string>, multiple: bool,
                              taken: set<string>)
    requires forall i :: 0 <= i < |bases| ==> bases[i] !in taken
    ensures Candidates(setting, bases, multiple, taken) == IntendedCandidates(setting, bases, multiple)
  {
    if setting == Str("all") && multiple {
      var c := Candidates(setting, bases, multiple, taken);
      forall x | x in SetOf(bases) ensures x in c {
        var i :| 0 <= i < |bases| && bases[i] == x;
        assert x == UniqueId(bases[i], taken);
      }
    }
  }
}
