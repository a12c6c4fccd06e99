/**
 * The per-item open/close state machine and the hash synchronisation of one
 * accordion instance. Each item carries two flags, `isOpen` and
 * `isItemAnimating`; clicks (`openAccordion`), the end of an item's height
 * transition, and `hashchange` (`handleHashNavigation`) drive them. The
 * page's `location.hash` is kept as its fragment, `""` when there is none.
 */
module Machine {
  import opened InitialOpen

  // ---------------------------------------------------------------------------
  // One item
  // ---------------------------------------------------------------------------

  /** `dataset.isOpen === "true"` and `dataset.isItemAnimating === "true"`. */
  datatype Flags = Flags(isOpen: bool, animating: bool)

  /**
   * `_performOpen`: ignored while the item is open or animating; otherwise
   * the item is open at once and animating until its transition ends.
   */
  function PerformOpen(f: Flags): (g: Flags)
    ensures g.isOpen <==> f.isOpen || !f.animating
    ensures g.animating <==> f.animating || !f.isOpen
    ensures g != f <==> !f.isOpen && !f.animating
  {
    if f.isOpen || f.animating then f else Flags(true, true)
  }

  /** `_performClose`, symmetrically. */
  function PerformClose(f: Flags): (g: Flags)
    ensures g.isOpen <==> f.isOpen && f.animating
    ensures g.animating <==> f.animating || f.isOpen
    ensures g != f <==> f.isOpen && !f.animating
  {
    if !f.isOpen || f.animating then f else Flags(false, true)
  }

  /** The `transitionend` listener: only the animating flag is cleared. */
  function TransitionEnd(f: Flags): (g: Flags)
    ensures !g.animating && g.isOpen == f.isOpen
  {
    Flags(f.isOpen, false)
  }

  /** Asking twice is asking once. */
  lemma PerformIdempotent(f: Flags)
    ensures PerformOpen(PerformOpen(f)) == PerformOpen(f)
    ensures PerformClose(PerformClose(f)) == PerformClose(f)
  {
  }

  /** A settled closed item opened, settled, closed and settled again is where it started. */
  lemma OpenCloseRoundTrip(f: Flags)
    requires !f.isOpen && !f.animating
    ensures TransitionEnd(PerformClose(TransitionEnd(PerformOpen(f)))) == f
    ensures PerformClose(PerformOpen(f)) == PerformOpen(f)
  {
  }

  // ---------------------------------------------------------------------------
  // The instance
  // ---------------------------------------------------------------------------

  /**
   * One accordion: its items by id, `allowMultipleOpen`, whether
   * `data-update-url` is "true", the page's fragment and
   * `_programmaticHashChangeInProgress`.
   */
  datatype Instance = Instance(items: map<string, Flags>, multiple: bool, updateUrl: bool,
                               fragment: string, suppress: bool)

  /** `location.hash` for a fragment: empty when there is none, else `#` and the fragment. */
  function HashString(fragment: string): (h: string)
    ensures h == "" <==> fragment == ""
    ensures h != "" ==> h[0] == '#' && h[1..] == fragment
  {
    if fragment == "" then "" else "#" + fragment
  }

  /** Every item except `id` is asked to close. */
  function CloseOthers(items: map<string, Flags>, id: string): (r: map<string, Flags>)
    ensures r.Keys == items.Keys
    ensures id in items ==> r[id] == items[id]
    ensures forall k :: k in items && k != id ==> r[k] == PerformClose(items[k])
  {
    map k | k in items :: if k == id then items[k] else PerformClose(items[k])
  }

  /** `openAccordion` writes the hash: the target was closed and settled, URL updates are on, and the hash is not `#id` already. */
  predicate WritesHash(s: Instance, id: string) {
    && id in s.items && !s.items[id].animating && !s.items[id].isOpen
    && s.updateUrl && HashString(s.fragment) != "#" + id
  }

  /**
   * `openAccordion(id)`, which toggles: nothing for an unknown or animating
   * target; an open target is closed alone; a closed one is opened, after
   * every other item is asked to close in single mode, and the hash is
   * then set to the id with the suppression flag raised just before.
   */
  function Click(s: Instance, id: string): (t: Instance)
    ensures t.items.Keys == s.items.Keys
    ensures t.multiple == s.multiple && t.updateUrl == s.updateUrl
    ensures id !in s.items || s.items[id].animating ==> t == s
    ensures id in s.items && !s.items[id].animating && s.items[id].isOpen ==>
      t == s.(items := s.items[id := Flags(false, true)])
    ensures id in s.items && !s.items[id].animating && !s.items[id].isOpen ==>
      && t.items[id] == Flags(true, true)
      && (forall k :: k in s.items && k != id ==>
            t.items[k] == if s.multiple then s.items[k] else PerformClose(s.items[k]))
    ensures t.suppress <==> s.suppress || WritesHash(s, id)
    ensures t.fragment == if WritesHash(s, id) then id else s.fragment
  {
    if id !in s.items || s.items[id].animating then s
    else
      var target := s.items[id];
      if target.isOpen then
        s.(items := s.items[id := PerformClose(target)])
      else
        var others := if s.multiple then s.items else CloseOthers(s.items, id);
        var items := others[id := PerformOpen(target)];
        if s.updateUrl && HashString(s.fragment) != "#" + id then
          s.(items := items, fragment := id, suppress := true)
        else
          s.(items := items)
  }

  /**
   * `#id` differs from the hash exactly when the fragment is not `id`, or
   * when `id` is empty (the hash then reads "" and never "#").
   */
  lemma WritesHashMeaning(s: Instance, id: string)
    ensures WritesHash(s, id) <==>
      && id in s.items && !s.items[id].animating && !s.items[id].isOpen
      && s.updateUrl && (s.fragment != id || id == "")
  {
    if s.fragment != "" && s.fragment == id {
      assert HashString(s.fragment) == "#" + id;
    }
    if HashString(s.fragment) == "#" + id {
      assert s.fragment == HashString(s.fragment)[1..] == id;
    }
  }

  /** Clicking twice in a row is clicking once: the first click leaves the target animating. */
  lemma ClickIdempotent(s: Instance, id: string)
    ensures Click(Click(s, id), id) == Click(s, id)
  {
  }

  /**
   * `handleHashNavigation`: a raised suppression flag is consumed and
   * nothing else happens; otherwise a non-empty fragment naming an item
   * opens it, after every other item is asked to close in single mode.
   * The hash is never written.
   */
  function HashNavigation(s: Instance): (t: Instance)
    ensures t.items.Keys == s.items.Keys
    ensures t.multiple == s.multiple && t.updateUrl == s.updateUrl && t.fragment == s.fragment
    ensures !t.suppress
    ensures s.suppress ==> t == s.(suppress := false)
    ensures !s.suppress && (s.fragment == "" || s.fragment !in s.items) ==> t == s
    ensures !s.suppress && s.fragment != "" && s.fragment in s.items ==>
      && t.items[s.fragment] == PerformOpen(s.items[s.fragment])
      && (forall k :: k in s.items && k != s.fragment ==>
            t.items[k] == if s.multiple then s.items[k] else PerformClose(s.items[k]))
  {
    if s.suppress then s.(suppress := false)
    else if s.fragment == "" || s.fragment !in s.items then s
    else
      var id := s.fragment;
      var others := if s.multiple then s.items else CloseOthers(s.items, id);
      s.(items := others[id := PerformOpen(s.items[id])])
  }

  /**
   * No feedback loop: when a click wrote the hash, the `hashchange` that
   * write causes only lowers the flag and leaves the items as the click
   * left them.
   */
  lemma ClickThenHashChange(s: Instance, id: string)
    requires WritesHash(s, id)
    ensures var t := Click(s, id);
      HashNavigation(t) == t.(suppress := false)
  {
  }

  // ---------------------------------------------------------------------------
  // Single-open exclusivity
  // ---------------------------------------------------------------------------

  predicate AtMostOneOpen(items: map<string, Flags>) {
    forall a, b :: a in items && b in items && items[a].isOpen && items[b].isOpen ==> a == b
  }

  /** No item is mid-transition. */
  predicate Settled(items: map<string, Flags>) {
    forall k :: k in items ==> !items[k].animating
  }

  /**
   * No open item is mid-transition, so every open item accepts a close
   * request. Closed items may still be finishing their closing transition.
   */
  predicate OpenOnesSettled(items: map<string, Flags>) {
    forall k :: k in items ==> !(items[k].isOpen && items[k].animating)
  }

  /**
   * In single mode a click leaves at most one item open, the item it opens
   * or none when it closes the open one, as long as no open item is still
   * animating (its close request would be dropped).
   */
  lemma ClickKeepsOneOpen(s: Instance, id: string)
    requires !s.multiple && OpenOnesSettled(s.items) && AtMostOneOpen(s.items)
    ensures AtMostOneOpen(Click(s, id).items)
  {
    var t := Click(s, id);
    if id in s.items && !s.items[id].isOpen && !s.items[id].animating {
      forall k | k in t.items && t.items[k].isOpen ensures k == id {
      }
    }
  }

  /** So does hash navigation, whether or not the target was already open. */
  lemma HashNavigationKeepsOneOpen(s: Instance)
    requires !s.multiple && OpenOnesSettled(s.items) && AtMostOneOpen(s.items)
    ensures AtMostOneOpen(HashNavigation(s).items)
  {
    var t := HashNavigation(s);
    if !s.suppress && s.fragment != "" && s.fragment in s.items {
      forall k | k in t.items && t.items[k].isOpen ensures k == s.fragment {
      }
    }
  }

  /**
   * Navigating to an item's fragment in single mode on a settled instance
   * leaves exactly that item open, even when several were open before.
   */
  lemma NavigationOpensOnlyTarget(s: Instance)
    requires !s.multiple && Settled(s.items) && !s.suppress
    requires s.fragment != "" && s.fragment in s.items
    ensures var t := HashNavigation(s);
      forall k :: k in t.items ==> (t.items[k].isOpen <==> k == s.fragment)
  {
  }

  /**
   * Exclusivity is not kept while an item animates: clicking `b` while `a`
   * is still opening leaves both open, since the close request to `a` is
   * dropped.
   */
  lemma RaceLeavesTwoOpen()
    ensures var s := Instance(map["a" := Flags(false, false), "b" := Flags(false, false)],
                              false, false, "", false);
      var t := Click(Click(s, "a"), "b");
      t.items["a"].isOpen && t.items["b"].isOpen
  {
  }

  // ---------------------------------------------------------------------------
  // Runs of events
  // ---------------------------------------------------------------------------

  datatype Event =
    | ClickOn(id: string)            // the item's title button is clicked
    | TransitionEnded(id: string)    // the item's height transition finishes
    | SetFragment(fragment: string)  // the fragment changes without the handler running yet
    | HashChange                     // the `hashchange` listener runs

  function Step(s: Instance, e: Event): (t: Instance)
    ensures t.items.Keys == s.items.Keys && t.multiple == s.multiple
  {
    match e
    case ClickOn(id) => Click(s, id)
    case TransitionEnded(id) =>
      if id in s.items then s.(items := s.items[id := TransitionEnd(s.items[id])]) else s
    case SetFragment(f) => s.(fragment := f)
    case HashChange => HashNavigation(s)
  }

  function Run(s: Instance, events: seq<Event>): (t: Instance)
    ensures t.items.Keys == s.items.Keys && t.multiple == s.multiple
    decreases |events|
  {
    if events == [] then s else Run(Step(s, events[0]), events[1..])
  }

  /**
   * The event may change which items are open: a click, or a `hashchange`
   * that is not the echo of the plugin's own hash write.
   */
  predicate Acts(s: Instance, e: Event) {
    e.ClickOn? || (e.HashChange? && !s.suppress)
  }

  /**
   * Clicks and unsuppressed hash navigations only ever come when no open
   * item animates. Items still finishing a close may animate, and the
   * `hashchange` a click's own hash write causes may arrive at any time.
   */
  predicate Paced(s: Instance, events: seq<Event>)
    decreases |events|
  {
    events == [] ||
    ((Acts(s, events[0]) ==> OpenOnesSettled(s.items))
     && Paced(Step(s, events[0]), events[1..]))
  }

  lemma StepKeepsOneOpen(s: Instance, e: Event)
    requires !s.multiple && AtMostOneOpen(s.items)
    requires Acts(s, e) ==> OpenOnesSettled(s.items)
    ensures AtMostOneOpen(Step(s, e).items)
  {
    match e
    case ClickOn(id) => ClickKeepsOneOpen(s, id);
    case TransitionEnded(id) =>
    case SetFragment(f) =>
    case HashChange =>
      if !s.suppress {
        HashNavigationKeepsOneOpen(s);
      }
  }

  /**
   * In single mode at most one item is open after any run in which every
   * click and unsuppressed hash navigation waits for the opening
   * transitions of open items to end.
   */
  lemma {:induction false} RunKeepsOneOpen(s: Instance, events: seq<Event>)
    requires !s.multiple && AtMostOneOpen(s.items) && Paced(s, events)
    ensures AtMostOneOpen(Run(s, events).items)
    decreases |events|
  {
    if events != [] {
      StepKeepsOneOpen(s, events[0]);
      RunKeepsOneOpen(Step(s, events[0]), events[1..]);
    }
  }

  /**
   * Closing `a` by a click and then clicking `b` while `a` still closes is
   * paced, and leaves `b` the one open item.
   */
  lemma CloseThenOpenIsPaced()
    ensures var s := Instance(map["a" := Flags(true, false), "b" := Flags(false, false)],
                              false, false, "", false);
      var events := [ClickOn("a"), ClickOn("b")];
      var t := Run(s, events);
      && Paced(s, events)
      && t.items["b"].isOpen && !t.items["a"].isOpen && t.items["a"].animating
  {
    var s := Instance(map["a" := Flags(true, false), "b" := Flags(false, false)], false, false, "", false);
    var events := [ClickOn("a"), ClickOn("b")];
    assert events[1..] == [ClickOn("b")];
    assert [ClickOn("b")][1..] == [];
    var s1 := Step(s, ClickOn("a"));
    assert s1.items == map["a" := Flags(false, true), "b" := Flags(false, false)];
    assert OpenOnesSettled(s1.items);
  }

  /**
   * The usual run with URL updates on is paced: the click writes the hash,
   * its `hashchange` arrives while the item still opens, then the
   * transition ends.
   */
  lemma UrlSyncClickIsPaced(s: Instance, id: string)
    requires Settled(s.items) && !s.suppress && WritesHash(s, id)
    ensures Paced(s, [ClickOn(id), HashChange, TransitionEnded(id)])
  {
    var s1 := Step(s, ClickOn(id));
    var s2 := Step(s1, HashChange);
    var s3 := Step(s2, TransitionEnded(id));
    assert s1.suppress;
    assert Paced(s3, []);
    assert [ClickOn(id), HashChange, TransitionEnded(id)][1..] == [HashChange, TransitionEnded(id)];
    assert [HashChange, TransitionEnded(id)][1..] == [TransitionEnded(id)];
    assert [TransitionEnded(id)][1..] == [];
  }

  /**
   * Opening and then closing a settled item by two clicks, each followed by
   * its transition, restores the instance when URL updates are off and no
   * other item is open.
   */
  lemma ToggleRoundTrip(s: Instance, id: string)
    requires id in s.items && s.items[id] == Flags(false, false) && !s.updateUrl
    requires forall k :: k in s.items && k != id ==> !s.items[k].isOpen
    ensures Run(s, [ClickOn(id), TransitionEnded(id), ClickOn(id), TransitionEnded(id)]) == s
  {
    var open := [ClickOn(id), TransitionEnded(id)];
    RunAppend(s, open, open);
    assert open + open == [ClickOn(id), TransitionEnded(id), ClickOn(id), TransitionEnded(id)];
    OpenAndSettle(s, id);
    var s2 := s.(items := s.items[id := Flags(true, false)]);
    CloseAndSettle(s2, id);
    assert s2.items[id := Flags(false, false)] == s.items;
  }

  /** Running two event lists one after the other is running their concatenation. */
  lemma {:induction false} RunAppend(s: Instance, a: seq<Event>, b: seq<Event>)
    ensures Run(s, a + b) == Run(Run(s, a), b)
    decreases |a|
  {
    if a == [] {
      assert a + b == b;
    } else {
      assert (a + b)[0] == a[0];
      assert (a + b)[1..] == a[1..] + b;
      RunAppend(Step(s, a[0]), a[1..], b);
    }
  }

  lemma RunPair(s: Instance, e1: Event, e2: Event)
    ensures Run(s, [e1, e2]) == Step(Step(s, e1), e2)
  {
    var t := Step(s, e1);
    assert [e1, e2][1..] == [e2];
    assert [e2][1..] == [];
    assert Run(t, [e2]) == Run(Step(t, e2), []);
  }

  lemma OpenAndSettle(s: Instance, id: string)
    requires id in s.items && s.items[id] == Flags(false, false) && !s.updateUrl
    requires forall k :: k in s.items && k != id ==> !s.items[k].isOpen
    ensures Run(s, [ClickOn(id), TransitionEnded(id)]) == s.(items := s.items[id := Flags(true, false)])
  {
    RunPair(s, ClickOn(id), TransitionEnded(id));
    ClickOpensAlone(s, id);
  }

  lemma CloseAndSettle(s: Instance, id: string)
    requires id in s.items && s.items[id] == Flags(true, false)
    ensures Run(s, [ClickOn(id), TransitionEnded(id)]) == s.(items := s.items[id := Flags(false, false)])
  {
    RunPair(s, ClickOn(id), TransitionEnded(id));
    var t := s.(items := s.items[id := Flags(false, true)]);
    assert Step(s, ClickOn(id)) == t;
    assert Step(t, TransitionEnded(id)) == s.(items := s.items[id := Flags(false, false)]);
  }

  /** With no other item open and URL updates off, a click on a settled closed item changes that item only. */
  lemma ClickOpensAlone(s: Instance, id: string)
    requires id in s.items && s.items[id] == Flags(false, false) && !s.updateUrl
    requires forall k :: k in s.items && k != id ==> !s.items[k].isOpen
    ensures Click(s, id) == s.(items := s.items[id := Flags(true, true)])
  {
    var t := Click(s, id);
    assert t.items == s.items[id := Flags(true, true)];
  }

  // ---------------------------------------------------------------------------
  // Building an instance
  // ---------------------------------------------------------------------------

  predicate Distinct(ids: seq<string>) {
    forall i, j :: 0 <= i < j < |ids| ==> ids[i] != ids[j]
  }

  /** Items with the given ids and open flags, none animating. */
  function ItemMap(ids: seq<string>, open: seq<bool>): (m: map<string, Flags>)
    requires |open| == |ids| && Distinct(ids)
    ensures m.Keys == SetOf(ids)
    ensures forall i :: 0 <= i < |ids| ==> m[ids[i]] == Flags(open[i], false)
    decreases |ids|
  {
    if ids == [] then map[]
    else
      var n := |ids| - 1;
      var prev := ItemMap(ids[..n], open[..n]);
      assert forall i :: 0 <= i < n ==> ids[..n][i] == ids[i] && open[..n][i] == open[i];
      ItemMapStep(ids, open, prev);
      prev[ids[n] := Flags(open[n], false)]
  }

  lemma ItemMapStep(ids: seq<string>, open: seq<bool>, prev: map<string, Flags>)
    requires |open| == |ids| && ids != [] && Distinct(ids)
    requires prev.Keys == SetOf(ids[..|ids| - 1])
    requires forall i :: 0 <= i < |ids| - 1 ==> prev[ids[i]] == Flags(open[i], false)
    ensures var m := prev[ids[|ids| - 1] := Flags(open[|ids| - 1], false)];
      && m.Keys == SetOf(ids)
      && forall i :: 0 <= i < |ids| ==> m[ids[i]] == Flags(open[i], false)
  {
    var n := |ids| - 1;
    assert ids == ids[..n] + [ids[n]];
  }

  lemma ItemMapKeepsOneOpen(ids: seq<string>, open: seq<bool>)
    requires |open| == |ids| && Distinct(ids)
    requires AtMostOneTrue(open)
    ensures AtMostOneOpen(ItemMap(ids, open)) && Settled(ItemMap(ids, open))
  {
    var m := ItemMap(ids, open);
    forall a, b | a in m && b in m && m[a].isOpen && m[b].isOpen ensures a == b {
      var i :| 0 <= i < |ids| && ids[i] == a;
      var j :| 0 <= j < |ids| && ids[j] == b;
    }
    forall k | k in m ensures !m[k].animating {
      var i :| 0 <= i < |ids| && ids[i] == k;
    }
  }

  /**
   * `buildAccordions` followed by the initial `handleHashNavigation` of
   * `init`, for items with the given base ids, against the document's ids.
   */
  function Build(setting: InitialSetting, bases: seq<string>, multiple: bool, updateUrl: bool,
                 taken: set<string>, fragment: string): (t: Instance)
    ensures t.items.Keys == SetOf(AssignIds(bases, taken))
    ensures t.multiple == multiple && t.fragment == fragment && !t.suppress
  {
    var ids := AssignIds(bases, taken);
    assert Distinct(ids);
    HashNavigation(Instance(ItemMap(ids, InitialFlags(setting, bases, multiple, taken)),
                            multiple, updateUrl, fragment, false))
  }

  /** In single mode a freshly built instance has at most one open item. */
  lemma BuildKeepsOneOpen(setting: InitialSetting, bases: seq<string>, updateUrl: bool,
                          taken: set<string>, fragment: string)
    ensures AtMostOneOpen(Build(setting, bases, false, updateUrl, taken, fragment).items)
  {
    var ids := AssignIds(bases, taken);
    var flags := InitialFlags(setting, bases, false, taken);
    OpenFlagsMeaning(ids, Candidates(setting, bases, false, taken), false);
    ItemMapKeepsOneOpen(ids, flags);
    HashNavigationKeepsOneOpen(Instance(ItemMap(ids, flags), false, updateUrl, fragment, false));
  }

  /** The same build with the intended initial-open resolution. */
  function BuildIntended(setting: InitialSetting, bases: seq<string>, multiple: bool, updateUrl: bool,
                         taken: set<string>, fragment: string): (t: Instance)
    ensures t.items.Keys == SetOf(AssignIds(bases, taken))
    ensures t.multiple == multiple && t.fragment == fragment && !t.suppress
  {
    var ids := AssignIds(bases, taken);
    assert Distinct(ids);
    HashNavigation(Instance(ItemMap(ids, IntendedFlags(setting, bases, multiple, taken)),
                            multiple, updateUrl, fragment, false))
  }

  /**
   * With `initialOpen: n` and no fragment, item `n` is the one open item,
   * whatever the titles.
   */
  lemma BuildIntendedOpensItem(bases: seq<string>, multiple: bool, updateUrl: bool,
                               taken: set<string>, n: int)
    requires 1 <= n <= |bases|
    ensures var t := BuildIntended(Number(n), bases, multiple, updateUrl, taken, "");
      var ids := AssignIds(bases, taken);
      forall i :: 0 <= i < |ids| ==> (t.items[ids[i]].isOpen <==> i == n - 1)
  {
    IntendedPositionOpensThatItem(bases, taken, multiple, n);
  }
}
