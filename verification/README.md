# Accordion plugin core, modelled in Dafny

This project models the decision-making core of the Squarespace accordion
plugin `wm-accordions.js`. Each piece is a module:

- **Text**: the JavaScript string primitives the plugin relies on, over `seq<char>`:
  - ASCII `toLowerCase`;
  - `trim` with the full ECMAScript whitespace set;
  - `split` on a string separator, with its inverse `join`;
  - the decimal rendering of a counter.
- **Slug**: `turnStringIntoId`. The ids already in the document are an explicit `set<string>`.
  1. The title is lower-cased.
  2. Runs of characters outside `[a-z0-9-]` collapse to one `-`.
  3. Leading and trailing dashes are stripped.
  4. A `-1`, `-2`, … suffix is added until the id is free.
- **Items**: the item list `init` builds.
  - In collection mode, `accordionLimit` cuts the fetched list.
  - In button mode, each button's `data-target` is split into selectors. A button without one falls back to the next section.
- **InitialOpen**: which items `buildAccordions` opens initially, in two stages:
  - the candidate-id set from `initialOpen`;
  - the item-by-item pass with its "first match only" rule in single-open mode.
- **Machine**: the per-item flags `isOpen` and `isItemAnimating`, and the events that drive them:
  - `_performOpen` and `_performClose`;
  - the `transitionend` listener;
  - `openAccordion` (a toggle);
  - `handleHashNavigation`, with the `_programmaticHashChangeInProgress` suppression flag.

  The page's `location.hash` is kept as a fragment string. Clicks, transition ends, fragment changes and `hashchange` runs are events, and runs of events are folded over an instance.
- **Presentation**: the divider placement rule, and the unquoting of the `--wm-accordion-subtext` custom property.
- **Settings**: the `__`-separated nested-key insertion of `instanceSettings`. The attribute parser is a function parameter.

Where the code's behaviour is easy to misread, the model follows what the code does:

- A title with no kept character gets the empty id `""` (then `-1`, `-2`, …). No fallback token is used.
- `initialOpen: ""` is a string other than `"all"` and `"first"`, so it is taken as the literal id `""`. It does not give the empty set.
- `initialOpen: n` is meant as the 1-based number of an item (line 396), but the code looks up the slug of title n computed before any item exists; see "## Findings".
- Single-open exclusivity holds only while no other open item is animating. A close request to an animating item is dropped. `Machine.RaceLeavesTwoOpen` shows two items left open.
- A negative numeric `accordionLimit` goes through `Array.prototype.slice`, which drops that many items from the end.
- A `data-target` made only of blanks and commas selects nothing and does not fall back to the next section.

## Model

| member | source | states |
|---|---|---|
| Text.ToLower | wm-accordions.js:560 | `toLowerCase` keeps the length and maps each character independently (ASCII letters only) |
| Text.Strip | wm-accordions.js:101 | the trimmed text is an infix of the input, with only trimmed characters on either side and none at either of its own ends |
| Text.Split | wm-accordions.js:99-100 | `split` with a string separator: joining the parts with the separator gives back the input, no part contains the separator, and each separator removed is the leftmost occurrence (none starts inside the part before it) |
| Text.SplitUnique | wm-accordions.js:99-100 | for a one-character separator, the split is the only separator-free list of parts that joins back to the input |
| Text.SplitConcat | wm-accordions.js:99-100 | splitting `a + "," + b` gives the parts of `a` followed by the parts of `b` |
| Text.NatToString | wm-accordions.js:570 | the counter is rendered as a run of decimal digits that denotes it, with no leading zero, one digit exactly for counters below 10 |
| Text.NatToStringInjective | wm-accordions.js:570 | distinct counters give distinct texts |
| Slug.Collapse | wm-accordions.js:561 | the `/[^a-z0-9-]+/g` replacement yields only `[a-z0-9-]` characters and never lengthens the text |
| Slug.CollapseKeepsSlugText | wm-accordions.js:561 | text made only of kept characters is left unchanged |
| Slug.CollapseOfRun | wm-accordions.js:561 | a maximal run of other characters becomes exactly one `-` |
| Slug.CollapseAppend | wm-accordions.js:561 | the replacement of a concatenation is the replacement of the first part followed by that of the second, continued from where the first left off |
| Slug.CollapseConcat | wm-accordions.js:561 | cutting the input anywhere except inside a run cuts the output at the same place, so the replacement works run by run |
| Slug.BaseId | wm-accordions.js:559-562 | the base id holds only `a-z`, `0-9`, `-` and has no leading or trailing `-` |
| Slug.BaseIdIdempotent | wm-accordions.js:559-562 | a base id is its own base id |
| Slug.SuffixedInjective | wm-accordions.js:570 | distinct counters give distinct candidates `base-k` |
| Slug.TriedSize | wm-accordions.js:563-572 | the base and `base-1` .. `base-k` are k + 1 distinct candidates, so the loop ends within the number of ids in the document |
| Slug.NextFree | wm-accordions.js:566-572 | the `while` loop returns a candidate that no element carries |
| Slug.NextFreeIsLeast | wm-accordions.js:566-572 | that candidate is `base-m` for the least counter m whose candidate is free |
| Slug.UniqueId | wm-accordions.js:563-573 | the id is never in the document, and it is the base itself when the base is free |
| Slug.UniqueIdIsLeast | wm-accordions.js:563-573 | when the base is taken, the id is `base-m` with the base and every `base-j`, j < m, taken |
| Slug.UniqueIdKeepsSlugText | wm-accordions.js:563-573 | suffixing keeps the id within `[a-z0-9-]` |
| Slug.AssignId | wm-accordions.js:558-574 | `turnStringIntoId` returns an id within `[a-z0-9-]` that no element of the document carries |
| Slug.SymbolOnlyTitle | wm-accordions.js:559-573 | a title with no kept character has base `""`, and its id is `""` when that is free and `-m` otherwise: no fallback token |
| Slug.TwoIntros | wm-accordions.js:558-574 | two items titled "Intro" get "intro" and then "intro-1" |
| Items.ApplyLimit | wm-accordions.js:82-86 | the kept items are a prefix of the fetched ones: `min(limit, n)` of them for a non-negative number, all of them for a non-number, and `n + limit` (at least 0) for a negative number |
| Items.ApplyLimitIdempotent | wm-accordions.js:82-86 | applying a non-negative limit twice keeps the same items |
| Items.TrimNonEmpty | wm-accordions.js:101-102 | after trimming and filtering, every selector is non-empty and already trimmed |
| Items.SplitTargets | wm-accordions.js:99-102 | every selector of a `data-target` is non-empty, trimmed and free of commas |
| Items.SplitTargetsConcat | wm-accordions.js:99-102 | the selectors of `a,b` are those of `a` followed by those of `b` |
| Items.SplitTargetsSingle | wm-accordions.js:99-102 | a comma-free `data-target` names its trimmed text, or nothing when that is blank |
| Items.PlanFor | wm-accordions.js:97-119 | a button falls back to the next section exactly when its `data-target` is missing or empty; otherwise its selectors are the split ones |
| Items.BlankTargetsSelectNothing | wm-accordions.js:97-111 | a non-empty `data-target` of blanks and commas selects nothing and does not fall back |
| Items.Normalise | wm-accordions.js:76-131 | a non-empty `data-source` gives the limited collection items; otherwise the buttons, one item each; with neither, the instance stays inert |
| Items.NormaliseTitles | wm-accordions.js:82-95 | in collection mode the titles are the first `min(limit, n)` fetched titles in order; in button mode there is one item per button; both for any non-negative numeric limit (the other limits are covered by `Items.Normalise` and `Items.ApplyLimit`) |
| InitialOpen.AssignIds | wm-accordions.js:419-421 | the items' ids are pairwise distinct and none was in the document before |
| InitialOpen.AssignIdsPrefix | wm-accordions.js:419-421 | building a prefix of the items gives a prefix of the ids |
| InitialOpen.AssignIdsStep | wm-accordions.js:419-421 | item i's id is its base made unique against the document's ids plus those of items 0..i-1 |
| InitialOpen.Candidates | wm-accordions.js:371-415 | the candidate set: empty for `false`, `null`, numbers up to 0 and numbers past the end; the literal for other strings; `{slug of title n}` for a position n in range; `{slug of the first title}` for "first" and for "all" in single mode (empty with no titles); every title's slug for "all" in multiple mode, and nothing else; at most one candidate unless "all" in multiple mode |
| InitialOpen.CandidateOfPosition | wm-accordions.js:395-405 | `initialOpen: n` gives exactly `turnStringIntoId` of title n, run against the document before the build |
| InitialOpen.CandidateOfFirst | wm-accordions.js:381-394 | "first", and "all" in single mode, give exactly `turnStringIntoId` of the first title |
| InitialOpen.CandidatesOfAll | wm-accordions.js:375-380 | "all" in multiple mode gives `turnStringIntoId` of every title and nothing else |
| InitialOpen.OpenFlagsFrom | wm-accordions.js:520-539 | in multiple mode an item opens iff its id is a candidate; in single mode iff it is also the first candidate in list order |
| InitialOpen.OpenFlagsMeaning | wm-accordions.js:517-540 | an item starts open iff its id is a candidate (and, in single mode, no earlier id is), so in single mode at most one item starts open |
| InitialOpen.DuplicateTitlesOpenWrongItem | wm-accordions.js:395-405 | as written, two "Intro" items with `initialOpen: 2` open item 1 and leave item 2 closed |
| InitialOpen.DuplicateTitlesAllLeavesCopyClosed | wm-accordions.js:375-380 | as written, "all" in multiple mode leaves the second "Intro" closed |
| InitialOpen.InitialFlags | wm-accordions.js:371-540 | as written: an item starts open iff the id it receives is among the slugs computed from base ids and, in single mode, no earlier item's id is; so in single mode at most one starts open |
| InitialOpen.IntendedFlags | wm-accordions.js:371-540 | corrected: the same rule with candidates named by the ids the items actually receive; at most one starts open in single mode |
| InitialOpen.IntendedCandidates | wm-accordions.js:371-415 | the corrected candidate set names items by the ids they actually receive |
| InitialOpen.IntendedPositionOpensThatItem | wm-accordions.js:395-405 | corrected: `initialOpen: n` opens exactly item n, whatever the titles |
| InitialOpen.IntendedAllOpensEveryItem | wm-accordions.js:375-380 | corrected: "all" in multiple mode opens every item |
| InitialOpen.IntendedFirstOpensFirstItem | wm-accordions.js:381-394 | "first", and "all" in single mode, open exactly the first item |
| InitialOpen.AssignIdsOfDistinctBases | wm-accordions.js:566-572 | when the bases are free and pairwise distinct, no item is suffixed |
| InitialOpen.CandidatesOfFreeBases | wm-accordions.js:371-415 | with free bases, the slugs computed up front equal the bases |
| InitialOpen.AsWrittenAgreesWhenBasesDistinct | wm-accordions.js:371-415 | the code as written opens exactly the intended items unless two titles share a base or a base is already taken |
| Machine.PerformOpen | wm-accordions.js:220-243 | `_performOpen` does nothing to an open or animating item; otherwise the item becomes open and animating |
| Machine.PerformClose | wm-accordions.js:245-267 | `_performClose` does nothing to a closed or animating item; otherwise the item becomes closed and animating |
| Machine.TransitionEnd | wm-accordions.js:237-242 | the end of the transition only clears the animating flag |
| Machine.PerformIdempotent | wm-accordions.js:220-267 | a repeated open or close request changes nothing |
| Machine.OpenCloseRoundTrip | wm-accordions.js:220-267 | open, settle, close and settle brings a settled closed item back; a close request during the opening animation is dropped |
| Machine.HashString | wm-accordions.js:347 | `location.hash` is empty exactly when the fragment is, and is `#` and the fragment otherwise |
| Machine.CloseOthers | wm-accordions.js:297-330 | every other item is asked to close and the target is left alone |
| Machine.Click | wm-accordions.js:270-351 | `openAccordion`: nothing for an unknown or animating id; an open target is closed alone; a closed target opens, after the others are asked to close in single mode; the hash is written and the flag raised exactly when URL updates are on and the hash is not `#id` |
| Machine.WritesHashMeaning | wm-accordions.js:344-350 | the hash is written iff the fragment is not already the id, or the id is empty |
| Machine.ClickIdempotent | wm-accordions.js:270-279 | a second click straight after the first changes nothing, because the target is animating |
| Machine.HashNavigation | wm-accordions.js:654-705 | a raised flag is lowered and nothing else changes; an empty or unknown fragment changes nothing; otherwise the named item is opened, after the others are asked to close in single mode; the hash is never written and the flag is never raised |
| Machine.ClickThenHashChange | wm-accordions.js:344-350 | the `hashchange` caused by a click's own hash write only lowers the flag: no feedback loop |
| Machine.ClickKeepsOneOpen | wm-accordions.js:297-343 | in single mode, a click on an instance with at most one open item and no open item mid-transition leaves at most one open (closed items may still be closing) |
| Machine.HashNavigationKeepsOneOpen | wm-accordions.js:666-702 | the same for hash navigation: with no open item mid-transition, at most one item stays open |
| Machine.NavigationOpensOnlyTarget | wm-accordions.js:660-702 | in single mode, navigating to an item's fragment on a settled instance leaves exactly that item open |
| Machine.RaceLeavesTwoOpen | wm-accordions.js:297-330 | clicking a second item while the first is still opening leaves both open |
| Machine.Step | wm-accordions.js:270-351 | no event adds or removes an item or changes the mode |
| Machine.Run | wm-accordions.js:194-203 | a run of events keeps the item set and the mode |
| Machine.StepKeepsOneOpen | wm-accordions.js:297-343 | each event keeps single-mode exclusivity when clicks and unsuppressed hash navigations come while no open item is mid-transition; a suppressed `hashchange` may come at any time |
| Machine.RunKeepsOneOpen | wm-accordions.js:297-343 | in single mode at most one item is open after any run in which every click and unsuppressed hash navigation comes while no open item is mid-transition; closing transitions may still be running |
| Machine.UrlSyncClickIsPaced | wm-accordions.js:344-350 | the run click, its own `hashchange`, transition end (URL updates on) meets that condition, so exclusivity covers it |
| Machine.CloseThenOpenIsPaced | wm-accordions.js:297-330 | clicking the open item and then a closed one at once, while the first is still closing, meets that condition and ends with only the second open |
| Machine.ClickOpensAlone | wm-accordions.js:297-343 | with no other item open and URL updates off, a click on a settled closed item changes that item only |
| Machine.ToggleRoundTrip | wm-accordions.js:270-351 | with URL updates off and no other item open, click, transition end, click, transition end on a settled closed item returns the instance to where it started |
| Machine.ItemMap | wm-accordions.js:524-537 | the built items carry their ids and initial open flags, none animating |
| Machine.ItemMapKeepsOneOpen | wm-accordions.js:517-540 | items built from at most one open flag are settled and have at most one open item |
| Machine.Build | wm-accordions.js:417-540 | the built instance holds one entry per assigned id, with the flag lowered and the page's fragment |
| Machine.BuildKeepsOneOpen | wm-accordions.js:517-540 | in single mode a freshly built instance has at most one open item, including after the initial hash navigation |
| Machine.BuildIntended | wm-accordions.js:371-415 | the build with the corrected initial-open resolution has the same items |
| Machine.BuildIntendedOpensItem | wm-accordions.js:395-405 | with the corrected resolution, `initialOpen: n` and no fragment leave item n the one open item |
| Presentation.DividersFor | wm-accordions.js:504-516 | a bottom divider goes on every item but the last, and on the last when `dividersShowLast`; a top divider goes on the first item when `dividersShowFirst` (lines 430-437); none when disabled |
| Presentation.DividerCount | wm-accordions.js:504-516 | a list of n items gets n - 1 dividers between items, plus the optional first and last ones |
| Presentation.JsSubstringSlice | wm-accordions.js:597-600 | `substring` with ordered indices inside the text is the slice between them |
| Presentation.JsSubstringSwaps | wm-accordions.js:597-600 | `substring(i, j)` equals `substring(j, i)` |
| Presentation.JsSubstringClamps | wm-accordions.js:597-600 | an index below 0 acts as 0 and one past the end as the length |
| Presentation.SubtextOverride | wm-accordions.js:585-603 | a value that trims to nothing leaves the subtext alone; an unquoted value is used trimmed; a quoted one loses its surrounding pair of quotes |
| Presentation.SubtextUnquotes | wm-accordions.js:589-600 | any text between matching quotes, blanks inside the quotes included, comes back out unchanged |
| Presentation.SubtextEmptyQuotes | wm-accordions.js:589-602 | an empty pair of quotes empties the subtext |
| Presentation.SubtextLoneQuote | wm-accordions.js:589-600 | a lone quote starts and ends the value, and `substring(1, 0)` returns the quote itself |
| Presentation.SubtextMismatchedQuotes | wm-accordions.js:590-595 | any text between two different quote characters is kept with its quotes |
| Settings.ChildOrEmpty | wm-accordions.js:734 | `current[key] \|\| {}` is always truthy: an object already in the field is reused as is, a truthy primitive is returned (and then throws), and a missing or falsy field gives a fresh `{}` |
| Settings.SetPath | wm-accordions.js:726-737 | a successful write adds the path's first key and leaves every other top-level key alone; a one-segment path is a plain assignment |
| Settings.SetPathFrame | wm-accordions.js:726-737 | a successful write leaves every path that branches off its own unchanged, including siblings nested under a shared prefix |
| Settings.SiblingsKept | wm-accordions.js:734 | after `a__b` then `a__c`, both values are stored under `a` |
| Settings.SetPathFailsIff | wm-accordions.js:726-737 | the write throws exactly when a truthy primitive lies on the path before its last segment |
| Settings.SetThenGet | wm-accordions.js:726-737 | a successful write is read back at its path |
| Settings.SetTwice | wm-accordions.js:739-741 | writing the same path twice keeps the second value |
| Settings.KeyPath | wm-accordions.js:727 | the segments join back to the attribute name with `__`, none contains `__`, and each `__` is taken at its leftmost position |
| Settings.TripleUnderscore | wm-accordions.js:727 | `a___b` splits into `a` and `_b` |
| Settings.InstanceSettings | wm-accordions.js:739-742 | no attributes give an empty settings object |
| Settings.PlainNameStored | wm-accordions.js:727-733 | a name without `__` is stored under itself and never throws |
| Settings.NamesMeaning | wm-accordions.js:739 | a name is among the attribute names iff some attribute carries it |
| Settings.PlainStep | wm-accordions.js:739-741 | one more attribute with a plain name is stored under that name |
| Settings.PlainAttributes | wm-accordions.js:739-742 | with plain names the settings never throw, and hold exactly one key per attribute name |
| Settings.PlainAttributeValues | wm-accordions.js:739-742 | each name holds the parsed value of the last attribute with that name |
| Settings.NestedUnderTruthyThrows | wm-accordions.js:726-737 | `breakpoints__767__navigationType` throws after a truthy primitive `breakpoints` and nests after a falsy one |

## Left out

- DOM construction: elements, classes, ARIA attributes and icons are presentation. Items are ids and flags.
- Animation details are left out: `maxHeight` values, `requestAnimationFrame`, `scrollIntoView` and `setTimeout`. Only the `transitionend` event is an event in the model.
- Whether and when the browser fires `hashchange` after a hash write is not modelled. It is an external event (`HashChange`) in the run.
- The fragment is one string, `""` for both "no fragment" and "empty fragment". The browser's null/empty distinction is not modelled.
- The collection fetch, `deepMerge`, `parseAttr` and the other foreign initialisers are not modelled: their code is not part of this model. Fetched items and parsed values are parameters.
- `handleDOMReady`, the resize listener and `setIsFullWidth` are left out. They are I/O and floating-point geometry.
- The edit-mode observer and the recursive-instance guard are left out. They tear down or refuse construction and take no decision the model describes.
- Text.ToLower: only ASCII letters are lower-cased. Two non-ASCII characters lower-case to ASCII letters in JavaScript and are not mapped here: the Kelvin sign U+212A (to `k`) and U+0130 (to `i` plus a combining dot, so "İstanbul" gets the id `i-stanbul` in the browser but `stanbul` in the model). Other non-ASCII characters fall outside `[a-z0-9-]` either way.
- Titles that are not strings are left out. So are non-integer `initialOpen` or `accordionLimit` numbers, and `NaN`.
- Ids and fragments are matched literally. Inside the `[data-accordion-id="…"]` selector, CSS escapes and quotes in a hash are not interpreted. A hash holding `"` would make `querySelector` throw.
- The elements a `data-target` selector matches are not computed. Only the selector list is.
- The `desktopNavigationType` and `mobileNavigationType` aliases of `instanceSettings` (lines 716-723) are left out, as is a `__proto__` segment.
- Settings.ChildOrEmpty: a settings object is a plain map. `current[key] || {}` (line 734) also reads inherited properties such as `constructor` or `toString`, which are truthy functions, so a segment with such a name does not start from an empty object in JavaScript. The model treats every key absent from the map as missing.
- Nested accordions are not modelled. The `querySelectorAll` and `querySelector` calls at lines 298, 662 and 669 also match the items of an accordion nested inside relocated content, so an outer instance can close or open the inner one's items. Each instance here owns only its own items.
- Items.PlanFor: every button without a `data-target` pushes the same `nextElementSibling` (lines 113-115). When several such buttons share that section, it is moved into each item in turn (lines 490-495) and ends up only in the last one. The model records the fallback per button and does not track where the section finally lands.
- Settings.InstanceSettings: its own contract covers only the empty list. Its behaviour is stated by the lemmas about plain names and by `SetPath`.

## Findings

| source | as written | input that shows it | evidently intended | confidence | as-written member | corrected member |
|---|---|---|---|---|---|---|
| wm-accordions.js:371-415 | the candidate slugs for `initialOpen` are computed before any item of the instance exists, while each item's own id is computed after the earlier items were inserted | two items titled "Intro" with `initialOpen: 2`: the candidate is "intro", which is item 1's id (item 2 is "intro-1"), so item 1 opens and item 2 stays closed; with "all" in multiple mode item 2 also stays closed | a position or "all" names the items by the ids they actually receive, so item n (or every item) opens | not executed | InitialOpen.DuplicateTitlesOpenWrongItem | InitialOpen.IntendedPositionOpensThatItem |
