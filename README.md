# patternfly-fritz2: selection, sort, navigation and badge rules

This project models, in Dafny, the decision rules of the PatternFly
components for fritz2 that turn reactive values into what the page shows or
into the command a widget sends:

- **Toolbar** (`toolbar.dfy`): the bulk-select dropdown's tri-state checkbox
  (`TriState` off / indeterminate / on from the selected count and the item
  count), its "N selected" label, the store command sent for a checkbox change
  and for each `PreSelection` entry, and the sort-options menu, whose
  selection resolves to the first chosen property's comparator, reversed for
  a descending order.
- **Navigation** (`navigation.dfy`): the per-link "is current" rule (a link's
  own predicate overrides the navigation's, which defaults to equality), the
  `aria-current`/modifier pair derived from it, the navigation tree as a
  recursive `Entry` datatype, the expandable group's "current" flag (some
  link at any depth is current), and each group as a class `ExpandableGroup`
  with its own `expanded` flag, a `Toggle` method and the `hidden` /
  `aria-expanded` / modifier view derived from it. Orientation and tertiary
  flags fix the `aria-label` and the disabled scroll buttons.
- **Badge** (`badge.dfy`): the count text (clamped below at `min`, `"<max>+"`
  above `max`), the suppression of repeated texts (`distinctUntilChanged`),
  and the read/unread modifier pair.

Shared pieces: `types.dfy` (the `TriState` and `Orientation` enumerations),
`decimal.dfy` (Kotlin's `Int.toString()` and a parser that reads it back),
`wrappers.dfy` (`Option`, `Result`).

The item store, dropdown store, option store and router are not part of
this model: their published values (counts, the selection list, the route)
are inputs, and their commands (`selectNone`, `selectVisible`, `selectAll`,
`sortWith`, `navTo`) are outputs. The expanded store of an expandable group
is modelled as the group's `expanded` field, with its `toggle` taken to
negate it. A comparator is a function
`(T, T) -> int`; `reversed()` swaps its arguments.

## Model

| member | source | states |
|---|---|---|
| `Toolbar.TriStateOf` | src/jsMain/kotlin/org/patternfly/Toolbar.kt:139-145 | Off iff nothing is selected (even with no items); On iff the selection is non-empty and as large as the item list; Indeterminate otherwise; the three are exhaustive and exclusive |
| `Toolbar.TriStateOfSelection` | src/jsMain/kotlin/org/patternfly/Toolbar.kt:139-145 | for a selection that is a subset of the items: On iff every item is selected and there is one, Off iff the selection is empty |
| `Toolbar.SelectedLabel` | src/jsMain/kotlin/org/patternfly/Toolbar.kt:135-137 | the label is empty iff the count is 0; otherwise it ends in " selected" and the part before is a canonical numeral (no leading zero) reading back as the count, which by `Decimal.NumeralIsIntToString` makes it the only such label |
| `Toolbar.SelectedLabelInjective` | src/jsMain/kotlin/org/patternfly/Toolbar.kt:135-137 | different counts never give the same label |
| `Toolbar.CheckboxCommands` | src/jsMain/kotlin/org/patternfly/Toolbar.kt:146-147 | one checkbox change sends exactly one command: selectAll when checked, selectNone when unchecked |
| `Toolbar.PickCommands` | src/jsMain/kotlin/org/patternfly/Toolbar.kt:152-154 | one pick sends exactly one command; NONE, VISIBLE, ALL send selectNone, selectVisible, selectAll, and only they do |
| `Toolbar.PreSelectionMenuDispatch` | src/jsMain/kotlin/org/patternfly/Toolbar.kt:125-158 | the dropdown lists the three pre-selections in declaration order with distinct texts and distinct commands, and every command is sent by one of them |
| `Toolbar.IndexOfFirst` | src/jsMain/kotlin/org/patternfly/Toolbar.kt:188-189 | finds the position of the first element of the wanted kind, or reports that there is none |
| `Toolbar.ResolveSort` | src/jsMain/kotlin/org/patternfly/Toolbar.kt:186-191 | an error iff the selection holds no SortOrder; nothing emitted iff it holds no SortProperty; otherwise the first property's comparator, unchanged for an ascending first order and reversed for a descending one |
| `Toolbar.SortMenu` | src/jsMain/kotlin/org/patternfly/Toolbar.kt:174-185 | the menu lists one property per option in order, then Ascending and Descending |
| `Toolbar.InitialSortSelectionResolves` | src/jsMain/kotlin/org/patternfly/Toolbar.kt:162-191 | the preselected Ascending alone emits nothing; with one property chosen beside it, that property's comparator is emitted unchanged; the order texts are "Ascending" and "Descending" |
| `Toolbar.Reversed` | src/jsMain/kotlin/org/patternfly/Toolbar.kt:190 | `comparator.reversed()`, the comparison with its arguments swapped; no contract of its own, its effect on the emitted comparator is stated by `Toolbar.FlippedOrderReverses` |
| `Toolbar.FlippedOrderReverses` | src/jsMain/kotlin/org/patternfly/Toolbar.kt:189-190 | flipping the chosen direction with the same property chosen emits a comparator that compares every pair the other way round |
| `Navigation.DefaultSelected` | src/main/kotlin/org/patternfly/Navigation.kt:31 | the default navigation rule, route == item (also line 41); no contract of its own, stated by `Navigation.SelectionRules` |
| `Navigation.HorizontalNavigation` | src/main/kotlin/org/patternfly/Navigation.kt:29-37 | a horizontal navigation with the caller's rule and tertiary flag; no contract of its own, its attributes are stated by `Navigation.HorizontalNavigationAttributes` |
| `Navigation.VerticalNavigation` | src/main/kotlin/org/patternfly/Navigation.kt:39-57 | a vertical navigation, always passed tertiary = false; no contract of its own, stated by `Navigation.VerticalNavigationAttributes` |
| `Navigation.AriaLabel` | src/main/kotlin/org/patternfly/Navigation.kt:136-138 | "Global" unless tertiary; no contract of its own, stated by the two attribute lemmas |
| `Navigation.HorizontalNavigationAttributes` | src/main/kotlin/org/patternfly/Navigation.kt:136-154 | a horizontal bar is labelled "Global" iff it is not tertiary, and its only scroll buttons are its first and last children |
| `Navigation.DefaultHorizontalNavigation` | src/main/kotlin/org/patternfly/Navigation.kt:29-37 | with its defaults (the equality rule, tertiary = false) a horizontal navigation is labelled "Global" |
| `Navigation.Layout` | src/main/kotlin/org/patternfly/Navigation.kt:139-154 | a horizontal bar puts one disabled "Scroll left" button before the content and one disabled "Scroll right" button after it; a vertical bar shows the content alone |
| `Navigation.VerticalNavigationAttributes` | src/main/kotlin/org/patternfly/Navigation.kt:39-57 | a vertical navigation is never tertiary, so it is labelled "Global", and has no scroll buttons |
| `Navigation.CalculateSelection` | src/main/kotlin/org/patternfly/Navigation.kt:278-280 | the link's own predicate applied to the route when given, otherwise the navigation's predicate applied to (route, item); no contract of its own, stated by `Navigation.SelectionRules` |
| `Navigation.Click` | src/main/kotlin/org/patternfly/Navigation.kt:266 | a click on a link sends navTo with exactly that link's item; no contract of its own, stated by `Navigation.SelectionRules` |
| `Navigation.LinkStateFor` | src/main/kotlin/org/patternfly/Navigation.kt:267-273 | the link's "current" modifier is set iff its aria-current is "page", and aria-current is "" otherwise; both come from the selection rule |
| `Navigation.SelectionRules` | src/main/kotlin/org/patternfly/Navigation.kt:278-280 | a link's own predicate decides regardless of the navigation's; without one, under the default rule (line 31, 41) exactly the links to the route are current, so a clicked link (line 266) is current at its target |
| `Navigation.ContainsCurrent` | src/main/kotlin/org/patternfly/Navigation.kt:210-212 | some entry contains a current link (the group's "current" test); no contract of its own, stated against the flattened links by `Navigation.ContainsCurrentIffSomeLink` |
| `Navigation.EntryContainsCurrent` | src/main/kotlin/org/patternfly/Navigation.kt:210-212 | a link is current itself, a group through its entries; stated by `Navigation.EntryContainsCurrentIffSomeLink` |
| `Navigation.ContainsCurrentIffSomeLink` | src/main/kotlin/org/patternfly/Navigation.kt:207-213 | a group's entries contain a current link iff one of their links, flattened at any depth, is current |
| `Navigation.EntryContainsCurrentIffSomeLink` | src/main/kotlin/org/patternfly/Navigation.kt:207-213 | the same for one entry: a link is current itself, a group through its flattened links |
| `Navigation.NestedCurrentGroup` | src/main/kotlin/org/patternfly/Navigation.kt:207-213 | a current group nested at any depth makes the enclosing entries contain a current link |
| `Navigation.NestedCurrentGroupOfEntry` | src/main/kotlin/org/patternfly/Navigation.kt:207-213 | a current group nested in an entry makes that entry contain a current link |
| `Navigation.ExpandableGroup.constructor` | src/main/kotlin/org/patternfly/Navigation.kt:180-198 | a new group keeps its navigation, text and entries, starts collapsed and not current |
| `Navigation.ExpandableGroup.Toggle` | src/main/kotlin/org/patternfly/Navigation.kt:218 | a click on the group's link flips `expanded` and changes nothing else |
| `Navigation.ExpandableGroup.RouteChanged` | src/main/kotlin/org/patternfly/Navigation.kt:207-213 | after a route change the group is current iff some link below it at any depth is current for the route, under the navigation fixed when the group was built (lines 181, 208) |
| `Navigation.ExpandableGroup.View` | src/main/kotlin/org/patternfly/Navigation.kt:203-229 | the "expanded" modifier mirrors the flag, `aria-expanded` is "true"/"false" with it, and the subnav is hidden iff the group is collapsed |
| `Navigation.ClickGroup` | src/main/kotlin/org/patternfly/Navigation.kt:198-218 | each group owns its flag: a click on one group flips it and leaves every other group's flags unchanged |
| `Navigation.ClickTwice` | src/main/kotlin/org/patternfly/Navigation.kt:218 | two clicks on a group restore its flag |
| `Badge.Lower` | src/jsMain/kotlin/org/patternfly/Badge.kt:39 | `max(n, min)`: at least n and at least min, and equal to one of them |
| `Badge.BadgeText` | src/jsMain/kotlin/org/patternfly/Badge.kt:38-41 | "<max>+" above max, else the numeral of max(n, min); no contract of its own, stated by `Badge.BadgeTextMeaning` and the lemmas below it |
| `Badge.BadgeTextMeaning` | src/jsMain/kotlin/org/patternfly/Badge.kt:37-40 | the text reads back as "over max" with the number max iff max(n, min) > max, however large n is; otherwise as the number max(n, min), which lies between min and max |
| `Badge.BadgeTextInRange` | src/jsMain/kotlin/org/patternfly/Badge.kt:39-40 | for min ≤ n ≤ max the text is exactly the numeral of n |
| `Badge.BadgeTextDependsOnClamped` | src/jsMain/kotlin/org/patternfly/Badge.kt:39-40 | all counts up to min show the same text; two counts show the same text iff they clamp to the same number or both exceed max |
| `Badge.DefaultBadgeTexts` | src/jsMain/kotlin/org/patternfly/Badge.kt:18 | with the defaults min = 0 and max = 999, 1000 shows "999+", -5 shows "0" and 999 shows "999" |
| `Badge.DistinctAfter` | src/jsMain/kotlin/org/patternfly/Badge.kt:42 | the output has no two equal neighbours, never starts with the value passed on before, is no longer than the input and holds only input values; that it is exactly the input with runs collapsed is `Badge.DistinctAfterIsCollapseRuns` |
| `Badge.CollapseRuns` | src/jsMain/kotlin/org/patternfly/Badge.kt:42 | reference definition: the input, in order, keeping each element that differs from the one before it; no contract of its own |
| `Badge.DistinctAfterAppend` | src/jsMain/kotlin/org/patternfly/Badge.kt:42 | the operation streams: the output for s followed by t is the output for s, then the output for t after the last value of s |
| `Badge.DistinctAfterIsCollapseRuns` | src/jsMain/kotlin/org/patternfly/Badge.kt:42 | the output equals the reference definition: the input with runs of equal neighbours collapsed, in order |
| `Badge.DistinctUntilChanged` | src/jsMain/kotlin/org/patternfly/Badge.kt:42 | the result is the input with runs collapsed and has no two equal neighbours |
| `Badge.DistinctUntilChangedIdempotent` | src/jsMain/kotlin/org/patternfly/Badge.kt:42 | applying it twice gives what applying it once gives |
| `Badge.DistinctAfterKeepsValues` | src/jsMain/kotlin/org/patternfly/Badge.kt:42 | every input value other than the one passed on before reaches the output |
| `Badge.DistinctUntilChangedOfNoRepeats` | src/jsMain/kotlin/org/patternfly/Badge.kt:42 | an input without repeats passes through unchanged |
| `Badge.DistinctAfterNoRepeats` | src/jsMain/kotlin/org/patternfly/Badge.kt:42 | the same, after a value different from the first input |
| `Badge.DistinctAfterRun` | src/jsMain/kotlin/org/patternfly/Badge.kt:42 | a run of the value just passed on passes nothing on |
| `Badge.BadgeTexts` | src/jsMain/kotlin/org/patternfly/Badge.kt:37-44 | the shown texts are the text of each count, in order, with runs of equal texts collapsed; so no text twice in a row, and the same set of texts the counts map to |
| `Badge.BadgeTextsAtOrBelowMin` | src/jsMain/kotlin/org/patternfly/Badge.kt:38-42 | a non-empty stream of counts that all stay at or below min shows one text, that of min |
| `Badge.ReadClassMap` | src/jsMain/kotlin/org/patternfly/Badge.kt:26-35 | exactly one of the read/unread modifiers is on, read following the flag |
| `Badge.NewBadgeIsRead` | src/jsMain/kotlin/org/patternfly/Badge.kt:27 | a new badge shows the read modifier and not the unread one |
| `Decimal.IntToString` | src/jsMain/kotlin/org/patternfly/Badge.kt:40 | the result is a canonical numeral (a '-' then digits not starting with 0, or digits with no leading zero), ends in a digit and starts with '-' iff the number is negative |
| `Decimal.ParseIntToString` | src/jsMain/kotlin/org/patternfly/Badge.kt:40 | reading back the numeral of any integer gives that integer |
| `Decimal.NumeralIsIntToString` | src/jsMain/kotlin/org/patternfly/Badge.kt:40 | every canonical numeral is what `IntToString` writes for the value it reads as, so numerals and integers correspond one to one |

## Left out

- The item, dropdown and option stores and the router are not part of this model: no paging, no select-visible semantics, no pruning of the selection, no sorting. Only their inputs and the commands sent to them are modelled.
- `Navigation.ExpandableGroup.Toggle`: the expanded store's `toggle` handler is not visible; it is taken to negate the group's flag, and `Navigation.ClickGroup` and `Navigation.ClickTwice` rest on that.
- `Navigation.ExpandableGroup.constructor`: the expanded store's initial value is not visible; the group is taken to start collapsed.
- `Navigation.ExpandableGroup.RouteChanged`: the settle delay (`delay(UI_TIMEOUT)`) and the coroutine plumbing are left out; "current" is recomputed synchronously from the entry tree, and a DOM query for a current link is replaced by the recursive predicate over the tree.
- `Toolbar.ResolveSort`: which selections the option store allows is not modelled, so any list of options is accepted; a thrown `NoSuchElementException` becomes a `Failure`, and what it does to the collecting coroutine is not modelled.
- `Toolbar.CheckboxCommands`, `Toolbar.PickCommands`: modelled per event; the interleaving of the separate filtered handler flows over a stream of events is not.
- `Badge.BadgeTexts`: `distinctUntilChanged` compares the text nodes, taken to be equal when their texts are; the fritz2 `TextNode` class is not part of this model.
- Kotlin's 32-bit `Int` is modelled as an unbounded integer; the rules do no arithmetic, so no wrap-around arises.
- DOM construction, CSS class names (`component()`, `modifier()`, `classes {}`), the titled `NavigationGroup` section, ARIA wiring other than the attributes above, and the `markAs` check of `window.localStorage`.
- The sort comparators themselves: a comparator is an opaque function; only the choose/reverse decision is modelled.
- Build configuration.
