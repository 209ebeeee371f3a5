/**
 * The decision rules of the toolbar's bulk-select dropdown and sort-options
 * menu: how the item store's selection turns into the checkbox's tri-state
 * and label, which store command each user pick sends, and which comparator
 * a sort-menu selection hands to the store.
 *
 * The item store, dropdown store and option store are not modelled: their
 * published values are the inputs here and the commands are the outputs.
 */
module Toolbar {
  import opened Wrappers
  import opened Decimal
  import opened Types

  // ------------------------------------------------------ bulk select

  /**
   * The checkbox state for `selectedCount` selected out of `itemCount` items.
   * An empty selection is tested first, so it is `Off` even when the item
   * list is empty too.
   */
  function TriStateOf(selectedCount: nat, itemCount: nat): (t: TriState)
    ensures t == Off <==> selectedCount == 0
    ensures t == On <==> selectedCount != 0 && selectedCount == itemCount
    ensures t == Indeterminate <==> selectedCount != 0 && selectedCount != itemCount
  {
    if selectedCount == 0 then Off
    else if selectedCount == itemCount then On
    else Indeterminate
  }

  /**
   * Read over sets of item identities: when the selection is a subset of the
   * items, the checkbox is on exactly when every item is selected (and there
   * is at least one), and off exactly when nothing is.
   */
  lemma TriStateOfSelection<I>(selected: set<I>, items: set<I>)
    requires selected <= items
    ensures TriStateOf(|selected|, |items|) == On <==> selected == items && items != {}
    ensures TriStateOf(|selected|, |items|) == Off <==> selected == {}
  {
    if |selected| == |items| {
      var rest := items - selected;
      assert items == selected + rest;
      assert |items| == |selected| + |rest|;
    }
  }

  /**
   * The text shown next to the checkbox: nothing for zero, else "<n> selected"
   * with `n` written as a canonical numeral (see `NumeralIsIntToString`: the
   * label is the only one whose prefix is a numeral reading as the count).
   */
  function SelectedLabel(count: int): (s: string)
    ensures s == "" <==> count == 0
    ensures count != 0 ==>
      |s| > 9 && s[|s| - 9..] == " selected"
      && IsNumeral(s[..|s| - 9]) && ParseInt(s[..|s| - 9]) == Some(count)
  {
    if count == 0 then ""
    else
      ParseIntToString(count);
      var s := IntToString(count) + " selected";
      assert s[..|s| - 9] == IntToString(count);
      s
  }

  /** Different counts give different labels. */
  lemma SelectedLabelInjective(a: int, b: int)
    requires SelectedLabel(a) == SelectedLabel(b)
    ensures a == b
  {
  }

  /** The commands the bulk-select control sends to the item store. */
  datatype Command = SelectNone | SelectVisible | SelectAll

  /** One change of the checkbox: the two filtered handlers, in order. */
  function CheckboxCommands(checked: bool): (cmds: seq<Command>)
    ensures |cmds| == 1
    ensures checked ==> cmds[0] == SelectAll
    ensures !checked ==> cmds[0] == SelectNone
  {
    (if !checked then [SelectNone] else []) + (if checked then [SelectAll] else [])
  }

  /** The entries of the bulk-select dropdown. */
  datatype PreSelection = PickNone | PickVisible | PickAll {
    function Text(): string {
      match this
      case PickNone => "Select none"
      case PickVisible => "Select visible"
      case PickAll => "Select all"
    }
  }

  /** The dropdown lists every pre-selection, in declaration order. */
  const PreSelectionMenu: seq<PreSelection> := [PickNone, PickVisible, PickAll]

  /** One click on a dropdown entry: the three filtered handlers, in order. */
  function PickCommands(p: PreSelection): (cmds: seq<Command>)
    ensures |cmds| == 1
    ensures p == PickNone <==> cmds[0] == SelectNone
    ensures p == PickVisible <==> cmds[0] == SelectVisible
    ensures p == PickAll <==> cmds[0] == SelectAll
  {
    (if p == PickNone then [SelectNone] else [])
    + (if p == PickVisible then [SelectVisible] else [])
    + (if p == PickAll then [SelectAll] else [])
  }

  /**
   * The dropdown shows three distinct entries, each with its own text, and
   * every command is sent by exactly one of them.
   */
  lemma PreSelectionMenuDispatch()
    ensures |PreSelectionMenu| == 3
    ensures forall i, j :: 0 <= i < j < 3 ==>
      PreSelectionMenu[i].Text() != PreSelectionMenu[j].Text()
      && PickCommands(PreSelectionMenu[i]) != PickCommands(PreSelectionMenu[j])
    ensures forall c: Command :: exists i :: 0 <= i < 3 && PickCommands(PreSelectionMenu[i]) == [c]
  {
    forall c: Command ensures exists i :: 0 <= i < 3 && PickCommands(PreSelectionMenu[i]) == [c] {
      match c
      case SelectNone => assert PickCommands(PreSelectionMenu[0]) == [c];
      case SelectVisible => assert PickCommands(PreSelectionMenu[1]) == [c];
      case SelectAll => assert PickCommands(PreSelectionMenu[2]) == [c];
    }
  }

  // ------------------------------------------------------ sort options

  /** A comparator as Kotlin's `compare`: negative, zero or positive. */
  type Comparator<!T> = (T, T) -> int

  /** `Comparator.reversed()`: the same comparison with the arguments swapped. */
  function Reversed<T>(c: Comparator<T>): Comparator<T> {
    (a, b) => c(b, a)
  }

  /** An entry of the sort menu: a property to sort by, or a direction. */
  datatype SortOption<!T> = SortProperty(name: string, comparator: Comparator<T>) | SortOrder(ascending: bool) {
    function Text(): string {
      match this
      case SortProperty(name, _) => name
      case SortOrder(ascending) => if ascending then "Ascending" else "Descending"
    }
  }

  predicate IsProperty<T>(o: SortOption<T>) { o.SortProperty? }

  predicate IsOrder<T>(o: SortOption<T>) { o.SortOrder? }

  /** `i` is the position of the first element of `s` that satisfies `p`. */
  ghost predicate FirstAt<X>(s: seq<X>, p: X -> bool, i: int) {
    0 <= i < |s| && p(s[i]) && forall j :: 0 <= j < i ==> !p(s[j])
  }

  /** The position of the first element satisfying `p` (`filter { p }.first`). */
  function IndexOfFirst<X>(s: seq<X>, p: X -> bool): (r: Option<nat>)
    ensures r.Some? ==> FirstAt(s, p, r.value)
    ensures r.None? ==> forall j :: 0 <= j < |s| ==> !p(s[j])
  {
    if s == [] then None
    else if p(s[0]) then Some(0)
    else match IndexOfFirst(s[1..], p)
      case None => None
      case Some(k) => Some(k + 1)
  }

  /** `first()` on a list with no `SortOrder` throws. */
  datatype SortError = NoSuchElement

  /**
   * What one selection of the sort menu sends to the item store: the first
   * chosen property's comparator, reversed when the first chosen direction is
   * descending; nothing (`None`, dropped by `filterNotNull`) when no property
   * is chosen; an error when no direction is chosen, whether or not a
   * property is.
   */
  function ResolveSort<T>(selection: seq<SortOption<T>>): (r: Result<Option<Comparator<T>>, SortError>)
    ensures r.Failure? <==> forall k :: 0 <= k < |selection| ==> !IsOrder(selection[k])
    ensures r.Success? ==> (r.value.None? <==> forall i :: 0 <= i < |selection| ==> !IsProperty(selection[i]))
    ensures forall i, k :: FirstAt(selection, IsProperty, i) && FirstAt(selection, IsOrder, k) ==>
      r == Success(Some(if selection[k].ascending then selection[i].comparator
                        else Reversed(selection[i].comparator)))
  {
    var property := IndexOfFirst(selection, IsProperty);
    var order := IndexOfFirst(selection, IsOrder);
    match order
    case None => Failure(NoSuchElement)
    case Some(k) =>
      match property
      case None => Success(None)
      case Some(i) =>
        var c := selection[i].comparator;
        Success(Some(if selection[k].ascending then c else Reversed(c)))
  }

  /** The sort menu: one entry per option in the order given, then both directions. */
  function SortMenu<T>(options: seq<(string, Comparator<T>)>): (menu: seq<SortOption<T>>)
    ensures |menu| == |options| + 2
    ensures forall i :: 0 <= i < |options| ==>
      IsProperty(menu[i]) && menu[i].name == options[i].0 && menu[i].comparator == options[i].1
    ensures menu[|options|] == SortOrder(true) && menu[|options| + 1] == SortOrder(false)
  {
    seq(|options|, i requires 0 <= i < |options| => SortProperty(options[i].0, options[i].1))
      + [SortOrder(true), SortOrder(false)]
  }

  /** Ascending is selected when the menu is built. */
  function InitialSortSelection<T>(): seq<SortOption<T>> {
    [SortOrder(true)]
  }

  /**
   * The initial selection sends nothing; once a property is chosen beside it,
   * that property's comparator is sent unchanged. The two directions read
   * "Ascending" and "Descending".
   */
  lemma InitialSortSelectionResolves<T>(name: string, c: Comparator<T>)
    ensures ResolveSort(InitialSortSelection<T>()) == Success(None)
    ensures ResolveSort([SortProperty(name, c)] + InitialSortSelection<T>()) == Success(Some(c))
    ensures ResolveSort(InitialSortSelection<T>() + [SortProperty(name, c)]) == Success(Some(c))
    ensures SortOption<T>.SortOrder(true).Text() == "Ascending"
    ensures SortOption<T>.SortOrder(false).Text() == "Descending"
  {
  }

  /**
   * Flipping the chosen direction, with the same property chosen, sends the
   * reverse comparator: every pair compares the other way round.
   */
  lemma FlippedOrderReverses<T>(selection: seq<SortOption<T>>, k: nat)
    requires FirstAt(selection, IsOrder, k)
    requires exists i :: 0 <= i < |selection| && IsProperty(selection[i])
    ensures
      var flipped := selection[k := SortOrder(!selection[k].ascending)];
      ResolveSort(selection).Success? && ResolveSort(selection).value.Some?
      && ResolveSort(flipped).Success? && ResolveSort(flipped).value.Some?
      && forall a, b :: ResolveSort(flipped).value.value(a, b) == ResolveSort(selection).value.value(b, a)
  {
    var flipped := selection[k := SortOrder(!selection[k].ascending)];
    var i := IndexOfFirst(selection, IsProperty).value;
    assert forall j :: 0 <= j < |selection| ==>
      (IsProperty(flipped[j]) <==> IsProperty(selection[j])) && (IsOrder(flipped[j]) <==> IsOrder(selection[j]));
    assert FirstAt(flipped, IsProperty, i);
    assert FirstAt(flipped, IsOrder, k);
  }
}
