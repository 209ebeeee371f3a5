/**
 * The selection rules of the navigation component: which link is the
 * current page for a route, whether an expandable group contains the
 * current page, and the expanded/collapsed state each group keeps for
 * itself. The router is not modelled: the route is an input and a click on
 * a link yields the navigation command sent to it.
 */
module Navigation {
  import opened Wrappers
  import opened Types

  /** Decides whether `item` is the current page for `route`. */
  type Selected<!T> = (T, T) -> bool

  /** The navigation-level settings the rules read. */
  datatype Navigation<!T> = Navigation(selected: Selected<T>, orientation: Orientation, tertiary: bool)

  /** The default navigation-level rule: a link is current when its item is the route. */
  function DefaultSelected<T(==)>(): Selected<T> {
    (route, item) => route == item
  }

  function HorizontalNavigation<T>(selected: Selected<T>, tertiary: bool): Navigation<T> {
    Navigation(selected, Horizontal, tertiary)
  }

  function VerticalNavigation<T>(selected: Selected<T>): Navigation<T> {
    Navigation(selected, Vertical, false)
  }

  // ------------------------------------------------------ attributes of the navigation bar

  /** The children of the navigation bar around the content the caller builds. */
  datatype Part<C> = ScrollButton(ariaLabel: string, disabled: bool) | Content(content: C)

  /** The `aria-label` of the bar: "Global" unless the navigation is tertiary. */
  function AriaLabel<T>(nav: Navigation<T>): Option<string> {
    if !nav.tertiary then Some("Global") else None
  }

  /**
   * The bar's children: the content, framed by a disabled "Scroll left"
   * button before and a disabled "Scroll right" button after when the bar is
   * horizontal.
   */
  function Layout<T, C>(nav: Navigation<T>, content: seq<C>): (parts: seq<Part<C>>)
    ensures nav.orientation == Vertical ==> |parts| == |content|
    ensures nav.orientation == Horizontal ==>
      |parts| == |content| + 2
      && parts[0] == ScrollButton("Scroll left", true)
      && parts[|parts| - 1] == ScrollButton("Scroll right", true)
    ensures var offset := if nav.orientation == Horizontal then 1 else 0;
      forall i :: 0 <= i < |content| ==> parts[offset + i] == Content(content[i])
    ensures forall i :: 0 <= i < |parts| && parts[i].ScrollButton? ==> parts[i].disabled
  {
    var body := seq(|content|, i requires 0 <= i < |content| => Content(content[i]));
    if nav.orientation == Horizontal then
      [ScrollButton("Scroll left", true)] + body + [ScrollButton("Scroll right", true)]
    else
      body
  }

  /** A vertical bar is never tertiary, so it is always labelled "Global" and has no scroll buttons. */
  lemma VerticalNavigationAttributes<T, C>(selected: Selected<T>, content: seq<C>)
    ensures !VerticalNavigation(selected).tertiary
    ensures AriaLabel(VerticalNavigation(selected)) == Some("Global")
    ensures forall i :: 0 <= i < |Layout(VerticalNavigation(selected), content)| ==>
      Layout(VerticalNavigation(selected), content)[i].Content?
  {
  }

  /**
   * A horizontal bar is labelled "Global" exactly when it is not tertiary,
   * and its only scroll buttons are the first and the last child.
   */
  lemma HorizontalNavigationAttributes<T, C>(selected: Selected<T>, tertiary: bool, content: seq<C>)
    ensures AriaLabel(HorizontalNavigation(selected, tertiary)) == if tertiary then None else Some("Global")
    ensures var parts := Layout(HorizontalNavigation(selected, tertiary), content);
      forall i :: 0 <= i < |parts| ==> (parts[i].ScrollButton? <==> i == 0 || i == |parts| - 1)
  {
  }

  /** With its defaults (equality, not tertiary) a horizontal bar is labelled "Global". */
  lemma DefaultHorizontalNavigation<T>()
    ensures HorizontalNavigation(DefaultSelected<T>(), false).selected == DefaultSelected<T>()
    ensures AriaLabel(HorizontalNavigation(DefaultSelected<T>(), false)) == Some("Global")
  {
  }

  // ------------------------------------------------------ links and groups

  /**
   * The entries of a navigation list: a link to `item`, optionally with its
   * own rule deciding for which routes it is current, or an expandable group
   * holding further entries.
   */
  datatype Entry<!T> =
    | Link(item: T, selected: Option<T -> bool>)
    | Expandable(text: string, entries: seq<Entry<T>>)

  /**
   * Whether a link to `item` is current for `route`: its own rule when it has
   * one, otherwise the navigation's rule applied to (route, item).
   */
  function CalculateSelection<T>(nav: Navigation<T>, item: T, own: Option<T -> bool>, route: T): bool {
    match own
    case Some(p) => p(route)
    case None => nav.selected(route, item)
  }

  /** What a link shows for a route: the "current" modifier and its `aria-current` value. */
  datatype LinkState = LinkState(current: bool, ariaCurrent: string)

  /** The modifier and the ARIA attribute are computed from one decision and never disagree. */
  function LinkStateFor<T>(nav: Navigation<T>, item: T, own: Option<T -> bool>, route: T): (s: LinkState)
    ensures s.current == CalculateSelection(nav, item, own, route)
    ensures s.current <==> s.ariaCurrent == "page"
    ensures !s.current <==> s.ariaCurrent == ""
  {
    var current := CalculateSelection(nav, item, own, route);
    LinkState(current, if current then "page" else "")
  }

  /** The command a click on a link sends to the router. */
  datatype RouterCommand<T> = NavTo(route: T)

  function Click<T>(item: T): RouterCommand<T> {
    NavTo(item)
  }

  /**
   * A link's own rule overrides the navigation's rule; without one, under
   * the default rule exactly the links to the route are current, so the
   * link just clicked becomes current once the router moves to its target.
   */
  lemma SelectionRules<T>(nav: Navigation<T>, other: Navigation<T>, item: T, p: T -> bool, route: T)
    ensures CalculateSelection(nav, item, Some(p), route) == CalculateSelection(other, item, Some(p), route) == p(route)
    ensures nav.selected == DefaultSelected() ==> (CalculateSelection(nav, item, None, route) <==> item == route)
    ensures nav.selected == DefaultSelected() ==> CalculateSelection(nav, item, None, Click(item).route)
  {
  }

  /** `l` is a link that is current for `route`. */
  predicate IsCurrentLink<T>(nav: Navigation<T>, route: T, l: Entry<T>) {
    l.Link? && CalculateSelection(nav, l.item, l.selected, route)
  }

  /** Some link at any depth of `entries` is current for `route`. */
  predicate ContainsCurrent<T>(nav: Navigation<T>, route: T, entries: seq<Entry<T>>)
    decreases entries
  {
    exists i :: 0 <= i < |entries| && EntryContainsCurrent(nav, route, entries[i])
  }

  predicate EntryContainsCurrent<T>(nav: Navigation<T>, route: T, e: Entry<T>)
    decreases e
  {
    match e
    case Link(item, own) => CalculateSelection(nav, item, own, route)
    case Expandable(_, entries) => ContainsCurrent(nav, route, entries)
  }

  /** Every link at any depth of `entries`, in document order. */
  function Links<T>(entries: seq<Entry<T>>): seq<Entry<T>>
    decreases entries
  {
    if entries == [] then []
    else EntryLinks(entries[0]) + Links(entries[1..])
  }

  function EntryLinks<T>(e: Entry<T>): (links: seq<Entry<T>>)
    decreases e
  {
    match e
    case Link(_, _) => [e]
    case Expandable(_, entries) => Links(entries)
  }

  /**
   * A group's "current" flag against its reference definition: some entry
   * contains a current link exactly when one of the flattened links is
   * current.
   */
  lemma {:induction false} ContainsCurrentIffSomeLink<T>(nav: Navigation<T>, route: T, entries: seq<Entry<T>>)
    ensures (forall l :: l in Links(entries) ==> l.Link?)
    ensures ContainsCurrent(nav, route, entries) <==>
      exists l :: l in Links(entries) && IsCurrentLink(nav, route, l)
    decreases entries
  {
    if entries != [] {
      EntryContainsCurrentIffSomeLink(nav, route, entries[0]);
      ContainsCurrentIffSomeLink(nav, route, entries[1..]);
      assert ContainsCurrent(nav, route, entries) <==>
        EntryContainsCurrent(nav, route, entries[0]) || ContainsCurrent(nav, route, entries[1..]) by {
        if ContainsCurrent(nav, route, entries[1..]) {
          var i :| 0 <= i < |entries[1..]| && EntryContainsCurrent(nav, route, entries[1..][i]);
          assert EntryContainsCurrent(nav, route, entries[i + 1]);
        }
        if ContainsCurrent(nav, route, entries) {
          var i :| 0 <= i < |entries| && EntryContainsCurrent(nav, route, entries[i]);
          if i > 0 {
            assert EntryContainsCurrent(nav, route, entries[1..][i - 1]);
          }
        }
      }
    }
  }

  lemma {:induction false} EntryContainsCurrentIffSomeLink<T>(nav: Navigation<T>, route: T, e: Entry<T>)
    ensures (forall l :: l in EntryLinks(e) ==> l.Link?)
    ensures EntryContainsCurrent(nav, route, e) <==>
      exists l :: l in EntryLinks(e) && IsCurrentLink(nav, route, l)
    decreases e
  {
    match e
    case Link(_, _) =>
      assert e in EntryLinks(e);
    case Expandable(_, entries) =>
      ContainsCurrentIffSomeLink(nav, route, entries);
  }

  /** `g` is an expandable group at any depth of `entries`. */
  ghost predicate NestedGroup<T>(g: Entry<T>, entries: seq<Entry<T>>)
    decreases entries
  {
    exists i :: 0 <= i < |entries| && NestedGroupOfEntry(g, entries[i])
  }

  ghost predicate NestedGroupOfEntry<T>(g: Entry<T>, e: Entry<T>)
    decreases e
  {
    match e
    case Link(_, _) => false
    case Expandable(_, entries) => e == g || NestedGroup(g, entries)
  }

  /** A current group nested at any depth makes every enclosing group current. */
  lemma {:induction false} NestedCurrentGroup<T>(nav: Navigation<T>, route: T, g: Entry<T>, entries: seq<Entry<T>>)
    requires g.Expandable? && NestedGroup(g, entries)
    requires ContainsCurrent(nav, route, g.entries)
    ensures ContainsCurrent(nav, route, entries)
    decreases entries
  {
    var i :| 0 <= i < |entries| && NestedGroupOfEntry(g, entries[i]);
    NestedCurrentGroupOfEntry(nav, route, g, entries[i]);
  }

  lemma {:induction false} NestedCurrentGroupOfEntry<T>(nav: Navigation<T>, route: T, g: Entry<T>, e: Entry<T>)
    requires g.Expandable? && NestedGroupOfEntry(g, e)
    requires ContainsCurrent(nav, route, g.entries)
    ensures EntryContainsCurrent(nav, route, e)
    decreases e
  {
    match e
    case Expandable(_, entries) =>
      if e != g {
        NestedCurrentGroup(nav, route, g, entries);
      }
  }

  // ------------------------------------------------------ expandable group state

  /** What an expandable group shows for its state. */
  datatype GroupView = GroupView(expandedClass: bool, ariaExpanded: string, subnavHidden: bool, currentClass: bool)

  /**
   * One expandable group of the navigation `nav`. It owns its `expanded` flag (a
   * click on its link toggles it) and carries the "current" modifier, which
   * is recomputed from its entries whenever the route changes.
   */
  class ExpandableGroup<!T> {
    const nav: Navigation<T>
    const text: string
    const entries: seq<Entry<T>>
    var expanded: bool
    var current: bool

    /** A new group is collapsed and not current. */
    constructor(nav: Navigation<T>, text: string, entries: seq<Entry<T>>)
      ensures this.nav == nav && this.text == text && this.entries == entries
      ensures !expanded && !current
    {
      this.nav := nav;
      this.text := text;
      this.entries := entries;
      expanded := false;
      current := false;
    }

    /** A click on the group's link. */
    method Toggle()
      modifies this`expanded
      ensures expanded == !old(expanded)
    {
      expanded := !expanded;
    }

    /** The route changed: the group is current iff it contains a current link. */
    method RouteChanged(route: T)
      modifies this`current
      ensures current == ContainsCurrent(nav, route, entries)
      ensures current <==> exists l :: l in Links(entries) && IsCurrentLink(nav, route, l)
    {
      ContainsCurrentIffSomeLink(nav, route, entries);
      current := ContainsCurrent(nav, route, entries);
    }

    /**
     * The attributes bound to the flags: the "expanded" modifier mirrors
     * `expanded`, `aria-expanded` is its text, and the sub-navigation is
     * hidden exactly when the group is collapsed.
     */
    function View(): (v: GroupView)
      reads this
      ensures v.expandedClass == expanded && v.currentClass == current
      ensures v.subnavHidden <==> !v.expandedClass
      ensures v.ariaExpanded == "true" <==> v.expandedClass
      ensures v.ariaExpanded == "false" <==> v.subnavHidden
    {
      GroupView(expanded, if expanded then "true" else "false", !expanded, current)
    }
  }

  /** A click on one group's link toggles that group and no other. */
  method ClickGroup<T>(groups: set<ExpandableGroup<T>>, g: ExpandableGroup<T>)
    requires g in groups
    modifies g
    ensures g.expanded == !old(g.expanded)
    ensures forall h :: h in groups && h != g ==> h.expanded == old(h.expanded)
    ensures forall h :: h in groups ==> h.current == old(h.current)
  {
    g.Toggle();
  }

  /** Two clicks on the same group restore its flag. */
  method ClickTwice<T>(g: ExpandableGroup<T>)
    modifies g
    ensures g.expanded == old(g.expanded) && g.current == old(g.current)
  {
    g.Toggle();
    g.Toggle();
  }
}
