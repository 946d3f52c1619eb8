/**
 * The sidebar's navigation logic: which section the current page belongs
 * to, the navigation filtered to that section and its category order, the
 * collapsed categories and items the user toggles, and the expansion of the
 * ancestors of the current page.
 */
module Sidebar {
  import opened Wrappers
  import opened Strings
  import opened Seqs
  import opened Sorting
  import opened Navigation

  /** The navigation as the page receives it: categories in key order, each with its forest. */
  type Nav = seq<(string, seq<NavNode>)>

  // --------------------------------------------------------------- section

  datatype Section = Financial | Framework | Insurance

  function SectionName(s: Section): string {
    match s
    case Financial => "financial"
    case Framework => "framework"
    case Insurance => "insurance"
  }

  /** `getCurrentSection`: the first `/docs/<section>` prefix of the path, `framework` by default. */
  function CurrentSection(pathname: string): (s: Section)
    ensures s == Financial <==> StartsWith(pathname, "/docs/financial")
    ensures s == Insurance <==> StartsWith(pathname, "/docs/insurance")
    ensures s == Framework <==> !StartsWith(pathname, "/docs/financial") && !StartsWith(pathname, "/docs/insurance")
  {
    if StartsWith(pathname, "/docs/financial") then Financial
    else if StartsWith(pathname, "/docs/framework") then Framework
    else if StartsWith(pathname, "/docs/insurance") then Insurance
    else Framework
  }

  // ------------------------------------------------------------- filtering

  /** A top-level item belongs to a section when its slug starts with `<section>/`. */
  predicate InSection(section: Section, n: NavNode) {
    StartsWith(n.slug, SectionName(section) + "/")
  }

  function SectionFilter(section: Section): NavNode -> bool {
    (n: NavNode) => InSection(section, n)
  }

  /** `getFilteredNavigation`: each category's section items, categories left empty dropped. */
  function FilteredNavigation(nav: Nav, section: Section): (r: Nav)
    ensures |r| <= |nav|
    ensures forall k :: 0 <= k < |r| ==> r[k].1 != []
  {
    if nav == [] then []
    else
      var items := Filter(nav[0].1, SectionFilter(section));
      (if items != [] then [(nav[0].0, items)] else []) + FilteredNavigation(nav[1..], section)
  }

  /**
   * A category is kept, with exactly its items of the section, when it has
   * any; the items kept are the original nodes, children and all.
   */
  lemma {:induction false} FilteredNavigationMembers(nav: Nav, section: Section, c: string, items: seq<NavNode>)
    ensures (c, items) in FilteredNavigation(nav, section) <==>
      exists k :: 0 <= k < |nav| && nav[k].0 == c && items == Filter(nav[k].1, SectionFilter(section)) && items != []
  {
    if nav != [] {
      FilteredNavigationMembers(nav[1..], section, c, items);
      var f := Filter(nav[0].1, SectionFilter(section));
      if (c, items) in FilteredNavigation(nav[1..], section) {
        var k :| 0 <= k < |nav[1..]| && nav[1..][k].0 == c && items == Filter(nav[1..][k].1, SectionFilter(section)) && items != [];
        assert nav[k + 1] == nav[1..][k];
      }
      if exists k :: 0 <= k < |nav| && nav[k].0 == c && items == Filter(nav[k].1, SectionFilter(section)) && items != [] {
        var k :| 0 <= k < |nav| && nav[k].0 == c && items == Filter(nav[k].1, SectionFilter(section)) && items != [];
        if k > 0 {
          assert nav[1..][k - 1] == nav[k];
        }
      }
    }
  }

  /** Every item shown is a node of the original category that lies in the section. */
  lemma FilteredItemsInSection(nav: Nav, section: Section, c: string, items: seq<NavNode>, n: NavNode)
    requires (c, items) in FilteredNavigation(nav, section) && n in items
    ensures InSection(section, n)
    ensures exists k :: 0 <= k < |nav| && nav[k].0 == c && n in nav[k].1
  {
    FilteredNavigationMembers(nav, section, c, items);
    var k :| 0 <= k < |nav| && nav[k].0 == c && items == Filter(nav[k].1, SectionFilter(section)) && items != [];
    FilterMembership(nav[k].1, SectionFilter(section), n);
  }

  // ------------------------------------------------------- category order

  function Keys(nav: Nav): (ks: seq<string>)
    ensures |ks| == |nav|
    ensures forall k :: 0 <= k < |nav| ==> ks[k] == nav[k].0
  {
    seq(|nav|, k requires 0 <= k < |nav| => nav[k].0)
  }

  /** A main category's name contains the section's name, ignoring case. */
  predicate IsMain(section: Section, category: string) {
    Contains(Lower(category), Lower(SectionName(section)))
  }

  /** The comparator: main categories first, then string order. */
  predicate CategoryLe(section: Section, a: string, b: string) {
    if IsMain(section, a) != IsMain(section, b) then IsMain(section, a) else StrLe(a, b)
  }

  function CategoryOrder(section: Section): (string, string) -> bool {
    (a: string, b: string) => CategoryLe(section, a, b)
  }

  lemma CategoryOrderTotalPreorder(section: Section)
    ensures TotalPreorder(CategoryOrder(section))
  {
    var le := CategoryOrder(section);
    forall a, b ensures le(a, b) || le(b, a) {
      StrLeTotal(a, b);
    }
    forall a, b, c | le(a, b) && le(b, c) ensures le(a, c) {
      if IsMain(section, a) == IsMain(section, b) == IsMain(section, c) {
        StrLeTransitive(a, b, c);
      }
    }
  }

  /** `sortedCategories`: the filtered categories in the comparator's stable order. */
  function SortedCategories(nav: Nav, section: Section): seq<string> {
    SortBy(Keys(FilteredNavigation(nav, section)), CategoryOrder(section))
  }

  /**
   * The sorted list holds the filtered categories, the main ones before all
   * others, and each group in string order.
   */
  lemma SortedCategoriesOrder(nav: Nav, section: Section)
    ensures var ks := Keys(FilteredNavigation(nav, section));
      var r := SortedCategories(nav, section);
      && multiset(r) == multiset(ks)
      && forall i, j :: 0 <= i < j < |r| ==>
        (IsMain(section, r[j]) ==> IsMain(section, r[i]))
        && (IsMain(section, r[i]) == IsMain(section, r[j]) ==> StrLe(r[i], r[j]))
  {
    var ks := Keys(FilteredNavigation(nav, section));
    CategoryOrderTotalPreorder(section);
    SortBySorted(ks, CategoryOrder(section));
    SortByMultiset(ks, CategoryOrder(section));
  }

  // ---------------------------------------------------------------- forests

  /** Every node of a forest, each before its children and its children before its next sibling. */
  function Preorder(ns: seq<NavNode>): seq<NavNode>
    decreases ns
  {
    if ns == [] then [] else [ns[0]] + Preorder(ns[0].children) + Preorder(ns[1..])
  }

  /** The slugs `collectSlugs` gathers: those of the nodes with children, at any depth. */
  function Branches(ns: seq<NavNode>): set<string>
    decreases ns
  {
    if ns == [] then {}
    else (if ns[0].children != [] then {ns[0].slug} + Branches(ns[0].children) else {}) + Branches(ns[1..])
  }

  /** A slug is gathered exactly when some node of the forest with children carries it. */
  lemma {:induction false} BranchesIff(ns: seq<NavNode>, s: string)
    ensures s in Branches(ns) <==> exists m :: m in Preorder(ns) && m.children != [] && m.slug == s
    decreases ns
  {
    if ns != [] {
      BranchesIff(ns[0].children, s);
      BranchesIff(ns[1..], s);
      assert Preorder(ns) == [ns[0]] + Preorder(ns[0].children) + Preorder(ns[1..]);
      if exists m :: m in Preorder(ns) && m.children != [] && m.slug == s {
        var m :| m in Preorder(ns) && m.children != [] && m.slug == s;
        if m != ns[0] && m !in Preorder(ns[1..]) {
          assert m in Preorder(ns[0].children);
        }
      }
    }
  }

  /** The gathering loop of `collectSlugs` and `deepCollect`: adds the branch slugs of `items` to `acc`. */
  method CollectSlugs(items: seq<NavNode>, acc: set<string>) returns (next: set<string>)
    ensures next == acc + Branches(items)
    decreases items
  {
    next := acc;
    var i := 0;
    while i < |items|
      invariant i <= |items|
      invariant next + Branches(items[i..]) == acc + Branches(items)
    {
      assert items[i..][1..] == items[i + 1..];
      var item := items[i];
      if item.children != [] {
        next := next + {item.slug};
        next := CollectSlugs(item.children, next);
      }
      i := i + 1;
    }
    assert items[i..] == [];
  }

  /** The branch slugs of every category. */
  function AllBranches(nav: Nav): set<string> {
    if nav == [] then {} else AllBranches(nav[..|nav| - 1]) + Branches(nav[|nav| - 1].1)
  }

  /** A slug is collapsed by `collapseAll` exactly when it is a branch slug of some category. */
  lemma {:induction false} AllBranchesIff(nav: Nav, s: string)
    ensures s in AllBranches(nav) <==> exists k :: 0 <= k < |nav| && CategoryBranch(nav[k], s)
  {
    if nav != [] {
      var init := nav[..|nav| - 1];
      AllBranchesIff(init, s);
      if exists k :: 0 <= k < |init| && CategoryBranch(init[k], s) {
        var k :| 0 <= k < |init| && CategoryBranch(init[k], s);
        assert nav[k] == init[k];
      }
      if exists k :: 0 <= k < |nav| && CategoryBranch(nav[k], s) {
        var k :| 0 <= k < |nav| && CategoryBranch(nav[k], s);
        if k < |init| {
          assert init[k] == nav[k];
        }
      }
    }
  }

  /** The slug is a branch slug of the category's forest. */
  predicate CategoryBranch(entry: (string, seq<NavNode>), s: string) {
    s in Branches(entry.1)
  }

  /** The categories of a navigation, as a set. */
  function KeySet(nav: Nav): (ks: set<string>)
    ensures forall c :: c in ks <==> c in Keys(nav)
  {
    set k | 0 <= k < |nav| :: nav[k].0
  }

  /** `filteredNavigation[category] ?? []`. */
  function CategoryItems(nav: Nav, category: string): (items: seq<NavNode>)
    ensures items != [] ==> exists k :: 0 <= k < |nav| && nav[k] == (category, items)
  {
    if nav == [] then []
    else if nav[0].0 == category then nav[0].1
    else
      var rest := CategoryItems(nav[1..], category);
      assert rest != [] ==> exists k :: 0 <= k < |nav[1..]| && nav[1..][k] == (category, rest);
      if rest != [] then
        var k :| 0 <= k < |nav[1..]| && nav[1..][k] == (category, rest);
        assert nav[k + 1] == (category, rest);
        rest
      else rest
  }

  // ------------------------------------------------------------ auto-expand

  /** `pathname.replace(/^\/docs\//, '')`. */
  function PageSlug(pathname: string): (slug: string)
    ensures StartsWith(pathname, "/docs/") ==> pathname == "/docs/" + slug
    ensures !StartsWith(pathname, "/docs/") ==> slug == pathname
  {
    if StartsWith(pathname, "/docs/") then pathname[6..] else pathname
  }

  /**
   * `findInItems`: searching the forest in pre-order for `slug`, the slugs of
   * the proper ancestors of the first node found, outermost first.
   */
  function FindIn(ns: seq<NavNode>, slug: string): Option<seq<string>>
    decreases ns
  {
    if ns == [] then None
    else if ns[0].slug == slug then Some([])
    else match FindIn(ns[0].children, slug)
      case Some(p) => Some([ns[0].slug] + p)
      case None => FindIn(ns[1..], slug)
  }

  /** Some node of the forest, at any depth, has the slug. */
  ghost predicate HoldsSlug(ns: seq<NavNode>, slug: string) {
    exists m :: m in Preorder(ns) && m.slug == slug
  }

  /**
   * The search succeeds exactly when a node of the forest has the slug, and
   * what it expands are nodes with children other than the one found.
   */
  lemma {:induction false} FindInSpec(ns: seq<NavNode>, slug: string)
    ensures FindIn(ns, slug).Some? <==> HoldsSlug(ns, slug)
    ensures FindIn(ns, slug).Some? ==> slug !in FindIn(ns, slug).value
    ensures FindIn(ns, slug).Some? ==> forall s :: s in FindIn(ns, slug).value ==> s in Branches(ns)
    decreases ns
  {
    if ns != [] {
      FindInSpec(ns[0].children, slug);
      FindInSpec(ns[1..], slug);
      assert Preorder(ns) == [ns[0]] + Preorder(ns[0].children) + Preorder(ns[1..]);
      if exists m :: m in Preorder(ns) && m.slug == slug {
        var m :| m in Preorder(ns) && m.slug == slug;
        if m != ns[0] && m !in Preorder(ns[1..]) {
          assert m in Preorder(ns[0].children);
        }
      }
      if ns[0].slug != slug && FindIn(ns[0].children, slug).Some? {
        assert ns[0].children != [];
      }
    }
  }

  /**
   * `path` names a chain of nodes from the top level of `ns` down: each slug
   * is a node among the children of the one before, and the node with `slug`
   * sits among the children of the last.
   */
  ghost predicate LeadsTo(ns: seq<NavNode>, path: seq<string>, slug: string)
    decreases |path|
  {
    if path == [] then exists n :: n in ns && n.slug == slug
    else exists n :: n in ns && n.slug == path[0] && LeadsTo(n.children, path[1..], slug)
  }

  /** What the search returns is the chain of ancestors of the node it found. */
  lemma {:induction false} FindInLeadsTo(ns: seq<NavNode>, slug: string)
    requires FindIn(ns, slug).Some?
    ensures LeadsTo(ns, FindIn(ns, slug).value, slug)
    decreases ns
  {
    var head := ns[0];
    if head.slug == slug {
      assert head in ns;
    } else if FindIn(head.children, slug).Some? {
      var p := FindIn(head.children, slug).value;
      FindInLeadsTo(head.children, slug);
      assert FindIn(ns, slug).value == [head.slug] + p;
      assert ([head.slug] + p)[1..] == p;
      assert head in ns;
    } else {
      var p := FindIn(ns[1..], slug).value;
      FindInLeadsTo(ns[1..], slug);
      if p == [] {
        var n :| n in ns[1..] && n.slug == slug;
        assert n in ns;
      } else {
        var n :| n in ns[1..] && n.slug == p[0] && LeadsTo(n.children, p[1..], slug);
        assert n in ns;
      }
    }
  }

  function PathSet(p: Option<seq<string>>): set<string> {
    match p
    case None => {}
    case Some(s) => set x | x in s
  }

  /** The items the effect expands across the categories. */
  function ExpandedItems(nav: Nav, slug: string): set<string> {
    if nav == [] then {} else ExpandedItems(nav[..|nav| - 1], slug) + PathSet(FindIn(nav[|nav| - 1].1, slug))
  }

  /** The categories the effect expands: those whose forest holds the slug. */
  function ExpandedCategories(nav: Nav, slug: string): set<string> {
    if nav == [] then {}
    else ExpandedCategories(nav[..|nav| - 1], slug) + (if FindIn(nav[|nav| - 1].1, slug).Some? then {nav[|nav| - 1].0} else {})
  }

  lemma {:induction false} ExpandedCategoriesIff(nav: Nav, slug: string, c: string)
    ensures c in ExpandedCategories(nav, slug) <==>
      exists k :: 0 <= k < |nav| && nav[k].0 == c && HoldsSlug(nav[k].1, slug)
  {
    if nav != [] {
      var init := nav[..|nav| - 1];
      ExpandedCategoriesIff(init, slug, c);
      FindInSpec(nav[|nav| - 1].1, slug);
      if exists k :: 0 <= k < |init| && init[k].0 == c && HoldsSlug(init[k].1, slug) {
        var k :| 0 <= k < |init| && init[k].0 == c && HoldsSlug(init[k].1, slug);
        assert nav[k] == init[k];
      }
      if exists k :: 0 <= k < |nav| && nav[k].0 == c && HoldsSlug(nav[k].1, slug) {
        var k :| 0 <= k < |nav| && nav[k].0 == c && HoldsSlug(nav[k].1, slug);
        if k < |init| {
          assert init[k] == nav[k];
        }
      }
    }
  }

  /** The path the effect reads, when it is an item's link, names that item. */
  lemma ActivePageSlug(pathname: string, slug: string)
    requires IsActive(pathname, slug)
    ensures PageSlug(pathname) == slug
  {
    assert pathname[..6] == "/docs/";
  }

  // ---------------------------------------------------------- item links

  /** An item links to `/docs/<slug>`. */
  function Href(slug: string): (href: string)
    ensures StartsWith(href, "/docs/") && href[6..] == slug
  {
    "/docs/" + slug
  }

  /** An item is highlighted when the path is exactly its link. */
  predicate IsActive(pathname: string, slug: string) {
    pathname == Href(slug)
  }

  lemma ActiveIff(pathname: string, slug: string)
    ensures IsActive(pathname, slug) <==> StartsWith(pathname, "/docs/") && pathname[6..] == slug
  {
    if StartsWith(pathname, "/docs/") && pathname[6..] == slug {
      assert pathname == pathname[..6] + pathname[6..];
    }
  }

  // ------------------------------------------------------------ collapse state

  /** Adds `k` when absent, removes it when present. */
  function Toggle(s: set<string>, k: string): (r: set<string>)
    ensures k in r <==> k !in s
    ensures forall x :: x != k ==> (x in r <==> x in s)
  {
    if k in s then s - {k} else s + {k}
  }

  lemma ToggleTwice(s: set<string>, k: string)
    ensures Toggle(Toggle(s, k), k) == s
  {
  }

  /** The sidebar's collapse state. */
  class SidebarState {
    var collapsedCategories: set<string>
    var collapsedItems: set<string>

    constructor()
      ensures collapsedCategories == {} && collapsedItems == {}
    {
      collapsedCategories := {};
      collapsedItems := {};
    }

    /** `toggleCategory`. */
    method ToggleCategory(category: string)
      modifies this
      ensures collapsedCategories == Toggle(old(collapsedCategories), category)
      ensures collapsedItems == old(collapsedItems)
    {
      var newCollapsed := collapsedCategories;
      if category in newCollapsed {
        newCollapsed := newCollapsed - {category};
      } else {
        newCollapsed := newCollapsed + {category};
      }
      collapsedCategories := newCollapsed;
    }

    /** `toggleItem`. */
    method ToggleItem(itemSlug: string)
      modifies this
      ensures collapsedItems == Toggle(old(collapsedItems), itemSlug)
      ensures collapsedCategories == old(collapsedCategories)
    {
      var newCollapsed := collapsedItems;
      if itemSlug in newCollapsed {
        newCollapsed := newCollapsed - {itemSlug};
      } else {
        newCollapsed := newCollapsed + {itemSlug};
      }
      collapsedItems := newCollapsed;
    }

    /** `collapseAll`: every shown category, and every item with children, collapsed. */
    method CollapseAll(filtered: Nav)
      modifies this
      ensures collapsedCategories == KeySet(filtered)
      ensures collapsedItems == AllBranches(filtered)
    {
      collapsedCategories := KeySet(filtered);
      var allItems: set<string> := {};
      var i := 0;
      while i < |filtered|
        invariant i <= |filtered|
        invariant collapsedCategories == KeySet(filtered)
        invariant allItems == AllBranches(filtered[..i])
      {
        assert filtered[..i + 1][..i] == filtered[..i];
        allItems := CollectSlugs(filtered[i].1, allItems);
        i := i + 1;
      }
      assert filtered[..i] == filtered;
      collapsedItems := allItems;
    }

    /** `collapseCategoryLevel`: the category and every item with children beneath it collapsed, nothing expanded. */
    method CollapseCategoryLevel(filtered: Nav, category: string)
      modifies this
      ensures collapsedCategories == old(collapsedCategories) + {category}
      ensures collapsedItems == old(collapsedItems) + Branches(CategoryItems(filtered, category))
    {
      collapsedCategories := collapsedCategories + {category};
      collapsedItems := CollectSlugs(CategoryItems(filtered, category), collapsedItems);
    }

    /** One category of the auto-expand effect: `findInItems` removing each ancestor of the match. */
    method FindInItems(list: seq<NavNode>, slug: string) returns (found: bool)
      modifies this
      ensures found == FindIn(list, slug).Some?
      ensures collapsedItems == old(collapsedItems) - PathSet(FindIn(list, slug))
      ensures collapsedCategories == old(collapsedCategories)
      decreases list
    {
      var i := 0;
      while i < |list|
        invariant i <= |list|
        invariant FindIn(list, slug) == FindIn(list[i..], slug)
        invariant collapsedItems == old(collapsedItems) && collapsedCategories == old(collapsedCategories)
      {
        var item := list[i];
        assert list[i..][0] == item && list[i..][1..] == list[i + 1..];
        if item.slug == slug {
          return true;
        }
        var below := FindInItems(item.children, slug);
        if below {
          collapsedItems := collapsedItems - {item.slug};
          PathSetCons(item.slug, FindIn(item.children, slug).value);
          return true;
        }
        i := i + 1;
      }
      assert list[i..] == [];
      return false;
    }

    /** The auto-expand effect, run when the path changes. */
    method AutoExpand(filtered: Nav, pathname: string)
      modifies this
      ensures PageSlug(pathname) == "" ==> collapsedItems == old(collapsedItems) && collapsedCategories == old(collapsedCategories)
      ensures PageSlug(pathname) != "" ==> collapsedItems == old(collapsedItems) - ExpandedItems(filtered, PageSlug(pathname))
      ensures PageSlug(pathname) != "" ==> collapsedCategories == old(collapsedCategories) - ExpandedCategories(filtered, PageSlug(pathname))
    {
      var slug := PageSlug(pathname);
      if slug == "" {
        return;
      }
      var i := 0;
      while i < |filtered|
        invariant i <= |filtered|
        invariant collapsedItems == old(collapsedItems) - ExpandedItems(filtered[..i], slug)
        invariant collapsedCategories == old(collapsedCategories) - ExpandedCategories(filtered[..i], slug)
      {
        assert filtered[..i + 1][..i] == filtered[..i];
        var found := FindInItems(filtered[i].1, slug);
        if found {
          collapsedCategories := collapsedCategories - {filtered[i].0};
        }
        i := i + 1;
      }
      assert filtered[..i] == filtered;
    }
  }

  lemma PathSetCons(s: string, p: seq<string>)
    ensures PathSet(Some([s] + p)) == {s} + PathSet(Some(p))
  {
  }

  /** Every category's search path is among the expanded items. */
  lemma {:induction false} ExpandedItemsHas(nav: Nav, slug: string, k: nat)
    requires k < |nav|
    ensures PathSet(FindIn(nav[k].1, slug)) <= ExpandedItems(nav, slug)
  {
    var init := nav[..|nav| - 1];
    if k < |init| {
      ExpandedItemsHas(init, slug, k);
      assert init[k] == nav[k];
    }
  }

  /**
   * After the effect, the category of the current page and every ancestor of
   * the page within it are expanded: the search in that category finds a
   * chain of ancestors leading to the page, and all of them are expanded.
   */
  lemma ActivePageExpanded(filtered: Nav, pathname: string, k: nat, m: NavNode)
    requires k < |filtered| && m in Preorder(filtered[k].1) && IsActive(pathname, m.slug) && m.slug != ""
    ensures PageSlug(pathname) != ""
    ensures filtered[k].0 in ExpandedCategories(filtered, PageSlug(pathname))
    ensures FindIn(filtered[k].1, PageSlug(pathname)).Some?
    ensures LeadsTo(filtered[k].1, FindIn(filtered[k].1, PageSlug(pathname)).value, PageSlug(pathname))
    ensures PathSet(FindIn(filtered[k].1, PageSlug(pathname))) <= ExpandedItems(filtered, PageSlug(pathname))
  {
    ActivePageSlug(pathname, m.slug);
    ExpandedCategoriesIff(filtered, m.slug, filtered[k].0);
    FindInSpec(filtered[k].1, m.slug);
    FindInLeadsTo(filtered[k].1, m.slug);
    ExpandedItemsHas(filtered, m.slug, k);
  }
}
