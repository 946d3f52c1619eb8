/**
 * `getDocNavigation` in `lib/markdown.ts`: every slug is looked up again, its
 * metadata inferred, and the items are grouped by category; inside a category
 * each item is attached to its declared parent when that parent is an item of
 * the same category and becomes a root otherwise, after a stable sort by order.
 */
module Navigation {
  import opened Wrappers
  import opened Strings
  import opened Seqs
  import opened Sorting
  import opened Markdown

  /** One navigation item before the hierarchy is built. */
  datatype NavEntry = NavEntry(title: string, slug: string, order: int, parent: Option<string>, category: string)

  /**
   * A node of the navigation forest. The item's category is not copied into
   * its node: nothing downstream reads it there, the category being the key
   * the node's forest is listed under.
   */
  datatype NavNode = NavNode(title: string, slug: string, order: int, parent: Option<string>, children: seq<NavNode>)

  // --------------------------------------------------- first pass: items

  /** The navigation lookup: no `/index` normalisation and no `Readme.md` step. */
  function NavCandidates(slug: string): (cs: seq<string>)
    ensures |cs| == 3
  {
    [slug + ".md", slug + "/index.md", slug + "/README.md"]
  }

  /** The item a slug contributes, or `None` when none of its three files exists. */
  function NavEntryOf(files: Files, slug: string): (e: Option<NavEntry>)
    ensures e.None? <==> forall c :: c in NavCandidates(slug) ==> c !in files
    ensures e.Some? ==> e.value.slug == slug && e.value.category != "" && e.value.order != 0
  {
    match Resolve(files, NavCandidates(slug))
    case None => None
    case Some(p) =>
      var file := files[p];
      var m := InferMissingMetadata(file.data, file.content, p, slug);
      Some(NavEntry(
        if m.title == "" then slug else m.title,
        slug,
        if m.order == 0 then 999 else m.order,
        file.data.parent,
        if m.category == "" then "General" else m.category))
  }

  /** An order of 0 from the front matter is read as 999 in navigation, unlike in `getDocBySlug`. */
  lemma NavOrderZero(files: Files, slug: string, p: string)
    requires Resolve(files, NavCandidates(slug)) == Some(p)
    requires files[p].data.order == Some(0)
    ensures NavEntryOf(files, slug).value.order == 999
  {
  }

  /**
   * A folder holding only `README.md` gets the slug `x/index`, which
   * `getDocBySlug` resolves but the navigation lookup silently skips.
   */
  lemma ReadmeOnlyFolderSkipped(files: Files, dir: string)
    requires dir != "" && !EndsWith(dir, "/index")
    requires dir + "/README.md" in files
    requires dir + "/index/index.md" !in files && dir + "/index/README.md" !in files
    requires dir + "/index.md" !in files
    ensures DocBySlug(files, dir + "/index").Success?
    ensures NavEntryOf(files, dir + "/index").None?
  {
    ReadmeOnlyFolderFound(files, dir);
    IndexSlugCandidates(dir);
  }

  /** The navigation candidates of `dir/index` spelled out. */
  lemma IndexSlugCandidates(dir: string)
    ensures NavCandidates(dir + "/index") == [dir + "/index.md", dir + "/index/index.md", dir + "/index/README.md"]
  {
    assert "/index" + ".md" == "/index.md";
    assert "/index" + "/index.md" == "/index/index.md";
    assert "/index" + "/README.md" == "/index/README.md";
    ConcatAssoc(dir, "/index", ".md");
    ConcatAssoc(dir, "/index", "/index.md");
    ConcatAssoc(dir, "/index", "/README.md");
  }

  lemma ConcatAssoc(a: string, b: string, c: string)
    ensures (a + b) + c == a + (b + c)
  {
  }

  lemma ReadmeOnlyFolderFound(files: Files, dir: string)
    requires dir != "" && !EndsWith(dir, "/index")
    requires dir + "/README.md" in files
    ensures DocBySlug(files, dir + "/index").Success?
  {
    NormalizeIndexSuffix(dir);
    var cs := DocCandidates(dir);
    assert cs[2] == dir + "/README.md";
    DocBySlugResolves(files, dir + "/index");
  }

  /** The items collected for a list of slugs, in slug order, skipping unresolved slugs. */
  function CollectedItems(files: Files, slugs: seq<string>): (items: seq<NavEntry>)
    ensures |items| <= |slugs|
  {
    if slugs == [] then []
    else
      var last := slugs[|slugs| - 1];
      CollectedItems(files, slugs[..|slugs| - 1])
        + match NavEntryOf(files, last) case Some(e) => [e] case None => []
  }

  /** Exactly the slugs that resolve contribute an item, and each item comes from a slug of the list. */
  lemma {:induction false} CollectedItemsMembers(files: Files, slugs: seq<string>, e: NavEntry)
    ensures e in CollectedItems(files, slugs) <==> e.slug in slugs && NavEntryOf(files, e.slug) == Some(e)
  {
    if slugs != [] {
      var init := slugs[..|slugs| - 1];
      var last := slugs[|slugs| - 1];
      CollectedItemsMembers(files, init, e);
      assert slugs == init + [last];
      if e.slug == last && NavEntryOf(files, e.slug) == Some(e) {
        assert e in CollectedItems(files, slugs);
      }
    }
  }

  /** The first pass: one `push` per slug whose file is found. */
  method CollectItems(files: Files, slugs: seq<string>) returns (allItems: seq<NavEntry>)
    ensures allItems == CollectedItems(files, slugs)
  {
    allItems := [];
    for i := 0 to |slugs|
      invariant allItems == CollectedItems(files, slugs[..i])
    {
      var entry := NavEntryOf(files, slugs[i]);
      assert slugs[..i + 1][..i] == slugs[..i];
      if entry.Some? {
        allItems := allItems + [entry.value];
      }
    }
    assert slugs[..|slugs|] == slugs;
  }

  // ------------------------------------------------ grouping by category

  function CategoriesOf(items: seq<NavEntry>): (cs: seq<string>)
    ensures |cs| == |items|
  {
    seq(|items|, i requires 0 <= i < |items| => items[i].category)
  }

  /** The categories in first-appearance order (the key order of `itemsByCategory`). */
  function CategoryNames(items: seq<NavEntry>): seq<string> {
    Dedup(CategoriesOf(items))
  }

  function InCategory(c: string): NavEntry -> bool {
    (e: NavEntry) => e.category == c
  }

  /** The state after the items `done` have been grouped. */
  ghost predicate Grouped(done: seq<NavEntry>, keys: seq<string>, groups: map<string, seq<NavEntry>>) {
    && keys == CategoryNames(done)
    && (forall c :: c in groups <==> c in keys)
    && forall c :: c in groups ==> groups[c] == Filter(done, InCategory(c))
  }

  /** `itemsByCategory`: each category's items in enumeration order. */
  method GroupByCategory(items: seq<NavEntry>) returns (keys: seq<string>, groups: map<string, seq<NavEntry>>)
    ensures Grouped(items, keys, groups)
  {
    keys := [];
    groups := map[];
    for i := 0 to |items|
      invariant Grouped(items[..i], keys, groups)
    {
      var item := items[i];
      assert items[..i + 1] == items[..i] + [item];
      GroupStep(items[..i], item, keys, groups);
      if item.category !in groups {
        keys := keys + [item.category];
        groups := groups[item.category := []];
      }
      groups := groups[item.category := groups[item.category] + [item]];
    }
    assert items[..|items|] == items;
  }

  lemma GroupStep(done: seq<NavEntry>, x: NavEntry, keys: seq<string>, groups: map<string, seq<NavEntry>>)
    requires Grouped(done, keys, groups)
    ensures x.category in groups ==>
      Grouped(done + [x], keys, groups[x.category := groups[x.category] + [x]])
    ensures x.category !in groups ==>
      Grouped(done + [x], keys + [x.category], groups[x.category := [x]])
  {
    if x.category in groups {
      GroupStepKnown(done, x, keys, groups);
    } else {
      GroupStepNew(done, x, keys, groups);
    }
  }

  lemma GroupStepKnown(done: seq<NavEntry>, x: NavEntry, keys: seq<string>, groups: map<string, seq<NavEntry>>)
    requires Grouped(done, keys, groups) && x.category in groups
    ensures Grouped(done + [x], keys, groups[x.category := groups[x.category] + [x]])
  {
    var g := groups[x.category := groups[x.category] + [x]];
    assert keys == CategoryNames(done + [x]) by {
      CategoryNamesSnoc(done, x);
    }
    assert forall c :: c in g ==> g[c] == Filter(done + [x], InCategory(c)) by {
      forall c | c in g ensures g[c] == Filter(done + [x], InCategory(c)) {
        FilterAppendOne(done, x, InCategory(c));
      }
    }
  }

  lemma GroupStepNew(done: seq<NavEntry>, x: NavEntry, keys: seq<string>, groups: map<string, seq<NavEntry>>)
    requires Grouped(done, keys, groups) && x.category !in groups
    ensures Grouped(done + [x], keys + [x.category], groups[x.category := [x]])
  {
    var g := groups[x.category := [x]];
    assert keys + [x.category] == CategoryNames(done + [x]) by {
      CategoryNamesSnoc(done, x);
    }
    forall c | c in g ensures g[c] == Filter(done + [x], InCategory(c)) {
      if c == x.category {
        NewCategoryGroup(done, x);
      } else {
        OtherCategoryGroup(done, x, c);
      }
    }
  }

  lemma NewCategoryGroup(done: seq<NavEntry>, x: NavEntry)
    requires x.category !in CategoryNames(done)
    ensures Filter(done + [x], InCategory(x.category)) == [x]
  {
    FilterAppendOne(done, x, InCategory(x.category));
    NoItemsOfNewCategory(done, x.category);
  }

  lemma OtherCategoryGroup(done: seq<NavEntry>, x: NavEntry, c: string)
    requires c != x.category
    ensures Filter(done + [x], InCategory(c)) == Filter(done, InCategory(c))
  {
    FilterAppendOne(done, x, InCategory(c));
  }

  lemma CategoryNamesSnoc(done: seq<NavEntry>, x: NavEntry)
    ensures CategoryNames(done + [x]) ==
      if x.category in CategoryNames(done) then CategoryNames(done) else CategoryNames(done) + [x.category]
  {
    var cs := CategoriesOf(done + [x]);
    assert cs[..|cs| - 1] == CategoriesOf(done);
    assert cs[|cs| - 1] == x.category;
  }

  lemma NoItemsOfNewCategory(items: seq<NavEntry>, c: string)
    requires c !in CategoryNames(items)
    ensures Filter(items, InCategory(c)) == []
  {
    NavigationCategories(items);
    if Filter(items, InCategory(c)) != [] {
      var e := Filter(items, InCategory(c))[0];
      FilterMembership(items, InCategory(c), e);
    }
  }

  // ------------------------------------------- second pass: the hierarchy

  /** The comparator `a.order - b.order`. */
  predicate OrderLe(a: NavEntry, b: NavEntry) {
    a.order <= b.order
  }

  lemma OrderLeTotalPreorder()
    ensures TotalPreorder(OrderLe)
  {
  }

  function SlugSet(items: seq<NavEntry>): set<string> {
    set e | e in items :: e.slug
  }

  /** The item declares a parent (a non-empty string) that is an item of the same list. */
  predicate HasParentIn(items: seq<NavEntry>, e: NavEntry) {
    e.parent.Some? && e.parent.value != "" && e.parent.value in SlugSet(items)
  }

  function IsRoot(items: seq<NavEntry>): NavEntry -> bool {
    (e: NavEntry) => !HasParentIn(items, e)
  }

  function ChildOf(p: string): NavEntry -> bool {
    (e: NavEntry) => e.parent.Some? && e.parent.value != "" && e.parent.value == p
  }

  /** The root list of a category: its items sorted by order, less those attached to a parent. */
  function Roots(items: seq<NavEntry>): seq<NavEntry> {
    Filter(SortBy(items, OrderLe), IsRoot(items))
  }

  /** The children list of the item with slug `p`. */
  function Children(items: seq<NavEntry>, p: string): seq<NavEntry> {
    Filter(SortBy(items, OrderLe), ChildOf(p))
  }

  /** The children lists by parent slug, as `itemsMap` holds them after the second pass. */
  function ChildrenMap(items: seq<NavEntry>): map<string, seq<NavEntry>> {
    map p | p in SlugSet(items) :: Children(items, p)
  }

  /** The state after the items `done` have been pushed to their lists. */
  ghost predicate Placed(items: seq<NavEntry>, done: seq<NavEntry>, roots: seq<NavEntry>, children: map<string, seq<NavEntry>>) {
    && children.Keys == SlugSet(items)
    && roots == Filter(done, IsRoot(items))
    && forall p :: p in children ==> children[p] == Filter(done, ChildOf(p))
  }

  /**
   * Building one category: `itemsMap` holds a children list per slug, the
   * items are sorted by order and each is pushed to its parent's list or to
   * the roots.
   */
  method BuildHierarchy(categoryItems: seq<NavEntry>) returns (roots: seq<NavEntry>, children: map<string, seq<NavEntry>>)
    ensures roots == Roots(categoryItems)
    ensures children == ChildrenMap(categoryItems)
  {
    var itemsMap := map e | e in categoryItems :: e.slug := [];
    assert itemsMap.Keys == SlugSet(categoryItems);
    var sorted := SortBy(categoryItems, OrderLe);
    roots, children := PlaceAll(categoryItems, sorted, itemsMap);
    PlacedAll(categoryItems, roots, children);
  }

  /** The second pass proper: each sorted item is pushed to its parent's list or to the roots. */
  method PlaceAll(items: seq<NavEntry>, sorted: seq<NavEntry>, itemsMap: map<string, seq<NavEntry>>)
    returns (roots: seq<NavEntry>, children: map<string, seq<NavEntry>>)
    requires itemsMap.Keys == SlugSet(items)
    requires forall p :: p in itemsMap ==> itemsMap[p] == []
    ensures Placed(items, sorted, roots, children)
  {
    children := itemsMap;
    roots := [];
    for i := 0 to |sorted|
      invariant Placed(items, sorted[..i], roots, children)
    {
      var item := sorted[i];
      ghost var done, roots0, children0 := sorted[..i], roots, children;
      assert children.Keys == SlugSet(items);
      if item.parent.Some? && item.parent.value != "" && item.parent.value in children {
        children := children[item.parent.value := children[item.parent.value] + [item]];
      } else {
        roots := roots + [item];
      }
      AttachStep(items, done, item, roots0, children0, roots, children);
      assert sorted[..i + 1] == done + [item];
    }
    assert sorted[..|sorted|] == sorted;
  }

  /** Pushing one more item keeps the lists equal to the filters of the items pushed so far. */
  lemma AttachStep(items: seq<NavEntry>, done: seq<NavEntry>, x: NavEntry,
                   roots: seq<NavEntry>, children: map<string, seq<NavEntry>>,
                   roots': seq<NavEntry>, children': map<string, seq<NavEntry>>)
    requires Placed(items, done, roots, children)
    requires HasParentIn(items, x) ==>
      roots' == roots && children' == children[x.parent.value := children[x.parent.value] + [x]]
    requires !HasParentIn(items, x) ==> roots' == roots + [x] && children' == children
    ensures Placed(items, done + [x], roots', children')
  {
    FilterAppendOne(done, x, IsRoot(items));
    forall p ensures Filter(done + [x], ChildOf(p)) == Filter(done, ChildOf(p)) + if ChildOf(p)(x) then [x] else [] {
      FilterAppendOne(done, x, ChildOf(p));
    }
  }

  lemma PlacedAll(items: seq<NavEntry>, roots: seq<NavEntry>, children: map<string, seq<NavEntry>>)
    requires Placed(items, SortBy(items, OrderLe), roots, children)
    ensures roots == Roots(items) && children == ChildrenMap(items)
  {
  }

  /**
   * Every item of a category lands in exactly one list: the roots when it has
   * no parent among the category's items, otherwise its parent's children.
   */
  lemma PlacedOnce(items: seq<NavEntry>, e: NavEntry, p: string)
    requires e in items
    ensures e in Roots(items) <==> !HasParentIn(items, e)
    ensures e in Children(items, p) <==> e.parent == Some(p) && p != ""
  {
    SortByMembership(items, OrderLe, e);
    FilterMembership(SortBy(items, OrderLe), IsRoot(items), e);
    FilterMembership(SortBy(items, OrderLe), ChildOf(p), e);
  }

  /** Each item of `cycle` names the next one, the last naming the first, as its parent. */
  predicate ParentCycle(cycle: seq<NavEntry>) {
    |cycle| > 0 &&
    forall i :: 0 <= i < |cycle| ==> cycle[i].slug != "" && cycle[i].parent == Some(cycle[(i + 1) % |cycle|].slug)
  }

  /**
   * Items on a parent cycle of any length, a self-parent being the cycle of
   * one, are never roots: each one's parent is an item of the category.
   */
  lemma CycleNeverRoot(items: seq<NavEntry>, cycle: seq<NavEntry>)
    requires forall e :: e in cycle ==> e in items
    requires ParentCycle(cycle)
    ensures forall e :: e in cycle ==> e !in Roots(items)
  {
    forall e | e in cycle ensures e !in Roots(items) {
      var i :| 0 <= i < |cycle| && cycle[i] == e;
      var next := cycle[(i + 1) % |cycle|];
      assert next in cycle;
      PlacedOnce(items, e, next.slug);
    }
  }

  /**
   * The roots and every children list are the stable sort by order of the
   * matching items in enumeration order: non-decreasing in order, ties kept.
   */
  lemma ListsAreStableSorts(items: seq<NavEntry>, p: string)
    ensures Roots(items) == SortBy(Filter(items, IsRoot(items)), OrderLe)
    ensures Children(items, p) == SortBy(Filter(items, ChildOf(p)), OrderLe)
    ensures SortedBy(Roots(items), OrderLe) && SortedBy(Children(items, p), OrderLe)
  {
    OrderLeTotalPreorder();
    FilterSortBy(items, OrderLe, IsRoot(items));
    FilterSortBy(items, OrderLe, ChildOf(p));
    SortBySorted(Filter(items, IsRoot(items)), OrderLe);
    SortBySorted(Filter(items, ChildOf(p)), OrderLe);
  }

  /** `sortChildren` re-sorts lists that are already sorted, so it changes nothing. */
  lemma SortChildrenChangesNothing(items: seq<NavEntry>, p: string)
    ensures SortBy(Children(items, p), OrderLe) == Children(items, p)
    ensures SortBy(Roots(items), OrderLe) == Roots(items)
  {
    ListsAreStableSorts(items, p);
    SortBySortedIsIdentity(Children(items, p), OrderLe);
    SortBySortedIsIdentity(Roots(items), OrderLe);
  }

  // ---------------------------------------------------------- the forest

  /** The node of an item with its descendants, followed through the children lists at most `fuel` deep. */
  function Expand(children: map<string, seq<NavEntry>>, e: NavEntry, fuel: nat): (n: NavNode)
    ensures n.slug == e.slug && n.title == e.title && n.order == e.order && n.parent == e.parent
    decreases fuel, 0
  {
    var kids := if fuel == 0 || e.slug !in children then [] else ExpandAll(children, children[e.slug], fuel - 1);
    NavNode(e.title, e.slug, e.order, e.parent, kids)
  }

  function ExpandAll(children: map<string, seq<NavEntry>>, es: seq<NavEntry>, fuel: nat): (ns: seq<NavNode>)
    ensures |ns| == |es|
    ensures forall i :: 0 <= i < |es| ==> ns[i].slug == es[i].slug
    decreases fuel, 1, |es|
  {
    if es == [] then [] else [Expand(children, es[0], fuel)] + ExpandAll(children, es[1..], fuel)
  }

  /** The forest of one category. */
  function CategoryForest(items: seq<NavEntry>): seq<NavNode> {
    ExpandAll(ChildrenMap(items), Roots(items), |items|)
  }

  /** The whole navigation: each category in first-appearance order with its forest. */
  function NavigationOf(items: seq<NavEntry>): (nav: seq<(string, seq<NavNode>)>)
    ensures |nav| == |CategoryNames(items)|
  {
    var keys := CategoryNames(items);
    seq(|keys|, i requires 0 <= i < |keys| => (keys[i], CategoryForest(Filter(items, InCategory(keys[i])))))
  }

  function DocNavigation(files: Files, paths: seq<string>): seq<(string, seq<NavNode>)> {
    NavigationOf(CollectedItems(files, GetAllDocSlugs(paths)))
  }

  /** One category's entry of the navigation. */
  method BuildCategory(category: string, categoryItems: seq<NavEntry>) returns (entry: (string, seq<NavNode>))
    ensures entry == (category, CategoryForest(categoryItems))
  {
    var roots, itemsMap := BuildHierarchy(categoryItems);
    entry := (category, ExpandAll(itemsMap, roots, |categoryItems|));
  }

  /** `getDocNavigation`: collect the items, then build the navigation from them. */
  method GetDocNavigation(files: Files, paths: seq<string>) returns (navigation: seq<(string, seq<NavNode>)>)
    ensures navigation == DocNavigation(files, paths)
  {
    var slugs := GetAllDocSlugs(paths);
    var allItems := CollectItems(files, slugs);
    navigation := BuildNavigation(allItems);
  }

  /** Group the items, then build each category's forest in key order. */
  method BuildNavigation(allItems: seq<NavEntry>) returns (navigation: seq<(string, seq<NavNode>)>)
    ensures navigation == NavigationOf(allItems)
  {
    var keys, itemsByCategory := GroupByCategory(allItems);
    ghost var nav := NavigationOf(allItems);
    navigation := [];
    NavigationLength(allItems, keys, itemsByCategory);
    for i := 0 to |keys|
      invariant navigation == nav[..i]
    {
      NavigationAt(allItems, keys, itemsByCategory, i);
      var entry := BuildCategory(keys[i], itemsByCategory[keys[i]]);
      navigation := navigation + [entry];
      assert nav[..i + 1] == nav[..i] + [entry];
    }
    assert nav[..|keys|] == nav;
  }

  lemma NavigationLength(items: seq<NavEntry>, keys: seq<string>, groups: map<string, seq<NavEntry>>)
    requires Grouped(items, keys, groups)
    ensures |NavigationOf(items)| == |keys|
  {
  }

  lemma NavigationAt(items: seq<NavEntry>, keys: seq<string>, groups: map<string, seq<NavEntry>>, i: nat)
    requires Grouped(items, keys, groups) && i < |keys|
    ensures keys[i] in groups
    ensures i < |NavigationOf(items)| && NavigationOf(items)[i] == (keys[i], CategoryForest(groups[keys[i]]))
  {
    assert keys[i] in keys;
  }

  /** The navigation lists each category that has an item exactly once, and no other. */
  lemma NavigationCategories(items: seq<NavEntry>)
    ensures Distinct(CategoryNames(items))
    ensures forall e :: e in items ==> e.category in CategoryNames(items)
    ensures forall c :: c in CategoryNames(items) ==> Filter(items, InCategory(c)) != []
  {
    var cs := CategoriesOf(items);
    forall e | e in items ensures e.category in CategoryNames(items) {
      var i :| 0 <= i < |items| && items[i] == e;
      assert cs[i] in cs;
    }
    forall c | c in CategoryNames(items) ensures Filter(items, InCategory(c)) != [] {
      var i :| 0 <= i < |cs| && cs[i] == c;
      FilterMembership(items, InCategory(c), items[i]);
    }
  }
}
