/**
 * The client-side search of `lib/search.ts`: a module-level index handle that
 * `initializeSearch` replaces, a case-insensitive substring tier with title
 * hits first, the fuzzy tier as a fallback, and `<mark>` highlighting.
 */
module Search {
  import opened Wrappers
  import opened Strings
  import opened Seqs
  import opened Sorting
  import opened Markdown

  /** The fields an exact hit can match on (`matches[].key`). */
  datatype MatchKey = TitleKey | DescriptionKey | ContentKey

  /** An exact hit (score 0, with the keys it matched on), or a hit passed on from the fuzzy tier. */
  datatype SearchResult = Exact(item: DocContent, matches: seq<MatchKey>) | Fuzzy(item: DocContent)

  /**
   * The fuzzy tier (`fuse.search(query, { limit: 10 })`) as a given function
   * of the indexed documents and the query.
   */
  type FuzzySearch = (seq<DocContent>, string) -> seq<DocContent>

  /** The keys on which `doc` contains `q`, ignoring ASCII letter case, in title/description/content order. */
  function MatchKeys(doc: DocContent, q: string): (keys: seq<MatchKey>)
    ensures TitleKey in keys <==> Contains(Lower(doc.metadata.title), Lower(q))
    ensures DescriptionKey in keys <==>
      doc.metadata.description.Some? && Contains(Lower(doc.metadata.description.value), Lower(q))
    ensures ContentKey in keys <==> Contains(Lower(doc.content), Lower(q))
  {
    var lq := Lower(q);
    (if Contains(Lower(doc.metadata.title), lq) then [TitleKey] else [])
    + (if doc.metadata.description.Some? && Contains(Lower(doc.metadata.description.value), lq)
       then [DescriptionKey] else [])
    + (if Contains(Lower(doc.content), lq) then [ContentKey] else [])
  }

  /** The exact tier: one hit per document that matches on some key, in index order. */
  function ExactHits(docs: seq<DocContent>, q: string): (hits: seq<SearchResult>)
    ensures |hits| <= |docs|
  {
    if docs == [] then []
    else
      var d := docs[|docs| - 1];
      var keys := MatchKeys(d, q);
      ExactHits(docs[..|docs| - 1], q) + if keys != [] then [Exact(d, keys)] else []
  }

  /** A document is an exact hit exactly when it matches on some key, and then with those keys. */
  lemma {:induction false} ExactHitsMembers(docs: seq<DocContent>, q: string, r: SearchResult)
    ensures r in ExactHits(docs, q) <==> r.Exact? && r.item in docs && r.matches == MatchKeys(r.item, q) && r.matches != []
  {
    if docs != [] {
      var init := docs[..|docs| - 1];
      var d := docs[|docs| - 1];
      ExactHitsMembers(init, q, r);
      assert docs == init + [d];
    }
  }

  predicate HasTitle(r: SearchResult) {
    r.Exact? && TitleKey in r.matches
  }

  /** The comparator `bHasTitle - aHasTitle`: `a` may precede `b` unless only `b` has a title hit. */
  predicate TitleFirst(a: SearchResult, b: SearchResult) {
    HasTitle(a) || !HasTitle(b)
  }

  lemma TitleFirstTotalPreorder()
    ensures TotalPreorder(TitleFirst)
  {
  }

  /** What `searchDocs(query)` returns for the index contents `docs`. */
  function SearchOver(docs: Option<seq<DocContent>>, query: string, fuzzy: FuzzySearch): (results: seq<SearchResult>)
    ensures |results| <= 10
  {
    if docs.None? || Trim(query) == [] then []
    else
      var q := Trim(query);
      var hits := ExactHits(docs.value, q);
      if hits == [] then
        var found := Take(fuzzy(docs.value, q), 10);
        seq(|found|, i requires 0 <= i < |found| => Fuzzy(found[i]))
      else Take(SortBy(hits, TitleFirst), 10)
  }

  /** An unset index, or a query of whitespace only, finds nothing. */
  lemma SearchNothing(docs: Option<seq<DocContent>>, query: string, fuzzy: FuzzySearch)
    requires docs.None? || AllSpace(query)
    ensures SearchOver(docs, query, fuzzy) == []
  {
    TrimEmptyIffAllSpace(query);
  }

  /**
   * Every exact result contains the trimmed query, ignoring case, in its
   * title, description or content, and lists exactly the keys it matched;
   * the category is not consulted.
   */
  lemma ExactResultsMatch(docs: seq<DocContent>, query: string, fuzzy: FuzzySearch, r: SearchResult)
    requires r in SearchOver(Some(docs), query, fuzzy) && r.Exact?
    ensures r.item in docs && r.matches == MatchKeys(r.item, Trim(query))
    ensures var lq := Lower(Trim(query));
      Contains(Lower(r.item.metadata.title), lq)
      || (r.item.metadata.description.Some? && Contains(Lower(r.item.metadata.description.value), lq))
      || Contains(Lower(r.item.content), lq)
  {
    var q := Trim(query);
    var hits := ExactHits(docs, q);
    assert hits != [];
    var sorted := SortBy(hits, TitleFirst);
    assert r in sorted by {
      assert Take(sorted, 10) == sorted[..|Take(sorted, 10)|];
    }
    SortByMembership(hits, TitleFirst, r);
    ExactHitsMembers(docs, q, r);
    var keys := r.matches;
    assert keys[0] in keys;
  }

  /** The fuzzy tier is consulted only when no document contains the query. */
  lemma FuzzyOnlyWithoutExact(docs: seq<DocContent>, query: string, fuzzy: FuzzySearch, r: SearchResult)
    requires r in SearchOver(Some(docs), query, fuzzy) && r.Fuzzy?
    ensures forall d :: d in docs ==> MatchKeys(d, Trim(query)) == []
  {
    var q := Trim(query);
    var hits := ExactHits(docs, q);
    if hits != [] {
      var sorted := SortBy(hits, TitleFirst);
      assert r in sorted by {
        assert Take(sorted, 10) == sorted[..|Take(sorted, 10)|];
      }
      SortByMembership(hits, TitleFirst, r);
      ExactHitsMembers(docs, q, r);
    }
    forall d | d in docs ensures MatchKeys(d, q) == [] {
      ExactHitsMembers(docs, q, Exact(d, MatchKeys(d, q)));
    }
  }

  predicate LacksTitle(r: SearchResult) {
    !HasTitle(r)
  }

  /** Title hits come first, and each group keeps index order. */
  lemma {:induction false} TitleHitsFirst(hits: seq<SearchResult>)
    ensures SortBy(hits, TitleFirst) == Filter(hits, HasTitle) + Filter(hits, LacksTitle)
  {
    if hits != [] {
      var init, x := hits[..|hits| - 1], hits[|hits| - 1];
      assert hits == init + [x];
      TitleHitsFirst(init);
      TitleHitsSnoc(init, x);
    }
  }

  lemma TitleHitsSnoc(init: seq<SearchResult>, x: SearchResult)
    requires SortBy(init, TitleFirst) == Filter(init, HasTitle) + Filter(init, LacksTitle)
    ensures SortBy(init + [x], TitleFirst) == Filter(init + [x], HasTitle) + Filter(init + [x], LacksTitle)
  {
    var a := Filter(init, HasTitle);
    var b := Filter(init, LacksTitle);
    assert (init + [x])[..|init|] == init;
    assert SortBy(init + [x], TitleFirst) == Insert(a + b, x, TitleFirst);
    FilterAppendOne(init, x, HasTitle);
    FilterAppendOne(init, x, LacksTitle);
    if HasTitle(x) {
      assert Filter(init + [x], HasTitle) == a + [x];
      assert Filter(init + [x], LacksTitle) == b;
      assert forall r :: r in a ==> HasTitle(r);
      assert forall r :: r in b ==> !HasTitle(r);
      InsertTitleHit(a, b, x);
      assert a + [x] + b == (a + [x]) + b;
    } else {
      assert Filter(init + [x], HasTitle) == a;
      assert Filter(init + [x], LacksTitle) == b + [x];
      InsertNoTitle(a + b, x);
      assert (a + b) + [x] == a + (b + [x]);
    }
  }

  lemma InsertNoTitle(t: seq<SearchResult>, x: SearchResult)
    requires !HasTitle(x)
    ensures Insert(t, x, TitleFirst) == t + [x]
  {
    assert t == [] || TitleFirst(t[|t| - 1], x);
  }

  lemma {:induction false} InsertTitleHit(a: seq<SearchResult>, b: seq<SearchResult>, x: SearchResult)
    requires forall r :: r in a ==> HasTitle(r)
    requires forall r :: r in b ==> !HasTitle(r)
    requires HasTitle(x)
    ensures Insert(a + b, x, TitleFirst) == a + [x] + b
    decreases |b|
  {
    if b == [] {
      assert a + b == a;
      if a != [] {
        assert a[|a| - 1] in a;
      }
    } else {
      var b' := b[..|b| - 1];
      var y := b[|b| - 1];
      assert a + b == (a + b') + [y];
      assert (a + b)[..|a + b| - 1] == a + b';
      assert forall r :: r in b' ==> r in b;
      InsertTitleHit(a, b', x);
    }
  }

  /** The index handle: `null` until `initializeSearch` runs, then the indexed documents. */
  class SearchIndex {
    var docs: Option<seq<DocContent>>

    constructor()
      ensures docs == None
    {
      docs := None;
    }

    /** `initializeSearch`: the previous index is discarded and `newDocs` is indexed. */
    method InitializeSearch(newDocs: seq<DocContent>)
      modifies this
      ensures docs == Some(newDocs)
    {
      docs := Some(newDocs);
    }

    /** `searchDocs`: the exact tier is collected with one `push` per matching document. */
    method SearchDocs(query: string, fuzzy: FuzzySearch) returns (results: seq<SearchResult>)
      ensures results == SearchOver(docs, query, fuzzy)
    {
      if docs.None? || Trim(query) == [] {
        return [];
      }
      var searchQuery := Trim(query);
      var allDocs := docs.value;
      var allResults := CollectExact(allDocs, searchQuery);
      if allResults == [] {
        var found := Take(fuzzy(allDocs, searchQuery), 10);
        return seq(|found|, i requires 0 <= i < |found| => Fuzzy(found[i]));
      }
      return Take(SortBy(allResults, TitleFirst), 10);
    }
  }

  /** The exact tier of `searchDocs`: one `push` per document with a matching field. */
  method CollectExact(allDocs: seq<DocContent>, searchQuery: string) returns (allResults: seq<SearchResult>)
    ensures allResults == ExactHits(allDocs, searchQuery)
  {
    allResults := [];
    for i := 0 to |allDocs|
      invariant allResults == ExactHits(allDocs[..i], searchQuery)
    {
      var doc := allDocs[i];
      var matches := MatchKeys(doc, searchQuery);
      assert allDocs[..i + 1][..i] == allDocs[..i];
      if matches != [] {
        allResults := allResults + [Exact(doc, matches)];
      }
    }
    assert allDocs[..|allDocs|] == allDocs;
  }

  /** After initialisation, a search sees exactly the documents just indexed. */
  method InitializeThenSearch(index: SearchIndex, newDocs: seq<DocContent>, query: string, fuzzy: FuzzySearch)
    returns (results: seq<SearchResult>)
    modifies index
    ensures results == SearchOver(Some(newDocs), query, fuzzy)
  {
    index.InitializeSearch(newDocs);
    results := index.SearchDocs(query, fuzzy);
  }

  // ---------------------------------------------------------- highlighting

  /** A piece of highlighted text: a character left as is, or a match wrapped in `<mark>`. */
  datatype Piece = Plain(c: char) | Marked(text: string)

  /** `q` occurs at `i` in `s`, ignoring ASCII letter case (the `i` flag). */
  predicate MatchesAt(s: string, q: string, i: nat) {
    i + |q| <= |s| && Lower(s[i..i + |q|]) == Lower(q)
  }

  /** The global replace: leftmost matches, scanning on past each one. */
  function Pieces(text: string, q: string, from: nat): (ps: seq<Piece>)
    requires |q| > 0 && from <= |text|
    decreases |text| - from
  {
    if from == |text| then []
    else if MatchesAt(text, q, from) then [Marked(text[from..from + |q|])] + Pieces(text, q, from + |q|)
    else [Plain(text[from])] + Pieces(text, q, from + 1)
  }

  function PieceText(p: Piece): string {
    match p
    case Plain(c) => [c]
    case Marked(t) => t
  }

  /** The text the pieces stand for, without markup. */
  function Unmarked(ps: seq<Piece>): string {
    if ps == [] then [] else PieceText(ps[0]) + Unmarked(ps[1..])
  }

  /** The text the pieces render to. */
  function Render(ps: seq<Piece>): string {
    if ps == [] then []
    else (match ps[0] case Plain(c) => [c] case Marked(t) => "<mark>" + t + "</mark>") + Render(ps[1..])
  }

  /** `highlightMatch(text, matches, query)`. */
  function HighlightMatch(text: string, query: Option<string>): string {
    if query.None? || |Trim(query.value)| < 2 then text
    else Render(Pieces(text, Trim(query.value), 0))
  }

  /** A missing query, or one shorter than two characters once trimmed, leaves the text unchanged. */
  lemma HighlightShortQuery(text: string, query: Option<string>)
    requires query.None? || |Trim(query.value)| < 2
    ensures HighlightMatch(text, query) == text
  {
  }

  /** Dropping the inserted tags gives back the input. */
  lemma {:induction false} PiecesUnmarked(text: string, q: string, from: nat)
    requires |q| > 0 && from <= |text|
    ensures Unmarked(Pieces(text, q, from)) == text[from..]
    decreases |text| - from
  {
    if from < |text| {
      if MatchesAt(text, q, from) {
        PiecesUnmarked(text, q, from + |q|);
        UnmarkedMatchStep(text, q, from);
      } else {
        PiecesUnmarked(text, q, from + 1);
        UnmarkedPlainStep(text, q, from);
      }
    }
  }

  lemma UnmarkedMatchStep(text: string, q: string, from: nat)
    requires |q| > 0 && from < |text| && MatchesAt(text, q, from)
    requires Unmarked(Pieces(text, q, from + |q|)) == text[from + |q|..]
    ensures Unmarked(Pieces(text, q, from)) == text[from..]
  {
    var rest := Pieces(text, q, from + |q|);
    var ps := [Marked(text[from..from + |q|])] + rest;
    assert Pieces(text, q, from) == ps;
    assert ps[1..] == rest;
    assert Unmarked(ps) == text[from..from + |q|] + Unmarked(rest);
    assert text[from..] == text[from..from + |q|] + text[from + |q|..];
  }

  lemma UnmarkedPlainStep(text: string, q: string, from: nat)
    requires |q| > 0 && from < |text| && !MatchesAt(text, q, from)
    requires Unmarked(Pieces(text, q, from + 1)) == text[from + 1..]
    ensures Unmarked(Pieces(text, q, from)) == text[from..]
  {
    var rest := Pieces(text, q, from + 1);
    var ps := [Plain(text[from])] + rest;
    assert Pieces(text, q, from) == ps;
    assert ps[1..] == rest;
    assert Unmarked(ps) == [text[from]] + Unmarked(rest);
    assert text[from..] == [text[from]] + text[from + 1..];
  }

  /** Every marked piece is a case-insensitive occurrence of the query. */
  lemma {:induction false} PiecesMarkMatches(text: string, q: string, from: nat, k: nat)
    requires |q| > 0 && from <= |text| && k < |Pieces(text, q, from)|
    ensures Pieces(text, q, from)[k].Marked? ==>
      Lower(Pieces(text, q, from)[k].text) == Lower(q) && |Pieces(text, q, from)[k].text| == |q|
    decreases |text| - from
  {
    if k > 0 {
      if MatchesAt(text, q, from) {
        PiecesMarkMatches(text, q, from + |q|, k - 1);
      } else {
        PiecesMarkMatches(text, q, from + 1, k - 1);
      }
    }
  }

  /** A character left plain does not start an occurrence of the query. */
  lemma {:induction false} PiecesPlainNoMatch(text: string, q: string, from: nat, k: nat)
    requires |q| > 0 && from <= |text| && k < |Pieces(text, q, from)|
    ensures Pieces(text, q, from)[k].Plain? ==>
      !MatchesAt(text, q, from + |Unmarked(Pieces(text, q, from)[..k])|)
    decreases |text| - from
  {
    var ps := Pieces(text, q, from);
    if k > 0 {
      var step := if MatchesAt(text, q, from) then |q| else 1;
      PiecesPlainNoMatch(text, q, from + step, k - 1);
      var rest := Pieces(text, q, from + step);
      assert ps[..k] == [ps[0]] + rest[..k - 1];
      assert ps[k] == rest[k - 1];
      assert Unmarked(ps[..k]) == Unmarked([ps[0]]) + Unmarked(rest[..k - 1]) by {
        UnmarkedAppend([ps[0]], rest[..k - 1]);
      }
      assert Unmarked([ps[0]]) == PieceText(ps[0]) + Unmarked([]);
      assert |PieceText(ps[0])| == step;
    }
  }

  lemma {:induction false} UnmarkedAppend(a: seq<Piece>, b: seq<Piece>)
    ensures Unmarked(a + b) == Unmarked(a) + Unmarked(b)
    decreases |a|
  {
    if a == [] {
      assert a + b == b;
    } else {
      UnmarkedAppend(a[1..], b);
      assert (a + b)[0] == a[0];
      assert (a + b)[1..] == a[1..] + b;
      assert Unmarked(a + b) == PieceText(a[0]) + Unmarked(a[1..] + b);
      assert Unmarked(a) == PieceText(a[0]) + Unmarked(a[1..]);
      assert PieceText(a[0]) + (Unmarked(a[1..]) + Unmarked(b)) == (PieceText(a[0]) + Unmarked(a[1..])) + Unmarked(b);
    }
  }
}
