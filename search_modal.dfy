/**
 * The search dialog: the preview snippet shown under each result, and the
 * dialog's state (query, results, whether the index is ready) as the effects
 * and the close handler update it.
 */
module SearchModal {
  import opened Wrappers
  import opened Strings
  import opened Markdown
  import opened Search

  // --------------------------------------------------------------- preview

  /** How many characters of context the snippet keeps on each side of the match. */
  const Context: nat := 75

  /** The trimmed query a snippet is searched for, when it is long enough (two characters or more). */
  function SnippetQuery(searchQuery: Option<string>): (q: Option<string>)
    ensures q.Some? ==> |q.value| >= 2 && searchQuery.Some? && q.value == Trim(searchQuery.value)
    ensures q.None? ==> searchQuery.None? || |Trim(searchQuery.value)| < 2
  {
    if searchQuery.Some? && |Trim(searchQuery.value)| >= 2 then Some(Trim(searchQuery.value)) else None
  }

  /** Where the first case-insensitive occurrence of the snippet query lies in `content`. */
  function SnippetMatch(content: string, searchQuery: Option<string>): (i: Option<nat>)
    ensures i.Some? ==> SnippetQuery(searchQuery).Some?
    ensures i.Some? ==> i.value + |SnippetQuery(searchQuery).value| <= |content|
  {
    match SnippetQuery(searchQuery)
    case None => None
    case Some(q) => IndexOf(Lower(content), Lower(q))
  }

  /** The snippet's window: up to 75 characters on each side of the match, clipped to the content. */
  function WindowStart(i: nat): nat {
    if i >= Context then i - Context else 0
  }

  function WindowEnd(content: string, i: nat, q: string): nat {
    if i + |q| + Context <= |content| then i + |q| + Context else |content|
  }

  /** Ellipses mark the sides where content was cut away. */
  function Ellipsis(cut: bool): string {
    if cut then "..." else ""
  }

  /** `generatePreview`: a window around the first match of the query, else the start of the content. */
  function GeneratePreview(content: string, maxLength: nat, searchQuery: Option<string>): (preview: string)
  {
    match SnippetMatch(content, searchQuery)
    case Some(i) =>
      var q := SnippetQuery(searchQuery).value;
      var start := WindowStart(i);
      var end := WindowEnd(content, i, q);
      Ellipsis(start > 0) + content[start..end] + Ellipsis(end < |content|)
    case None =>
      if |content| <= maxLength then content
      else
        var truncated := content[..maxLength];
        match FindLastChar(truncated, ' ')
        case Some(k) => if k > 0 then truncated[..k] + "..." else truncated + "..."
        case None => truncated + "..."
  }

  /**
   * Around a match at `i`: the window reaches from `max(0, i - 75)` to
   * `min(|content|, i + |q| + 75)`, with `...` on exactly the sides that were
   * cut, and the preview contains the whole match.
   */
  lemma PreviewAroundMatch(content: string, maxLength: nat, searchQuery: Option<string>)
    requires SnippetMatch(content, searchQuery).Some?
    ensures var i := SnippetMatch(content, searchQuery).value;
      var q := Trim(searchQuery.value);
      var start := (if i >= 75 then i - 75 else 0);
      var end := (if i + |q| + 75 <= |content| then i + |q| + 75 else |content|);
      start <= i && i + |q| <= end &&
      GeneratePreview(content, maxLength, searchQuery)
        == (if start > 0 then "..." else "") + content[start..end] + (if end < |content| then "..." else "")
    ensures Contains(Lower(GeneratePreview(content, maxLength, searchQuery)), Lower(Trim(searchQuery.value)))
    ensures |GeneratePreview(content, maxLength, searchQuery)| <= |Trim(searchQuery.value)| + 156
  {
    var i := SnippetMatch(content, searchQuery).value;
    var q := Trim(searchQuery.value);
    var start := WindowStart(i);
    var end := WindowEnd(content, i, q);
    assert SnippetQuery(searchQuery).value == q;
    var preview := GeneratePreview(content, maxLength, searchQuery);
    assert preview == Ellipsis(start > 0) + content[start..end] + Ellipsis(end < |content|);
    assert |preview| <= 3 + (end - start) + 3;
    WindowContainsMatch(content, q, i, start, end, Ellipsis(start > 0), Ellipsis(end < |content|));
  }

  /** A window holding an occurrence still holds it, whatever is put around it. */
  lemma WindowContainsMatch(content: string, q: string, i: nat, start: nat, end: nat, pre: string, post: string)
    requires OccursAt(Lower(content), Lower(q), i)
    requires start <= i && i + |q| <= end <= |content|
    ensures Contains(Lower(pre + content[start..end] + post), Lower(q))
  {
    var preview := pre + content[start..end] + post;
    var at := |pre| + (i - start);
    assert preview[at..at + |q|] == content[i..i + |q|];
    LowerSlice(preview, at, at + |q|);
    LowerSlice(content, i, i + |q|);
    assert OccursAt(Lower(preview), Lower(q), at);
    ContainsAt(Lower(preview), Lower(q), at);
  }

  /** Without a usable match, content no longer than `maxLength` is shown whole. */
  lemma PreviewShortContent(content: string, maxLength: nat, searchQuery: Option<string>)
    requires SnippetMatch(content, searchQuery).None? && |content| <= maxLength
    ensures GeneratePreview(content, maxLength, searchQuery) == content
  {
  }

  /**
   * Without a usable match, longer content is cut to its first `maxLength`
   * characters, then back to the last space among them when that space is not
   * the first character, and `...` is appended.
   */
  lemma PreviewTruncated(content: string, maxLength: nat, searchQuery: Option<string>)
    requires SnippetMatch(content, searchQuery).None? && |content| > maxLength
    ensures |GeneratePreview(content, maxLength, searchQuery)| <= maxLength + 3
    ensures (forall j :: 0 < j < maxLength ==> content[j] != ' ') ==>
      GeneratePreview(content, maxLength, searchQuery) == content[..maxLength] + "..."
    ensures (exists j :: 0 < j < maxLength && content[j] == ' ') ==>
      exists k :: 0 < k < maxLength && content[k] == ' ' &&
        (forall j :: k < j < maxLength ==> content[j] != ' ') &&
        GeneratePreview(content, maxLength, searchQuery) == content[..k] + "..."
  {
    var truncated := content[..maxLength];
    match FindLastChar(truncated, ' ')
    case Some(k) =>
      assert forall j :: k < j < maxLength ==> content[j] == truncated[j];
      if k > 0 {
        assert truncated[..k] == content[..k];
      } else {
        assert forall j :: 0 < j < maxLength ==> content[j] == truncated[j];
      }
    case None =>
      forall j | 0 < j < maxLength ensures content[j] != ' ' {
        assert content[j] == truncated[j];
      }
  }

  // ----------------------------------------------------------- dialog state

  /**
   * The dialog's state hooks. The search effect depends on the query and on
   * readiness, so it re-runs exactly when a setter changes one of them.
   */
  class Dialog {
    var query: string
    var results: seq<SearchResult>
    var isLoading: bool
    var docsInitialized: bool

    /** The results the search effect derives from the current query, readiness and index. */
    ghost predicate Settled(index: SearchIndex, fuzzy: FuzzySearch)
      reads this, index
    {
      results == (if docsInitialized && Trim(query) != "" then SearchOver(index.docs, query, fuzzy) else [])
    }

    /** A fresh dialog: empty query, no results, nothing loaded. */
    constructor()
      ensures query == "" && results == [] && !isLoading && !docsInitialized
    {
      query := "";
      results := [];
      isLoading := false;
      docsInitialized := false;
    }

    /**
     * Opening the dialog: the index is marked stale while the documents are
     * fetched; when it was ready, the search effect re-runs and clears the results.
     */
    method Open(index: SearchIndex, fuzzy: FuzzySearch)
      modifies this
      ensures isLoading && !docsInitialized && query == old(query)
      ensures results == (if old(docsInitialized) then [] else old(results))
      ensures old(Settled(index, fuzzy)) ==> Settled(index, fuzzy)
    {
      isLoading := true;
      var wasReady := docsInitialized;
      docsInitialized := false;
      if wasReady {
        SearchEffect(index, fuzzy);
      }
    }

    /**
     * The fetch settling: on success the index is rebuilt from the documents
     * and marked ready, and when it was not ready before the search effect
     * re-runs over the new index; on failure only the loading flag is cleared.
     */
    method Loaded(index: SearchIndex, fetched: Result<seq<DocContent>, string>, fuzzy: FuzzySearch)
      modifies this, index
      ensures !isLoading && query == old(query)
      ensures fetched.Success? ==> docsInitialized && index.docs == Some(fetched.value)
      ensures fetched.Success? && !old(docsInitialized) ==> Settled(index, fuzzy)
      ensures fetched.Success? && old(docsInitialized) ==> results == old(results)
      ensures fetched.Failure? ==>
        docsInitialized == old(docsInitialized) && index.docs == old(index.docs) && results == old(results)
    {
      if fetched.Success? {
        index.InitializeSearch(fetched.value);
        var wasReady := docsInitialized;
        docsInitialized := true;
        isLoading := false;
        if !wasReady {
          SearchEffect(index, fuzzy);
        }
      } else {
        isLoading := false;
      }
    }

    /** The search effect: the search when ready with a non-blank query, else nothing. */
    method SearchEffect(index: SearchIndex, fuzzy: FuzzySearch)
      modifies this
      ensures Settled(index, fuzzy)
      ensures |results| <= 10
      ensures query == old(query) && docsInitialized == old(docsInitialized) && isLoading == old(isLoading)
    {
      if docsInitialized && Trim(query) != "" {
        results := index.SearchDocs(query, fuzzy);
      } else {
        results := [];
      }
    }

    /** Typing into the input: a changed query re-runs the search effect; the same query changes nothing. */
    method SetQuery(q: string, index: SearchIndex, fuzzy: FuzzySearch)
      modifies this
      ensures query == q
      ensures q != old(query) ==> Settled(index, fuzzy)
      ensures q == old(query) ==> results == old(results)
      ensures old(Settled(index, fuzzy)) ==> Settled(index, fuzzy)
      ensures docsInitialized == old(docsInitialized) && isLoading == old(isLoading)
    {
      if q != query {
        query := q;
        SearchEffect(index, fuzzy);
      }
    }

    /** `handleClose`: the query and the results are cleared before the dialog is closed. */
    method HandleClose()
      modifies this
      ensures query == "" && results == []
      ensures docsInitialized == old(docsInitialized) && isLoading == old(isLoading)
    {
      query := "";
      results := [];
    }
  }

  /**
   * Opening, loading, typing and closing: the search shown is over exactly the
   * fetched documents, and closing the dialog clears it again.
   */
  method OpenSearchClose(dialog: Dialog, index: SearchIndex, docs: seq<DocContent>, q: string, fuzzy: FuzzySearch)
    returns (shown: seq<SearchResult>)
    modifies dialog, index
    ensures shown == (if Trim(q) != "" then SearchOver(Some(docs), q, fuzzy) else [])
    ensures dialog.query == "" && dialog.results == []
  {
    dialog.Open(index, fuzzy);
    dialog.Loaded(index, Success(docs), fuzzy);
    dialog.SetQuery(q, index, fuzzy);
    shown := dialog.results;
    dialog.HandleClose();
  }

  /**
   * Typing before the documents arrive: nothing is shown while the index is
   * not ready, and the search for the typed query appears once it is.
   */
  method TypeBeforeLoad(index: SearchIndex, docs: seq<DocContent>, q: string, fuzzy: FuzzySearch)
    returns (pending: seq<SearchResult>, shown: seq<SearchResult>)
    modifies index
    ensures pending == []
    ensures shown == (if Trim(q) != "" then SearchOver(Some(docs), q, fuzzy) else [])
  {
    var dialog := new Dialog();
    dialog.Open(index, fuzzy);
    dialog.SetQuery(q, index, fuzzy);
    pending := dialog.results;
    dialog.Loaded(index, Success(docs), fuzzy);
    shown := dialog.results;
  }
}
