# A documentation site's content core, in Dafny

The site serves a tree of Markdown files as documentation pages. This project
models the logic that sits between the files and the pages:

- how a file gets its slug, how a slug is resolved back to a file, and which
  title, category and order are inferred when the front matter leaves them out
  (`Markdown`);
- how the navigation forest is built from the flat list of documents, grouped
  by category, each item attached to its declared parent or made a root, and
  every list stably sorted by order (`Navigation`);
- the anchor ids of headings: the table of contents' scan with its
  `-1`, `-2`, … counter loop (`TableOfContents`), the renderer's text→id map
  and id lookup, the link and code-block rules (`DocumentRenderer`), and the
  regular expressions both run over the Markdown (`Scanning`);
- the client-side search: the case-insensitive substring tier, title hits
  first, at most ten results, the fuzzy fallback, `<mark>` highlighting and the
  replaceable index handle (`Search`), and the search dialog's preview snippet
  and state (`SearchModal`);
- the sidebar: the current section, the filtered and ordered categories, and
  the collapse state that toggles, collapse-all, collapse-category and the
  auto-expand effect change (`Sidebar`);
- the documents endpoint, which turns each body into one line of plain text
  for the search index (`DocsRoute`).

The docs directory is a map from relative path to the parsed file (front
matter and body). The Markdown stripper and the fuzzy search are outside
libraries and are taken as function parameters. `Strings`, `Seqs` and
`Sorting` hold the primitives: JavaScript's whitespace class and `trim`, ASCII
case mapping, `indexOf`/`lastIndexOf`, decimal rendering, filtering,
de-duplication, and `Array.prototype.sort` as a stable insertion sort.

Where state changes in place, the model changes state too:
- `SearchIndex` holds the index handle.
- `Dialog` holds the dialog's hooks.
- `SidebarState` holds the two collapsed sets.
- The loops of the heading scans, of `getDocBySlug`'s fallback chain and of
  the navigation passes are methods proved against the functions that specify
  them.

Where the documented design and the code differ, the model follows the code:
- `order` falls back to 999 only when absent in the document metadata. An
  order of 0 is kept there, but is read as 999 in the navigation and in the
  document list's sort.
- The document lookup tries only `README.md` and `Readme.md`, not every
  spelling of a README.
- When `x/index.md` and `x/README.md` both exist, the slug list holds one
  `x/index` and the lookup always settles on `x/index.md`. The choice
  follows the fallback order, not the file enumeration order.
- Headings are matched by the regular expression as written: `\s+` after the
  hashes may cross a line break. They are not read line by line.

## Model

| member | source | states |
|---|---|---|
| Markdown.SlugOfPlainFile | lib/markdown.ts:63-64 | a file whose name is not a README keeps its path without `.md` as its slug, in a folder and at the root |
| Markdown.SlugOfReadme | lib/markdown.ts:66 | `x/README.md`, in any letter case, gets the slug `x/index` |
| Markdown.SlugOfIndexFile | lib/markdown.ts:63-66 | `x/index.md` gets `x/index`, the same slug as a README in `x` |
| Markdown.SlugOfRootReadme | lib/markdown.ts:66 | at the root, a README and `index.md` both get `index` |
| Markdown.GetAllDocSlugs | lib/markdown.ts:60-72 | the slug list has no duplicates, holds the slug of every file, and every slug in it comes from some file |
| Markdown.GetAllDocSlugsOrder | lib/markdown.ts:71 | slugs are listed in the order of the first file producing each |
| Markdown.NormalizeSlug | lib/markdown.ts:94 | a normalised slug is never empty |
| Markdown.NormalizeIndexSuffix | lib/markdown.ts:94 | `s/index` and `s` normalise to the same slug |
| Markdown.NormalizeNormal | lib/markdown.ts:94 | a non-empty slug not ending in `/index` is left as it is |
| Markdown.FirstExisting | lib/markdown.ts:96-110 | the index of the first existing candidate, with every earlier candidate missing; none exactly when no candidate exists |
| Markdown.Resolve | lib/markdown.ts:96-110 | a resolved path exists and is a candidate; no result only when no candidate exists |
| Markdown.ResolveDocPath | lib/markdown.ts:96-110 | reassigning the path step by step ends on the first existing candidate |
| Markdown.ResolveCandidates | lib/markdown.ts:96-108 | the chain is `s.md`, `s/index.md`, `s/README.md`, `s/Readme.md`, first existing wins |
| Markdown.LastSegment | lib/markdown.ts:19 | the part after the last `/` is a suffix of the path without `/` |
| Markdown.DirName | lib/markdown.ts:119-121 | the path is the directory, `/` and last segment; a root file's directory is empty |
| Markdown.StripMd | lib/markdown.ts:64 | exactly one trailing `.md` is removed, other paths are kept |
| Markdown.Capitalize | lib/markdown.ts:29 | the first character upper-cased, the rest and the length kept |
| Markdown.FirstSegment | lib/markdown.ts:25-28 | the category folder is the prefix of the path before its first `/` |
| Markdown.ReplaceReadme | lib/markdown.ts:19 | a name without `readme` in any case is left unchanged |
| Markdown.StripEmphasis | lib/markdown.ts:18 | no `*`, `_` or backtick remains |
| Markdown.InferMissingMetadata | lib/markdown.ts:13-42 | a non-empty title or category is kept, else inferred; the category is the capitalised first segment in a subfolder and `General` at the root; order is 999 only when absent; slug, description and parent pass through |
| Markdown.InferredCategoryNonEmpty | lib/markdown.ts:22-33 | a relative path always gives a non-empty category |
| Markdown.InferredTitleFromHeading | lib/markdown.ts:16-18 | a title taken from a heading holds no `*`, `_` or backtick |
| Markdown.DocBySlug | lib/markdown.ts:92-127 | a failure reports `Document not found: <slug>`; a document carries the normalised slug |
| Markdown.DocBySlugResolves | lib/markdown.ts:94-126 | found exactly when a candidate exists; the document then has that file's body, its metadata under the normalised slug and its directory as `fileDir` |
| Markdown.GetDocBySlug | lib/markdown.ts:92-127 | the method computes `DocBySlug` |
| Markdown.LoadEach | lib/markdown.ts:131-133 | all results, one per slug, when nothing fails |
| Markdown.LoadAllAt | lib/markdown.ts:131-133 | position `i` holds the document slug `i` resolves to |
| Markdown.LoadAllFailure | lib/markdown.ts:131-133 | loading fails exactly when some slug resolves to no file |
| Markdown.LoadAllFirstFailure | lib/markdown.ts:131-133 | the error reported is that of the first slug that fails |
| Markdown.DocLeTotalPreorder | lib/markdown.ts:136-141 | the comparator is total and transitive |
| Markdown.GetAllDocsOrdered | lib/markdown.ts:129-142 | the list is a permutation of the loaded documents, ordered by category and, within a category, by `order \|\| 999` |
| Markdown.GetAllDocsStable | lib/markdown.ts:136-141 | documents the comparator ranks equal keep their slug order |
| Markdown.GetAllDocsFails | lib/markdown.ts:129-133 | the list fails exactly when some slug has no candidate file |
| Markdown.RootReadmeNotFound | lib/markdown.ts:94-111 | a README at the docs root without `index.md` or an `index` folder makes the whole list fail |
| Navigation.NavEntryOf | lib/markdown.ts:152-166 | no item exactly when none of `s.md`, `s/index.md`, `s/README.md` exists; an item keeps its slug, has a non-empty category and a non-zero order |
| Navigation.NavOrderZero | lib/markdown.ts:163 | an order of 0 becomes 999 in navigation |
| Navigation.ReadmeOnlyFolderSkipped | lib/markdown.ts:152-155 | a folder holding only `README.md` is found by `getDocBySlug` under `x/index` but skipped by the navigation lookup |
| Navigation.IndexSlugCandidates | lib/markdown.ts:152-154 | the navigation lookup of `x/index` tries `x/index.md`, `x/index/index.md`, `x/index/README.md` |
| Navigation.CollectedItems | lib/markdown.ts:149-169 | at most one item per slug |
| Navigation.CollectedItemsMembers | lib/markdown.ts:149-169 | an item is collected exactly when its slug is listed and resolves to it; unresolved slugs are skipped without failing |
| Navigation.CollectItems | lib/markdown.ts:149-169 | the push loop computes `CollectedItems` |
| Navigation.GroupByCategory | lib/markdown.ts:175-181 | keys in first-appearance order; each group holds exactly the items of its category in list order |
| Navigation.GroupStep | lib/markdown.ts:176-181 | one push keeps the grouping invariant, for a known and for a new category |
| Navigation.NavigationCategories | lib/markdown.ts:184 | each category with an item is listed once, and no empty one |
| Navigation.OrderLeTotalPreorder | lib/markdown.ts:190 | `a.order - b.order` orders totally |
| Navigation.BuildHierarchy | lib/markdown.ts:185-206 | the roots and the children lists are the filters of the order-sorted items |
| Navigation.PlaceAll | lib/markdown.ts:192-206 | after the loop each list holds exactly the sorted items pushed to it |
| Navigation.AttachStep | lib/markdown.ts:195-205 | an item goes to its parent's list when the parent is an item of the category, else to the roots |
| Navigation.PlacedOnce | lib/markdown.ts:192-206 | each item is a root exactly when it has no parent in the category, and a child of `p` exactly when its parent is `p` |
| Navigation.CycleNeverRoot | lib/markdown.ts:192-206 | the items of a parent cycle of any length, a self-parent included, never become roots |
| Navigation.ListsAreStableSorts | lib/markdown.ts:190-206 | roots and children lists are stable sorts by order of the matching items |
| Navigation.SortChildrenChangesNothing | lib/markdown.ts:209-216 | re-sorting the already sorted lists changes nothing |
| Navigation.Expand | lib/markdown.ts:186 | a node carries its item's title, slug, order and parent |
| Navigation.ExpandAll | lib/markdown.ts:209-219 | one node per item, same slugs in the same order |
| Navigation.NavigationOf | lib/markdown.ts:184-220 | one entry per category |
| Navigation.NavigationAt | lib/markdown.ts:184-219 | entry `i` is category `i` with the forest of its group |
| Navigation.BuildCategory | lib/markdown.ts:184-220 | one category's forest as specified |
| Navigation.BuildNavigation | lib/markdown.ts:171-222 | grouping then building each category computes `NavigationOf` |
| Navigation.GetDocNavigation | lib/markdown.ts:144-223 | collecting then building computes `DocNavigation` |
| Scanning.HeadingAt | components/TableOfContents.tsx:27-33 | a heading matches only at a line start; its level is the length of a run of 1 to max `#` followed by whitespace; its text is non-empty and within one line |
| Scanning.Headings | components/TableOfContents.tsx:27-32 | every match has a level from 1 to max and one-line, non-empty text |
| Scanning.NextFence | components/TableOfContents.tsx:24 | the first fence line at or after a position, none when there is none |
| Scanning.StripFences | components/TableOfContents.tsx:24 | stripping fences never lengthens the text |
| Scanning.StripFencesNoFence | components/TableOfContents.tsx:24 | text without fence lines is left unchanged |
| Scanning.CloseAt | components/TableOfContents.tsx:37-40 | the lazy part ends at the first closing delimiter on the same line |
| Scanning.UnwrapPairsPlain | components/TableOfContents.tsx:37-40 | text in which the opening delimiter never occurs is unchanged |
| Scanning.UnwrapLinksPlain | components/TableOfContents.tsx:39 | text without `[` is unchanged |
| TableOfContents.CleanTextPlain | components/TableOfContents.tsx:35-41 | heading text without `*`, `[` or backtick is only trimmed |
| TableOfContents.Hyphenate | components/TableOfContents.tsx:123 | no whitespace remains; every character is from the input or `-` |
| TableOfContents.GenerateId | components/TableOfContents.tsx:120-126 | ids consist of `a-z`, `0-9`, `_` and `-` only |
| TableOfContents.GenerateIdUntrimmed | components/TableOfContents.tsx:125 | the final trim never removes anything |
| TableOfContents.GenerateIdIdempotent | components/TableOfContents.tsx:120-126 | an id is its own id |
| TableOfContents.IdFixed | components/TableOfContents.tsx:120-126 | a string of id characters is its own id |
| TableOfContents.CandidateDistinct | components/TableOfContents.tsx:44-51 | `base`, `base-1`, `base-2`, … are pairwise distinct |
| TableOfContents.FreeFrom | components/TableOfContents.tsx:44-51 | the counter stops at the least value whose candidate is free |
| TableOfContents.UniqueIdOf | components/TableOfContents.tsx:44-51 | the chosen id is not yet used |
| TableOfContents.UniqueId | components/TableOfContents.tsx:44-51 | the counter loop terminates with the least free candidate |
| TableOfContents.AssignAt | components/TableOfContents.tsx:43-59 | each entry keeps its text and level and gets an id not used before it |
| TableOfContents.AssignDistinct | components/TableOfContents.tsx:40-53 | no two entries share an id |
| TableOfContents.AssignCandidates | components/TableOfContents.tsx:43-51 | each id is its base id, possibly with a counter suffix |
| TableOfContents.AssignFresh | components/TableOfContents.tsx:44-51 | a base id still free is kept unchanged |
| TableOfContents.TocIdsDistinct | components/TableOfContents.tsx:40-60 | the ids of one table are pairwise distinct |
| TableOfContents.TocItemsListHeadings | components/TableOfContents.tsx:24-59 | entry `i` is heading `i` outside fenced code: its cleaned text and its level from 1 to 6 |
| TableOfContents.ExtractTocItems | components/TableOfContents.tsx:20-63 | the effect computes `TocItems` |
| TableOfContents.ListHeadings | components/TableOfContents.tsx:32-60 | the scan loop computes the id assignment |
| TableOfContents.NextItem | components/TableOfContents.tsx:33-59 | one iteration: the heading's cleaned text and level, and the first free candidate of its base id, which is not yet used |
| DocumentRenderer.HeadingIds | components/DocumentRenderer.tsx:19-54 | the memo's loop computes the text→id map of the scan over the raw content |
| DocumentRenderer.IdMapKeys | components/DocumentRenderer.tsx:50 | the map has an entry for exactly the scanned texts |
| DocumentRenderer.IdMapLast | components/DocumentRenderer.tsx:50 | a text's entry is the id of its last heading |
| DocumentRenderer.IdMapValue | components/DocumentRenderer.tsx:50 | every entry is the id of a heading with that text |
| DocumentRenderer.IdMapInjective | components/DocumentRenderer.tsx:40-50 | distinct texts map to distinct ids |
| DocumentRenderer.SameIdsWithoutFences | components/DocumentRenderer.tsx:20-25 | without fenced code the renderer assigns the table of contents' ids in the same order |
| DocumentRenderer.RenderedHeadingId | components/DocumentRenderer.tsx:57-71 | the last heading with a text is rendered with the id the scan gave it |
| DocumentRenderer.DuplicateHeadingLosesAnchor | components/DocumentRenderer.tsx:50 | an earlier heading sharing its text with a later one is rendered with an id different from its table of contents link |
| DocumentRenderer.HeadingIdAtMatchesToc | components/DocumentRenderer.tsx:40-49 | with per-occurrence ids every heading carries its table of contents id, and the ids are distinct |
| DocumentRenderer.GetHeadingIdChars | components/DocumentRenderer.tsx:57-71 | every rendered id uses only `a-z`, `0-9`, `_` and `-` |
| DocumentRenderer.CandidateChars | components/DocumentRenderer.tsx:45 | a counter suffix keeps an id within that alphabet |
| DocumentRenderer.AssignIdChars | components/DocumentRenderer.tsx:40-49 | every scanned id is within that alphabet |
| DocumentRenderer.OpensInNewTab | components/DocumentRenderer.tsx:107-119 | a link opens in a new tab exactly when its href is missing, empty or does not start with `/` |
| DocumentRenderer.LanguageMatch | components/DocumentRenderer.tsx:124 | the match ends right after an occurrence of `language-` |
| DocumentRenderer.CodeLanguageOneLine | components/DocumentRenderer.tsx:124 | the language is what follows the last `language-`, or the whole class name without one |
| DocumentRenderer.ChartSource | components/DocumentRenderer.tsx:127 | exactly one final newline is removed |
| DocumentRenderer.RenderCode | components/DocumentRenderer.tsx:122-154 | a Mermaid diagram exactly for a non-inline `mermaid` block; a block has a language header exactly when the language is non-empty |
| Search.MatchKeys | lib/search.ts:45-56 | title, description and content keys listed exactly when that field contains the query, ignoring case |
| Search.ExactHits | lib/search.ts:44-60 | at most one hit per document |
| Search.ExactHitsMembers | lib/search.ts:44-60 | a document is a hit exactly when it matches on some key, and then with those keys |
| Search.CollectExact | lib/search.ts:38-60 | the push loop computes `ExactHits` |
| Search.TitleFirstTotalPreorder | lib/search.ts:73-76 | the comparator orders totally |
| Search.SearchOver | lib/search.ts:32-78 | at most 10 results |
| Search.SearchNothing | lib/search.ts:33-35 | no index or a whitespace-only query gives no results |
| Search.ExactResultsMatch | lib/search.ts:44-58 | each exact result contains the trimmed query in title, description or content, with exactly its matching keys |
| Search.FuzzyOnlyWithoutExact | lib/search.ts:62-70 | fuzzy results appear only when no document contains the query |
| Search.TitleHitsFirst | lib/search.ts:73-77 | title hits come first and each group keeps index order |
| Search.SearchIndex.constructor | lib/search.ts:25 | the handle starts unset |
| Search.SearchIndex.InitializeSearch | lib/search.ts:27-30 | the handle is replaced by the new documents |
| Search.SearchIndex.SearchDocs | lib/search.ts:32-78 | the method computes `SearchOver` on the current handle |
| Search.InitializeThenSearch | lib/search.ts:27-32 | after initialisation a search sees exactly the new documents |
| Search.HighlightShortQuery | lib/search.ts:80-83 | a missing query or one shorter than 2 once trimmed leaves the text unchanged |
| Search.PiecesUnmarked | lib/search.ts:88-89 | removing the inserted tags gives back the input |
| Search.PiecesMarkMatches | lib/search.ts:88-89 | every marked piece is a case-insensitive occurrence of the query |
| Search.PiecesPlainNoMatch | lib/search.ts:88-89 | no occurrence starts at a character left unmarked |
| Search.UnmarkedAppend | lib/search.ts:89 | the unmarked text of joined pieces is the join of their texts |
| SearchModal.SnippetQuery | components/SearchModal.tsx:65-66 | the query used is the trimmed query, when it has 2 or more characters |
| SearchModal.SnippetMatch | components/SearchModal.tsx:67-71 | a match position leaves room for the whole query |
| SearchModal.PreviewAroundMatch | components/SearchModal.tsx:65-78 | the snippet is `content[max(0,i-75)..min(len,i+q+75)]`, with `...` exactly on the cut sides, and contains the match |
| SearchModal.WindowContainsMatch | components/SearchModal.tsx:73-78 | a window around a match still contains it after ellipses are added |
| SearchModal.PreviewShortContent | components/SearchModal.tsx:83 | without a match, short content is returned whole |
| SearchModal.PreviewTruncated | components/SearchModal.tsx:83-87 | otherwise, when a space lies among the first `maxLength` characters past the first, the content up to the last such space, else its first `maxLength` characters, then `...`; never longer than `maxLength + 3` |
| SearchModal.Dialog.constructor | components/SearchModal.tsx:16-19 | empty query and results, nothing loading or loaded |
| SearchModal.Dialog.Open | components/SearchModal.tsx:24-26 | opening marks the index stale while loading; when it was ready, the search effect re-runs and clears the results |
| SearchModal.Dialog.Loaded | components/SearchModal.tsx:27-36 | success indexes the documents and marks them ready, and if they were not ready the results become the search for the current query over the new index; failure only clears loading |
| SearchModal.Dialog.SearchEffect | components/SearchModal.tsx:48-55 | results are the search when ready with a non-blank query, else empty |
| SearchModal.Dialog.SetQuery | components/SearchModal.tsx:48-55 | a changed query re-runs the search effect; the same query leaves the results as they are |
| SearchModal.Dialog.HandleClose | components/SearchModal.tsx:57-61 | closing clears query and results and keeps the rest |
| SearchModal.OpenSearchClose | components/SearchModal.tsx:23-61 | open, load, type and close: the search shown is over the loaded documents, and the dialog ends cleared |
| SearchModal.TypeBeforeLoad | components/SearchModal.tsx:23-55 | typing before the documents arrive shows nothing; once they arrive the search for the typed query is shown |
| Sidebar.CurrentSection | components/Sidebar.tsx:35-40 | financial or insurance exactly by their `/docs/` prefix, framework otherwise |
| Sidebar.FilteredNavigation | components/Sidebar.tsx:45-67 | no category is left empty |
| Sidebar.FilteredNavigationMembers | components/Sidebar.tsx:45-67 | a category is kept, with exactly its section items, exactly when it has some |
| Sidebar.FilteredItemsInSection | components/Sidebar.tsx:50-59 | every item shown lies in the section and is an original node of its category |
| Sidebar.CategoryOrderTotalPreorder | components/Sidebar.tsx:72-82 | the category comparator orders totally |
| Sidebar.SortedCategoriesOrder | components/Sidebar.tsx:72-82 | the sorted categories are the filtered ones, main categories first, each group in string order |
| Sidebar.BranchesIff | components/Sidebar.tsx:116-123 | a slug is gathered exactly when a node with children carries it at any depth |
| Sidebar.CollectSlugs | components/Sidebar.tsx:116-123 | the recursive collector adds exactly the branch slugs |
| Sidebar.AllBranchesIff | components/Sidebar.tsx:124 | collapse-all gathers the branch slugs of every category |
| Sidebar.KeySet | components/Sidebar.tsx:113 | the set of shown categories |
| Sidebar.CategoryItems | components/Sidebar.tsx:141 | a non-empty result is that category's forest |
| Sidebar.PageSlug | components/Sidebar.tsx:148 | one leading `/docs/` is removed |
| Sidebar.FindInSpec | components/Sidebar.tsx:153-167 | the search succeeds exactly when a node has the slug; the expanded nodes are branches other than the match |
| Sidebar.ExpandedCategoriesIff | components/Sidebar.tsx:152-176 | a category is expanded exactly when its forest holds the slug |
| Sidebar.ActivePageSlug | components/Sidebar.tsx:148 | an item's own link gives back its slug |
| Sidebar.Href | components/Sidebar.tsx:425 | an item links to `/docs/` and its slug |
| Sidebar.ActiveIff | components/Sidebar.tsx:425-426 | active exactly when the path is `/docs/` followed by the slug |
| Sidebar.Toggle | components/Sidebar.tsx:92-110 | membership of the key flips, every other key is unchanged |
| Sidebar.SidebarState.constructor | components/Sidebar.tsx:29-30 | nothing collapsed |
| Sidebar.SidebarState.ToggleCategory | components/Sidebar.tsx:92-100 | the category set is toggled at one key, items unchanged |
| Sidebar.SidebarState.ToggleItem | components/Sidebar.tsx:102-110 | the item set is toggled at one key, categories unchanged |
| Sidebar.SidebarState.CollapseAll | components/Sidebar.tsx:112-126 | every shown category and every branch slug collapsed, nothing else |
| Sidebar.SidebarState.CollapseCategoryLevel | components/Sidebar.tsx:129-144 | only adds: the category and the branch slugs beneath it |
| Sidebar.SidebarState.FindInItems | components/Sidebar.tsx:153-167 | reports whether the slug is found and expands exactly the ancestors of the first match |
| Sidebar.SidebarState.AutoExpand | components/Sidebar.tsx:147-178 | nothing for an empty slug; otherwise removes each category holding the slug and the ancestors of each match |
| Sidebar.FindInLeadsTo | components/Sidebar.tsx:153-167 | the path the search returns is a chain of ancestors from the top level down to a node with the slug |
| Sidebar.ExpandedItemsHas | components/Sidebar.tsx:152-176 | every category's search path is among the expanded items |
| Sidebar.ActivePageExpanded | components/Sidebar.tsx:147-176 | after the effect the category of the active page is expanded, the search in it finds the page's chain of ancestors, and every ancestor on it is expanded |
| DocsRoute.NewlinesToSpaces | app/api/docs/route.ts:18 | each newline becomes a space, all else kept |
| DocsRoute.CollapseSpaces | app/api/docs/route.ts:19 | whitespace remains only as single spaces, and the result starts with whitespace exactly when the input does; `DocsRoute.CollapseSpacesWords` adds that the words are kept, so each whitespace run becomes exactly one space |
| DocsRoute.BlankRun | app/api/docs/route.ts:17 | a match starts with a newline, ends with a newline and holds only whitespace; none starts at another character |
| DocsRoute.CollapseBlankLinesKeepsText | app/api/docs/route.ts:17 | the first step keeps every non-whitespace character, in order |
| DocsRoute.NewlinesToSpacesKeepsText | app/api/docs/route.ts:18 | the second step keeps every non-whitespace character, in order |
| DocsRoute.CollapseSpacesKeepsText | app/api/docs/route.ts:19 | the third step keeps every non-whitespace character, in order |
| DocsRoute.TrimKeepsText | app/api/docs/route.ts:20 | trimming keeps every non-whitespace character, in order |
| DocsRoute.WordsFromAreWords | app/api/docs/route.ts:19 | the words of a text, maximal runs of non-whitespace in order, are non-empty and hold no whitespace |
| DocsRoute.CollapseBlankLinesWords | app/api/docs/route.ts:17 | the first step keeps the words, in order |
| DocsRoute.NewlinesToSpacesWords | app/api/docs/route.ts:18 | the second step keeps the words, in order |
| DocsRoute.CollapseSpacesWords | app/api/docs/route.ts:19 | the third step keeps the words, in order: no two words are merged and none is split |
| DocsRoute.TrimWords | app/api/docs/route.ts:20 | trimming keeps the words, in order |
| DocsRoute.CleanUpWords | app/api/docs/route.ts:15-20 | the clean-up keeps the words, in order; with `DocsRoute.CleanUpShape`, the result is the input's words separated by single spaces |
| DocsRoute.CleanUpKeepsText | app/api/docs/route.ts:15-20 | the clean-up drops only whitespace: the non-whitespace characters of the text are those of the input, in order |
| DocsRoute.CleanUpShape | app/api/docs/route.ts:17-20 | the text has no newline, single spaces only and no whitespace at either end |
| DocsRoute.CollapseBlankLinesNoNewline | app/api/docs/route.ts:17 | text without newlines passes the first step unchanged |
| DocsRoute.CollapseSpacesSingleSpaced | app/api/docs/route.ts:19 | single-spaced text passes the third step unchanged |
| DocsRoute.CleanUpIdempotent | app/api/docs/route.ts:17-20 | cleaning twice equals cleaning once |
| DocsRoute.Get | app/api/docs/route.ts:23-41 | status 500 with the fixed error exactly when loading fails; otherwise each document keeps its place and metadata, and its content is the cleaned-up stripped body |
| DocsRoute.GetFailsIff | app/api/docs/route.ts:23-41 | the route fails exactly when some listed slug has no file |
| Strings.Trim | lib/search.ts:37 | no whitespace at either end |
| Strings.TrimEmptyIffAllSpace | lib/search.ts:33 | trimming leaves nothing exactly for whitespace-only text |
| Strings.Lower | lib/search.ts:45-47 | ASCII letters lowered, length kept |
| Strings.IndexOf | components/SearchModal.tsx:69 | the first occurrence, or none when there is none |
| Strings.LastIndexOf | components/DocumentRenderer.tsx:124 | the last occurrence, or none |
| Strings.FindLastChar | components/SearchModal.tsx:86 | the last position of a character, or none |
| Strings.ParseDecimalOfDecimal | components/TableOfContents.tsx:49 | reading a rendered counter gives it back |
| Strings.DecimalInjective | components/TableOfContents.tsx:49 | distinct counters render differently |
| Strings.StrLeTotal | lib/markdown.ts:138 | the string order is total |
| Strings.StrLeTransitive | lib/markdown.ts:138 | and transitive |
| Strings.StrLeAntisymmetric | components/Sidebar.tsx:81 | and antisymmetric |
| Seqs.Dedup | lib/markdown.ts:71 | no duplicates, same members |
| Seqs.DedupOrder | lib/markdown.ts:71 | first-occurrence order is kept |
| Seqs.Take | lib/search.ts:77 | the first `n` elements, or all when fewer |
| Sorting.SortByMultiset | lib/markdown.ts:190 | sorting permutes |
| Sorting.SortBySorted | lib/markdown.ts:190 | a total preorder sorts |
| Sorting.SortByStable | lib/markdown.ts:136-141 | elements ranked equal keep their order |
| Sorting.FilterSortBy | lib/markdown.ts:190-206 | filtering a sorted list equals sorting the filtered list |
| Sorting.SortBySortedIsIdentity | lib/markdown.ts:212 | a sorted list is its own sort |
| Sorting.SortByIdempotent | lib/markdown.ts:212 | sorting twice equals sorting once |

## Left out

- Walking, statting and reading the docs directory (lib/markdown.ts:74-90). The directory is a map from relative path to parsed file.
- `gray-matter`: its result is the `SourceFile` record. Front-matter values of other types than those the code reads are not modelled.
- `Markdown.GetAllDocsFails`, `DocsRoute.GetFailsIff` and `Navigation.CollectedItemsMembers`: the model has no front matter that fails to parse, so their "exactly when" holds only for files that parse. In the source, `matter` throws on malformed YAML. In `getDocBySlug` that call is outside any `try` (lib/markdown.ts:115), so `Promise.all` rejects (:131) and the documents endpoint answers 500 (app/api/docs/route.ts:38-41). In `getDocNavigation` the call is inside the `try`/`catch` (lib/markdown.ts:150-168), so that slug is skipped.
- The Fuse.js fuzzy tier: a function parameter whose result is cut to 10 items. Its weights, threshold and scores are not modelled.
- `remove-markdown`: a function parameter. Only the clean-up of its output is modelled.
- `localeCompare` is modelled by lexicographic order on character values (`Strings.StrLe`). Case mapping is ASCII only, so a character whose lower case has another length is not modelled.
- UTF-16 code units: JavaScript measures, indexes and slices strings in UTF-16 code units, while the model counts characters. The models agree only on text without characters outside the Basic Multilingual Plane. For an emoji query, for example, JavaScript gives `trim().length` 2, so `highlightMatch` and the preview treat it as long enough, and the model does not. The preview's 75-character context and `maxLength` cut, and the string order for such characters against U+E000 to U+FFFF, differ the same way.
- A failed `/api/docs` response: the dialog parses the 500 body as JSON and hands it to `initializeSearch`. The model treats any failure of the fetch as the `catch` branch (`SearchModal.Dialog.Loaded` with a failure).
- `Navigation.NavNode` carries no `category` field. The source nodes spread the whole item, category included, but nothing in the core reads a node's category.
- `Navigation.GroupByCategory`: groups every category normally. In the source, a category that names an inherited `Object.prototype` member (`constructor`, `toString`, `__proto__`, ...) makes `itemsByCategory[category]` truthy, so the `= []` initialisation is skipped and `.push` throws a TypeError, and `getDocNavigation` throws (lib/markdown.ts:177-180). Likewise, the sidebar's `filtered[category] = ...` with category `__proto__` (components/Sidebar.tsx:62) sets the object's prototype instead of adding a key.
- JavaScript object key order puts integer-like keys first. The model keeps categories in first-appearance order.
- `path.join` and `path.relative` normalisation (`..`, duplicate `/`) is not modelled. Paths are `/`-separated and relative.
- `Markdown.DocLe`: does not model the `'zzz'` fallback for an empty category. A relative path always yields a non-empty category (`Markdown.InferredCategoryNonEmpty`), so the fallback never applies.
- `Markdown.InferMissingMetadata`: the result carries no `fileDir`. `getDocBySlug` adds it, and `Markdown.DocBySlugResolves` states it.
- `Navigation.Expand`: follows children lists at most as deep as the category has items. Deeper nesting needs a parent cycle. Items on a cycle are never roots (`Navigation.CycleNeverRoot`). Since each item has one parent, no root's descendants lie on a cycle, but that last step is not proved. Node sharing between lists is not modelled, since slugs are distinct.
- Rendering, DOM and async machinery are not modelled: JSX, styles, `Dialog`, `Link`, `usePathname`, `fetch` and `Promise.all`. `Promise.all` is sequential here and reports the first failure in slug order.
- The table of contents' `IntersectionObserver`, timers and `handleClick` (components/TableOfContents.tsx:65-146) are not modelled.
- The heading text React passes to `getHeadingId` (components/DocumentRenderer.tsx:167-169) is a parameter.
- The input focus effect (components/SearchModal.tsx:41-45), the mobile menu, the search-open flag and `getSectionTitle` (components/Sidebar.tsx:85-90) are not modelled.
- `TableOfContents.TocItems`: that lines inside fenced code give no entry holds by construction, since the scan runs over the stripped text. No separate lemma states it.
- components/MermaidChart.tsx and the layout files are not part of this model.

## Findings

| source | as written | input that shows it | evidently intended | confidence | as-written member | corrected member |
|---|---|---|---|---|---|---|
| components/DocumentRenderer.tsx:50 | `idMap` is keyed by heading text, and `getHeadingId` looks the text up (57-71). All headings sharing a text are rendered with the id of the last one. | a page with two `## Setup` headings: the table of contents links `#setup` and `#setup-1`, both headings render as `id="setup-1"` | the `k`-th heading carries the `k`-th id of the scan, the one its table of contents entry links to | not executed | DocumentRenderer.DuplicateHeadingLosesAnchor | DocumentRenderer.HeadingIdAtMatchesToc |

Other behaviours the model reproduces rather than corrects:
- A folder whose README is spelled `readme.md` gets the slug `x/index`. `getDocBySlug` tries only `README.md` and `Readme.md`, so that file is not found. The document list then fails, and the documents endpoint answers 500.
- A README at the docs root (in any letter case) without a root `index.md` gets the slug `index`. `getDocBySlug` then tries `index.md`, `index/index.md`, `index/README.md` and `index/Readme.md`, finds none and throws. The document list fails and the documents endpoint answers 500 (`Markdown.RootReadmeNotFound`).
- When both `a.md` and `a/index.md` exist, the slug `a/index` resolves to `a.md`.
- `fileDir` is computed but nothing in the core reads it.
