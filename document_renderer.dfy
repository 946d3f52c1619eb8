/**
 * The logic inside the document page renderer: the heading-id map computed
 * from the raw Markdown, the id lookup used when a heading is rendered, the
 * rule that sends links to a new tab, and how a code element's language and
 * Mermaid source are read.
 */
module DocumentRenderer {
  import opened Wrappers
  import opened Strings
  import opened Seqs
  import opened Scanning
  import opened TableOfContents

  // ------------------------------------------------------------ heading ids

  /** The headings the renderer scans: the raw content, fenced code included. */
  function RendererHeadings(content: string): seq<Heading> {
    Headings(content, 0, 6)
  }

  /** The text and id the scan assigns to each heading, under the table of contents' rule. */
  function RendererItems(content: string): (items: seq<TocItem>)
    ensures |items| == |RendererHeadings(content)|
  {
    Assign({}, Entries(RendererHeadings(content)))
  }

  /** `idMap`: cleaned heading text to id, a later heading with the same text overwriting an earlier one. */
  function IdMap(items: seq<TocItem>): map<string, string> {
    if items == [] then map[]
    else
      var last := items[|items| - 1];
      IdMap(items[..|items| - 1])[last.text := last.id]
  }

  /** The `headingIds` memo: one iteration per heading match, adding to `usedIds` and `idMap`. */
  method HeadingIds(content: string) returns (idMap: map<string, string>)
    ensures idMap == IdMap(RendererItems(content))
  {
    var hs := Headings(content, 0, 6);
    ghost var done: seq<TocItem> := [];
    var usedIds: set<string> := {};
    idMap := map[];
    var i := 0;
    while i < |hs|
      invariant i <= |hs|
      invariant Scanned(Entries(hs), i, usedIds, done)
      invariant idMap == IdMap(done)
    {
      var item := NextItem(usedIds, hs, i);
      EntriesAt(hs, i);
      ScanStep(Entries(hs), i, usedIds, done);
      usedIds := usedIds + {item.id};
      idMap := idMap[item.text := item.id];
      IdMapSnoc(done, item);
      done := done + [item];
      i := i + 1;
    }
    ScanDone(Entries(hs), usedIds, done);
  }

  /** After `i` headings, `done` holds their items and `used` their ids. */
  ghost predicate Scanned(es: seq<Entry>, i: nat, used: set<string>, done: seq<TocItem>) {
    i <= |es| && done + Assign(used, es[i..]) == Assign({}, es)
  }

  lemma ScanStep(es: seq<Entry>, i: nat, used: set<string>, done: seq<TocItem>)
    requires i < |es| && Scanned(es, i, used, done)
    ensures var id := UniqueIdOf(used, es[i].Base());
      Scanned(es, i + 1, used + {id}, done + [TocItem(id, es[i].text, es[i].level)])
  {
    AssignStep(used, es, i);
  }

  lemma ScanDone(es: seq<Entry>, used: set<string>, done: seq<TocItem>)
    requires Scanned(es, |es|, used, done)
    ensures done == Assign({}, es)
  {
    assert es[|es|..] == [];
  }

  lemma IdMapSnoc(done: seq<TocItem>, item: TocItem)
    ensures IdMap(done + [item]) == IdMap(done)[item.text := item.id]
  {
    assert (done + [item])[..|done|] == done;
  }

  /** The map has an entry for exactly the texts of the scanned headings. */
  lemma {:induction false} IdMapKeys(items: seq<TocItem>, k: string)
    ensures k in IdMap(items) <==> exists i :: 0 <= i < |items| && items[i].text == k
  {
    if items != [] {
      var init := items[..|items| - 1];
      IdMapKeys(init, k);
      if k in IdMap(init) {
        var i :| 0 <= i < |init| && init[i].text == k;
        assert items[i].text == k;
      }
      if exists i :: 0 <= i < |items| && items[i].text == k {
        var i :| 0 <= i < |items| && items[i].text == k;
        if i < |init| {
          assert init[i].text == k;
        }
      }
    }
  }

  /** A text's entry is the id of its last heading. */
  lemma {:induction false} IdMapLast(items: seq<TocItem>, i: nat)
    requires i < |items|
    requires forall j :: i < j < |items| ==> items[j].text != items[i].text
    ensures items[i].text in IdMap(items) && IdMap(items)[items[i].text] == items[i].id
  {
    if i < |items| - 1 {
      var init := items[..|items| - 1];
      IdMapLast(init, i);
    }
  }

  /** Every entry is the id of some heading with that text. */
  lemma {:induction false} IdMapValue(items: seq<TocItem>, k: string)
    requires k in IdMap(items)
    ensures exists i :: 0 <= i < |items| && items[i].text == k && IdMap(items)[k] == items[i].id
  {
    var last := items[|items| - 1];
    if k != last.text {
      var init := items[..|items| - 1];
      IdMapValue(init, k);
      var i :| 0 <= i < |init| && init[i].text == k && IdMap(init)[k] == init[i].id;
      assert items[i] == init[i];
    }
  }

  /** Distinct heading texts are mapped to distinct ids. */
  lemma IdMapInjective(content: string, k1: string, k2: string)
    requires k1 in IdMap(RendererItems(content)) && k2 in IdMap(RendererItems(content)) && k1 != k2
    ensures IdMap(RendererItems(content))[k1] != IdMap(RendererItems(content))[k2]
  {
    var items := RendererItems(content);
    IdMapValue(items, k1);
    IdMapValue(items, k2);
    var i :| 0 <= i < |items| && items[i].text == k1 && IdMap(items)[k1] == items[i].id;
    var j :| 0 <= j < |items| && items[j].text == k2 && IdMap(items)[k2] == items[j].id;
    AssignDistinct({}, Entries(RendererHeadings(content)));
  }

  /** Without fenced code the renderer assigns the same ids, in the same order, as the table of contents. */
  lemma SameIdsWithoutFences(content: string)
    requires forall p :: !FenceAt(content, p)
    ensures RendererItems(content) == TocItems(content)
  {
    StripFencesNoFence(content, 0);
    assert content[0..] == content;
  }

  /** `getHeadingId`: the id recorded for the cleaned text when it is non-empty, else the slugified text. */
  function GetHeadingId(idMap: map<string, string>, text: string): (id: string) {
    var cleanText := CleanText(text);
    if cleanText in idMap && idMap[cleanText] != "" then idMap[cleanText] else GenerateId(cleanText)
  }

  /**
   * A heading rendered with the text of the last scanned heading carrying
   * that cleaned text gets exactly the id the scan assigned to it.
   */
  lemma RenderedHeadingId(content: string, text: string, i: nat)
    requires i < |RendererItems(content)|
    requires CleanText(text) == RendererItems(content)[i].text
    requires forall j :: i < j < |RendererItems(content)| ==> RendererItems(content)[j].text != RendererItems(content)[i].text
    ensures GetHeadingId(IdMap(RendererItems(content)), text) == RendererItems(content)[i].id
  {
    var items := RendererItems(content);
    var es := Entries(RendererHeadings(content));
    IdMapLast(items, i);
    if items[i].id == "" {
      AssignCandidates({}, es, i);
      AssignAt({}, es, i);
      var n: nat :| items[i].id == Candidate(es[i].Base(), n);
      assert n == 0;
    }
  }

  /**
   * As written, two headings with the same cleaned text are both rendered
   * with the later heading's id, so the earlier table of contents entry
   * links to an id no heading carries.
   */
  lemma DuplicateHeadingLosesAnchor(content: string, text: string, i: nat, j: nat)
    requires forall p :: !FenceAt(content, p)
    requires i < j < |RendererItems(content)|
    requires CleanText(text) == RendererItems(content)[i].text == RendererItems(content)[j].text
    requires forall k :: j < k < |RendererItems(content)| ==> RendererItems(content)[k].text != RendererItems(content)[j].text
    ensures i < |TocItems(content)| && GetHeadingId(IdMap(RendererItems(content)), text) != TocItems(content)[i].id
  {
    RenderedHeadingId(content, text, j);
    SameIdsWithoutFences(content);
    AssignDistinct({}, Entries(RendererHeadings(content)));
  }

  /** The intended lookup: the `k`-th heading rendered takes the `k`-th id of the scan. */
  function HeadingIdAt(content: string, k: nat): (id: string)
    requires k < |RendererHeadings(content)|
  {
    RendererItems(content)[k].id
  }

  /** With per-occurrence ids, headings carry distinct ids, each the one its table of contents entry links to. */
  lemma HeadingIdAtMatchesToc(content: string, i: nat, j: nat)
    requires forall p :: !FenceAt(content, p)
    requires i < j < |RendererHeadings(content)|
    ensures j < |TocItems(content)|
    ensures HeadingIdAt(content, i) == TocItems(content)[i].id
    ensures HeadingIdAt(content, j) == TocItems(content)[j].id
    ensures HeadingIdAt(content, i) != HeadingIdAt(content, j)
  {
    SameIdsWithoutFences(content);
    AssignDistinct({}, Entries(RendererHeadings(content)));
  }

  /** Every id a heading is rendered with uses only lower-case letters, digits, `_` and `-`. */
  lemma GetHeadingIdChars(content: string, text: string)
    ensures var id := GetHeadingId(IdMap(RendererItems(content)), text);
      forall i :: 0 <= i < |id| ==> IdChar(id[i])
  {
    var items := RendererItems(content);
    var c := CleanText(text);
    if c in IdMap(items) {
      IdMapValue(items, c);
      var i :| 0 <= i < |items| && items[i].text == c && IdMap(items)[c] == items[i].id;
      AssignIdChars({}, Entries(RendererHeadings(content)), i);
    }
  }

  /** Counter suffixes keep an id within the id alphabet. */
  lemma CandidateChars(base: string, k: nat)
    requires forall i :: 0 <= i < |base| ==> IdChar(base[i])
    ensures forall i :: 0 <= i < |Candidate(base, k)| ==> IdChar(Candidate(base, k)[i])
  {
    if k > 0 {
      var c := Candidate(base, k);
      var d := Decimal(k);
      assert c == base + "-" + d;
      forall i | 0 <= i < |c| ensures IdChar(c[i]) {
        if i > |base| {
          assert c[i] == d[i - |base| - 1];
        }
      }
    }
  }

  lemma {:induction false} AssignIdChars(used: set<string>, es: seq<Entry>, k: nat)
    requires k < |es|
    ensures forall i :: 0 <= i < |Assign(used, es)[k].id| ==> IdChar(Assign(used, es)[k].id[i])
    decreases k
  {
    var id := UniqueIdOf(used, es[0].Base());
    if k == 0 {
      CandidateChars(es[0].Base(), FreeFrom(used, es[0].Base(), 0));
    } else {
      AssignIdChars(used + {id}, es[1..], k - 1);
      assert Assign(used, es)[k] == Assign(used + {id}, es[1..])[k - 1];
    }
  }

  // ----------------------------------------------------------------- links

  /** A link opens in a new tab unless its href is present and starts with `/`. */
  predicate OpensInNewTab(href: Option<string>): (newTab: bool)
    ensures newTab <==> href.None? || href.value == [] || href.value[0] != '/'
  {
    !(href.Some? && StartsWith(href.value, "/"))
  }

  // ------------------------------------------------------------------ code

  /** An occurrence inside the line `s[p..e]` is one in `s`. */
  lemma OccursInLine(s: string, p: nat, e: nat, k: nat)
    requires p <= e <= |s| && OccursAt(s[p..e], "language-", k)
    ensures OccursAt(s, "language-", p + k)
  {
    var found, whole := s[p..e][k..k + 9], s[p + k..p + k + 9];
    assert forall j :: 0 <= j < 9 ==> found[j] == whole[j];
    assert found == whole;
  }

  /**
   * The match of `/.*language-/` (not global, `.` stopping at line
   * terminators), searched from line start `p`: it starts at the first line
   * holding `language-` and ends after the last `language-` on that line.
   */
  function LanguageMatch(s: string, p: nat): (m: Option<(nat, nat)>)
    requires p <= |s|
    ensures m.Some? ==> p <= m.value.0 && m.value.0 + 9 <= m.value.1 <= |s|
    ensures m.Some? ==> OccursAt(s, "language-", m.value.1 - 9)
    decreases |s| - p
  {
    var e := LineEnd(s, p);
    match LastIndexOf(s[p..e], "language-")
    case Some(k) =>
      OccursInLine(s, p, e, k);
      Some((p, p + k + 9))
    case None => if e < |s| then LanguageMatch(s, e + 1) else None
  }

  /** `(className || '').replace(/.*language-/, '')`. */
  function CodeLanguage(className: Option<string>): string {
    var s := className.GetOr("");
    match LanguageMatch(s, 0)
    case Some((a, b)) => s[..a] + s[b..]
    case None => s
  }

  /** On a one-line class name, the language is what follows the last `language-`, or the whole name if there is none. */
  lemma CodeLanguageOneLine(className: string)
    requires NoTerminator(className)
    ensures match LastIndexOf(className, "language-")
      case Some(k) => CodeLanguage(Some(className)) == className[k + 9..]
      case None => CodeLanguage(Some(className)) == className
  {
    var e := LineEnd(className, 0);
    assert e == |className|;
    assert className[0..e] == className;
  }

  /** What a `code` element renders as. */
  datatype CodeView =
    | MermaidView(chart: string)
    | InlineView(children: string)
    | BlockView(header: Option<string>, children: string)

  /** `String(children).replace(/\n$/, '')`: one final newline removed. */
  function ChartSource(children: string): (chart: string)
    ensures EndsWith(children, "\n") ==> chart + "\n" == children
    ensures !EndsWith(children, "\n") ==> chart == children
  {
    if EndsWith(children, "\n") then children[..|children| - 1] else children
  }

  /** The `code` renderer: positions are the element's start and end lines, when known. */
  function RenderCode(className: Option<string>, children: string, startLine: Option<int>, endLine: Option<int>): (v: CodeView)
    ensures v.MermaidView? <==>
      (startLine != endLine || '\n' in children) && CodeLanguage(className) == "mermaid"
    ensures v.BlockView? ==> (v.header.Some? <==> CodeLanguage(className) != "")
    ensures v.MermaidView? ==> v.chart == ChartSource(children)
  {
    var inline := !(startLine != endLine || '\n' in children);
    var language := CodeLanguage(className);
    if !inline && language == "mermaid" then MermaidView(ChartSource(children))
    else if inline then InlineView(children)
    else BlockView(if language != "" && language != "mermaid" then Some(language) else None, children)
  }
}
