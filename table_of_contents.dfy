/**
 * The table of contents of a document page: the headings of the Markdown
 * source outside fenced code blocks, each with its cleaned-up text, its level
 * and an anchor id that is unique within the page.
 */
module TableOfContents {
  import opened Wrappers
  import opened Strings
  import opened Seqs
  import opened Scanning

  datatype TocItem = TocItem(id: string, text: string, level: nat)

  /**
   * Heading text without Markdown decoration: bold, italic, link and inline
   * code markers are removed in that order, then the result is trimmed.
   */
  function CleanText(raw: string): (r: string)
    ensures |r| <= |raw|
  {
    var bold := UnwrapPairs(raw, "**", "**", 0);
    var italic := UnwrapPairs(bold, "*", "*", 0);
    var links := UnwrapLinks(italic, 0);
    Trim(UnwrapPairs(links, "`", "`", 0))
  }

  /** Text without `*`, `[` or a backtick is only trimmed. */
  lemma CleanTextPlain(raw: string)
    requires '*' !in raw && '[' !in raw && '`' !in raw
    ensures CleanText(raw) == Trim(raw)
  {
    assert raw[0..] == raw;
    UnwrapPairsPlain(raw, "**", "**", 0);
    UnwrapPairsPlain(raw, "*", "*", 0);
    UnwrapLinksPlain(raw, 0);
    UnwrapPairsPlain(raw, "`", "`", 0);
  }

  /** `[^\w\s-]` removed. */
  predicate Kept(c: char) {
    IsWordChar(c) || IsSpace(c) || c == '-'
  }

  /** `\s+` replaced by a single `-`. */
  function Hyphenate(s: string): (r: string)
    ensures NoSpace(r)
    ensures forall c :: c in r ==> c in s || c == '-'
    decreases |s|
  {
    if s == [] then []
    else if IsSpace(s[0]) then
      var e := SpaceEnd(s, 0);
      assert forall c :: c in s[e..] ==> c in s;
      "-" + Hyphenate(s[e..])
    else
      assert forall c :: c in s[1..] ==> c in s;
      [s[0]] + Hyphenate(s[1..])
  }

  /** The characters an anchor id is made of. */
  predicate IdChar(c: char) {
    'a' <= c <= 'z' || '0' <= c <= '9' || c == '_' || c == '-'
  }

  lemma LowerIdChar(c: char)
    requires IsWordChar(c) || c == '-'
    ensures IdChar(LowerChar(c))
  {
  }

  /** Removing special characters, hyphenating and lower-casing leaves only id characters. */
  lemma IdAlphabet(text: string)
    ensures forall i :: 0 <= i < |Lower(Hyphenate(Filter(text, Kept)))| ==>
      IdChar(Lower(Hyphenate(Filter(text, Kept)))[i])
  {
    var f := Filter(text, Kept);
    var h := Hyphenate(f);
    forall i | 0 <= i < |h| ensures IdChar(LowerChar(h[i])) {
      var c := h[i];
      assert c in h;
      if c != '-' {
        assert c in f;
        assert Kept(c);
      }
      LowerIdChar(c);
    }
  }

  /**
   * `generateId`: special characters removed, whitespace runs turned into `-`,
   * lower-cased and trimmed. The id consists of lower-case ASCII letters,
   * digits, `_` and `-` only.
   */
  function GenerateId(text: string): (id: string)
    ensures forall i :: 0 <= i < |id| ==> IdChar(id[i])
  {
    var l := Lower(Hyphenate(Filter(text, Kept)));
    IdAlphabet(text);
    TrimNoSpace(l);
    Trim(l)
  }

  /** The final trim of `generateId` never removes anything. */
  lemma GenerateIdUntrimmed(text: string)
    ensures GenerateId(text) == Lower(Hyphenate(Filter(text, Kept)))
  {
    IdAlphabet(text);
    TrimNoSpace(Lower(Hyphenate(Filter(text, Kept))));
  }

  /** An id is its own id. */
  lemma GenerateIdIdempotent(text: string)
    ensures GenerateId(GenerateId(text)) == GenerateId(text)
  {
    IdFixed(GenerateId(text));
  }

  /** A string of id characters is its own id. */
  lemma IdFixed(id: string)
    requires forall i :: 0 <= i < |id| ==> IdChar(id[i])
    ensures GenerateId(id) == id
  {
    GenerateIdUntrimmed(id);
    FilterKeepsId(id);
    assert NoSpace(id);
    HyphenateNoSpace(id);
    LowerIdentity(id);
  }

  lemma FilterKeepsId(id: string)
    requires forall i :: 0 <= i < |id| ==> IdChar(id[i])
    ensures Filter(id, Kept) == id
  {
    forall c | c in id ensures Kept(c) {
      var k :| 0 <= k < |id| && id[k] == c;
      assert IdChar(id[k]);
    }
    FilterAll(id, Kept);
  }

  lemma LowerIdentity(id: string)
    requires forall i :: 0 <= i < |id| ==> IdChar(id[i])
    ensures Lower(id) == id
  {
  }

  lemma {:induction false} HyphenateNoSpace(s: string)
    requires NoSpace(s)
    ensures Hyphenate(s) == s
    decreases |s|
  {
    if s != [] {
      HyphenateNoSpace(s[1..]);
      assert s == [s[0]] + s[1..];
    }
  }

  /** The `k`-th id the counter loop tries: `base`, then `base-1`, `base-2`, … */
  function Candidate(base: string, k: nat): string {
    if k == 0 then base else base + "-" + Decimal(k)
  }

  lemma CandidateDistinct(base: string, i: nat, j: nat)
    requires i != j
    ensures Candidate(base, i) != Candidate(base, j)
  {
    if i != 0 && j != 0 {
      var a := Candidate(base, i);
      var b := Candidate(base, j);
      assert a[|base| + 1..] == Decimal(i);
      assert b[|base| + 1..] == Decimal(j);
      DecimalInjective(i, j);
    } else {
      assert |Candidate(base, i)| != |Candidate(base, j)|;
    }
  }

  ghost function CandidateSet(base: string, k: nat): set<string> {
    set i | 0 <= i < k :: Candidate(base, i)
  }

  lemma {:induction false} CandidateSetSize(base: string, k: nat)
    ensures |CandidateSet(base, k)| == k
  {
    if k > 0 {
      CandidateSetSize(base, k - 1);
      assert CandidateSet(base, k) == CandidateSet(base, k - 1) + {Candidate(base, k - 1)};
      forall i | 0 <= i < k - 1 ensures Candidate(base, i) != Candidate(base, k - 1) {
        CandidateDistinct(base, i, k - 1);
      }
      assert Candidate(base, k - 1) !in CandidateSet(base, k - 1);
    }
  }

  /** The least counter value from `k` on whose candidate is still free. */
  function FreeFrom(used: set<string>, base: string, k: nat): (n: nat)
    requires forall i :: 0 <= i < k ==> Candidate(base, i) in used
    ensures Candidate(base, n) !in used
    ensures forall i :: 0 <= i < n ==> Candidate(base, i) in used
    decreases |used| - k
  {
    if Candidate(base, k) !in used then k
    else
      CandidateSetSize(base, k + 1);
      assert CandidateSet(base, k + 1) <= used;
      assert k + 1 <= |used| by { SubsetSize(CandidateSet(base, k + 1), used); }
      FreeFrom(used, base, k + 1)
  }

  lemma SubsetSize(a: set<string>, b: set<string>)
    requires a <= b
    ensures |a| <= |b|
  {
    assert b == a + (b - a);
  }

  /** The id the counter loop settles on: the first candidate not yet used. */
  function UniqueIdOf(used: set<string>, base: string): (id: string)
    ensures id !in used
  {
    Candidate(base, FreeFrom(used, base, 0))
  }

  /** The counter loop of the heading scan. */
  method UniqueId(used: set<string>, base: string) returns (id: string)
    ensures id == UniqueIdOf(used, base)
    ensures id !in used
  {
    id := base;
    var counter := 1;
    while id in used
      invariant counter >= 1 && id == Candidate(base, counter - 1)
      invariant forall i :: 0 <= i < counter - 1 ==> Candidate(base, i) in used
      decreases |used| - (counter - 1)
    {
      CandidateSetSize(base, counter);
      SubsetSize(CandidateSet(base, counter), used);
      id := base + "-" + Decimal(counter);
      counter := counter + 1;
    }
    var n := FreeFrom(used, base, 0);
    assert n == counter - 1;
  }

  /** The text a heading match is listed under. */
  function HeadingText(h: Heading): string {
    CleanText(Trim(h.text))
  }

  /** What the scan computes for one heading before choosing its id. */
  datatype Entry = Entry(text: string, level: nat) {
    /** The id the counter loop starts from. */
    function Base(): string {
      GenerateId(text)
    }
  }

  function EntryOf(h: Heading): Entry {
    Entry(HeadingText(h), h.level)
  }

  function Entries(hs: seq<Heading>): (es: seq<Entry>)
    ensures |es| == |hs|
  {
    if hs == [] then [] else [EntryOf(hs[0])] + Entries(hs[1..])
  }

  /**
   * The entries the scan produces when the ids in `used` are already taken:
   * each heading gets the first free candidate of its base id, which is
   * taken from then on.
   */
  function Assign(used: set<string>, es: seq<Entry>): (items: seq<TocItem>)
    ensures |items| == |es|
    decreases |es|
  {
    if es == [] then []
    else
      var id := UniqueIdOf(used, es[0].Base());
      [TocItem(id, es[0].text, es[0].level)] + Assign(used + {id}, es[1..])
  }

  /** The `k`-th entry keeps its text and level and gets an id that was not yet taken. */
  lemma {:induction false} AssignAt(used: set<string>, es: seq<Entry>, k: nat)
    requires k < |es|
    ensures Assign(used, es)[k].id !in used
    ensures Assign(used, es)[k].text == es[k].text && Assign(used, es)[k].level == es[k].level
    decreases k
  {
    var id := UniqueIdOf(used, es[0].Base());
    if k > 0 {
      AssignAt(used + {id}, es[1..], k - 1);
      assert Assign(used, es)[k] == Assign(used + {id}, es[1..])[k - 1];
    }
  }

  lemma AssignFields(used: set<string>, es: seq<Entry>)
    ensures forall k :: 0 <= k < |es| ==> Assign(used, es)[k].id !in used
    ensures forall k :: 0 <= k < |es| ==>
      Assign(used, es)[k].text == es[k].text && Assign(used, es)[k].level == es[k].level
  {
    forall k | 0 <= k < |es| ensures Assign(used, es)[k].id !in used
      && Assign(used, es)[k].text == es[k].text && Assign(used, es)[k].level == es[k].level
    {
      AssignAt(used, es, k);
    }
  }

  /** No two entries share an id. */
  lemma {:induction false} AssignDistinct(used: set<string>, es: seq<Entry>)
    ensures forall i, j :: 0 <= i < j < |es| ==> Assign(used, es)[i].id != Assign(used, es)[j].id
    decreases |es|
  {
    if es != [] {
      var items := Assign(used, es);
      var id := UniqueIdOf(used, es[0].Base());
      var rest := Assign(used + {id}, es[1..]);
      AssignDistinct(used + {id}, es[1..]);
      assert items == [TocItem(id, es[0].text, es[0].level)] + rest;
      forall i, j | 0 <= i < j < |es| ensures items[i].id != items[j].id {
        assert items[j] == rest[j - 1];
        if i > 0 {
          assert items[i] == rest[i - 1];
        } else {
          AssignAt(used + {id}, es[1..], j - 1);
        }
      }
    }
  }

  function IdsOf(items: seq<TocItem>): (ids: seq<string>)
    ensures |ids| == |items|
    ensures forall i :: 0 <= i < |items| ==> ids[i] == items[i].id
  {
    seq(|items|, i requires 0 <= i < |items| => items[i].id)
  }

  /** Each id is the entry's base id, possibly with a counter suffix. */
  lemma {:induction false} AssignCandidates(used: set<string>, es: seq<Entry>, k: nat)
    requires k < |es|
    ensures exists n: nat :: Assign(used, es)[k].id == Candidate(es[k].Base(), n)
    decreases |es|
  {
    var items := Assign(used, es);
    var id := UniqueIdOf(used, es[0].Base());
    if k == 0 {
      assert items[0].id == Candidate(es[0].Base(), FreeFrom(used, es[0].Base(), 0));
    } else {
      AssignCandidates(used + {id}, es[1..], k - 1);
      assert items[k] == Assign(used + {id}, es[1..])[k - 1];
    }
  }

  /** An entry whose base id is still free keeps it unchanged. */
  lemma AssignFresh(used: set<string>, es: seq<Entry>)
    requires es != [] && es[0].Base() !in used
    ensures Assign(used, es)[0].id == es[0].Base()
  {
  }

  /** The headings the table lists: every heading match once fenced code blocks are removed. */
  function TocHeadings(content: string): seq<Heading> {
    Headings(StripFences(content, 0), 0, 6)
  }

  /** The table of contents of a document, as the heading scan builds it. */
  function TocItems(content: string): (items: seq<TocItem>)
    ensures |items| == |TocHeadings(content)|
  {
    Assign({}, Entries(TocHeadings(content)))
  }

  /** No two entries of a table share an anchor id. */
  lemma TocIdsDistinct(content: string)
    ensures Distinct(IdsOf(TocItems(content)))
  {
    var items := TocItems(content);
    AssignDistinct({}, Entries(TocHeadings(content)));
    assert forall i :: 0 <= i < |items| ==> IdsOf(items)[i] == items[i].id;
  }

  /** The `i`-th entry is the `i`-th heading's text, base id and level. */
  lemma {:induction false} EntriesAt(hs: seq<Heading>, i: nat)
    requires i < |hs|
    ensures Entries(hs)[i] == EntryOf(hs[i])
    decreases |hs|
  {
    if i > 0 {
      EntriesAt(hs[1..], i - 1);
    }
  }

  /**
   * The table of a document lists its headings outside fenced code blocks,
   * in order, each with its cleaned text and a level from 1 to 6.
   */
  lemma TocItemsListHeadings(content: string, i: nat)
    requires i < |TocItems(content)|
    ensures TocItems(content)[i].text == HeadingText(TocHeadings(content)[i])
    ensures TocItems(content)[i].level == TocHeadings(content)[i].level
    ensures 1 <= TocItems(content)[i].level <= 6
  {
    EntriesAt(TocHeadings(content), i);
    AssignFields({}, Entries(TocHeadings(content)));
  }

  /** The heading scan of the table of contents. */
  method ExtractTocItems(content: string) returns (items: seq<TocItem>)
    ensures items == TocItems(content)
  {
    var contentWithoutCode := StripFences(content, 0);
    items := ListHeadings(Headings(contentWithoutCode, 0, 6));
  }

  /** The loop of the scan: one iteration per heading match. */
  method ListHeadings(hs: seq<Heading>) returns (items: seq<TocItem>)
    ensures items == Assign({}, Entries(hs))
  {
    ghost var es := Entries(hs);
    var usedIds: set<string> := {};
    items := [];
    var i := 0;
    while i < |hs|
      invariant i <= |hs|
      invariant items + Assign(usedIds, es[i..]) == Assign({}, es)
    {
      var item := NextItem(usedIds, hs, i);
      EntriesAt(hs, i);
      AssignStep(usedIds, es, i);
      usedIds := usedIds + {item.id};
      items := items + [item];
      i := i + 1;
    }
  }

  /** One iteration: the heading's cleaned text, its base id and the first free id. */
  method NextItem(usedIds: set<string>, hs: seq<Heading>, i: nat) returns (item: TocItem)
    requires i < |hs|
    ensures item.text == CleanText(Trim(hs[i].text)) && item.level == hs[i].level
    ensures item.id == UniqueIdOf(usedIds, GenerateId(item.text)) && item.id !in usedIds
  {
    var cleanText := CleanText(Trim(hs[i].text));
    var baseId := GenerateId(cleanText);
    var uniqueId := UniqueId(usedIds, baseId);
    item := TocItem(uniqueId, cleanText, hs[i].level);
  }

  lemma AssignStep(used: set<string>, es: seq<Entry>, i: nat)
    requires i < |es|
    ensures Assign(used, es[i..])
         == [TocItem(UniqueIdOf(used, es[i].Base()), es[i].text, es[i].level)]
            + Assign(used + {UniqueIdOf(used, es[i].Base())}, es[i + 1..])
  {
    assert es[i..][1..] == es[i + 1..];
  }
}
