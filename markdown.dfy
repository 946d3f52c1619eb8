/**
 * Document addressing in `lib/markdown.ts`: how a Markdown file under the docs
 * root gets its slug, how a slug is resolved back to a file, which metadata is
 * inferred when the front matter leaves it out, and the order of the document
 * list. The docs directory is given as a map from relative path to the parsed
 * file; walking and reading the disk are not part of the model.
 */
module Markdown {
  import opened Wrappers
  import opened Strings
  import opened Seqs
  import opened Sorting
  import opened Scanning

  /** The front-matter fields the code reads; an absent field is `None`. */
  datatype FrontMatter = FrontMatter(
    title: Option<string>,
    description: Option<string>,
    category: Option<string>,
    parent: Option<string>,
    order: Option<int>)

  /** A Markdown file as `gray-matter` splits it: front matter and body. */
  datatype SourceFile = SourceFile(data: FrontMatter, content: string)

  /** The docs directory: every Markdown file by its path relative to the docs root, `/`-separated. */
  type Files = map<string, SourceFile>

  datatype DocMetadata = DocMetadata(
    title: string,
    description: Option<string>,
    category: string,
    parent: Option<string>,
    order: int,
    slug: string,
    fileDir: string)

  datatype DocContent = DocContent(metadata: DocMetadata, content: string)

  // ---------------------------------------------------------------- paths

  /** The part of a path after its last `/` (the whole path when it has none). */
  function LastSegment(p: string): (seg: string)
    ensures '/' !in seg
    ensures |seg| <= |p| && seg == p[|p| - |seg|..]
  {
    match FindLastChar(p, '/')
    case Some(k) => p[k + 1..]
    case None => p
  }

  /** `path.dirname` relative to the docs root, with `.` written as the empty string. */
  function DirName(p: string): (d: string)
    ensures '/' in p ==> p == d + "/" + LastSegment(p)
    ensures '/' !in p ==> d == ""
  {
    match FindLastChar(p, '/')
    case Some(k) =>
      assert p == p[..k] + "/" + p[k + 1..];
      p[..k]
    case None => ""
  }

  /** The path with one trailing `.md` removed (`replace(/\.md$/, '')`). */
  function StripMd(p: string): (s: string)
    ensures EndsWith(p, ".md") ==> s + ".md" == p
    ensures !EndsWith(p, ".md") ==> s == p
  {
    if EndsWith(p, ".md") then p[..|p| - 3] else p
  }

  /** A path segment that `/README$/i` matches as a whole. */
  predicate IsReadme(seg: string) {
    Lower(seg) == "readme"
  }

  /**
   * The slug of a Markdown file: `.md` stripped and a final `README` segment,
   * in any letter case, rewritten to `index`.
   */
  function SlugOfPath(p: string): string {
    var s := StripMd(p);
    if IsReadme(LastSegment(s)) then
      (if '/' in s then DirName(s) + "/" else "") + "index"
    else s
  }

  /** A file whose last segment is not a README keeps its path without `.md` as its slug. */
  lemma SlugOfPlainFile(dir: string, name: string)
    requires '/' !in name && !IsReadme(name)
    ensures SlugOfPath(dir + "/" + name + ".md") == dir + "/" + name
    ensures SlugOfPath(name + ".md") == name
  {
    var p := dir + "/" + name + ".md";
    assert EndsWith(p, ".md") && p[..|p| - 3] == dir + "/" + name;
    LastSegmentAfterSlash(dir, name);
    var q := name + ".md";
    assert EndsWith(q, ".md") && q[..|q| - 3] == name;
  }

  /** A README name, in any letter case, has no `/`. */
  lemma ReadmeNoSlash(name: string)
    requires IsReadme(name)
    ensures '/' !in name
  {
    forall i | 0 <= i < |name| ensures name[i] != '/' {
      assert LowerChar(name[i]) == Lower(name)[i] == "readme"[i];
    }
  }

  /** `x/README.md` and `x/readme.md` get the slug `x/index`. */
  lemma SlugOfReadme(dir: string, name: string)
    requires IsReadme(name)
    ensures SlugOfPath(dir + "/" + name + ".md") == dir + "/index"
  {
    var p := dir + "/" + name + ".md";
    var s := dir + "/" + name;
    assert EndsWith(p, ".md") && p[..|p| - 3] == s;
    assert StripMd(p) == s;
    ReadmeNoSlash(name);
    LastSegmentAfterSlash(dir, name);
    DirNameAfterSlash(dir, name);
    assert s[|dir|] == '/';
  }

  /** `x/index.md` keeps its slug `x/index`, the one a README in `x` gets. */
  lemma SlugOfIndexFile(dir: string)
    ensures SlugOfPath(dir + "/index.md") == dir + "/index"
  {
    var p := dir + "/index.md";
    assert EndsWith(p, ".md") && p[..|p| - 3] == dir + "/index";
    LastSegmentAfterSlash(dir, "index");
    assert !IsReadme("index") by { assert |Lower("index")| == 5; }
  }

  /** At the docs root, `README.md` and `index.md` both get the slug `index`. */
  lemma SlugOfRootReadme(name: string)
    requires IsReadme(name) || name == "index"
    ensures SlugOfPath(name + ".md") == "index"
  {
    var q := name + ".md";
    assert EndsWith(q, ".md") && q[..|q| - 3] == name;
    if name != "index" {
      ReadmeNoSlash(name);
    }
  }

  lemma LastSegmentAfterSlash(dir: string, name: string)
    requires '/' !in name
    ensures LastSegment(dir + "/" + name) == name
  {
    var s := dir + "/" + name;
    assert s[|dir|] == '/';
    assert forall j :: |dir| < j < |s| ==> s[j] == name[j - |dir| - 1];
    assert s[|dir| + 1..] == name;
  }

  lemma DirNameAfterSlash(dir: string, name: string)
    requires '/' !in name
    ensures DirName(dir + "/" + name) == dir
  {
    var s := dir + "/" + name;
    LastSegmentAfterSlash(dir, name);
    assert '/' in s by { assert s[|dir|] == '/'; }
    assert s == DirName(s) + "/" + name;
    assert s[..|dir|] == dir;
  }

  /** The path→slug mapping of the file walk, before duplicates are removed. */
  function SlugsOfPaths(paths: seq<string>): (slugs: seq<string>)
    ensures |slugs| == |paths|
    ensures forall i :: 0 <= i < |paths| ==> slugs[i] == SlugOfPath(paths[i])
  {
    seq(|paths|, i requires 0 <= i < |paths| => SlugOfPath(paths[i]))
  }

  /** `getAllDocSlugs`: the slugs of the walked files, each once, in first-occurrence order. */
  function GetAllDocSlugs(paths: seq<string>): (slugs: seq<string>)
    ensures Distinct(slugs)
    ensures forall p :: p in paths ==> SlugOfPath(p) in slugs
    ensures forall s :: s in slugs ==> exists p :: p in paths && s == SlugOfPath(p)
  {
    var all := SlugsOfPaths(paths);
    forall s | s in Dedup(all) ensures exists p :: p in paths && s == SlugOfPath(p) {
      var i :| 0 <= i < |all| && all[i] == s;
      assert paths[i] in paths;
    }
    forall p | p in paths ensures SlugOfPath(p) in Dedup(all) {
      var i :| 0 <= i < |paths| && paths[i] == p;
      assert all[i] in all;
    }
    Dedup(all)
  }

  /** The slug list is ordered by the first file that produces each slug. */
  lemma GetAllDocSlugsOrder(paths: seq<string>)
    ensures forall i, j :: 0 <= i < j < |GetAllDocSlugs(paths)| ==>
      FirstIndex(SlugsOfPaths(paths), GetAllDocSlugs(paths)[i])
        < FirstIndex(SlugsOfPaths(paths), GetAllDocSlugs(paths)[j])
  {
    DedupOrder(SlugsOfPaths(paths));
  }

  // ------------------------------------------------------------- lookup

  /** One trailing `/index` removed, and an empty result read as `index`. */
  function NormalizeSlug(slug: string): (n: string)
    ensures n != []
  {
    var t := if EndsWith(slug, "/index") then slug[..|slug| - 6] else slug;
    if t == "" then "index" else t
  }

  /** `framework/index` and `framework` name the same document. */
  lemma NormalizeIndexSuffix(slug: string)
    requires !EndsWith(slug, "/index")
    ensures NormalizeSlug(slug + "/index") == NormalizeSlug(slug)
  {
    var s := slug + "/index";
    assert EndsWith(s, "/index") && s[..|s| - 6] == slug;
  }

  /** A slug that neither ends in `/index` nor is empty is already normal. */
  lemma NormalizeNormal(slug: string)
    requires slug != "" && !EndsWith(slug, "/index")
    ensures NormalizeSlug(slug) == slug
  {
  }

  /** The files `getDocBySlug` tries for a normalised slug, in order. */
  function DocCandidates(normSlug: string): (cs: seq<string>)
    ensures |cs| == 4
  {
    [normSlug + ".md", normSlug + "/index.md", normSlug + "/README.md", normSlug + "/Readme.md"]
  }

  /** The first of the candidate paths that exists. */
  function FirstExisting(files: Files, cs: seq<string>): (r: Option<nat>)
    ensures r.Some? ==> r.value < |cs| && cs[r.value] in files
    ensures r.Some? ==> forall j :: 0 <= j < r.value ==> cs[j] !in files
    ensures r.None? ==> forall j :: 0 <= j < |cs| ==> cs[j] !in files
  {
    if cs == [] then None
    else if cs[0] in files then Some(0)
    else
      match FirstExisting(files, cs[1..])
      case Some(i) => Some(i + 1)
      case None => None
  }

  /** The path a lookup settles on, if any. */
  function Resolve(files: Files, cs: seq<string>): (r: Option<string>)
    ensures r.Some? ==> r.value in files && r.value in cs
    ensures r.None? ==> forall c :: c in cs ==> c !in files
  {
    match FirstExisting(files, cs)
    case Some(i) => Some(cs[i])
    case None => None
  }

  /**
   * The fallback chain of `getDocBySlug`: the path is reassigned to the next
   * candidate while the current one does not exist.
   */
  method ResolveDocPath(files: Files, normSlug: string) returns (fullPath: Option<string>)
    ensures fullPath == Resolve(files, DocCandidates(normSlug))
  {
    var path := normSlug + ".md";
    if path !in files {
      path := normSlug + "/index.md";
    }
    if path !in files {
      path := normSlug + "/README.md";
    }
    if path !in files {
      path := normSlug + "/Readme.md";
    }
    ResolveCandidates(files, normSlug);
    if path !in files {
      return None;
    }
    return Some(path);
  }

  /** The four-step chain written out: the first candidate present wins. */
  lemma ResolveCandidates(files: Files, normSlug: string)
    ensures var cs := DocCandidates(normSlug);
      Resolve(files, cs) ==
        if cs[0] in files then Some(cs[0])
        else if cs[1] in files then Some(cs[1])
        else if cs[2] in files then Some(cs[2])
        else if cs[3] in files then Some(cs[3])
        else None
  {
    var cs := DocCandidates(normSlug);
    assert cs[1..][1..][1..][1..] == [];
    assert FirstExisting(files, cs[1..][1..][1..][1..]) == None;
  }

  // ----------------------------------------------------------- metadata

  /** `s.charAt(0).toUpperCase() + s.slice(1)`, ASCII only. */
  function Capitalize(s: string): (r: string)
    ensures |r| == |s|
    ensures s != [] ==> r[0] == UpperChar(s[0]) && r[1..] == s[1..]
  {
    if s == [] then [] else [UpperChar(s[0])] + s[1..]
  }

  /** The first path segment (`relativePath.split('/')[0]`). */
  function FirstSegment(p: string): (seg: string)
    ensures '/' !in seg
    ensures |seg| <= |p| && seg == p[..|seg|]
  {
    p[..FindChar(p, '/')]
  }

  /** `path.basename(p, '.md')`. */
  function BaseName(p: string): (b: string) {
    var seg := LastSegment(p);
    if EndsWith(seg, ".md") && |seg| > 3 then seg[..|seg| - 3] else seg
  }

  /** `replace(/README/i, 'Index')`: the first occurrence, in any letter case, becomes `Index`. */
  function ReplaceReadme(s: string): (r: string)
    ensures IndexOf(Lower(s), "readme").None? ==> r == s
  {
    match IndexOf(Lower(s), "readme")
    case Some(i) => s[..i] + "Index" + s[i + 6..]
    case None => s
  }

  /** `replace(/[*_`]/g, '')`. */
  function StripEmphasis(s: string): (r: string)
    ensures '*' !in r && '_' !in r && '`' !in r
  {
    Filter(s, c => c != '*' && c != '_' && c != '`')
  }

  /** The first match of `/^#\s+(.+?)$/m`: the first level-1 heading. */
  function FirstTitleHeading(content: string): (h: Option<Heading>) {
    var hs := Headings(content, 0, 1);
    if hs == [] then None else Some(hs[0])
  }

  /** The title used when the front matter has none: the first `# ` heading, else the file name. */
  function InferredTitle(content: string, filePath: string): (t: string) {
    match FirstTitleHeading(content)
    case Some(h) => StripEmphasis(Trim(h.text))
    case None => ReplaceReadme(BaseName(filePath))
  }

  /** The category used when the front matter has none. */
  function InferredCategory(filePath: string): string {
    if '/' in filePath then Capitalize(FirstSegment(filePath)) else "General"
  }

  predicate Truthy(s: Option<string>) {
    s.Some? && s.value != ""
  }

  /**
   * `inferMissingMetadata`: front-matter title and category are kept when they
   * are non-empty strings and inferred otherwise; order falls back to 999 only
   * when it is absent. The result carries no `fileDir` yet.
   */
  function InferMissingMetadata(data: FrontMatter, content: string, filePath: string, slug: string): (m: DocMetadata)
    ensures Truthy(data.title) ==> m.title == data.title.value
    ensures !Truthy(data.title) ==> m.title == InferredTitle(content, filePath)
    ensures Truthy(data.category) ==> m.category == data.category.value
    ensures !Truthy(data.category) && '/' in filePath ==> m.category == Capitalize(FirstSegment(filePath))
    ensures !Truthy(data.category) && '/' !in filePath ==> m.category == "General"
    ensures m.order == (if data.order.Some? then data.order.value else 999)
    ensures m.slug == slug && m.description == data.description && m.parent == data.parent
  {
    var title := if Truthy(data.title) then data.title.value else InferredTitle(content, filePath);
    var category := if Truthy(data.category) then data.category.value else InferredCategory(filePath);
    DocMetadata(title, data.description, category, data.parent, data.order.GetOr(999), slug, "")
  }

  /** A path that does not start with `/` gives a non-empty category. */
  lemma InferredCategoryNonEmpty(data: FrontMatter, content: string, filePath: string, slug: string)
    requires filePath == [] || filePath[0] != '/'
    ensures InferMissingMetadata(data, content, filePath, slug).category != ""
  {
    if !Truthy(data.category) && '/' in filePath {
      assert filePath[0] != '/';
      assert FindChar(filePath, '/') > 0;
    }
  }

  /** A title taken from a heading has no `*`, `_` or backtick. */
  lemma InferredTitleFromHeading(content: string, filePath: string)
    requires FirstTitleHeading(content).Some?
    ensures var t := InferredTitle(content, filePath); '*' !in t && '_' !in t && '`' !in t
  {
  }

  // ------------------------------------------------------- getDocBySlug

  /** What `getDocBySlug` resolves to: the parsed document, or the not-found error. */
  function DocBySlug(files: Files, slug: string): (r: Result<DocContent, string>)
    ensures r.Failure? ==> r.error == "Document not found: " + slug
    ensures r.Success? ==> r.value.metadata.slug == NormalizeSlug(slug)
  {
    var normSlug := NormalizeSlug(slug);
    match Resolve(files, DocCandidates(normSlug))
    case None => Failure("Document not found: " + slug)
    case Some(p) =>
      var file := files[p];
      var m := InferMissingMetadata(file.data, file.content, p, normSlug);
      Success(DocContent(m.(fileDir := DirName(p)), file.content))
  }

  /**
   * A slug is found exactly when one of its candidate files exists; the
   * document then carries that file's body, the metadata inferred from it
   * under the normalised slug, and its directory.
   */
  lemma DocBySlugResolves(files: Files, slug: string)
    ensures DocBySlug(files, slug).Failure? <==>
      forall c :: c in DocCandidates(NormalizeSlug(slug)) ==> c !in files
    ensures DocBySlug(files, slug).Success? ==>
      exists p :: p in DocCandidates(NormalizeSlug(slug)) && p in files &&
        DocBySlug(files, slug).value.content == files[p].content &&
        DocBySlug(files, slug).value.metadata ==
          InferMissingMetadata(files[p].data, files[p].content, p, NormalizeSlug(slug)).(fileDir := DirName(p))
  {
    var r := Resolve(files, DocCandidates(NormalizeSlug(slug)));
    if r.Some? {
      assert r.value in DocCandidates(NormalizeSlug(slug));
    }
  }

  /** `getDocBySlug`: normalise, follow the fallback chain, read and complete the metadata. */
  method GetDocBySlug(files: Files, slug: string) returns (r: Result<DocContent, string>)
    ensures r == DocBySlug(files, slug)
  {
    var normSlug := NormalizeSlug(slug);
    var fullPath := ResolveDocPath(files, normSlug);
    if fullPath.None? {
      return Failure("Document not found: " + slug);
    }
    var file := files[fullPath.value];
    var fileDir := DirName(fullPath.value);
    var metadata := InferMissingMetadata(file.data, file.content, fullPath.value, normSlug);
    return Success(DocContent(metadata.(fileDir := fileDir), file.content));
  }

  // ---------------------------------------------------------- getAllDocs

  /** `Promise.all(slugs.map(load))`: every result in slug order, or the failure of the first slug that fails. */
  function LoadEach<T>(load: string -> Result<T, string>, slugs: seq<string>): (r: Result<seq<T>, string>)
    ensures r.Success? ==> |r.value| == |slugs|
  {
    if slugs == [] then Success([])
    else
      match load(slugs[0])
      case Failure(e) => Failure(e)
      case Success(d) =>
        match LoadEach(load, slugs[1..])
        case Failure(e) => Failure(e)
        case Success(ds) => Success([d] + ds)
  }

  lemma {:induction false} LoadEachAt<T>(load: string -> Result<T, string>, slugs: seq<string>, i: nat)
    requires LoadEach(load, slugs).Success? && i < |slugs|
    ensures load(slugs[i]) == Success(LoadEach(load, slugs).value[i])
    decreases i
  {
    if i > 0 {
      LoadEachAt(load, slugs[1..], i - 1);
      assert slugs[1..][i - 1] == slugs[i];
    }
  }

  lemma {:induction false} LoadEachFailure<T>(load: string -> Result<T, string>, slugs: seq<string>)
    ensures LoadEach(load, slugs).Failure? <==> exists i :: 0 <= i < |slugs| && load(slugs[i]).Failure?
  {
    if slugs != [] && load(slugs[0]).Success? {
      LoadEachFailure(load, slugs[1..]);
      assert forall i :: 0 < i < |slugs| ==> slugs[i] == slugs[1..][i - 1];
    }
  }

  lemma {:induction false} LoadEachFirstFailure<T>(load: string -> Result<T, string>, slugs: seq<string>, i: nat)
    requires i < |slugs| && load(slugs[i]).Failure?
    requires forall j :: 0 <= j < i ==> load(slugs[j]).Success?
    ensures LoadEach(load, slugs) == Failure(load(slugs[i]).error)
    decreases i
  {
    if i > 0 {
      var rest := slugs[1..];
      forall j | 0 <= j < i - 1 ensures load(rest[j]).Success? {
        assert rest[j] == slugs[j + 1];
      }
      assert rest[i - 1] == slugs[i];
      LoadEachFirstFailure(load, rest, i - 1);
    }
  }

  /** `getDocBySlug` as a function of the slug. */
  function Loader(files: Files): string -> Result<DocContent, string> {
    (slug: string) => DocBySlug(files, slug)
  }

  /** The documents of `getAllDocs` before sorting. */
  function LoadAll(files: Files, slugs: seq<string>): (r: Result<seq<DocContent>, string>)
    ensures r.Success? ==> |r.value| == |slugs|
  {
    LoadEach(Loader(files), slugs)
  }

  /** A loaded list holds, position by position, the document each slug resolves to. */
  lemma LoadAllAt(files: Files, slugs: seq<string>, i: nat)
    requires LoadAll(files, slugs).Success? && i < |slugs|
    ensures DocBySlug(files, slugs[i]) == Success(LoadAll(files, slugs).value[i])
  {
    LoadEachAt(Loader(files), slugs, i);
  }

  /** Loading fails exactly when some slug resolves to no file. */
  lemma LoadAllFailure(files: Files, slugs: seq<string>)
    ensures LoadAll(files, slugs).Failure? <==>
      exists i :: 0 <= i < |slugs| && DocBySlug(files, slugs[i]).Failure?
  {
    LoadEachFailure(Loader(files), slugs);
  }

  /** The error reported is that of the first slug that resolves to no file. */
  lemma LoadAllFirstFailure(files: Files, slugs: seq<string>, i: nat)
    requires i < |slugs| && DocBySlug(files, slugs[i]).Failure?
    requires forall j :: 0 <= j < i ==> DocBySlug(files, slugs[j]).Success?
    ensures LoadAll(files, slugs) == Failure("Document not found: " + slugs[i])
  {
    LoadEachFirstFailure(Loader(files), slugs, i);
  }

  /** The order used in the document list: `order || 999`. */
  function OrderKey(d: DocContent): int {
    if d.metadata.order == 0 then 999 else d.metadata.order
  }

  /** The comparator of `getAllDocs`: category first, then order. */
  predicate DocLe(a: DocContent, b: DocContent) {
    if a.metadata.category != b.metadata.category then StrLe(a.metadata.category, b.metadata.category)
    else OrderKey(a) <= OrderKey(b)
  }

  lemma DocLeTotalPreorder()
    ensures TotalPreorder(DocLe)
  {
    forall a, b ensures DocLe(a, b) || DocLe(b, a) {
      StrLeTotal(a.metadata.category, b.metadata.category);
    }
    forall a, b, c | DocLe(a, b) && DocLe(b, c) ensures DocLe(a, c) {
      var x, y, z := a.metadata.category, b.metadata.category, c.metadata.category;
      if x != y && y != z {
        StrLeTransitive(x, y, z);
        if x == z {
          StrLeAntisymmetric(x, y);
        }
      }
    }
  }

  /** `getAllDocs`: every document, sorted by category and then by order. */
  function GetAllDocs(files: Files, paths: seq<string>): (r: Result<seq<DocContent>, string>) {
    match LoadAll(files, GetAllDocSlugs(paths))
    case Failure(e) => Failure(e)
    case Success(docs) => Success(SortBy(docs, DocLe))
  }

  /**
   * On success the list holds one document per slug, is ordered by category
   * and, within a category, by `order || 999`, and keeps slug order among
   * documents of equal rank.
   */
  lemma GetAllDocsOrdered(files: Files, paths: seq<string>)
    requires GetAllDocs(files, paths).Success?
    ensures var docs := GetAllDocs(files, paths).value;
      && multiset(docs) == multiset(LoadAll(files, GetAllDocSlugs(paths)).value)
      && forall i, j :: 0 <= i < j < |docs| ==>
        (docs[i].metadata.category == docs[j].metadata.category ==> OrderKey(docs[i]) <= OrderKey(docs[j]))
        && (docs[i].metadata.category != docs[j].metadata.category ==>
              StrLe(docs[i].metadata.category, docs[j].metadata.category))
  {
    var loaded := LoadAll(files, GetAllDocSlugs(paths)).value;
    assert GetAllDocs(files, paths).value == SortBy(loaded, DocLe);
    DocLeTotalPreorder();
    SortBySorted(loaded, DocLe);
    SortByMultiset(loaded, DocLe);
    SortedDocsOrdered(SortBy(loaded, DocLe));
  }

  lemma SortedDocsOrdered(docs: seq<DocContent>)
    requires SortedBy(docs, DocLe)
    ensures forall i, j :: 0 <= i < j < |docs| ==>
      (docs[i].metadata.category == docs[j].metadata.category ==> OrderKey(docs[i]) <= OrderKey(docs[j]))
      && (docs[i].metadata.category != docs[j].metadata.category ==>
            StrLe(docs[i].metadata.category, docs[j].metadata.category))
  {
    forall i, j | 0 <= i < j < |docs|
      ensures docs[i].metadata.category == docs[j].metadata.category ==> OrderKey(docs[i]) <= OrderKey(docs[j])
    {
      assert DocLe(docs[i], docs[j]);
    }
  }

  /** Documents the comparator ranks equal keep their slug order. */
  lemma GetAllDocsStable(files: Files, paths: seq<string>, x: DocContent)
    requires GetAllDocs(files, paths).Success?
    ensures var loaded := LoadAll(files, GetAllDocSlugs(paths)).value;
      Filter(GetAllDocs(files, paths).value, Equivalent(DocLe, x)) == Filter(loaded, Equivalent(DocLe, x))
  {
    DocLeTotalPreorder();
    SortByStable(LoadAll(files, GetAllDocSlugs(paths)).value, DocLe, x);
  }

  /** The list fails exactly when some slug resolves to no file. */
  lemma GetAllDocsFails(files: Files, paths: seq<string>)
    ensures GetAllDocs(files, paths).Failure? <==>
      exists s :: s in GetAllDocSlugs(paths) && forall c :: c in DocCandidates(NormalizeSlug(s)) ==> c !in files
  {
    var slugs := GetAllDocSlugs(paths);
    LoadAllFailure(files, slugs);
    if GetAllDocs(files, paths).Failure? {
      var i :| 0 <= i < |slugs| && DocBySlug(files, slugs[i]).Failure?;
      DocBySlugResolves(files, slugs[i]);
      assert slugs[i] in slugs;
    } else {
      forall s | s in slugs ensures exists c :: c in DocCandidates(NormalizeSlug(s)) && c in files {
        var i :| 0 <= i < |slugs| && slugs[i] == s;
        assert DocBySlug(files, slugs[i]).Success?;
        DocBySlugResolves(files, s);
      }
    }
  }

  /**
   * A docs root holding a README in any letter case but no `index.md` (and
   * no `index` folder) cannot be listed: the README gets the slug `index`,
   * whose four candidate files are all missing.
   */
  lemma RootReadmeNotFound(files: Files, paths: seq<string>, name: string)
    requires IsReadme(name) && name + ".md" in paths
    requires "index.md" !in files && "index/index.md" !in files
    requires "index/README.md" !in files && "index/Readme.md" !in files
    ensures GetAllDocs(files, paths).Failure?
  {
    SlugOfRootReadme(name);
    assert "index" in GetAllDocSlugs(paths);
    IndexCandidatesMissing(files);
    GetAllDocsFails(files, paths);
  }

  lemma IndexCandidatesMissing(files: Files)
    requires "index.md" !in files && "index/index.md" !in files
    requires "index/README.md" !in files && "index/Readme.md" !in files
    ensures NormalizeSlug("index") == "index"
    ensures forall c :: c in DocCandidates("index") ==> c !in files
  {
    assert !EndsWith("index", "/index");
    var cs := DocCandidates("index");
    assert cs[0] == "index.md" && cs[1] == "index/index.md";
    assert cs[2] == "index/README.md" && cs[3] == "index/Readme.md";
  }
}
