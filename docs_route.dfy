/**
 * The documents endpoint: every document with its content turned into one
 * line of plain text for the search index. The Markdown stripper it runs
 * first is an outside library and is taken as a parameter; what is modelled
 * is the whitespace clean-up applied to its output and the response.
 */
module DocsRoute {
  import opened Wrappers
  import opened Strings
  import opened Scanning
  import opened Markdown

  // --------------------------------------------------------- the clean-up

  /**
   * Where a match of `/\n\s*\n/` starting at `p` ends: a newline, then the
   * longest run of whitespace after it that still ends in a newline. There is
   * no match when `s[p]` is not a newline or the run holds no further newline.
   */
  function BlankRun(s: string, p: nat): (q: Option<nat>)
    requires p < |s|
    ensures q.Some? ==> s[p] == '\n' && p + 2 <= q.value <= |s| && s[q.value - 1] == '\n'
    ensures q.Some? ==> AllSpace(s[p..q.value])
    ensures s[p] != '\n' ==> q.None?
  {
    if s[p] != '\n' then None
    else
      var e := SpaceEnd(s, p + 1);
      var run := s[p + 1..e];
      match FindLastChar(run, '\n')
      case Some(k) =>
        AllSpacePrefix(run, k + 1);
        assert s[p..p + 1 + k + 1] == [s[p]] + run[..k + 1];
        Some(p + 1 + k + 1)
      case None => None
  }

  lemma AllSpacePrefix(run: string, n: nat)
    requires AllSpace(run) && n <= |run|
    ensures AllSpace(run[..n])
  {
    assert forall j :: 0 <= j < n ==> run[..n][j] == run[j];
  }

  /**
   * `replace(/\n\s*\n/g, ' ')` from position `p`: each match is replaced by
   * one space and the scan resumes after it.
   */
  function CollapseBlankLines(s: string, p: nat): (r: string)
    requires p <= |s|
    decreases |s| - p
  {
    if p == |s| then []
    else match BlankRun(s, p)
      case Some(q) => " " + CollapseBlankLines(s, q)
      case None => [s[p]] + CollapseBlankLines(s, p + 1)
  }

  /** `replace(/\n/g, ' ')`. */
  function NewlinesToSpaces(s: string): (r: string)
    ensures |r| == |s|
    ensures forall i :: 0 <= i < |s| ==> r[i] == (if s[i] == '\n' then ' ' else s[i])
  {
    seq(|s|, i requires 0 <= i < |s| => if s[i] == '\n' then ' ' else s[i])
  }

  /** Whitespace only as single spaces, never two in a row. */
  predicate SingleSpaced(s: string) {
    forall i :: 0 <= i < |s| && IsSpace(s[i]) ==> s[i] == ' ' && (i + 1 < |s| ==> !IsSpace(s[i + 1]))
  }

  /** `replace(/\s+/g, ' ')` from position `p`: every maximal run of whitespace becomes one space. */
  function CollapseSpaces(s: string, p: nat): (r: string)
    requires p <= |s|
    ensures SingleSpaced(r)
    ensures r != [] ==> p < |s| && (IsSpace(r[0]) <==> IsSpace(s[p]))
    decreases |s| - p
  {
    if p == |s| then []
    else if !IsSpace(s[p]) then
      var rest := CollapseSpaces(s, p + 1);
      assert forall i :: 1 <= i < |[s[p]] + rest| ==> ([s[p]] + rest)[i] == rest[i - 1];
      [s[p]] + rest
    else
      var e := SpaceEnd(s, p);
      var rest := CollapseSpaces(s, e);
      assert forall i :: 1 <= i < |" " + rest| ==> (" " + rest)[i] == rest[i - 1];
      " " + rest
  }

  /** `markdownToPlainText` after the stripper: the four clean-up steps in order. */
  function CleanUp(text: string): (r: string)
  {
    var noBlankLines := CollapseBlankLines(text, 0);
    var noNewlines := NewlinesToSpaces(noBlankLines);
    var normalized := CollapseSpaces(noNewlines, 0);
    Trim(normalized)
  }

  /** The result is one line: no newline, whitespace only as single spaces, none at either end. */
  lemma CleanUpShape(text: string)
    ensures '\n' !in CleanUp(text)
    ensures SingleSpaced(CleanUp(text))
    ensures var r := CleanUp(text); r == [] || (!IsSpace(r[0]) && !IsSpace(r[|r| - 1]))
  {
    var normalized := CollapseSpaces(NewlinesToSpaces(CollapseBlankLines(text, 0)), 0);
    TrimSingleSpaced(normalized);
    var r := CleanUp(text);
    forall i | 0 <= i < |r| ensures r[i] != '\n' {
      assert IsSpace(r[i]) ==> r[i] == ' ';
    }
  }

  lemma TrimSingleSpaced(s: string)
    requires SingleSpaced(s)
    ensures SingleSpaced(Trim(s))
  {
    var t := TrimStart(s);
    TrimStartSuffix(s);
    TrimEndPrefix(t);
    var a := |s| - |t|;
    var b := a + |TrimEnd(t)|;
    assert Trim(s) == s[a..b];
    var r := Trim(s);
    forall i | 0 <= i < |r| && IsSpace(r[i]) ensures r[i] == ' ' && (i + 1 < |r| ==> !IsSpace(r[i + 1])) {
      assert r[i] == s[a + i];
      if i + 1 < |r| {
        assert r[i + 1] == s[a + i + 1];
      }
    }
  }

  /** A text without newlines goes through the first step unchanged. */
  lemma {:induction false} CollapseBlankLinesNoNewline(s: string, p: nat)
    requires p <= |s| && '\n' !in s
    ensures CollapseBlankLines(s, p) == s[p..]
    decreases |s| - p
  {
    if p < |s| {
      CollapseBlankLinesNoNewline(s, p + 1);
      assert s[p..] == [s[p]] + s[p + 1..];
    }
  }

  /** A single-spaced text goes through the third step unchanged. */
  lemma {:induction false} CollapseSpacesSingleSpaced(s: string, p: nat)
    requires p <= |s| && SingleSpaced(s)
    ensures CollapseSpaces(s, p) == s[p..]
    decreases |s| - p
  {
    if p < |s| {
      CollapseSpacesSingleSpaced(s, p + 1);
      assert s[p..] == [s[p]] + s[p + 1..];
      if IsSpace(s[p]) {
        assert SpaceEnd(s, p) == p + 1 by {
          if p + 1 < |s| {
            assert !IsSpace(s[p + 1]);
          }
        }
      }
    }
  }

  /** Cleaning up an already cleaned text changes nothing. */
  lemma CleanUpIdempotent(text: string)
    ensures CleanUp(CleanUp(text)) == CleanUp(text)
  {
    var r := CleanUp(text);
    CleanUpShape(text);
    CollapseBlankLinesNoNewline(r, 0);
    assert r[0..] == r;
    assert NewlinesToSpaces(r) == r;
    CollapseSpacesSingleSpaced(r, 0);
    TrimTrimmed(r);
  }

  // ------------------------------------------ the text survives the clean-up

  /** The non-whitespace characters of `s`, in order: what the clean-up must not touch. */
  function VisibleText(s: string): string
  {
    if s == [] then []
    else (if IsSpace(s[0]) then [] else [s[0]]) + VisibleText(s[1..])
  }

  lemma {:induction false} VisibleTextAppend(a: string, b: string)
    ensures VisibleText(a + b) == VisibleText(a) + VisibleText(b)
  {
    if a != [] {
      var head := if IsSpace(a[0]) then [] else [a[0]];
      assert (a + b)[0] == a[0];
      assert (a + b)[1..] == a[1..] + b;
      VisibleTextAppend(a[1..], b);
      assert VisibleText(a + b) == head + VisibleText(a[1..] + b);
    } else {
      assert a + b == b;
    }
  }

  lemma {:induction false} VisibleTextAllSpace(s: string)
    requires AllSpace(s)
    ensures VisibleText(s) == []
  {
    if s != [] {
      VisibleTextAllSpace(s[1..]);
    }
  }

  /** Prepending one character adds it to the visible text exactly when it is not whitespace. */
  lemma VisibleTextCons(c: char, s: string)
    ensures VisibleText([c] + s) == (if IsSpace(c) then [] else [c]) + VisibleText(s)
  {
    assert ([c] + s)[1..] == s;
  }

  /** A whitespace run followed by `tail` shows only what `tail` shows. */
  lemma RunStep(run: string, tail: string)
    requires AllSpace(run)
    ensures VisibleText(run + tail) == VisibleText(tail)
  {
    VisibleTextAppend(run, tail);
    VisibleTextAllSpace(run);
  }

  /** The first step removes only whitespace. */
  lemma {:induction false} CollapseBlankLinesKeepsText(s: string, p: nat)
    requires p <= |s|
    ensures VisibleText(CollapseBlankLines(s, p)) == VisibleText(s[p..])
    decreases |s| - p
  {
    if p < |s| {
      match BlankRun(s, p)
      case Some(q) =>
        CollapseBlankLinesKeepsText(s, q);
        VisibleTextCons(' ', CollapseBlankLines(s, q));
        assert s[p..] == s[p..q] + s[q..];
        RunStep(s[p..q], s[q..]);
      case None =>
        CollapseBlankLinesKeepsText(s, p + 1);
        VisibleTextCons(s[p], CollapseBlankLines(s, p + 1));
        assert s[p..] == [s[p]] + s[p + 1..];
        VisibleTextCons(s[p], s[p + 1..]);
    }
  }

  /** The second step turns newlines, which are whitespace, into spaces. */
  lemma {:induction false} NewlinesToSpacesKeepsText(s: string)
    ensures VisibleText(NewlinesToSpaces(s)) == VisibleText(s)
  {
    if s != [] {
      NewlinesToSpacesKeepsText(s[1..]);
      assert NewlinesToSpaces(s)[1..] == NewlinesToSpaces(s[1..]);
    }
  }

  /** The third step replaces each whitespace run by one space and keeps everything else. */
  lemma {:induction false} CollapseSpacesKeepsText(s: string, p: nat)
    requires p <= |s|
    ensures VisibleText(CollapseSpaces(s, p)) == VisibleText(s[p..])
    decreases |s| - p
  {
    if p < |s| {
      if !IsSpace(s[p]) {
        CollapseSpacesKeepsText(s, p + 1);
        VisibleTextCons(s[p], CollapseSpaces(s, p + 1));
        assert s[p..] == [s[p]] + s[p + 1..];
        VisibleTextCons(s[p], s[p + 1..]);
      } else {
        var e := SpaceEnd(s, p);
        assert e > p;
        CollapseSpacesKeepsText(s, e);
        VisibleTextCons(' ', CollapseSpaces(s, e));
        assert s[p..] == s[p..e] + s[e..];
        RunStep(s[p..e], s[e..]);
      }
    }
  }

  /** Trimming removes only whitespace. */
  lemma TrimKeepsText(s: string)
    ensures VisibleText(Trim(s)) == VisibleText(s)
  {
    var t := TrimStart(s);
    TrimStartSuffix(s);
    TrimEndPrefix(t);
    var a := |s| - |t|;
    var u := TrimEnd(t);
    assert s == s[..a] + t;
    assert t == u + t[|u|..];
    RunStep(s[..a], t);
    VisibleTextAppend(u, t[|u|..]);
    VisibleTextAllSpace(t[|u|..]);
  }

  /**
   * Only whitespace changes: the cleaned text holds the same non-whitespace
   * characters, in the same order, as the stripped body it comes from.
   */
  lemma CleanUpKeepsText(text: string)
    ensures VisibleText(CleanUp(text)) == VisibleText(text)
  {
    var noBlankLines := CollapseBlankLines(text, 0);
    var noNewlines := NewlinesToSpaces(noBlankLines);
    var normalized := CollapseSpaces(noNewlines, 0);
    CollapseBlankLinesKeepsText(text, 0);
    assert text[0..] == text;
    NewlinesToSpacesKeepsText(noBlankLines);
    CollapseSpacesKeepsText(noNewlines, 0);
    assert noNewlines[0..] == noNewlines;
    TrimKeepsText(normalized);
  }

  // ------------------------------------------ the words survive the clean-up

  /** The word being read, closed off: nothing when no word was begun. */
  function Flush(cur: string): seq<string> {
    if cur == [] then [] else [cur]
  }

  /**
   * The words of `s`, read with the word `cur` already begun: the maximal
   * runs of non-whitespace characters, in order.
   */
  function WordsFrom(s: string, cur: string): seq<string>
    decreases |s|
  {
    if s == [] then Flush(cur)
    else if IsSpace(s[0]) then Flush(cur) + WordsFrom(s[1..], [])
    else WordsFrom(s[1..], cur + [s[0]])
  }

  /** The words of `s`. */
  function Words(s: string): seq<string> {
    WordsFrom(s, [])
  }

  /** Every word is non-empty and holds no whitespace. */
  lemma {:induction false} WordsFromAreWords(s: string, cur: string)
    requires NoSpace(cur)
    ensures forall w :: w in WordsFrom(s, cur) ==> w != [] && NoSpace(w)
    decreases |s|
  {
    if s != [] {
      if IsSpace(s[0]) {
        WordsFromAreWords(s[1..], []);
      } else {
        var next := cur + [s[0]];
        assert forall i :: 0 <= i < |next| ==> next[i] == (if i < |cur| then cur[i] else s[0]);
        WordsFromAreWords(s[1..], next);
      }
    }
  }

  /** A run of whitespace ends the word being read and nothing more. */
  lemma {:induction false} RunWords(run: string, tail: string, cur: string)
    requires AllSpace(run) && run != []
    ensures WordsFrom(run + tail, cur) == Flush(cur) + WordsFrom(tail, [])
    decreases |run|
  {
    assert (run + tail)[0] == run[0];
    assert (run + tail)[1..] == run[1..] + tail;
    if run[1..] == [] {
      assert run[1..] + tail == tail;
    } else {
      RunWords(run[1..], tail, []);
      assert Flush([]) + WordsFrom(tail, []) == WordsFrom(tail, []);
    }
  }

  /** A non-whitespace character extends the word being read. */
  lemma LetterWords(c: char, tail: string, cur: string)
    requires !IsSpace(c)
    ensures WordsFrom([c] + tail, cur) == WordsFrom(tail, cur + [c])
  {
    assert ([c] + tail)[1..] == tail;
  }

  /** Whitespace at the end adds no word. */
  lemma {:induction false} TrailingRunWords(s: string, run: string, cur: string)
    requires AllSpace(run)
    ensures WordsFrom(s + run, cur) == WordsFrom(s, cur)
    decreases |s|
  {
    if s == [] {
      assert s + run == run + [];
      if run != [] {
        RunWords(run, [], cur);
      }
    } else {
      assert (s + run)[0] == s[0];
      assert (s + run)[1..] == s[1..] + run;
      if IsSpace(s[0]) {
        TrailingRunWords(s[1..], run, []);
      } else {
        TrailingRunWords(s[1..], run, cur + [s[0]]);
      }
    }
  }

  /** The first step keeps the words. */
  lemma {:induction false} CollapseBlankLinesWords(s: string, p: nat, cur: string)
    requires p <= |s|
    ensures WordsFrom(CollapseBlankLines(s, p), cur) == WordsFrom(s[p..], cur)
    decreases |s| - p
  {
    if p < |s| {
      match BlankRun(s, p)
      case Some(q) =>
        CollapseBlankLinesWords(s, q, []);
        RunWords(" ", CollapseBlankLines(s, q), cur);
        assert s[p..] == s[p..q] + s[q..];
        RunWords(s[p..q], s[q..], cur);
      case None =>
        CollapseBlankLinesWords(s, p + 1, cur + [s[p]]);
        assert s[p..] == [s[p]] + s[p + 1..];
        if IsSpace(s[p]) {
          CollapseBlankLinesWords(s, p + 1, []);
          RunWords([s[p]], CollapseBlankLines(s, p + 1), cur);
          RunWords([s[p]], s[p + 1..], cur);
        } else {
          LetterWords(s[p], CollapseBlankLines(s, p + 1), cur);
          LetterWords(s[p], s[p + 1..], cur);
        }
    }
  }

  /** The second step keeps the words: a newline and a space both end one. */
  lemma {:induction false} NewlinesToSpacesWords(s: string, cur: string)
    ensures WordsFrom(NewlinesToSpaces(s), cur) == WordsFrom(s, cur)
    decreases |s|
  {
    if s != [] {
      var r := NewlinesToSpaces(s);
      assert r[1..] == NewlinesToSpaces(s[1..]);
      if IsSpace(s[0]) {
        NewlinesToSpacesWords(s[1..], []);
      } else {
        NewlinesToSpacesWords(s[1..], cur + [s[0]]);
      }
    }
  }

  /** The third step keeps the words: each whitespace run still separates the same two. */
  lemma {:induction false} CollapseSpacesWords(s: string, p: nat, cur: string)
    requires p <= |s|
    ensures WordsFrom(CollapseSpaces(s, p), cur) == WordsFrom(s[p..], cur)
    decreases |s| - p
  {
    if p < |s| {
      if !IsSpace(s[p]) {
        CollapseSpacesWords(s, p + 1, cur + [s[p]]);
        assert s[p..] == [s[p]] + s[p + 1..];
        LetterWords(s[p], CollapseSpaces(s, p + 1), cur);
        LetterWords(s[p], s[p + 1..], cur);
      } else {
        var e := SpaceEnd(s, p);
        assert e > p;
        CollapseSpacesWords(s, e, []);
        RunWords(" ", CollapseSpaces(s, e), cur);
        assert s[p..] == s[p..e] + s[e..];
        RunWords(s[p..e], s[e..], cur);
      }
    }
  }

  /** Trimming keeps the words. */
  lemma TrimWords(s: string)
    ensures Words(Trim(s)) == Words(s)
  {
    var t := TrimStart(s);
    TrimStartSuffix(s);
    TrimEndPrefix(t);
    var a := |s| - |t|;
    var u := TrimEnd(t);
    assert s == s[..a] + t;
    assert t == u + t[|u|..];
    if a > 0 {
      RunWords(s[..a], t, []);
    }
    TrailingRunWords(u, t[|u|..], []);
  }

  /**
   * The clean-up keeps the words, in order. With `CleanUpShape` this makes
   * the cleaned text the words of the input separated by single spaces.
   */
  lemma CleanUpWords(text: string)
    ensures Words(CleanUp(text)) == Words(text)
  {
    var noBlankLines := CollapseBlankLines(text, 0);
    var noNewlines := NewlinesToSpaces(noBlankLines);
    var normalized := CollapseSpaces(noNewlines, 0);
    CollapseBlankLinesWords(text, 0, []);
    assert text[0..] == text;
    NewlinesToSpacesWords(noBlankLines, []);
    CollapseSpacesWords(noNewlines, 0, []);
    assert noNewlines[0..] == noNewlines;
    TrimWords(normalized);
  }

  // -------------------------------------------------------------- the route

  datatype Response =
    | Ok(docs: seq<DocContent>)
    | ServerError(status: int, error: string)

  /**
   * `GET`: each document in its place with its metadata kept and only its
   * content replaced, or the error response when loading fails.
   */
  function Get(files: Files, paths: seq<string>, removeMd: string -> string): (resp: Response)
    ensures resp.ServerError? ==> resp == ServerError(500, "Failed to fetch documentation")
    ensures resp.ServerError? <==> GetAllDocs(files, paths).Failure?
    ensures resp.Ok? ==> |resp.docs| == |GetAllDocs(files, paths).value|
    ensures resp.Ok? ==> forall i :: 0 <= i < |resp.docs| ==>
      resp.docs[i].metadata == GetAllDocs(files, paths).value[i].metadata
    ensures resp.Ok? ==> forall i :: 0 <= i < |resp.docs| ==>
      resp.docs[i].content == CleanUp(removeMd(GetAllDocs(files, paths).value[i].content))
  {
    match GetAllDocs(files, paths)
    case Failure(_) => ServerError(500, "Failed to fetch documentation")
    case Success(docs) =>
      Ok(seq(|docs|, i requires 0 <= i < |docs| => docs[i].(content := CleanUp(removeMd(docs[i].content)))))
  }

  /** The route fails exactly when some listed slug has no file to load. */
  lemma GetFailsIff(files: Files, paths: seq<string>, removeMd: string -> string)
    ensures Get(files, paths, removeMd).ServerError? <==>
      exists s :: s in GetAllDocSlugs(paths) && forall c :: c in DocCandidates(NormalizeSlug(s)) ==> c !in files
  {
    GetAllDocsFails(files, paths);
  }
}
