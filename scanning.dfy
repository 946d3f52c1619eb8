/**
 * The regular expressions the core runs over Markdown text, each modelled by a
 * function that follows the JavaScript engine's search: the scan starts at a
 * position and tries every later position in turn, `^` and `$` in multi-line
 * mode match at line boundaries, `.` stops at line terminators, greedy parts
 * give characters back on backtracking and lazy parts take as few as they can.
 */
module Scanning {
  import opened Wrappers
  import opened Strings

  /** `\n`, `\r`, U+2028 and U+2029: where `.` stops and multi-line `^`/`$` match. */
  predicate IsLineTerminator(c: char) {
    c == '\n' || c == '\r' || c == '\U{2028}' || c == '\U{2029}'
  }

  lemma TerminatorIsSpace(c: char)
    requires IsLineTerminator(c)
    ensures IsSpace(c)
  {
  }

  predicate NoTerminator(s: string) {
    forall i :: 0 <= i < |s| ==> !IsLineTerminator(s[i])
  }

  /** Multi-line `^` holds at position `p`. */
  predicate AtLineStart(s: string, p: nat) {
    p == 0 || (p <= |s| && IsLineTerminator(s[p - 1]))
  }

  /** Multi-line `$`: the first line boundary at or after `p`. */
  function LineEnd(s: string, p: nat): (e: nat)
    requires p <= |s|
    ensures p <= e <= |s|
    ensures NoTerminator(s[p..e])
    ensures e == |s| || IsLineTerminator(s[e])
    decreases |s| - p
  {
    if p == |s| || IsLineTerminator(s[p]) then p else LineEnd(s, p + 1)
  }

  /** The end of the maximal run of `\s` starting at `p` (what a greedy `\s+` takes first). */
  function SpaceEnd(s: string, p: nat): (e: nat)
    requires p <= |s|
    ensures p <= e <= |s|
    ensures AllSpace(s[p..e])
    ensures e == |s| || !IsSpace(s[e])
    decreases |s| - p
  {
    if p == |s| || !IsSpace(s[p]) then p else SpaceEnd(s, p + 1)
  }

  /** The number of `#` characters starting at `p`. */
  function HashCount(s: string, p: nat): (n: nat)
    requires p <= |s|
    ensures p + n <= |s|
    ensures forall i :: p <= i < p + n ==> s[i] == '#'
    ensures p + n == |s| || s[p + n] != '#'
    decreases |s| - p
  {
    if p == |s| || s[p] != '#' then 0 else 1 + HashCount(s, p + 1)
  }

  /** The largest `j` in `[lo, hi)` where `.` can match, if any. */
  function LastTextStart(s: string, lo: nat, hi: nat): (j: Option<nat>)
    requires hi <= |s|
    ensures j.Some? ==> lo <= j.value < hi && !IsLineTerminator(s[j.value])
    ensures j.Some? ==> forall k :: j.value < k < hi ==> IsLineTerminator(s[k])
    ensures j.None? ==> forall k :: lo <= k < hi ==> IsLineTerminator(s[k])
    decreases hi
  {
    if hi <= lo then None
    else if !IsLineTerminator(s[hi - 1]) then Some(hi - 1)
    else LastTextStart(s, lo, hi - 1)
  }

  /** A match of `^(#{1,max})\s+(.+?)$`: the number of `#` and the captured text. */
  datatype Heading = Heading(level: nat, text: string)

  /**
   * The match of `^(#{1,max})\s+(.+?)$` at exactly position `p`, with the
   * position where it ends. A run of more than `max` hashes cannot match,
   * since every shorter prefix of it is followed by `#`, not by `\s`. The
   * greedy `\s+` first takes the whole whitespace run (crossing line breaks)
   * and gives characters back until `.` can match; the lazy `(.+?)$` then
   * runs to the next line boundary.
   */
  function HeadingAt(s: string, p: nat, max: nat): (m: Option<(Heading, nat)>)
    ensures m.Some? ==> AtLineStart(s, p) && p < |s|
    ensures m.Some? ==> 1 <= m.value.0.level <= max
    ensures m.Some? ==> p + m.value.0.level < |s| && IsSpace(s[p + m.value.0.level])
    ensures m.Some? ==> forall i :: p <= i < p + m.value.0.level ==> s[i] == '#'
    ensures m.Some? ==> p < m.value.1 <= |s|
    ensures m.Some? ==> m.value.0.text != [] && NoTerminator(m.value.0.text)
  {
    if p >= |s| || !AtLineStart(s, p) then None
    else
      var n := HashCount(s, p);
      if n < 1 || max < n || p + n >= |s| || !IsSpace(s[p + n]) then None
      else
        var q := SpaceEnd(s, p + n);
        match LastTextStart(s, p + n + 1, if q < |s| then q + 1 else |s|)
        case None => None
        case Some(j) =>
          var e := LineEnd(s, j);
          Some((Heading(n, s[j..e]), e))
  }

  /** Every successive match of the global regex `^(#{1,max})\s+(.+?)$` from `from` on. */
  function Headings(s: string, from: nat, max: nat): (hs: seq<Heading>)
    ensures forall i :: 0 <= i < |hs| ==> 1 <= hs[i].level <= max
    ensures forall i :: 0 <= i < |hs| ==> hs[i].text != [] && NoTerminator(hs[i].text)
    decreases |s| - from
  {
    if from >= |s| then []
    else
      match HeadingAt(s, from, max)
      case Some((h, e)) => [h] + Headings(s, e, max)
      case None => Headings(s, from + 1, max)
  }

  /** The lazy capture of `[\s\S]*?^```` from `k`: the first fence line at or after `k`. */
  predicate FenceAt(s: string, p: nat) {
    AtLineStart(s, p) && OccursAt(s, "```", p)
  }

  function NextFence(s: string, k: nat): (m: Option<nat>)
    ensures m.Some? ==> k <= m.value && FenceAt(s, m.value)
    ensures m.None? ==> forall p :: k <= p ==> !FenceAt(s, p)
    decreases |s| - k
  {
    if k >= |s| then None
    else if FenceAt(s, k) then Some(k)
    else NextFence(s, k + 1)
  }

  /**
   * `s.replace(/^```[\s\S]*?^```/gm, '')` from position `from`: every fence
   * line is removed together with everything up to and including the three
   * backticks of the next fence line; an opening fence with no later fence
   * line is kept.
   */
  function StripFences(s: string, from: nat): (r: string)
    requires from <= |s|
    ensures |r| <= |s| - from
    decreases |s| - from
  {
    if from == |s| then []
    else
      var close := NextFence(s, from + 3);
      if FenceAt(s, from) && close.Some? then StripFences(s, close.value + 3)
      else [s[from]] + StripFences(s, from + 1)
  }

  /** A text without fence lines is left as it is. */
  lemma {:induction false} StripFencesNoFence(s: string, from: nat)
    requires from <= |s|
    requires forall p :: from <= p ==> !FenceAt(s, p)
    ensures StripFences(s, from) == s[from..]
    decreases |s| - from
  {
    if from < |s| {
      StripFencesNoFence(s, from + 1);
      assert s[from..] == [s[from]] + s[from + 1..];
    }
  }

  /** The lazy `(.*?)close` from `k`: the first `close` before the next line boundary. */
  function CloseAt(s: string, k: nat, close: string): (j: Option<nat>)
    requires k <= |s|
    ensures j.Some? ==> k <= j.value && OccursAt(s, close, j.value)
    ensures j.Some? ==> NoTerminator(s[k..j.value])
    decreases |s| - k
  {
    if OccursAt(s, close, k) then Some(k)
    else if k < |s| && !IsLineTerminator(s[k]) then
      var j := CloseAt(s, k + 1, close);
      if j.Some? then
        assert s[k..j.value] == [s[k]] + s[k + 1..j.value];
        j
      else None
    else None
  }

  /**
   * `s.replace(/open(.*?)close/g, '$1')` from position `from`, for literal
   * delimiters: each delimited span keeps its inner text and loses both
   * delimiters.
   */
  function UnwrapPairs(s: string, open: string, close: string, from: nat): (r: string)
    requires |open| > 0 && from <= |s|
    ensures |r| <= |s| - from
    decreases |s| - from
  {
    if from == |s| then []
    else
      var j := if from + |open| <= |s| then CloseAt(s, from + |open|, close) else None;
      if OccursAt(s, open, from) && j.Some? then
        var rest := UnwrapPairs(s, open, close, j.value + |close|);
        s[from + |open|..j.value] + rest
      else
        [s[from]] + UnwrapPairs(s, open, close, from + 1)
  }

  /** Text in which the opening delimiter never starts is left as it is. */
  lemma {:induction false} UnwrapPairsPlain(s: string, open: string, close: string, from: nat)
    requires |open| > 0 && from <= |s|
    requires open[0] !in s[from..]
    ensures UnwrapPairs(s, open, close, from) == s[from..]
    decreases |s| - from
  {
    if from < |s| {
      assert s[from..] == [s[from]] + s[from + 1..];
      assert s[from] != open[0];
      UnwrapPairsPlain(s, open, close, from + 1);
    }
  }

  /**
   * `s.replace(/\[(.*?)\]\(.*?\)/g, '$1')` from position `from`. Both lazy
   * parts stop at the same line boundary, so when the first `](` has no `)`
   * after it on its line no later `](` has one either, and the regex fails at
   * this `[`.
   */
  function UnwrapLinks(s: string, from: nat): (r: string)
    requires from <= |s|
    ensures |r| <= |s| - from
    decreases |s| - from
  {
    if from == |s| then []
    else
      var j := CloseAt(s, from + 1, "](");
      var k := if j.Some? then CloseAt(s, j.value + 2, ")") else None;
      if s[from] == '[' && k.Some? then
        var rest := UnwrapLinks(s, k.value + 1);
        s[from + 1..j.value] + rest
      else
        [s[from]] + UnwrapLinks(s, from + 1)
  }

  /** Text without `[` is left as it is. */
  lemma {:induction false} UnwrapLinksPlain(s: string, from: nat)
    requires from <= |s|
    requires '[' !in s[from..]
    ensures UnwrapLinks(s, from) == s[from..]
    decreases |s| - from
  {
    if from < |s| {
      assert s[from..] == [s[from]] + s[from + 1..];
      UnwrapLinksPlain(s, from + 1);
    }
  }
}
