/**
 * The string primitives the TypeScript code relies on: JavaScript's whitespace
 * class and `trim`, ASCII case mapping, prefix/suffix/substring searches,
 * decimal rendering of counters and character-by-character ordering of strings.
 */
module Strings {
  import opened Wrappers

  /** JavaScript's `\s` class; `String.prototype.trim` strips exactly these code points. */
  predicate IsSpace(c: char) {
    var n := c as int;
    n == 0x09 || n == 0x0A || n == 0x0B || n == 0x0C || n == 0x0D || n == 0x20
    || n == 0xA0 || n == 0x1680 || (0x2000 <= n <= 0x200A) || n == 0x2028
    || n == 0x2029 || n == 0x202F || n == 0x205F || n == 0x3000 || n == 0xFEFF
  }

  predicate AllSpace(s: string) {
    forall i :: 0 <= i < |s| ==> IsSpace(s[i])
  }

  predicate NoSpace(s: string) {
    forall i :: 0 <= i < |s| ==> !IsSpace(s[i])
  }

  /** JavaScript's `\w` class: ASCII letters, digits and underscore. */
  predicate IsWordChar(c: char) {
    'a' <= c <= 'z' || 'A' <= c <= 'Z' || '0' <= c <= '9' || c == '_'
  }

  predicate IsDigit(c: char) {
    '0' <= c <= '9'
  }

  function LowerChar(c: char): (r: char)
    ensures 'A' <= c <= 'Z' ==> 'a' <= r <= 'z'
    ensures !('A' <= c <= 'Z') ==> r == c
  {
    if 'A' <= c <= 'Z' then (c as int + 32) as char else c
  }

  function UpperChar(c: char): (r: char)
    ensures 'a' <= c <= 'z' ==> 'A' <= r <= 'Z'
    ensures !('a' <= c <= 'z') ==> r == c
  {
    if 'a' <= c <= 'z' then (c as int - 32) as char else c
  }

  /** `toLowerCase()` restricted to ASCII: every other character is kept. */
  function Lower(s: string): (r: string)
    ensures |r| == |s|
    ensures forall i :: 0 <= i < |s| ==> r[i] == LowerChar(s[i])
  {
    seq(|s|, i requires 0 <= i < |s| => LowerChar(s[i]))
  }

  lemma LowerSlice(s: string, i: nat, j: nat)
    requires i <= j <= |s|
    ensures Lower(s[i..j]) == Lower(s)[i..j]
  {
  }

  lemma LowerAppend(a: string, b: string)
    ensures Lower(a + b) == Lower(a) + Lower(b)
  {
  }

  function TrimStart(s: string): (r: string)
    ensures |r| <= |s|
    ensures r == [] || !IsSpace(r[0])
  {
    if s != [] && IsSpace(s[0]) then TrimStart(s[1..]) else s
  }

  /** What `TrimStart` removes is a whitespace prefix. */
  lemma {:induction false} TrimStartSuffix(s: string)
    ensures TrimStart(s) == s[|s| - |TrimStart(s)|..]
    ensures AllSpace(s[..|s| - |TrimStart(s)|])
  {
    if s != [] && IsSpace(s[0]) {
      TrimStartSuffix(s[1..]);
      assert s[1..][|s| - 1 - |TrimStart(s)|..] == s[|s| - |TrimStart(s)|..];
      assert forall i :: 1 <= i < |s| - |TrimStart(s)| ==> s[i] == s[1..][..|s| - 1 - |TrimStart(s)|][i - 1];
    }
  }

  function TrimEnd(s: string): (r: string)
    ensures |r| <= |s|
    ensures r == [] || (!IsSpace(r[|r| - 1]) && r[0] == s[0])
  {
    if s != [] && IsSpace(s[|s| - 1]) then TrimEnd(s[..|s| - 1]) else s
  }

  /** What `TrimEnd` removes is a whitespace suffix. */
  lemma {:induction false} TrimEndPrefix(s: string)
    ensures TrimEnd(s) == s[..|TrimEnd(s)|]
    ensures AllSpace(s[|TrimEnd(s)|..])
  {
    if s != [] && IsSpace(s[|s| - 1]) {
      var t := s[..|s| - 1];
      TrimEndPrefix(t);
      assert t[..|TrimEnd(s)|] == s[..|TrimEnd(s)|];
      assert forall i :: |TrimEnd(s)| <= i < |s| - 1 ==> s[i] == t[|TrimEnd(s)|..][i - |TrimEnd(s)|];
    }
  }

  /** `String.prototype.trim`: drop the leading and the trailing whitespace. */
  function Trim(s: string): (r: string)
    ensures |r| <= |s|
    ensures r == [] || (!IsSpace(r[0]) && !IsSpace(r[|r| - 1]))
  {
    TrimEnd(TrimStart(s))
  }

  /** Trimming leaves nothing exactly when the string is all whitespace. */
  lemma TrimEmptyIffAllSpace(s: string)
    ensures Trim(s) == [] <==> AllSpace(s)
  {
    var t := TrimStart(s);
    var r := TrimEnd(t);
    TrimStartSuffix(s);
    TrimEndPrefix(t);
    var a := s[..|s| - |t|];
    assert s == a + t;
    if r == [] {
      assert t[|r|..] == t;
      AllSpaceAppend(a, t);
    } else {
      assert s[|a|] == t[0];
    }
  }

  lemma AllSpaceAppend(a: string, b: string)
    requires AllSpace(a) && AllSpace(b)
    ensures AllSpace(a + b)
  {
    forall i | 0 <= i < |a + b| ensures IsSpace((a + b)[i]) {
      if i < |a| { assert (a + b)[i] == a[i]; } else { assert (a + b)[i] == b[i - |a|]; }
    }
  }

  lemma TrimNoSpace(s: string)
    requires NoSpace(s)
    ensures Trim(s) == s
  {
  }

  lemma TrimTrimmed(s: string)
    requires s == [] || (!IsSpace(s[0]) && !IsSpace(s[|s| - 1]))
    ensures Trim(s) == s
  {
  }

  predicate StartsWith(s: string, p: string) {
    |p| <= |s| && s[..|p|] == p
  }

  predicate EndsWith(s: string, p: string) {
    |p| <= |s| && s[|s| - |p|..] == p
  }

  /** `q` occurs in `s` at position `i`. */
  predicate OccursAt(s: string, q: string, i: int) {
    0 <= i && i + |q| <= |s| && s[i..i + |q|] == q
  }

  /** `indexOf`: the first position at which `q` occurs in `s`, if any. */
  function IndexOf(s: string, q: string): (r: Option<nat>)
    ensures r.Some? ==> OccursAt(s, q, r.value)
    ensures r.Some? ==> forall j :: 0 <= j < r.value ==> !OccursAt(s, q, j)
    ensures r.None? ==> forall j :: !OccursAt(s, q, j)
    decreases |s|
  {
    if OccursAt(s, q, 0) then Some(0)
    else if s == [] then None
    else
      var rest := IndexOf(s[1..], q);
      OccursAtTail(s, q);
      if rest.Some? then Some(rest.value + 1) else None
  }

  lemma OccursAtTail(s: string, q: string)
    requires s != []
    ensures forall j :: 1 <= j ==> (OccursAt(s, q, j) <==> OccursAt(s[1..], q, j - 1))
  {
    forall j | 1 <= j ensures OccursAt(s, q, j) <==> OccursAt(s[1..], q, j - 1) {
      if j + |q| <= |s| {
        assert s[1..][j - 1..j - 1 + |q|] == s[j..j + |q|];
      }
    }
  }

  /** `includes`. */
  predicate Contains(s: string, q: string) {
    IndexOf(s, q).Some?
  }

  lemma ContainsAt(s: string, q: string, i: int)
    requires OccursAt(s, q, i)
    ensures Contains(s, q)
  {
  }

  /** `lastIndexOf`: the last position at which `q` occurs in `s`, if any. */
  function LastIndexOf(s: string, q: string): (r: Option<nat>)
    ensures r.Some? ==> OccursAt(s, q, r.value)
    ensures r.Some? ==> forall j :: r.value < j ==> !OccursAt(s, q, j)
    ensures r.None? ==> forall j :: !OccursAt(s, q, j)
    decreases |s|
  {
    if |s| < |q| then None
    else if OccursAt(s, q, |s| - |q|) then Some(|s| - |q|)
    else
      var rest := LastIndexOf(s[..|s| - 1], q);
      assert forall j :: j < |s| - |q| ==> (OccursAt(s, q, j) <==> OccursAt(s[..|s| - 1], q, j)) by {
        forall j | j < |s| - |q| ensures OccursAt(s, q, j) <==> OccursAt(s[..|s| - 1], q, j) {
          if 0 <= j { assert s[j..j + |q|] == s[..|s| - 1][j..j + |q|]; }
        }
      }
      rest
  }

  /** The position of the first `c` in `s`, or `|s|` when there is none. */
  function FindChar(s: string, c: char): (k: nat)
    ensures k <= |s|
    ensures k < |s| ==> s[k] == c
    ensures forall j :: 0 <= j < k ==> s[j] != c
  {
    if s == [] || s[0] == c then 0 else 1 + FindChar(s[1..], c)
  }

  /** The position of the last `c` in `s`, if any. */
  function FindLastChar(s: string, c: char): (k: Option<nat>)
    ensures k.Some? ==> k.value < |s| && s[k.value] == c
    ensures k.Some? ==> forall j :: k.value < j < |s| ==> s[j] != c
    ensures k.None? ==> c !in s
  {
    if s == [] then None
    else if s[|s| - 1] == c then Some(|s| - 1)
    else FindLastChar(s[..|s| - 1], c)
  }

  function DigitChar(d: nat): (c: char)
    requires d < 10
    ensures IsDigit(c)
  {
    "0123456789"[d]
  }

  function DigitValue(c: char): (d: nat)
    requires IsDigit(c)
    ensures d < 10
  {
    c as int - '0' as int
  }

  /** The decimal rendering of a counter, as a template literal `${n}` produces it. */
  function Decimal(n: nat): (r: string)
    ensures |r| >= 1
    ensures forall i :: 0 <= i < |r| ==> IsDigit(r[i])
  {
    if n < 10 then [DigitChar(n)] else Decimal(n / 10) + [DigitChar(n % 10)]
  }

  /** Reads a string of decimal digits back as a number. */
  function ParseDecimal(s: string): nat
    requires forall i :: 0 <= i < |s| ==> IsDigit(s[i])
  {
    if s == [] then 0 else ParseDecimal(s[..|s| - 1]) * 10 + DigitValue(s[|s| - 1])
  }

  /** Reading a rendered counter gives the counter back. */
  lemma {:induction false} ParseDecimalOfDecimal(n: nat)
    ensures ParseDecimal(Decimal(n)) == n
  {
    var d := Decimal(n);
    if n < 10 {
      assert d[..0] == [];
    } else {
      ParseDecimalOfDecimal(n / 10);
      assert d[..|d| - 1] == Decimal(n / 10);
    }
  }

  /** Distinct counters render as distinct strings. */
  lemma DecimalInjective(m: nat, n: nat)
    ensures Decimal(m) == Decimal(n) <==> m == n
  {
    ParseDecimalOfDecimal(m);
    ParseDecimalOfDecimal(n);
  }

  /**
   * Lexicographic order on the characters' values: the ordering `localeCompare`
   * is modelled by (a locale-independent total order).
   */
  predicate StrLe(a: string, b: string) {
    if a == [] then true
    else if b == [] then false
    else if a[0] != b[0] then a[0] < b[0]
    else StrLe(a[1..], b[1..])
  }

  lemma {:induction false} StrLeTotal(a: string, b: string)
    ensures StrLe(a, b) || StrLe(b, a)
  {
    if a != [] && b != [] && a[0] == b[0] {
      StrLeTotal(a[1..], b[1..]);
    }
  }

  lemma {:induction false} StrLeTransitive(a: string, b: string, c: string)
    requires StrLe(a, b) && StrLe(b, c)
    ensures StrLe(a, c)
  {
    if a != [] && b != [] && c != [] && a[0] == b[0] && b[0] == c[0] {
      StrLeTransitive(a[1..], b[1..], c[1..]);
    }
  }

  lemma {:induction false} StrLeAntisymmetric(a: string, b: string)
    requires StrLe(a, b) && StrLe(b, a)
    ensures a == b
  {
    if a != [] && b != [] {
      StrLeAntisymmetric(a[1..], b[1..]);
      assert a == [a[0]] + a[1..];
      assert b == [b[0]] + b[1..];
    }
  }
}
