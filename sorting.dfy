/**
 * `Array.prototype.sort(compare)`. Since ECMAScript 2019 the sort is required to be
 * stable, so for a comparator that is a total preorder its result is determined:
 * the unique ordering that is sorted and keeps equivalent elements in their
 * original relative order. That result is modelled here as a stable insertion sort,
 * with `le(a, b)` standing for `compare(a, b) <= 0`.
 */
module Sorting {
  import opened Seqs

  ghost predicate TotalPreorder<T(!new)>(le: (T, T) -> bool) {
    && (forall a, b :: le(a, b) || le(b, a))
    && (forall a, b, c :: le(a, b) && le(b, c) ==> le(a, c))
  }

  predicate SortedBy<T>(s: seq<T>, le: (T, T) -> bool) {
    forall i, j :: 0 <= i < j < |s| ==> le(s[i], s[j])
  }

  /** Places `x` after every trailing element of `t` that is not greater than it. */
  function Insert<T>(t: seq<T>, x: T, le: (T, T) -> bool): (r: seq<T>)
    ensures |r| == |t| + 1
  {
    if t == [] || le(t[|t| - 1], x) then t + [x]
    else
      Insert(t[..|t| - 1], x, le) + [t[|t| - 1]]
  }

  /** Inserting adds `x` and loses nothing. */
  lemma {:induction false} InsertMultiset<T>(t: seq<T>, x: T, le: (T, T) -> bool)
    ensures multiset(Insert(t, x, le)) == multiset(t) + multiset{x}
  {
    if !(t == [] || le(t[|t| - 1], x)) {
      var t' := t[..|t| - 1];
      InsertMultiset(t', x, le);
      assert t == t' + [t[|t| - 1]];
    }
  }

  /** The stable sort of `s` under `le`. */
  function SortBy<T>(s: seq<T>, le: (T, T) -> bool): (r: seq<T>)
    ensures |r| == |s|
  {
    if s == [] then []
    else Insert(SortBy(s[..|s| - 1], le), s[|s| - 1], le)
  }

  /** The sort is a permutation of its input. */
  lemma {:induction false} SortByMultiset<T>(s: seq<T>, le: (T, T) -> bool)
    ensures multiset(SortBy(s, le)) == multiset(s)
  {
    if s != [] {
      SortByMultiset(s[..|s| - 1], le);
      InsertMultiset(SortBy(s[..|s| - 1], le), s[|s| - 1], le);
      assert s == s[..|s| - 1] + [s[|s| - 1]];
    }
  }

  /** The elements that `le` ranks equal to `x`. */
  function Equivalent<T>(le: (T, T) -> bool, x: T): T -> bool {
    y => le(x, y) && le(y, x)
  }

  lemma {:induction false} InsertSorted<T(!new)>(t: seq<T>, x: T, le: (T, T) -> bool)
    requires TotalPreorder(le) && SortedBy(t, le)
    ensures SortedBy(Insert(t, x, le), le)
  {
    if t == [] || le(t[|t| - 1], x) {
      var r := t + [x];
      forall i, j | 0 <= i < j < |r| ensures le(r[i], r[j]) {
        if j == |t| && i < |t| - 1 {
          assert le(t[i], t[|t| - 1]);
        }
      }
    } else {
      var t' := t[..|t| - 1];
      var y := t[|t| - 1];
      InsertSorted(t', x, le);
      InsertMultiset(t', x, le);
      var u := Insert(t', x, le);
      forall z | z in u ensures le(z, y) {
        assert z in multiset(u);
        if z != x {
          assert z in multiset(t');
          var k :| 0 <= k < |t'| && t'[k] == z;
          assert le(t[k], t[|t| - 1]);
        }
      }
      var r := u + [y];
      forall i, j | 0 <= i < j < |r| ensures le(r[i], r[j]) {
        if j == |u| { assert r[i] in u; }
      }
    }
  }

  /** The result of the sort is in non-decreasing order. */
  lemma {:induction false} SortBySorted<T(!new)>(s: seq<T>, le: (T, T) -> bool)
    requires TotalPreorder(le)
    ensures SortedBy(SortBy(s, le), le)
  {
    if s != [] {
      SortBySorted(s[..|s| - 1], le);
      InsertSorted(SortBy(s[..|s| - 1], le), s[|s| - 1], le);
    }
  }

  lemma SortByMembership<T>(s: seq<T>, le: (T, T) -> bool, x: T)
    ensures x in SortBy(s, le) <==> x in s
  {
    SortByMultiset(s, le);
    assert x in SortBy(s, le) <==> x in multiset(SortBy(s, le));
  }

  /** In a sorted sequence whose last element is not greater than `x`, no element is. */
  lemma SortedAllLe<T(!new)>(t: seq<T>, x: T, le: (T, T) -> bool)
    requires TotalPreorder(le) && SortedBy(t, le)
    requires t != [] && le(t[|t| - 1], x)
    ensures forall z :: z in t ==> le(z, x)
  {
    forall z | z in t ensures le(z, x) {
      var k :| 0 <= k < |t| && t[k] == z;
      if k < |t| - 1 { assert le(t[k], t[|t| - 1]); }
    }
  }

  lemma FilterAppendOne<T>(t: seq<T>, y: T, keep: T -> bool)
    ensures Filter(t + [y], keep) == Filter(t, keep) + (if keep(y) then [y] else [])
  {
    assert (t + [y])[..|t|] == t;
  }

  lemma FilterInsertAtEnd<T(!new)>(t: seq<T>, x: T, le: (T, T) -> bool, keep: T -> bool)
    requires forall z :: z in t ==> le(z, x)
    ensures Filter(t + [x], keep)
         == if keep(x) then Insert(Filter(t, keep), x, le) else Filter(t, keep)
  {
    FilterAppendOne(t, x, keep);
    var f := Filter(t, keep);
    if f != [] {
      assert f[|f| - 1] in f;
    }
  }

  lemma InsertPastLast<T>(f: seq<T>, y: T, x: T, le: (T, T) -> bool)
    requires !le(y, x)
    ensures Insert(f + [y], x, le) == Insert(f, x, le) + [y]
  {
    var g := f + [y];
    assert g[|g| - 1] == y && g[..|g| - 1] == f;
  }

  lemma FilterInsertBefore<T>(t': seq<T>, y: T, x: T, le: (T, T) -> bool, keep: T -> bool)
    requires !le(y, x)
    requires Filter(Insert(t', x, le), keep)
          == if keep(x) then Insert(Filter(t', keep), x, le) else Filter(t', keep)
    ensures Filter(Insert(t', x, le) + [y], keep)
         == if keep(x) then Insert(Filter(t' + [y], keep), x, le) else Filter(t' + [y], keep)
  {
    var u := Insert(t', x, le);
    var f := Filter(t', keep);
    var tail: seq<T> := if keep(y) then [y] else [];
    FilterAppendOne(u, y, keep);
    FilterAppendOne(t', y, keep);
    assert Filter(u + [y], keep) == Filter(u, keep) + tail;
    assert Filter(t' + [y], keep) == f + tail;
    if keep(x) {
      if keep(y) {
        InsertPastLast(f, y, x, le);
      } else {
        assert f + tail == f;
      }
    }
  }

  lemma {:induction false} FilterInsert<T(!new)>(t: seq<T>, x: T, le: (T, T) -> bool, keep: T -> bool)
    requires TotalPreorder(le) && SortedBy(t, le)
    ensures Filter(Insert(t, x, le), keep)
         == if keep(x) then Insert(Filter(t, keep), x, le) else Filter(t, keep)
  {
    if t == [] || le(t[|t| - 1], x) {
      if t != [] { SortedAllLe(t, x, le); }
      FilterInsertAtEnd(t, x, le, keep);
    } else {
      var t' := t[..|t| - 1];
      var y := t[|t| - 1];
      assert t == t' + [y];
      FilterInsert(t', x, le, keep);
      FilterInsertBefore(t', y, x, le, keep);
    }
  }

  /** Sorting and then keeping the elements that satisfy `keep` is the same as keeping them first and then sorting. */
  lemma {:induction false} FilterSortBy<T(!new)>(s: seq<T>, le: (T, T) -> bool, keep: T -> bool)
    requires TotalPreorder(le)
    ensures Filter(SortBy(s, le), keep) == SortBy(Filter(s, keep), le)
  {
    if s != [] {
      var s' := s[..|s| - 1];
      var x := s[|s| - 1];
      assert s == s' + [x];
      var sorted := SortBy(s', le);
      var f := Filter(s', keep);
      assert SortBy(s, le) == Insert(sorted, x, le);
      FilterSortBy(s', le, keep);
      SortBySorted(s', le);
      FilterInsert(sorted, x, le, keep);
      FilterAppendOne(s', x, keep);
      if keep(x) {
        var g := f + [x];
        assert g[..|g| - 1] == f && g[|g| - 1] == x;
        assert SortBy(g, le) == Insert(SortBy(f, le), x, le);
      } else {
        assert Filter(s, keep) == f + [] == f;
      }
    }
  }

  /** Sorting an already sorted sequence changes nothing. */
  lemma {:induction false} SortBySortedIsIdentity<T>(s: seq<T>, le: (T, T) -> bool)
    requires SortedBy(s, le)
    ensures SortBy(s, le) == s
  {
    if s != [] {
      var s' := s[..|s| - 1];
      var x := s[|s| - 1];
      assert SortedBy(s', le) by {
        forall i, j | 0 <= i < j < |s'| ensures le(s'[i], s'[j]) {
          assert s'[i] == s[i] && s'[j] == s[j];
        }
      }
      SortBySortedIsIdentity(s', le);
      assert SortBy(s, le) == Insert(s', x, le);
      if s' != [] {
        assert s'[|s'| - 1] == s[|s| - 2];
        assert le(s'[|s'| - 1], x);
      }
      assert Insert(s', x, le) == s' + [x];
      assert s == s' + [x];
    }
  }

  /** Stability: the elements ranked equal to `x` keep their original relative order. */
  lemma SortByStable<T(!new)>(s: seq<T>, le: (T, T) -> bool, x: T)
    requires TotalPreorder(le)
    ensures Filter(SortBy(s, le), Equivalent(le, x)) == Filter(s, Equivalent(le, x))
  {
    var eq := Equivalent(le, x);
    FilterSortBy(s, le, eq);
    var f := Filter(s, eq);
    forall i, j | 0 <= i < j < |f| ensures le(f[i], f[j]) {
      assert f[i] in f && f[j] in f;
    }
    SortBySortedIsIdentity(f, le);
  }

  /** Sorting twice is sorting once. */
  lemma SortByIdempotent<T(!new)>(s: seq<T>, le: (T, T) -> bool)
    requires TotalPreorder(le)
    ensures SortBy(SortBy(s, le), le) == SortBy(s, le)
  {
    SortBySorted(s, le);
    SortBySortedIsIdentity(SortBy(s, le), le);
  }
}
