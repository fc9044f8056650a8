/** Sequence helpers that the TypeScript code gets from Array.prototype:
    filter, the first-occurrence de-duplication of `[...new Set(xs)]`,
    and the stable comparator sort of `Array.prototype.sort`. */
module Seqs {

  /** No element occurs twice. */
  predicate NoDup<T(==)>(s: seq<T>) {
    forall i, j :: 0 <= i < j < |s| ==> s[i] != s[j]
  }

  /** `s.filter(p)`: the elements satisfying p, in their original order. */
  function Filter<T(!new)>(s: seq<T>, p: T -> bool): (r: seq<T>)
    ensures |r| <= |s|
    ensures forall x :: x in r <==> x in s && p(x)
  {
    if s == [] then []
    else
      (if p(s[0]) then [s[0]] else []) + Filter(s[1..], p)
  }

  lemma {:induction false} FilterAppend<T(!new)>(a: seq<T>, b: seq<T>, p: T -> bool)
    ensures Filter(a + b, p) == Filter(a, p) + Filter(b, p)
  {
    if a == [] {
      assert a + b == b;
    } else {
      assert (a + b)[1..] == a[1..] + b;
      FilterAppend(a[1..], b, p);
    }
  }

  lemma {:induction false} FilterKeepsNoDup<T(!new)>(s: seq<T>, p: T -> bool)
    requires NoDup(s)
    ensures NoDup(Filter(s, p))
  {
    if s != [] {
      FilterKeepsNoDup(s[1..], p);
      assert s[0] !in s[1..];
    }
  }

  /** `[...new Set(s)]`: the first occurrence of every element, in order. */
  function Dedup<T(==,!new)>(s: seq<T>): (r: seq<T>)
    ensures NoDup(r)
    ensures forall x :: x in r <==> x in s
    ensures |r| <= |s|
  {
    if s == [] then []
    else
      var init := Dedup(s[..|s| - 1]);
      if s[|s| - 1] in init then init else init + [s[|s| - 1]]
  }

  /** De-duplicating a list without repeats changes nothing. */
  lemma {:induction false} DedupOfNoDup<T(!new)>(s: seq<T>)
    requires NoDup(s)
    ensures Dedup(s) == s
  {
    if s != [] {
      DedupOfNoDup(s[..|s| - 1]);
      assert s[|s| - 1] !in s[..|s| - 1];
    }
  }

  /** Adding a new id to a roster without repeats appends it. */
  lemma DedupAppendFresh<T(!new)>(s: seq<T>, x: T)
    requires NoDup(s) && x !in s
    ensures Dedup(s + [x]) == s + [x]
  {
    assert (s + [x])[..|s + [x]| - 1] == s;
    DedupOfNoDup(s);
  }

  /** Adding an id that is already there changes nothing (on a roster without repeats). */
  lemma DedupAppendPresent<T(!new)>(s: seq<T>, x: T)
    requires NoDup(s) && x in s
    ensures Dedup(s + [x]) == s
  {
    assert (s + [x])[..|s + [x]| - 1] == s;
    DedupOfNoDup(s);
  }

  /** A comparator that is total and transitive, as `Array.prototype.sort` expects. */
  ghost predicate TotalPreorder<T(!new)>(le: (T, T) -> bool) {
    && (forall a, b :: le(a, b) || le(b, a))
    && (forall a, b, c :: le(a, b) && le(b, c) ==> le(a, c))
  }

  predicate SortedBy<T>(s: seq<T>, le: (T, T) -> bool) {
    forall i, j :: 0 <= i < j < |s| ==> le(s[i], s[j])
  }

  /** Inserts x after every leading element not greater than x (keeps the sort stable). */
  function Insert<T>(x: T, s: seq<T>, le: (T, T) -> bool): (r: seq<T>)
    ensures multiset(r) == multiset(s) + multiset{x}
    ensures |r| == |s| + 1
  {
    if s == [] then [x]
    else if le(s[0], x) then
      assert s == [s[0]] + s[1..];
      [s[0]] + Insert(x, s[1..], le)
    else [x] + s
  }

  /** Stable sort by the comparator le (insertion sort). */
  function SortBy<T>(s: seq<T>, le: (T, T) -> bool): (r: seq<T>)
    ensures multiset(r) == multiset(s)
    ensures |r| == |s|
  {
    if s == [] then []
    else
      assert s == s[..|s| - 1] + [s[|s| - 1]];
      Insert(s[|s| - 1], SortBy(s[..|s| - 1], le), le)
  }

  lemma SortByMembers<T>(s: seq<T>, le: (T, T) -> bool)
    ensures forall x :: x in SortBy(s, le) <==> x in s
  {
    var r := SortBy(s, le);
    forall x ensures x in r <==> x in s {
      assert x in r <==> x in multiset(r);
      assert x in s <==> x in multiset(s);
    }
  }

  lemma {:induction false} InsertSorted<T(!new)>(x: T, s: seq<T>, le: (T, T) -> bool)
    requires TotalPreorder(le)
    requires SortedBy(s, le)
    ensures SortedBy(Insert(x, s, le), le)
  {
    if s != [] && le(s[0], x) {
      SortedTail(s, le);
      InsertSorted(x, s[1..], le);
      InsertPastHead(x, s, le);
    } else if s != [] {
      InsertAtFront(x, s, le);
    }
  }

  /** The tail of a sorted sequence is sorted. */
  lemma SortedTail<T>(s: seq<T>, le: (T, T) -> bool)
    requires SortedBy(s, le) && s != []
    ensures SortedBy(s[1..], le)
  {
    forall i, j | 0 <= i < j < |s[1..]| ensures le(s[1..][i], s[1..][j]) {
      assert s[1..][i] == s[i + 1] && s[1..][j] == s[j + 1];
    }
  }

  /** Every element of Insert(x, u) is x or an element of u, so a lower bound of both bounds it. */
  lemma InsertBounded<T>(p: T, x: T, u: seq<T>, le: (T, T) -> bool)
    requires le(p, x) && forall k :: 0 <= k < |u| ==> le(p, u[k])
    ensures forall j :: 0 <= j < |Insert(x, u, le)| ==> le(p, Insert(x, u, le)[j])
  {
    var t := Insert(x, u, le);
    forall j | 0 <= j < |t| ensures le(p, t[j]) {
      var y := t[j];
      assert y in multiset(t);
      assert y in multiset(u) || y == x;
      if y != x {
        assert y in u;
        var k :| 0 <= k < |u| && u[k] == y;
      }
    }
  }

  /** Insert past a head not greater than x keeps a sorted sequence sorted. */
  lemma InsertPastHead<T>(x: T, s: seq<T>, le: (T, T) -> bool)
    requires SortedBy(s, le) && s != [] && le(s[0], x)
    requires SortedBy(Insert(x, s[1..], le), le)
    ensures SortedBy(Insert(x, s, le), le)
  {
    var u := s[1..];
    assert forall k :: 0 <= k < |u| ==> u[k] == s[k + 1];
    InsertBounded(s[0], x, u, le);
    var t := Insert(x, u, le);
    var r := Insert(x, s, le);
    assert r == [s[0]] + t;
    forall i, j | 0 <= i < j < |r| ensures le(r[i], r[j]) {
      assert r[j] == t[j - 1];
      if i > 0 { assert r[i] == t[i - 1]; }
    }
  }

  /** Insert before a head greater than x keeps a sorted sequence sorted. */
  lemma InsertAtFront<T(!new)>(x: T, s: seq<T>, le: (T, T) -> bool)
    requires TotalPreorder(le)
    requires SortedBy(s, le) && s != [] && !le(s[0], x)
    ensures SortedBy(Insert(x, s, le), le)
  {
    var r := Insert(x, s, le);
    assert r == [x] + s;
    assert le(x, s[0]);
    forall i, j | 0 <= i < j < |r| ensures le(r[i], r[j]) {
      if i == 0 {
        if j > 1 { assert le(s[0], s[j - 1]); }
      } else {
        assert r[i] == s[i - 1] && r[j] == s[j - 1];
      }
    }
  }

  /** The result of SortBy is sorted by its comparator. */
  lemma {:induction false} SortBySorted<T(!new)>(s: seq<T>, le: (T, T) -> bool)
    requires TotalPreorder(le)
    ensures SortedBy(SortBy(s, le), le)
  {
    if s != [] {
      SortBySorted(s[..|s| - 1], le);
      InsertSorted(s[|s| - 1], SortBy(s[..|s| - 1], le), le);
    }
  }

  /** Lexicographic order on character strings, by code unit
      (stands in for `localeCompare` and the default `sort()`). */
  predicate LexLe(a: string, b: string) {
    if a == [] then true
    else if b == [] then false
    else if a[0] != b[0] then a[0] < b[0]
    else LexLe(a[1..], b[1..])
  }

  lemma {:induction false} LexLeTotal(a: string, b: string)
    ensures LexLe(a, b) || LexLe(b, a)
  {
    if a != [] && b != [] && a[0] == b[0] {
      LexLeTotal(a[1..], b[1..]);
    }
  }

  lemma {:induction false} LexLeTrans(a: string, b: string, c: string)
    requires LexLe(a, b) && LexLe(b, c)
    ensures LexLe(a, c)
  {
    if a != [] && b != [] && c != [] && a[0] == b[0] && b[0] == c[0] {
      LexLeTrans(a[1..], b[1..], c[1..]);
    }
  }

  lemma {:induction false} LexLeAntisymmetric(a: string, b: string)
    requires LexLe(a, b) && LexLe(b, a)
    ensures a == b
  {
    if a != [] && b != [] {
      LexLeAntisymmetric(a[1..], b[1..]);
    }
  }

  lemma LexLeIsTotalPreorder()
    ensures TotalPreorder(LexLe)
  {
    forall a: string, b: string ensures LexLe(a, b) || LexLe(b, a) {
      LexLeTotal(a, b);
    }
    forall a: string, b: string, c: string | LexLe(a, b) && LexLe(b, c) ensures LexLe(a, c) {
      LexLeTrans(a, b, c);
    }
  }

  // ---- Facts about the stable sort ----

  /** Inserts the elements of b, first to last, into t. */
  function InsertAll<T>(t: seq<T>, b: seq<T>, le: (T, T) -> bool): (r: seq<T>)
    ensures multiset(r) == multiset(t) + multiset(b)
  {
    if b == [] then t
    else
      assert b == b[..|b| - 1] + [b[|b| - 1]];
      Insert(b[|b| - 1], InsertAll(t, b[..|b| - 1], le), le)
  }

  /** Sorting a + b is inserting the elements of b into the sorted a. */
  lemma {:induction false} SortByAppend<T>(a: seq<T>, b: seq<T>, le: (T, T) -> bool)
    ensures SortBy(a + b, le) == InsertAll(SortBy(a, le), b, le)
  {
    if b != [] {
      var b' := b[..|b| - 1];
      assert (a + b)[..|a + b| - 1] == a + b';
      assert (a + b)[|a + b| - 1] == b[|b| - 1];
      SortByAppend(a, b', le);
    } else {
      assert a + b == a;
    }
  }

  /** Inserting an element not smaller than every element appends it. */
  lemma {:induction false} InsertAtEnd<T>(x: T, s: seq<T>, le: (T, T) -> bool)
    requires forall i :: 0 <= i < |s| ==> le(s[i], x)
    ensures Insert(x, s, le) == s + [x]
  {
    if s != [] {
      InsertAtEnd(x, s[1..], le);
      assert [s[0]] + (s[1..] + [x]) == s + [x];
    }
  }

  /** Sorting a sorted sequence changes nothing. */
  lemma {:induction false} SortBySortedId<T>(s: seq<T>, le: (T, T) -> bool)
    requires SortedBy(s, le)
    ensures SortBy(s, le) == s
  {
    if s != [] {
      var init := s[..|s| - 1];
      assert SortedBy(init, le);
      SortBySortedId(init, le);
      InsertAtEnd(s[|s| - 1], init, le);
      assert init + [s[|s| - 1]] == s;
    }
  }

  /** Sorting a sorted prefix again first makes no difference. */
  lemma SortBySortedPrefix<T(!new)>(a: seq<T>, b: seq<T>, le: (T, T) -> bool)
    requires TotalPreorder(le)
    ensures SortBy(SortBy(a, le) + b, le) == SortBy(a + b, le)
  {
    SortBySorted(a, le);
    SortBySortedId(SortBy(a, le), le);
    SortByAppend(SortBy(a, le), b, le);
    SortByAppend(a, b, le);
  }

  lemma FilterCons<T(!new)>(x: T, s: seq<T>, p: T -> bool)
    ensures Filter([x] + s, p) == (if p(x) then [x] else []) + Filter(s, p)
  {
    assert ([x] + s)[0] == x;
    assert ([x] + s)[1..] == s;
  }

  /** In a sorted sequence whose first element is greater than x, so is every element. */
  lemma InsertFront<T(!new)>(x: T, t: seq<T>, le: (T, T) -> bool, p: T -> bool)
    requires TotalPreorder(le) && SortedBy(t, le)
    requires t != [] && !le(t[0], x)
    ensures Insert(x, Filter(t, p), le) == [x] + Filter(t, p)
  {
    var f := Filter(t, p);
    if f != [] {
      assert f[0] in t;
      var k :| 0 <= k < |t| && t[k] == f[0];
      if k > 0 {
        assert le(t[0], t[k]);
      }
    }
  }

  lemma InsertAfter<T>(x: T, y: T, t: seq<T>, le: (T, T) -> bool)
    requires le(y, x)
    ensures Insert(x, [y] + t, le) == [y] + Insert(x, t, le)
  {
    assert ([y] + t)[0] == y && ([y] + t)[1..] == t;
  }

  lemma FilterInsertStep<T(!new)>(x: T, y: T, t: seq<T>, le: (T, T) -> bool, p: T -> bool)
    requires le(y, x)
    requires Filter(Insert(x, t, le), p) == if p(x) then Insert(x, Filter(t, p), le) else Filter(t, p)
    ensures Filter(Insert(x, [y] + t, le), p) == if p(x) then Insert(x, Filter([y] + t, p), le) else Filter([y] + t, p)
  {
    var l := Insert(x, t, le);
    var f := Filter(t, p);
    InsertAfter(x, y, t, le);
    FilterCons(y, l, p);
    FilterCons(y, t, p);
    if p(y) {
      assert Filter([y] + t, p) == [y] + f;
      assert Filter([y] + l, p) == [y] + Filter(l, p);
      if p(x) {
        InsertAfter(x, y, f, le);
      }
    } else {
      assert Filter([y] + t, p) == f;
      assert Filter([y] + l, p) == Filter(l, p);
    }
  }

  /** Filtering commutes with inserting into a sorted sequence. */
  lemma {:induction false} FilterInsert<T(!new)>(x: T, t: seq<T>, le: (T, T) -> bool, p: T -> bool)
    requires TotalPreorder(le) && SortedBy(t, le)
    ensures Filter(Insert(x, t, le), p) == if p(x) then Insert(x, Filter(t, p), le) else Filter(t, p)
  {
    if t == [] {
      FilterCons(x, [], p);
    } else if le(t[0], x) {
      var t' := t[1..];
      SortedTail(t, le);
      FilterInsert(x, t', le, p);
      assert t == [t[0]] + t';
      FilterInsertStep(x, t[0], t', le, p);
    } else {
      assert Insert(x, t, le) == [x] + t;
      FilterCons(x, t, p);
      InsertFront(x, t, le, p);
    }
  }

  /** Filtering a sorted sequence is sorting the filtered sequence. */
  lemma {:induction false} FilterSortBy<T(!new)>(s: seq<T>, le: (T, T) -> bool, p: T -> bool)
    requires TotalPreorder(le)
    ensures Filter(SortBy(s, le), p) == SortBy(Filter(s, p), le)
  {
    if s != [] {
      var init := s[..|s| - 1];
      var x := s[|s| - 1];
      assert s == init + [x];
      FilterSortBy(init, le, p);
      SortBySorted(init, le);
      FilterInsert(x, SortBy(init, le), le, p);
      FilterAppend(init, [x], p);
      assert Filter([x], p) == if p(x) then [x] else [] by {
        assert [x][1..] == [];
      }
      if p(x) {
        assert Filter(s, p) == Filter(init, p) + [x];
        assert Filter(s, p)[..|Filter(s, p)| - 1] == Filter(init, p);
      } else {
        assert Filter(s, p) == Filter(init, p);
      }
    }
  }

  /** Filtering twice by the same test is filtering once. */
  lemma {:induction false} FilterFilter<T(!new)>(s: seq<T>, p: T -> bool)
    ensures Filter(Filter(s, p), p) == Filter(s, p)
  {
    if s != [] {
      var a := if p(s[0]) then [s[0]] else [];
      assert s == [s[0]] + s[1..];
      FilterCons(s[0], s[1..], p);
      FilterAppend(a, Filter(s[1..], p), p);
      FilterFilter(s[1..], p);
      if p(s[0]) {
        FilterCons(s[0], [], p);
        assert [s[0]] + [] == a;
      }
    }
  }

  /** Filtering drops everything when nothing passes the test. */
  lemma {:induction false} FilterNone<T(!new)>(s: seq<T>, p: T -> bool)
    requires forall x :: x in s ==> !p(x)
    ensures Filter(s, p) == []
  {
    if s != [] {
      FilterNone(s[1..], p);
    }
  }

  /** Filtering keeps a sequence whose every element passes. */
  lemma {:induction false} FilterAll<T(!new)>(s: seq<T>, p: T -> bool)
    requires forall x :: x in s ==> p(x)
    ensures Filter(s, p) == s
  {
    if s != [] {
      FilterAll(s[1..], p);
      assert [s[0]] + s[1..] == s;
    }
  }

  // ---- Existence in a sequence ----

  /** Some element of s satisfies p. */
  predicate SomeOf<T>(s: seq<T>, p: T -> bool) {
    exists i :: 0 <= i < |s| && p(s[i])
  }

  /** Some element of a non-empty sequence satisfies p: one before the last does, or the last does. */
  lemma SomeOfLast<T>(s: seq<T>, p: T -> bool)
    requires s != []
    ensures SomeOf(s, p) <==> SomeOf(s[..|s| - 1], p) || p(s[|s| - 1])
  {
    var init := s[..|s| - 1];
    if SomeOf(init, p) {
      var i :| 0 <= i < |init| && p(init[i]);
      assert s[i] == init[i];
    }
    if SomeOf(s, p) {
      var i :| 0 <= i < |s| && p(s[i]);
      if i < |init| {
        assert init[i] == s[i];
      }
    }
  }

  // ---- Uniqueness under a key, and permutations ----

  /** No two elements share the same key. */
  predicate UniqueBy<T, K(==)>(s: seq<T>, key: T -> K) {
    forall i, j :: 0 <= i < j < |s| ==> key(s[i]) != key(s[j])
  }

  lemma {:induction false} TwoIndicesCount<T>(s: seq<T>, i: int, j: int)
    requires 0 <= i < j < |s| && s[i] == s[j]
    ensures multiset(s)[s[i]] >= 2
  {
    assert s == s[..j] + [s[j]] + s[j + 1..];
    assert s[i] in s[..j];
    assert multiset(s[..j])[s[i]] >= 1;
  }

  lemma {:induction false} CountTwoIndices<T>(s: seq<T>, x: T)
    requires multiset(s)[x] >= 2
    ensures exists i, j :: 0 <= i < j < |s| && s[i] == x && s[j] == x
  {
    var last := s[|s| - 1];
    var init := s[..|s| - 1];
    assert s == init + [last];
    if last == x {
      assert multiset(init)[x] >= 1;
      assert x in init;
      var i :| 0 <= i < |init| && init[i] == x;
      assert s[i] == x && s[|s| - 1] == x;
    } else {
      assert multiset(init)[x] >= 2;
      CountTwoIndices(init, x);
      var i, j :| 0 <= i < j < |init| && init[i] == x && init[j] == x;
      assert s[i] == x && s[j] == x;
    }
  }

  /** Reordering keeps the keys unique. */
  lemma UniqueByPermutation<T, K>(a: seq<T>, b: seq<T>, key: T -> K)
    requires multiset(a) == multiset(b) && UniqueBy(a, key)
    ensures UniqueBy(b, key)
  {
    forall i, j | 0 <= i < j < |b| ensures key(b[i]) != key(b[j]) {
      if b[i] == b[j] {
        TwoIndicesCount(b, i, j);
        CountTwoIndices(a, b[i]);
      } else {
        assert b[i] in multiset(a) && b[j] in multiset(a);
      }
    }
  }

  /** Reordering keeps a sequence free of duplicates. */
  lemma NoDupPermutation<T>(a: seq<T>, b: seq<T>)
    requires multiset(a) == multiset(b) && NoDup(a)
    ensures NoDup(b)
  {
    forall i, j | 0 <= i < j < |b| ensures b[i] != b[j] {
      if b[i] == b[j] {
        TwoIndicesCount(b, i, j);
        CountTwoIndices(a, b[i]);
      }
    }
  }
}
