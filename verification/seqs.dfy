/**
 * The `Array.prototype` operations the pages and the store use — `filter`,
 * `slice(0, n)`, `indexOf`/`findIndex`, `find`, `splice(i, 1)`, `sort` and
 * iteration into a `Set` — restated over `seq`, with the facts the rest of
 * the model needs about them.
 */
module Seqs {
  import opened Wrappers
  import Text

  // ---------------------------------------------------------------- subsequences

  /** `a` can be obtained from `b` by deleting elements: same elements, same relative order. */
  predicate Subseq<T(==)>(a: seq<T>, b: seq<T>)
    decreases |b|
  {
    if a == [] then true
    else if b == [] then false
    else (a[0] == b[0] && Subseq(a[1..], b[1..])) || Subseq(a, b[1..])
  }

  lemma {:induction false} SubseqRefl<T>(a: seq<T>)
    ensures Subseq(a, a)
    decreases |a|
  {
    if a != [] {
      SubseqRefl(a[1..]);
    }
  }

  lemma {:induction false} SubseqTrans<T>(a: seq<T>, b: seq<T>, c: seq<T>)
    requires Subseq(a, b) && Subseq(b, c)
    ensures Subseq(a, c)
    decreases |c|
  {
    if a != [] {
      if Subseq(b, c[1..]) {
        SubseqTrans(a, b, c[1..]);
      } else if a[0] == b[0] && Subseq(a[1..], b[1..]) {
        SubseqTrans(a[1..], b[1..], c[1..]);
      } else {
        SubseqTrans(a, b[1..], c[1..]);
      }
    }
  }

  /** A prefix of a sequence is a subsequence of it (the `slice(0, n)` case). */
  lemma {:induction false} PrefixSubseq<T>(a: seq<T>, n: nat)
    requires n <= |a|
    ensures Subseq(a[..n], a)
    decreases n
  {
    if n > 0 {
      assert a[..n][1..] == a[1..][..n - 1];
      PrefixSubseq(a[1..], n - 1);
    }
  }

  // ---------------------------------------------------------------- filter

  /**
   * `Array.prototype.filter`: every element `p` accepts, as often as it
   * occurs, and nothing else (with `FilterSubseq`, also in the input's order).
   */
  function Filter<T(!new)>(s: seq<T>, p: T -> bool): (r: seq<T>)
    ensures |r| <= |s|
    ensures forall x :: x in r <==> x in s && p(x)
    ensures forall x :: multiset(r)[x] == if p(x) then multiset(s)[x] else 0
  {
    if s == [] then []
    else
      assert s == [s[0]] + s[1..];
      (if p(s[0]) then [s[0]] else []) + Filter(s[1..], p)
  }

  /** What `filter` keeps keeps its order: the result is a subsequence of the input. */
  lemma {:induction false} FilterSubseq<T(!new)>(s: seq<T>, p: T -> bool)
    ensures Subseq(Filter(s, p), s)
    decreases |s|
  {
    if s != [] {
      FilterSubseq(s[1..], p);
      var r := Filter(s, p);
      if p(s[0]) {
        assert r[1..] == Filter(s[1..], p);
      } else {
        assert r == Filter(s[1..], p);
      }
    }
  }

  /** A filter whose predicate holds throughout returns its input unchanged. */
  lemma {:induction false} FilterAll<T(!new)>(s: seq<T>, p: T -> bool)
    requires forall x :: x in s ==> p(x)
    ensures Filter(s, p) == s
    decreases |s|
  {
    if s != [] {
      FilterAll(s[1..], p);
    }
  }

  /** A filter that rejects some element returns strictly fewer elements. */
  lemma {:induction false} FilterDrops<T(!new)>(s: seq<T>, p: T -> bool, x: T)
    requires x in s && !p(x)
    ensures |Filter(s, p)| < |s|
    decreases |s|
  {
    if s[0] != x {
      FilterDrops(s[1..], p, x);
    }
  }

  /** A filter whose predicate fails throughout returns nothing. */
  lemma FilterNone<T(!new)>(s: seq<T>, p: T -> bool)
    requires forall x :: x in s ==> !p(x)
    ensures Filter(s, p) == []
  {
  }

  /** `slice(0, n)` of a filtered list. */
  function Take<T>(s: seq<T>, n: nat): (r: seq<T>)
    ensures |r| == if |s| < n then |s| else n
    ensures r <= s
  {
    if |s| <= n then s else s[..n]
  }

  /**
   * `r` is what `filter(p).slice(0, cap)` gives: a prefix of all the matches
   * of `s` in order, `cap` of them or every one when there are fewer.
   */
  predicate FirstCapOf<T(==,!new)>(r: seq<T>, s: seq<T>, p: T -> bool, cap: nat) {
    var all := Filter(s, p);
    r <= all && |r| == if |all| < cap then |all| else cap
  }

  lemma TakeSubseq<T>(s: seq<T>, n: nat)
    ensures Subseq(Take(s, n), s)
  {
    if |s| <= n {
      SubseqRefl(s);
    } else {
      PrefixSubseq(s, n);
    }
  }

  // ---------------------------------------------------------------- searching

  /** `findIndex`: the first position where `p` holds, or `|s|` when there is none. */
  function FirstWhere<T>(s: seq<T>, p: T -> bool): (k: nat)
    ensures k <= |s|
    ensures k < |s| ==> p(s[k])
    ensures forall j :: 0 <= j < k ==> !p(s[j])
  {
    if s == [] then 0 else if p(s[0]) then 0 else 1 + FirstWhere(s[1..], p)
  }

  /** `find`: the first element where `p` holds. */
  function Find<T(!new)>(s: seq<T>, p: T -> bool): (r: Option<T>)
    ensures r.Some? <==> exists x :: x in s && p(x)
    ensures r.Some? ==> r.value in s && p(r.value)
    ensures r.Some? ==> exists k :: 0 <= k < |s| && s[k] == r.value && forall j :: 0 <= j < k ==> !p(s[j])
  {
    var k := FirstWhere(s, p);
    if k < |s| then Some(s[k]) else None
  }

  /** `Array.prototype.splice(index, 1)` on a copy: a negative index counts from the end. */
  function SpliceOne<T>(s: seq<T>, index: int): (r: seq<T>)
    ensures 0 <= index < |s| ==> r == s[..index] + s[index + 1..]
    ensures index >= |s| ==> r == s
    ensures |r| == if 0 < |s| && index < |s| then |s| - 1 else |s|
  {
    var start := if index < 0 then (if |s| + index < 0 then 0 else |s| + index) else index;
    if start < |s| then s[..start] + s[start + 1..] else s
  }

  /** `indexOf`: the first position holding `x`, or `|s|` when there is none. */
  function IndexOf<T(==)>(s: seq<T>, x: T): (k: nat)
    ensures k <= |s|
    ensures k < |s| <==> x in s
    ensures k < |s| ==> s[k] == x
    ensures forall j :: 0 <= j < k ==> s[j] != x
  {
    if s == [] then 0 else if s[0] == x then 0 else 1 + IndexOf(s[1..], x)
  }

  /** `indexOf` followed by `splice(i, 1)`: drops the first occurrence of `x`, if any. */
  function RemoveFirst<T(==)>(s: seq<T>, x: T): (r: seq<T>)
    ensures x !in s ==> r == s
    ensures x in s ==> |r| == |s| - 1 && multiset(r) == multiset(s) - multiset{x}
  {
    var k := IndexOf(s, x);
    if k < |s| then
      assert s == s[..k] + [s[k]] + s[k + 1..];
      s[..k] + s[k + 1..]
    else s
  }

  /** Removing the first occurrence of an element that was just appended undoes the append. */
  lemma RemoveFirstAppended<T>(s: seq<T>, x: T)
    requires x !in s
    ensures RemoveFirst(s + [x], x) == s
  {
    var l := s + [x];
    var k := IndexOf(l, x);
    assert l[|s|] == x;
    assert forall j :: 0 <= j < |s| ==> l[j] == s[j] && s[j] in s;
    assert k == |s|;
    assert l[..|s|] == s;
  }

  // ---------------------------------------------------------------- distinct elements

  predicate Distinct<T(==)>(s: seq<T>) {
    forall i, j :: 0 <= i < j < |s| ==> s[i] != s[j]
  }

  /**
   * Adding the elements of `s` one by one to a JavaScript `Set` and reading it
   * back: each value once, at the position of its first occurrence.
   */
  function Dedup<T(==,!new)>(s: seq<T>): (r: seq<T>)
    ensures Distinct(r)
    ensures forall x :: x in r <==> x in s
    ensures Subseq(r, s)
    ensures forall i, j :: 0 <= i < j < |r| ==> IndexOf(s, r[i]) < IndexOf(s, r[j])
    decreases |s|
  {
    if s == [] then []
    else
      var d := Dedup(s[..|s| - 1]);
      DedupStep(s, d);
      if s[|s| - 1] in d then d else d + [s[|s| - 1]]
  }

  /** One more element through the `Set`: it is added at the end unless already present. */
  lemma DedupStep<T>(s: seq<T>, d: seq<T>)
    requires s != []
    requires Distinct(d) && Subseq(d, s[..|s| - 1])
    requires forall x :: x in d <==> x in s[..|s| - 1]
    requires forall i, j :: 0 <= i < j < |d| ==> IndexOf(s[..|s| - 1], d[i]) < IndexOf(s[..|s| - 1], d[j])
    ensures var r := if s[|s| - 1] in d then d else d + [s[|s| - 1]];
      && Distinct(r)
      && (forall x :: x in r <==> x in s)
      && Subseq(r, s)
      && (forall i, j :: 0 <= i < j < |r| ==> IndexOf(s, r[i]) < IndexOf(s, r[j]))
  {
    var init, last := s[..|s| - 1], s[|s| - 1];
    assert s == init + [last];
    DedupSubseqStep(d, init, last);
    DedupOrderStep(s, d);
    assert forall x :: x in s <==> x in init || x == last;
    if last !in d {
      SnocDistinct(d, last);
    }
  }

  lemma SnocDistinct<T>(d: seq<T>, x: T)
    requires Distinct(d) && x !in d
    ensures Distinct(d + [x])
  {
    var r := d + [x];
    forall i, j | 0 <= i < j < |r|
      ensures r[i] != r[j]
    {
      assert r[i] == d[i];
      if j < |d| {
        assert r[j] == d[j];
      }
    }
  }

  /** Appending an element does not move the first occurrence of anything already present. */
  lemma IndexOfSnoc<T>(s: seq<T>, last: T, x: T)
    ensures x in s ==> IndexOf(s + [last], x) == IndexOf(s, x)
    ensures x !in s && x == last ==> IndexOf(s + [last], x) == |s|
  {
    var t := s + [last];
    var k' := IndexOf(t, x);
    if x in s {
      var k := IndexOf(s, x);
      assert t[k] == x;
    } else if x == last {
      assert t[|s|] == x;
    }
  }

  lemma DedupOrderStep<T>(s: seq<T>, d: seq<T>)
    requires s != []
    requires forall x :: x in d <==> x in s[..|s| - 1]
    requires forall i, j :: 0 <= i < j < |d| ==> IndexOf(s[..|s| - 1], d[i]) < IndexOf(s[..|s| - 1], d[j])
    ensures var r := if s[|s| - 1] in d then d else d + [s[|s| - 1]];
      forall i, j :: 0 <= i < j < |r| ==> IndexOf(s, r[i]) < IndexOf(s, r[j])
  {
    var init, last := s[..|s| - 1], s[|s| - 1];
    assert s == init + [last];
    var r := if last in d then d else d + [last];
    forall i, j | 0 <= i < j < |r|
      ensures IndexOf(s, r[i]) < IndexOf(s, r[j])
    {
      assert r[i] == d[i];
      IndexOfSnoc(init, last, r[i]);
      IndexOfSnoc(init, last, r[j]);
      if j < |d| {
        assert r[j] == d[j];
      } else {
        assert r[j] == last && last !in init;
        assert d[i] in d;
      }
    }
  }

  /** A list without repeats goes through the `Set` unchanged. */
  lemma {:induction false} DedupDistinct<T(!new)>(s: seq<T>)
    requires Distinct(s)
    ensures Dedup(s) == s
    decreases |s|
  {
    if s != [] {
      var init := s[..|s| - 1];
      var last := s[|s| - 1];
      assert Distinct(init) by {
        forall i, j | 0 <= i < j < |init|
          ensures init[i] != init[j]
        {
          assert init[i] == s[i] && init[j] == s[j];
        }
      }
      DedupDistinct(init);
      assert last !in init by {
        forall i | 0 <= i < |init|
          ensures init[i] != last
        {
          assert init[i] == s[i];
        }
      }
      assert Dedup(s) == init + [last];
      assert s == init + [last];
    }
  }

  /** Extending both sides of a subsequence by the same last element, or only the longer one. */
  lemma {:induction false} SubseqSnoc<T>(a: seq<T>, b: seq<T>, x: T)
    requires Subseq(a, b)
    ensures Subseq(a + [x], b + [x])
    ensures Subseq(a, b + [x])
    decreases |b|
  {
    if a == [] {
      if b == [] {
        assert Subseq(([] + [x])[1..], ([] + [x])[1..]);
      } else {
        SubseqSnoc(a, b[1..], x);
        assert (b + [x])[1..] == b[1..] + [x];
      }
    } else {
      assert (b + [x])[1..] == b[1..] + [x];
      assert (a + [x])[1..] == a[1..] + [x];
      if a[0] == b[0] && Subseq(a[1..], b[1..]) {
        SubseqSnoc(a[1..], b[1..], x);
      } else {
        SubseqSnoc(a, b[1..], x);
      }
    }
  }

  lemma DedupSubseqStep<T>(d: seq<T>, init: seq<T>, last: T)
    requires Subseq(d, init)
    ensures Subseq(d, init + [last]) && Subseq(d + [last], init + [last])
  {
    SubseqSnoc(d, init, last);
  }

  // ---------------------------------------------------------------- sorted distinct strings

  /** Strictly increasing in the default string order, hence duplicate-free. */
  predicate StrictlySorted(s: seq<string>) {
    forall i, j :: 0 <= i < j < |s| ==> Text.Less(s[i], s[j])
  }

  function InsertSorted(x: string, t: seq<string>): (r: seq<string>)
    requires StrictlySorted(t)
    ensures StrictlySorted(r)
    ensures forall y :: y in r <==> y == x || y in t
  {
    if t == [] then [x]
    else if x == t[0] then t
    else if Text.Less(x, t[0]) then
      InsertFrontSorted(x, t);
      [x] + t
    else
      Text.LessTotal(x, t[0]);
      var rest := InsertSorted(x, t[1..]);
      InsertAfterSorted(t[0], rest, t[1..], x);
      [t[0]] + rest
  }

  lemma InsertFrontSorted(x: string, t: seq<string>)
    requires StrictlySorted(t) && t != [] && Text.Less(x, t[0])
    ensures StrictlySorted([x] + t)
  {
    forall i, j | 0 <= i < j < |[x] + t|
      ensures Text.Less(([x] + t)[i], ([x] + t)[j])
    {
      if i == 0 && j > 1 {
        Text.LessTransitive(x, t[0], t[j - 1]);
      }
    }
  }

  lemma InsertAfterSorted(h: string, rest: seq<string>, tail: seq<string>, x: string)
    requires StrictlySorted(rest) && StrictlySorted([h] + tail)
    requires Text.Less(h, x)
    requires forall y :: y in rest <==> y == x || y in tail
    ensures StrictlySorted([h] + rest)
  {
    forall j | 0 <= j < |rest|
      ensures Text.Less(h, rest[j])
    {
      if rest[j] != x {
        assert rest[j] in tail;
        var k :| 0 <= k < |tail| && tail[k] == rest[j];
        var ht := [h] + tail;
        assert ht[0] == h && ht[k + 1] == tail[k];
        assert Text.Less(ht[0], ht[k + 1]);
      }
    }
  }

  /** `Array.from(set).sort()` over the values of `s`: sorted, duplicate-free, same values. */
  function SortedDistinct(s: seq<string>): (r: seq<string>)
    ensures StrictlySorted(r)
    ensures forall x :: x in r <==> x in s
  {
    if s == [] then [] else InsertSorted(s[0], SortedDistinct(s[1..]))
  }

  lemma StrictlySortedDistinct(s: seq<string>)
    requires StrictlySorted(s)
    ensures Distinct(s)
  {
    forall i, j | 0 <= i < j < |s|
      ensures s[i] != s[j]
    {
      if s[i] == s[j] {
        Text.LessIrreflexive(s[i]);
      }
    }
  }

  /** Two sequences with the same members are both empty or both non-empty. */
  lemma MembersEmpty<T>(a: seq<T>, b: seq<T>)
    requires forall x :: x in a <==> x in b
    ensures a == [] <==> b == []
  {
    if a != [] {
      assert a[0] in b;
    }
    if b != [] {
      assert b[0] in a;
    }
  }

  /** The head of a strictly sorted sequence is below every other element. */
  lemma HeadIsLeast(s: seq<string>)
    requires StrictlySorted(s) && s != []
    ensures forall x :: x in s[1..] ==> Text.Less(s[0], x) && x != s[0]
  {
    forall x | x in s[1..]
      ensures Text.Less(s[0], x) && x != s[0]
    {
      var k :| 0 <= k < |s[1..]| && s[1..][k] == x;
      assert s[k + 1] == x;
      Text.LessIrreflexive(s[0]);
    }
  }

  /**
   * A strictly sorted sequence is determined by its members: what
   * `Array.from(set).sort()` returns does not depend on insertion order.
   */
  lemma {:induction false} SortedUnique(a: seq<string>, b: seq<string>)
    requires StrictlySorted(a) && StrictlySorted(b)
    requires forall x :: x in a <==> x in b
    ensures a == b
    decreases |a|
  {
    MembersEmpty(a, b);
    if a != [] {
      HeadIsLeast(a);
      HeadIsLeast(b);
      Text.LessAntisymmetric(a[0], b[0]);
      assert a[0] in b && b[0] in a;
      assert a == [a[0]] + a[1..] && b == [b[0]] + b[1..];
      assert a[0] == b[0];
      forall x
        ensures x in a[1..] <==> x in b[1..]
      {
        assert x in a <==> x == a[0] || x in a[1..];
        assert x in b <==> x == b[0] || x in b[1..];
      }
      SortedUnique(a[1..], b[1..]);
    }
  }

  // ---------------------------------------------------------------- flattening

  /** `flatMap` over lists already built: the lists one after another. */
  function Flatten<T(!new)>(ss: seq<seq<T>>): (r: seq<T>)
    ensures forall x :: x in r <==> exists i :: 0 <= i < |ss| && x in ss[i]
  {
    if ss == [] then []
    else
      var rest := Flatten(ss[1..]);
      FlattenStep(ss, rest);
      ss[0] + rest
  }

  lemma FlattenStep<T>(ss: seq<seq<T>>, rest: seq<T>)
    requires ss != []
    requires forall x :: x in rest <==> exists i :: 0 <= i < |ss[1..]| && x in ss[1..][i]
    ensures forall x :: x in ss[0] + rest <==> exists i :: 0 <= i < |ss| && x in ss[i]
  {
    forall x
      ensures x in ss[0] + rest <==> exists i :: 0 <= i < |ss| && x in ss[i]
    {
      if x in rest {
        var i :| 0 <= i < |ss[1..]| && x in ss[1..][i];
        assert x in ss[i + 1];
      }
      if exists i :: 0 <= i < |ss| && x in ss[i] {
        var i :| 0 <= i < |ss| && x in ss[i];
        if i > 0 {
          assert ss[1..][i - 1] == ss[i];
        }
      }
    }
  }

  // ---------------------------------------------------------------- stable sort by key

  /** Non-increasing in `key`: the order of `sort((a, b) => key(b) - key(a))`. */
  predicate Descending<T>(s: seq<T>, key: T -> int) {
    forall i, j :: 0 <= i < j < |s| ==> key(s[i]) >= key(s[j])
  }

  /** Filtering keeps a list non-increasing in its key. */
  lemma {:induction false} FilterDescending<T(!new)>(s: seq<T>, p: T -> bool, key: T -> int)
    requires Descending(s, key)
    ensures Descending(Filter(s, p), key)
    decreases |s|
  {
    if s != [] {
      var t := s[1..];
      assert Descending(t, key) by {
        forall i, j | 0 <= i < j < |t| ensures key(t[i]) >= key(t[j]) {
          assert t[i] == s[i + 1] && t[j] == s[j + 1];
        }
      }
      FilterDescending(t, p, key);
      var rest := Filter(t, p);
      if p(s[0]) {
        forall j | 0 <= j < |rest|
          ensures key(s[0]) >= key(rest[j])
        {
          assert rest[j] in t;
          var m :| 0 <= m < |t| && t[m] == rest[j];
          assert s[m + 1] == rest[j];
        }
        ConsDescending(s[0], rest, key);
      }
    }
  }

  /** Places `x` in front of the first element whose key is not larger than its own. */
  function InsertDesc<T>(x: T, t: seq<T>, key: T -> int): (r: seq<T>)
    requires Descending(t, key)
    ensures Descending(r, key)
    ensures multiset(r) == multiset(t) + multiset{x}
  {
    if t == [] || key(x) >= key(t[0]) then
      ConsDescending(x, t, key);
      [x] + t
    else
      var rest := InsertDesc(x, t[1..], key);
      InsertDescStep(x, t, rest, key);
      [t[0]] + rest
  }

  lemma ConsDescending<T>(h: T, t: seq<T>, key: T -> int)
    requires Descending(t, key)
    requires t == [] || key(h) >= key(t[0])
    ensures Descending([h] + t, key)
  {
  }

  lemma InsertDescStep<T>(x: T, t: seq<T>, rest: seq<T>, key: T -> int)
    requires Descending(t, key) && t != [] && key(x) < key(t[0])
    requires Descending(rest, key)
    requires multiset(rest) == multiset(t[1..]) + multiset{x}
    ensures Descending([t[0]] + rest, key)
    ensures multiset([t[0]] + rest) == multiset(t) + multiset{x}
  {
    assert t == [t[0]] + t[1..];
    forall j | 0 <= j < |rest|
      ensures key(t[0]) >= key(rest[j])
    {
      assert rest[j] in multiset(rest);
      if rest[j] != x {
        assert rest[j] in t[1..];
      }
    }
  }

  /**
   * The stable `Array.prototype.sort` with a descending-key comparator,
   * built by insertion: sorted, and a permutation of its input.
   */
  function SortDesc<T>(s: seq<T>, key: T -> int): (r: seq<T>)
    ensures Descending(r, key)
    ensures multiset(r) == multiset(s)
    ensures |r| == |s|
  {
    if s == [] then []
    else
      assert s == [s[0]] + s[1..];
      InsertDesc(s[0], SortDesc(s[1..], key), key)
  }

  /** Sorting an already sorted list changes nothing: the stable sort is idempotent. */
  lemma {:induction false} SortDescSorted<T>(s: seq<T>, key: T -> int)
    requires Descending(s, key)
    ensures SortDesc(s, key) == s
    decreases |s|
  {
    if s != [] {
      SortDescSorted(s[1..], key);
      assert s == [s[0]] + s[1..];
    }
  }
}
