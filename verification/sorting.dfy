/** `List.sort` with `Comparator.comparingInt(..).thenComparingInt(..)`: a
    stable sort by a two-part integer key. Java's list sort is stable, so the
    result is fully determined: ordered by key, equal keys in input order. */
module Sorting {

  datatype SortKey = SortKey(primary: int, secondary: int)

  predicate KeyLe(a: SortKey, b: SortKey) {
    a.primary < b.primary || (a.primary == b.primary && a.secondary <= b.secondary)
  }

  predicate SortedBy<T>(s: seq<T>, key: T -> SortKey) {
    forall i, j :: 0 <= i < j < |s| ==> KeyLe(key(s[i]), key(s[j]))
  }

  /** The elements of `s` whose key is `k`, in order. */
  function WithKey<T>(s: seq<T>, key: T -> SortKey, k: SortKey): seq<T> {
    if |s| == 0 then []
    else WithKey(s[..|s| - 1], key, k) + (if key(s[|s| - 1]) == k then [s[|s| - 1]] else [])
  }

  lemma WithKeyAppend<T>(a: seq<T>, b: seq<T>, key: T -> SortKey, k: SortKey)
    ensures WithKey(a + b, key, k) == WithKey(a, key, k) + WithKey(b, key, k)
    decreases |b|
  {
    if |b| == 0 {
      assert a + b == a;
    } else {
      assert (a + b)[..|a + b| - 1] == a + b[..|b| - 1];
      WithKeyAppend(a, b[..|b| - 1], key, k);
    }
  }

  /** Places `x` after every element whose key is not above its own. */
  function Insert<T>(sorted: seq<T>, x: T, key: T -> SortKey): (r: seq<T>)
    requires SortedBy(sorted, key)
    ensures |r| == |sorted| + 1
    ensures multiset(r) == multiset(sorted) + multiset{x}
    ensures SortedBy(r, key)
  {
    if |sorted| == 0 then [x]
    else
      var n := |sorted| - 1;
      var last := sorted[n];
      if KeyLe(key(last), key(x)) then sorted + [x]
      else
        assert sorted == sorted[..n] + [last];
        var r' := Insert(sorted[..n], x, key);
        InsertBelow(sorted, x, key, r');
        r' + [last]
  }

  lemma InsertBelow<T>(sorted: seq<T>, x: T, key: T -> SortKey, r': seq<T>)
    requires |sorted| > 0 && SortedBy(sorted, key)
    requires !KeyLe(key(sorted[|sorted| - 1]), key(x))
    requires multiset(r') == multiset(sorted[..|sorted| - 1]) + multiset{x}
    requires SortedBy(r', key)
    ensures SortedBy(r' + [sorted[|sorted| - 1]], key)
  {
    var n := |sorted| - 1;
    forall i | 0 <= i < |r'|
      ensures KeyLe(key(r'[i]), key(sorted[n]))
    {
      assert r'[i] in multiset(r');
      if r'[i] != x {
        assert r'[i] in multiset(sorted[..n]);
        var j :| 0 <= j < n && sorted[..n][j] == r'[i];
        assert sorted[j] == r'[i];
      }
    }
  }

  lemma {:induction false} InsertWithKey<T>(sorted: seq<T>, x: T, key: T -> SortKey, k: SortKey)
    requires SortedBy(sorted, key)
    ensures WithKey(Insert(sorted, x, key), key, k) == WithKey(sorted, key, k) + (if key(x) == k then [x] else [])
  {
    if |sorted| > 0 {
      var n := |sorted| - 1;
      if KeyLe(key(sorted[n]), key(x)) {
        WithKeyAppend(sorted, [x], key, k);
        assert [x][..0] == [];
      } else {
        InsertWithKey(sorted[..n], x, key, k);
        InsertBeforeLast(sorted, x, key, k);
      }
    } else {
      assert [x][..0] == [];
    }
  }

  /** The step of `InsertWithKey` where `x` goes before the last element:
      that element's key is above `x`'s, so they never share a key. */
  lemma InsertBeforeLast<T>(sorted: seq<T>, x: T, key: T -> SortKey, k: SortKey)
    requires |sorted| > 0 && SortedBy(sorted, key)
    requires !KeyLe(key(sorted[|sorted| - 1]), key(x))
    requires var init := sorted[..|sorted| - 1];
             WithKey(Insert(init, x, key), key, k) == WithKey(init, key, k) + (if key(x) == k then [x] else [])
    ensures WithKey(Insert(sorted, x, key), key, k) == WithKey(sorted, key, k) + (if key(x) == k then [x] else [])
  {
    var n := |sorted| - 1;
    var last := sorted[n];
    var init := sorted[..n];
    InsertGoesBefore(sorted, x, key);
    var r' := Insert(init, x, key);
    WithKeyAppend(r', [last], key, k);
    WithKeyAppend(init, [last], key, k);
    assert sorted == init + [last];
    assert [last][..0] == [];
    assert key(x) == k ==> key(last) != k;
  }

  /** `x` is inserted before a last element whose key is above its own. */
  lemma InsertGoesBefore<T>(sorted: seq<T>, x: T, key: T -> SortKey)
    requires |sorted| > 0 && SortedBy(sorted, key)
    requires !KeyLe(key(sorted[|sorted| - 1]), key(x))
    ensures Insert(sorted, x, key) == Insert(sorted[..|sorted| - 1], x, key) + [sorted[|sorted| - 1]]
  {
  }

  function StableSort<T>(s: seq<T>, key: T -> SortKey): (r: seq<T>)
    ensures |r| == |s|
    ensures multiset(r) == multiset(s)
    ensures SortedBy(r, key)
  {
    if |s| == 0 then []
    else
      assert s == s[..|s| - 1] + [s[|s| - 1]];
      Insert(StableSort(s[..|s| - 1], key), s[|s| - 1], key)
  }

  /** Stability: for every key, the elements carrying it keep their relative
      order. */
  lemma {:induction false} StableSortKeepsTies<T>(s: seq<T>, key: T -> SortKey, k: SortKey)
    ensures WithKey(StableSort(s, key), key, k) == WithKey(s, key, k)
  {
    if |s| > 0 {
      var init := s[..|s| - 1];
      StableSortKeepsTies(init, key, k);
      InsertWithKey(StableSort(init, key), s[|s| - 1], key, k);
    }
  }

  // ---------------------------------------------------------------------------
  // What a reordering keeps: counts and distinct keys.
  // ---------------------------------------------------------------------------

  /** The number of elements of `s` that satisfy `p`. */
  function CountWhere<T>(s: seq<T>, p: T -> bool): nat {
    if |s| == 0 then 0 else (if p(s[0]) then 1 else 0) + CountWhere(s[1..], p)
  }

  lemma {:induction false} CountWhereAppend<T>(a: seq<T>, b: seq<T>, p: T -> bool)
    ensures CountWhere(a + b, p) == CountWhere(a, p) + CountWhere(b, p)
    decreases |a|
  {
    if |a| == 0 {
      assert a + b == b;
    } else {
      assert (a + b)[1..] == a[1..] + b;
      CountWhereAppend(a[1..], b, p);
    }
  }

  /** No element satisfies `p` exactly when the count is zero. */
  lemma {:induction false} CountWhereZero<T>(s: seq<T>, p: T -> bool)
    ensures CountWhere(s, p) == 0 <==> forall i :: 0 <= i < |s| ==> !p(s[i])
    decreases |s|
  {
    if |s| > 0 {
      CountWhereZero(s[1..], p);
      assert forall i :: 1 <= i < |s| ==> s[i] == s[1..][i - 1];
    }
  }

  /** Exactly the element at `k` satisfies `p`: the count is one. */
  lemma {:induction false} CountWhereOne<T>(s: seq<T>, p: T -> bool, k: int)
    requires 0 <= k < |s|
    requires forall i :: 0 <= i < |s| ==> (p(s[i]) <==> i == k)
    ensures CountWhere(s, p) == 1
    decreases |s|
  {
    assert forall i :: 1 <= i < |s| ==> s[i] == s[1..][i - 1];
    if k == 0 {
      CountWhereZero(s[1..], p);
    } else {
      CountWhereOne(s[1..], p, k - 1);
    }
  }

  /** Reordering keeps the number of elements that satisfy `p`. */
  lemma {:induction false} PermutationKeepsCount<T>(a: seq<T>, b: seq<T>, p: T -> bool)
    requires multiset(a) == multiset(b)
    ensures CountWhere(a, p) == CountWhere(b, p)
    decreases |a|
  {
    if |a| == 0 {
      assert |b| == |multiset(b)| == 0;
    } else {
      assert a[0] in multiset(b);
      var j :| 0 <= j < |b| && b[j] == a[0];
      RemoveAt(b, j, p);
      assert a == [a[0]] + a[1..];
      assert multiset(a[1..]) == multiset(a) - multiset{a[0]};
      PermutationKeepsCount(a[1..], b[..j] + b[j + 1..], p);
    }
  }

  /** Taking out the element at `j`. */
  lemma RemoveAt<T>(b: seq<T>, j: int, p: T -> bool)
    requires 0 <= j < |b|
    ensures multiset(b[..j] + b[j + 1..]) == multiset(b) - multiset{b[j]}
    ensures CountWhere(b, p) == (if p(b[j]) then 1 else 0) + CountWhere(b[..j] + b[j + 1..], p)
  {
    RemoveAtMultiset(b, j);
    RemoveAtCount(b, j, p);
  }

  lemma RemoveAtMultiset<T>(b: seq<T>, j: int)
    requires 0 <= j < |b|
    ensures multiset(b[..j] + b[j + 1..]) == multiset(b) - multiset{b[j]}
  {
    assert b == b[..j] + [b[j]] + b[j + 1..];
  }

  lemma RemoveAtCount<T>(b: seq<T>, j: int, p: T -> bool)
    requires 0 <= j < |b|
    ensures CountWhere(b, p) == (if p(b[j]) then 1 else 0) + CountWhere(b[..j] + b[j + 1..], p)
  {
    var x := b[j];
    var after := b[j + 1..];
    assert b == b[..j] + ([x] + after);
    CountWhereAppend(b[..j], [x] + after, p);
    CountWhereAppend(b[..j], after, p);
    assert ([x] + after)[1..] == after;
  }

  /** No two elements of `s` share a key. */
  predicate DistinctBy<T, K(==)>(s: seq<T>, key: T -> K) {
    forall i, j :: 0 <= i < j < |s| ==> key(s[i]) != key(s[j])
  }

  /** Elements with distinct keys occur at most once each. */
  lemma {:induction false} DistinctOccursOnce<T, K>(s: seq<T>, key: T -> K, x: T)
    requires DistinctBy(s, key)
    ensures multiset(s)[x] <= 1
    decreases |s|
  {
    if |s| > 0 {
      assert s == [s[0]] + s[1..];
      assert DistinctBy(s[1..], key) by {
        assert forall i :: 0 <= i < |s| - 1 ==> s[1..][i] == s[i + 1];
      }
      DistinctOccursOnce(s[1..], key, x);
      if x == s[0] {
        assert forall i :: 0 <= i < |s| - 1 ==> s[1..][i] != x by {
          assert forall i :: 0 <= i < |s| - 1 ==> s[1..][i] == s[i + 1];
        }
        assert x !in multiset(s[1..]);
      }
    }
  }

  /** An element at two positions occurs at least twice. */
  lemma OccursTwice<T>(s: seq<T>, i: int, j: int)
    requires 0 <= i < j < |s|
    ensures s[i] == s[j] ==> multiset(s)[s[j]] >= 2
  {
    assert s == s[..j] + [s[j]] + s[j + 1..];
    assert s[..j][i] == s[i];
    assert s[i] in multiset(s[..j]);
  }

  /** Reordering keeps keys distinct. */
  lemma PermutationKeepsDistinct<T, K>(a: seq<T>, b: seq<T>, key: T -> K)
    requires multiset(a) == multiset(b) && DistinctBy(a, key)
    ensures DistinctBy(b, key)
  {
    forall i, j | 0 <= i < j < |b|
      ensures key(b[i]) != key(b[j])
    {
      OccursTwice(b, i, j);
      DistinctOccursOnce(a, key, b[j]);
      assert b[i] != b[j];
      assert b[i] in multiset(a) && b[j] in multiset(a);
      var ia :| 0 <= ia < |a| && a[ia] == b[i];
      var ja :| 0 <= ja < |a| && a[ja] == b[j];
      assert ia != ja;
      if ia < ja {
        assert key(a[ia]) != key(a[ja]);
      } else {
        assert key(a[ja]) != key(a[ia]);
      }
    }
  }
}
