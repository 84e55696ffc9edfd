/**
 * A stable sort into descending order of a key, the ordering that a list
 * sorted with `reverse=True` receives: an element never moves in front of an
 * earlier element whose key is not smaller than its own, so elements with
 * equal keys keep their original relative order.
 *
 * `Sort` is the specification (insertion from the back), `SortInPlace` the
 * in-place algorithm proved equal to it, and the lemmas state what a stable
 * descending sort promises: sorted, a permutation, order within each key kept,
 * and that these three facts determine the result.
 */
module StableSort {

  /** `le` is total and transitive (so also reflexive). */
  ghost predicate TotalPreorder<K(!new)>(le: (K, K) -> bool) {
    && (forall a, b :: le(a, b) || le(b, a))
    && (forall a, b, c :: le(a, b) && le(b, c) ==> le(a, c))
  }

  /** `le` is a total order: a total preorder that is also antisymmetric. */
  ghost predicate TotalOrder<K(!new)>(le: (K, K) -> bool) {
    && TotalPreorder(le)
    && (forall a, b :: le(a, b) && le(b, a) ==> a == b)
  }

  /** Keys never increase from left to right. */
  predicate SortedDesc<T, K>(s: seq<T>, key: T -> K, le: (K, K) -> bool) {
    forall i, j :: 0 <= i < j < |s| ==> le(key(s[j]), key(s[i]))
  }

  /** No element occurs twice. */
  predicate Distinct<T(==)>(s: seq<T>) {
    forall i, j :: 0 <= i < j < |s| ==> s[i] != s[j]
  }

  /** The elements of `s` whose key is `k`, in their order in `s`. */
  function WithKey<T, K(==)>(s: seq<T>, key: T -> K, k: K): (r: seq<T>)
    ensures |r| <= |s|
    ensures forall i :: 0 <= i < |r| ==> key(r[i]) == k
  {
    if s == [] then []
    else WithKey(s[..|s| - 1], key, k) + (if key(s[|s| - 1]) == k then [s[|s| - 1]] else [])
  }

  /**
   * Inserts `x` into `t` scanning from the back: `x` passes an element only
   * when its key is strictly greater, so it lands after every element whose
   * key is at least its own.
   */
  function Insert<T, K>(t: seq<T>, x: T, key: T -> K, le: (K, K) -> bool): (r: seq<T>)
    ensures |r| == |t| + 1
    ensures multiset(r) == multiset(t) + multiset{x}
    decreases |t|
  {
    if t == [] || le(key(x), key(t[|t| - 1])) then t + [x]
    else
      var init, last := t[..|t| - 1], t[|t| - 1];
      assert t == init + [last];
      Insert(init, x, key, le) + [last]
  }

  /** Insertion sort: each element in turn is inserted into the sorted prefix. */
  function Sort<T, K>(s: seq<T>, key: T -> K, le: (K, K) -> bool): (r: seq<T>)
    ensures |r| == |s|
    ensures multiset(r) == multiset(s)
  {
    if s == [] then []
    else
      var init, last := s[..|s| - 1], s[|s| - 1];
      assert s == init + [last];
      Insert(Sort(init, key, le), last, key, le)
  }

  lemma {:induction false} WithKeyAppend<T, K>(s: seq<T>, t: seq<T>, key: T -> K, k: K)
    ensures WithKey(s + t, key, k) == WithKey(s, key, k) + WithKey(t, key, k)
    decreases |t|
  {
    if t == [] {
      assert s + t == s;
    } else {
      var init, last := t[..|t| - 1], t[|t| - 1];
      assert (s + t)[..|s + t| - 1] == s + init;
      assert (s + t)[|s + t| - 1] == last;
      WithKeyAppend(s, init, key, k);
    }
  }

  /** Inserting `x` adds it at the end of its own key's group and nowhere else. */
  lemma {:induction false} InsertWithKey<T, K(!new)>(t: seq<T>, x: T, key: T -> K, le: (K, K) -> bool, k: K)
    requires TotalPreorder(le)
    ensures WithKey(Insert(t, x, key, le), key, k)
         == WithKey(t, key, k) + (if key(x) == k then [x] else [])
    decreases |t|
  {
    if t == [] || le(key(x), key(t[|t| - 1])) {
      WithKeyAppend(t, [x], key, k);
      assert [x][..0] == [];
    } else {
      var init, last := t[..|t| - 1], t[|t| - 1];
      assert t == init + [last];
      assert key(x) != key(last) by {
        assert le(key(x), key(x));
      }
      InsertWithKey(init, x, key, le, k);
      WithKeyAppend(Insert(init, x, key, le), [last], key, k);
      WithKeyAppend(init, [last], key, k);
      assert [last][..0] == [];
    }
  }

  /** Stability: within each key, the sorted order is the original order. */
  lemma {:induction false} SortStable<T, K(!new)>(s: seq<T>, key: T -> K, le: (K, K) -> bool, k: K)
    requires TotalPreorder(le)
    ensures WithKey(Sort(s, key, le), key, k) == WithKey(s, key, k)
    decreases |s|
  {
    if s != [] {
      var init, last := s[..|s| - 1], s[|s| - 1];
      SortStable(init, key, le, k);
      InsertWithKey(Sort(init, key, le), last, key, le, k);
    }
  }

  lemma {:induction false} InsertSorted<T, K(!new)>(t: seq<T>, x: T, key: T -> K, le: (K, K) -> bool)
    requires TotalPreorder(le)
    requires SortedDesc(t, key, le)
    ensures SortedDesc(Insert(t, x, key, le), key, le)
    decreases |t|
  {
    if t == [] || le(key(x), key(t[|t| - 1])) {
    } else {
      var init, last := t[..|t| - 1], t[|t| - 1];
      assert SortedDesc(init, key, le);
      InsertSorted(init, x, key, le);
      var u := Insert(init, x, key, le);
      forall i | 0 <= i < |u|
        ensures le(key(last), key(u[i]))
      {
        assert u[i] in multiset(init) + multiset{x} by {
          assert u[i] in multiset(u);
        }
        if u[i] != x {
          assert u[i] in init;
          var m :| 0 <= m < |init| && init[m] == u[i];
          assert t[m] == u[i] && t[|t| - 1] == last;
        }
      }
    }
  }

  lemma {:induction false} SortSorted<T, K(!new)>(s: seq<T>, key: T -> K, le: (K, K) -> bool)
    requires TotalPreorder(le)
    ensures SortedDesc(Sort(s, key, le), key, le)
    decreases |s|
  {
    if s != [] {
      SortSorted(s[..|s| - 1], key, le);
      InsertSorted(Sort(s[..|s| - 1], key, le), s[|s| - 1], key, le);
    }
  }

  /**
   * For a total order, a sorted sequence that keeps the order within every key
   * of `s` IS `Sort(s)`: every stable descending sort of `s` gives this result.
   */
  lemma SortUnique<T, K(!new)>(s: seq<T>, p: seq<T>, key: T -> K, le: (K, K) -> bool)
    requires TotalOrder(le)
    requires SortedDesc(p, key, le)
    requires forall k :: WithKey(p, key, k) == WithKey(s, key, k)
    ensures p == Sort(s, key, le)
  {
    var q := Sort(s, key, le);
    SortSorted(s, key, le);
    forall k
      ensures WithKey(p, key, k) == WithKey(q, key, k)
    {
      SortStable(s, key, le, k);
    }
    SortedStableEqual(p, q, key, le);
  }

  lemma {:induction false} SortedStableEqual<T, K(!new)>(p: seq<T>, q: seq<T>, key: T -> K, le: (K, K) -> bool)
    requires TotalOrder(le)
    requires SortedDesc(p, key, le) && SortedDesc(q, key, le)
    requires forall k :: WithKey(p, key, k) == WithKey(q, key, k)
    ensures p == q
    decreases |p| + |q|
  {
    SameGroupsBothEmpty(p, q, key);
    if p != [] {
      var p', lp := p[..|p| - 1], p[|p| - 1];
      var q', lq := q[..|q| - 1], q[|q| - 1];
      assert le(key(lq), key(lp)) by {
        LastIsLeast(q, key, le);
        assert WithKey(p, key, key(lp)) == WithKey(p', key, key(lp)) + [lp];
        LastKeyAtMost(q, key, le, key(lp));
      }
      assert le(key(lp), key(lq)) by {
        LastIsLeast(p, key, le);
        assert WithKey(q, key, key(lq)) == WithKey(q', key, key(lq)) + [lq];
        LastKeyAtMost(p, key, le, key(lq));
      }
      assert key(lp) == key(lq);
      assert lp == lq by {
        var g := WithKey(p, key, key(lp));
        assert g == WithKey(p', key, key(lp)) + [lp];
        assert g == WithKey(q, key, key(lq));
        assert g == WithKey(q', key, key(lq)) + [lq];
        assert g[|g| - 1] == lp && g[|g| - 1] == lq;
      }
      forall k
        ensures WithKey(p', key, k) == WithKey(q', key, k)
      {
        assert WithKey(p, key, k) == WithKey(q, key, k);
        DropLastGroup(p', q', lp, key, k);
      }
      assert SortedDesc(p', key, le) && SortedDesc(q', key, le);
      SortedStableEqual(p', q', key, le);
      assert p == p' + [lp] && q == q' + [lq];
    }
  }

  /** In a descending sequence the last key is at most every key. */
  lemma LastIsLeast<T, K(!new)>(s: seq<T>, key: T -> K, le: (K, K) -> bool)
    requires TotalPreorder(le) && SortedDesc(s, key, le)
    ensures forall m :: 0 <= m < |s| ==> le(key(s[|s| - 1]), key(s[m]))
  {
    forall m | 0 <= m < |s| - 1
      ensures le(key(s[|s| - 1]), key(s[m]))
    {
    }
    if s != [] {
      var k := key(s[|s| - 1]);
      assert le(k, k) || le(k, k);
    }
  }

  /** A key present in `s` is at least the key of its last element. */
  lemma LastKeyAtMost<T, K>(s: seq<T>, key: T -> K, le: (K, K) -> bool, k: K)
    requires s != [] && WithKey(s, key, k) != []
    requires forall m :: 0 <= m < |s| ==> le(key(s[|s| - 1]), key(s[m]))
    ensures le(key(s[|s| - 1]), k)
  {
    WithKeyMember(s, key, k);
  }

  /** Removing the same last element from both keeps their groups equal. */
  lemma DropLastGroup<T, K>(p: seq<T>, q: seq<T>, x: T, key: T -> K, k: K)
    requires WithKey(p + [x], key, k) == WithKey(q + [x], key, k)
    ensures WithKey(p, key, k) == WithKey(q, key, k)
  {
    assert (p + [x])[..|p|] == p && (q + [x])[..|q|] == q;
    if key(x) == k {
      assert WithKey(p, key, k) == WithKey(p + [x], key, k)[..|WithKey(p + [x], key, k)| - 1];
    }
  }

  lemma SameGroupsBothEmpty<T, K>(p: seq<T>, q: seq<T>, key: T -> K)
    requires forall k :: WithKey(p, key, k) == WithKey(q, key, k)
    ensures p == [] <==> q == []
  {
    if p != [] {
      assert WithKey(q, key, key(p[|p| - 1])) != [];
    }
    if q != [] {
      assert WithKey(p, key, key(q[|q| - 1])) != [];
    }
  }

  /** A key with a non-empty group occurs in the sequence. */
  lemma {:induction false} WithKeyMember<T, K>(s: seq<T>, key: T -> K, k: K)
    requires s != [] && WithKey(s, key, k) != []
    ensures exists m :: 0 <= m < |s| && key(s[m]) == k
    decreases |s|
  {
    if key(s[|s| - 1]) != k {
      WithKeyMember(s[..|s| - 1], key, k);
      var m :| 0 <= m < |s| - 1 && key(s[..|s| - 1][m]) == k;
      assert key(s[m]) == k;
    }
  }

  /** An element whose key is strictly greater than every key of `t` goes to the front. */
  lemma {:induction false} InsertFront<T, K>(t: seq<T>, x: T, key: T -> K, le: (K, K) -> bool)
    requires forall i :: 0 <= i < |t| ==> !le(key(x), key(t[i]))
    ensures Insert(t, x, key, le) == [x] + t
    decreases |t|
  {
    if t != [] {
      var init, last := t[..|t| - 1], t[|t| - 1];
      assert t == init + [last];
      InsertFront(init, x, key, le);
    }
  }

  /** Conversely, an element new to `t` that goes to the front has a key strictly greater than all of `t`. */
  lemma {:induction false} InsertFrontOnly<T, K>(t: seq<T>, x: T, key: T -> K, le: (K, K) -> bool)
    requires x !in t
    requires Insert(t, x, key, le)[0] == x
    ensures forall y :: y in t ==> !le(key(x), key(y))
    decreases |t|
  {
    if t != [] {
      var init, last := t[..|t| - 1], t[|t| - 1];
      if !le(key(x), key(last)) {
        assert Insert(t, x, key, le) == Insert(init, x, key, le) + [last];
        assert x !in init by {
          assert forall y :: y in init ==> y in t;
        }
        InsertFrontOnly(init, x, key, le);
        assert t == init + [last];
      }
    }
  }

  /** A permutation of a sequence without repeats has no repeats either. */
  lemma DistinctPermutation<T>(s: seq<T>, t: seq<T>)
    requires Distinct(s)
    requires multiset(s) == multiset(t)
    ensures Distinct(t)
  {
    DistinctCounts(s);
    forall i, j | 0 <= i < j < |t|
      ensures t[i] != t[j]
    {
      SingleOccurrence(t, i, j);
    }
  }

  lemma SingleOccurrence<T>(t: seq<T>, i: nat, j: nat)
    requires i < j < |t|
    requires multiset(t)[t[i]] <= 1
    ensures t[i] != t[j]
  {
    assert t == t[..j] + t[j..];
    assert t[i] in t[..j];
    assert multiset(t)[t[i]] == multiset(t[..j])[t[i]] + multiset(t[j..])[t[i]];
    assert multiset(t[..j])[t[i]] >= 1;
  }

  lemma {:induction false} DistinctCounts<T>(s: seq<T>)
    requires Distinct(s)
    ensures forall x :: multiset(s)[x] <= 1
    decreases |s|
  {
    if s != [] {
      var init, last := s[..|s| - 1], s[|s| - 1];
      assert s == init + [last];
      DistinctCounts(init);
      assert last !in init;
    }
  }

  /**
   * Sorts `a` in place by insertion: each element in turn is moved left past
   * the elements of the sorted prefix whose keys are strictly smaller.
   */
  method SortInPlace<T, K>(a: array<T>, key: T -> K, le: (K, K) -> bool)
    modifies a
    ensures a[..] == Sort(old(a[..]), key, le)
  {
    ghost var input := a[..];
    var i := 0;
    while i < a.Length
      invariant 0 <= i <= a.Length
      invariant a[..i] == Sort(input[..i], key, le)
      invariant a[i..] == input[i..]
    {
      assert a[i] == input[i];
      InsertLast(a, i, key, le);
      SortPrefix(input, i, key, le);
      assert a[i + 1..] == input[i + 1..] by {
        assert input[i..][1..] == input[i + 1..];
      }
      i := i + 1;
    }
    assert input[..a.Length] == input;
  }

  /** Sorting one more element of `s` inserts it into the sorted shorter prefix. */
  lemma SortPrefix<T, K>(s: seq<T>, i: nat, key: T -> K, le: (K, K) -> bool)
    requires i < |s|
    ensures Sort(s[..i + 1], key, le) == Insert(Sort(s[..i], key, le), s[i], key, le)
  {
    assert s[..i + 1][..i] == s[..i];
  }

  /** Moves `a[i]` into place within the prefix `a[..i]`, shifting larger-index elements right. */
  method InsertLast<T, K>(a: array<T>, i: nat, key: T -> K, le: (K, K) -> bool)
    requires i < a.Length
    modifies a
    ensures a[..i + 1] == Insert(old(a[..i]), old(a[i]), key, le)
    ensures a[i + 1..] == old(a[i + 1..])
  {
    var x := a[i];
    ghost var sorted := a[..i];
    ghost var rest := a[i + 1..];
    var j := i;
    assert sorted[..j] == sorted && sorted[j..] == [];
    assert Shifted(a[..], sorted, rest, i, j);
    while j > 0 && !le(key(x), key(a[j - 1]))
      invariant 0 <= j <= i
      invariant Shifted(a[..], sorted, rest, i, j)
      invariant Insert(sorted, x, key, le) == Insert(sorted[..j], x, key, le) + sorted[j..]
    {
      InsertPasses(sorted, j, x, key, le);
      ghost var before := a[..];
      a[j] := a[j - 1];
      ShiftStep(before, a[..], sorted, rest, i, j);
      j := j - 1;
    }
    InsertStops(sorted, j, x, key, le);
    ghost var before := a[..];
    a[j] := x;
    ShiftedInsert(before, a[..], sorted, rest, i, j, x);
  }

  /**
   * The state of the shifting loop: `s` holds `sorted[..j]`, then a free
   * place at `j`, then `sorted[j..]`, then the untouched `rest`.
   */
  ghost predicate Shifted<T>(s: seq<T>, sorted: seq<T>, rest: seq<T>, i: nat, j: nat) {
    && j <= i == |sorted|
    && |s| == i + 1 + |rest|
    && (forall m :: 0 <= m < j ==> s[m] == sorted[m])
    && (forall m :: j < m <= i ==> s[m] == sorted[m - 1])
    && (forall m :: i < m < |s| ==> s[m] == rest[m - i - 1])
  }

  /** Copying `s[j - 1]` into the free place moves the free place one step left. */
  lemma ShiftStep<T>(before: seq<T>, after: seq<T>, sorted: seq<T>, rest: seq<T>, i: nat, j: nat)
    requires 0 < j && Shifted(before, sorted, rest, i, j)
    requires after == before[j := before[j - 1]]
    ensures Shifted(after, sorted, rest, i, j - 1)
  {
  }

  /** Filling the free place with `x` gives `sorted` with `x` inserted at `j`, followed by `rest`. */
  lemma ShiftedInsert<T>(before: seq<T>, after: seq<T>, sorted: seq<T>, rest: seq<T>, i: nat, j: nat, x: T)
    requires Shifted(before, sorted, rest, i, j)
    requires after == before[j := x]
    ensures after[..i + 1] == sorted[..j] + [x] + sorted[j..]
    ensures after[i + 1..] == rest
  {
    ghost var inserted := sorted[..j] + [x] + sorted[j..];
    forall m | 0 <= m <= i
      ensures after[m] == inserted[m]
    {
      if m < j {
        assert inserted[m] == sorted[m];
      } else if j < m {
        assert inserted[m] == sorted[m - 1];
      }
    }
  }

  /** One step of the shifting loop: `x` passes `s[j - 1]`, whose key is strictly smaller. */
  lemma InsertPasses<T, K>(s: seq<T>, j: nat, x: T, key: T -> K, le: (K, K) -> bool)
    requires 0 < j <= |s| && !le(key(x), key(s[j - 1]))
    ensures Insert(s[..j], x, key, le) + s[j..] == Insert(s[..j - 1], x, key, le) + s[j - 1..]
  {
    assert s[..j][..j - 1] == s[..j - 1];
    assert s[j - 1..] == [s[j - 1]] + s[j..];
  }

  /** The shifting loop stops at the front or before an element whose key is at least that of `x`. */
  lemma InsertStops<T, K>(s: seq<T>, j: nat, x: T, key: T -> K, le: (K, K) -> bool)
    requires j <= |s| && (j == 0 || le(key(x), key(s[j - 1])))
    ensures Insert(s[..j], x, key, le) == s[..j] + [x]
  {
  }
}
