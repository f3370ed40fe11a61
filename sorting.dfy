/**
 * Stable sorting by a two-level integer key, as `Array.prototype.sort` does
 * with a comparator that subtracts the first key components and, on a tie,
 * the second ones. The element type is generic so that the proofs see only
 * the key, never how it is computed.
 */
module StableSort {

  /** A primary and a secondary index. */
  type Key = (int, int)

  /** The comparator's arithmetic: the difference of the primary indices, or
      of the secondary ones when the primary indices are equal. */
  function KeyCompare(p: Key, q: Key): (r: int) {
    var primary := p.0 - q.0;
    if primary != 0 then primary else p.1 - q.1
  }

  /** Lexicographic order on keys, the reference the comparator is
      measured against. */
  predicate KeyLe(p: Key, q: Key) {
    p.0 < q.0 || (p.0 == q.0 && p.1 <= q.1)
  }

  /** The comparator is consistent in the sense `sort` requires: it agrees
      with the lexicographic order, is zero exactly on equal keys and
      changes sign when its arguments are swapped. */
  lemma KeyCompareIsConsistent(p: Key, q: Key)
    ensures KeyCompare(p, q) <= 0 <==> KeyLe(p, q)
    ensures KeyCompare(p, q) == 0 <==> p == q
    ensures KeyCompare(p, q) == -KeyCompare(q, p)
  {
  }

  predicate SortedBy<T>(s: seq<T>, key: T -> Key) {
    forall i, j :: 0 <= i < j < |s| ==> KeyLe(key(s[i]), key(s[j]))
  }

  /** Inserts `x` after every element of `t` that does not compare greater
      than it: one step of a stable insertion sort. */
  function Insert<T>(t: seq<T>, x: T, key: T -> Key): (r: seq<T>)
    ensures |r| == |t| + 1
    decreases |t|
  {
    if t == [] then [x]
    else if KeyCompare(key(t[|t| - 1]), key(x)) <= 0 then t + [x]
    else Insert(t[..|t| - 1], x, key) + [t[|t| - 1]]
  }

  lemma {:induction false} InsertPermutes<T>(t: seq<T>, x: T, key: T -> Key)
    ensures multiset(Insert(t, x, key)) == multiset(t) + multiset{x}
    decreases |t|
  {
    if t != [] && KeyCompare(key(t[|t| - 1]), key(x)) > 0 {
      InsertPermutes(t[..|t| - 1], x, key);
      assert t == t[..|t| - 1] + [t[|t| - 1]];
    }
  }

  /** Stable insertion sort, inserting the elements from left to right. */
  function SortBy<T>(s: seq<T>, key: T -> Key): (r: seq<T>)
    ensures |r| == |s|
    decreases |s|
  {
    if s == [] then []
    else Insert(SortBy(s[..|s| - 1], key), s[|s| - 1], key)
  }

  /** The result holds the same elements as the input, as often. */
  lemma {:induction false} SortByPermutes<T>(s: seq<T>, key: T -> Key)
    ensures multiset(SortBy(s, key)) == multiset(s)
    decreases |s|
  {
    if s != [] {
      SortByPermutes(s[..|s| - 1], key);
      InsertPermutes(SortBy(s[..|s| - 1], key), s[|s| - 1], key);
      assert s == s[..|s| - 1] + [s[|s| - 1]];
    }
  }

  lemma {:induction false} InsertSorted<T>(t: seq<T>, x: T, key: T -> Key)
    requires SortedBy(t, key)
    ensures SortedBy(Insert(t, x, key), key)
    decreases |t|
  {
    if t != [] && KeyCompare(key(t[|t| - 1]), key(x)) > 0 {
      var t', last := t[..|t| - 1], t[|t| - 1];
      assert SortedBy(t', key);
      InsertSorted(t', x, key);
      var r', r := Insert(t', x, key), Insert(t, x, key);
      InsertPermutes(t', x, key);
      assert r == r' + [last];
      forall i, j | 0 <= i < j < |r| ensures KeyLe(key(r[i]), key(r[j])) {
        if j == |r| - 1 {
          assert r[i] == r'[i] && r[j] == last;
          assert r'[i] in multiset(t') + multiset{x};
          if r'[i] != x {
            var m :| 0 <= m < |t'| && t'[m] == r'[i];
            assert t[m] == r'[i];
          }
        } else {
          assert r[i] == r'[i] && r[j] == r'[j];
        }
      }
    }
  }

  /** The result is in key order. */
  lemma {:induction false} SortBySorted<T>(s: seq<T>, key: T -> Key)
    ensures SortedBy(SortBy(s, key), key)
    decreases |s|
  {
    if s != [] {
      SortBySorted(s[..|s| - 1], key);
      InsertSorted(SortBy(s[..|s| - 1], key), s[|s| - 1], key);
    }
  }

  /** The elements of `s` whose key is `k`, in their order in `s`. */
  function WithKey<T>(s: seq<T>, key: T -> Key, k: Key): (r: seq<T>)
    decreases |s|
  {
    if s == [] then []
    else WithKey(s[..|s| - 1], key, k) + (if key(s[|s| - 1]) == k then [s[|s| - 1]] else [])
  }

  lemma {:induction false} WithKeyElements<T>(s: seq<T>, key: T -> Key, k: Key, e: T)
    requires e in WithKey(s, key, k)
    ensures e in s && key(e) == k
    decreases |s|
  {
    var s' := s[..|s| - 1];
    if e in WithKey(s', key, k) {
      WithKeyElements(s', key, k, e);
      assert s == s' + [s[|s| - 1]];
    }
  }

  lemma {:induction false} WithKeyAppend<T>(a: seq<T>, b: seq<T>, key: T -> Key, k: Key)
    ensures WithKey(a + b, key, k) == WithKey(a, key, k) + WithKey(b, key, k)
    decreases |b|
  {
    if b == [] {
      assert a + b == a;
    } else {
      var b' := b[..|b| - 1];
      assert (a + b)[..|a + b| - 1] == a + b';
      assert (a + b)[|a + b| - 1] == b[|b| - 1];
      WithKeyAppend(a, b', key, k);
    }
  }

  lemma WithKeySingle<T>(x: T, key: T -> Key, k: Key)
    ensures WithKey([x], key, k) == if key(x) == k then [x] else []
  {
    assert [x][..0] == [];
  }

  lemma {:induction false} WithKeyInsert<T>(t: seq<T>, x: T, key: T -> Key, k: Key)
    ensures WithKey(Insert(t, x, key), key, k) == WithKey(t, key, k) + WithKey([x], key, k)
    decreases |t|
  {
    if t == [] {
      WithKeySingle(x, key, k);
    } else if KeyCompare(key(t[|t| - 1]), key(x)) <= 0 {
      WithKeyAppend(t, [x], key, k);
    } else {
      var t', last := t[..|t| - 1], t[|t| - 1];
      WithKeyInsert(t', x, key, k);
      WithKeyAppend(Insert(t', x, key), [last], key, k);
      WithKeySingle(x, key, k);
      WithKeySingle(last, key, k);
      assert key(last) != key(x);
    }
  }

  /** The sort is stable: elements with equal keys keep their relative order. */
  lemma {:induction false} SortByStable<T>(s: seq<T>, key: T -> Key, k: Key)
    ensures WithKey(SortBy(s, key), key, k) == WithKey(s, key, k)
    decreases |s|
  {
    if s != [] {
      var s', last := s[..|s| - 1], s[|s| - 1];
      SortByStable(s', key, k);
      WithKeyInsert(SortBy(s', key), last, key, k);
      WithKeySingle(last, key, k);
    }
  }

  /** Sorting an already sorted sequence changes nothing, even when two of
      its elements share a key. */
  lemma {:induction false} SortByOfSorted<T>(s: seq<T>, key: T -> Key)
    requires SortedBy(s, key)
    ensures SortBy(s, key) == s
    decreases |s|
  {
    if s != [] {
      var s', last := s[..|s| - 1], s[|s| - 1];
      forall i, j | 0 <= i < j < |s'| ensures KeyLe(key(s'[i]), key(s'[j])) {
        assert s'[i] == s[i] && s'[j] == s[j];
      }
      SortByOfSorted(s', key);
      if s' != [] {
        assert KeyLe(key(s[|s| - 2]), key(last));
        assert KeyCompare(key(s'[|s'| - 1]), key(last)) <= 0;
      }
      assert s == s' + [last];
    }
  }

  lemma {:induction false} WithKeyHas<T>(s: seq<T>, key: T -> Key, i: nat)
    requires i < |s|
    ensures WithKey(s, key, key(s[i])) != []
    decreases |s|
  {
    if i < |s| - 1 {
      WithKeyHas(s[..|s| - 1], key, i);
    }
  }

  /** In a sorted sequence nothing has a greater key than the last element. */
  lemma LastIsGreatest<T>(s: seq<T>, key: T -> Key, e: T)
    requires SortedBy(s, key) && e in s
    ensures KeyLe(key(e), key(s[|s| - 1]))
  {
    var i :| 0 <= i < |s| && s[i] == e;
    if i < |s| - 1 {
      assert KeyLe(key(s[i]), key(s[|s| - 1]));
    }
  }

  /** Two sorted sequences with the same elements of every key end with
      elements of the same key. */
  lemma LastKeysAgree<T>(r: seq<T>, t: seq<T>, key: T -> Key)
    requires SortedBy(r, key) && SortedBy(t, key) && r != []
    requires forall k :: WithKey(r, key, k) == WithKey(t, key, k)
    ensures t != [] && key(r[|r| - 1]) == key(t[|t| - 1])
  {
    var k := key(r[|r| - 1]);
    WithKeyHas(r, key, |r| - 1);
    assert WithKey(t, key, k) == WithKey(r, key, k);
    var e := WithKey(t, key, k)[0];
    WithKeyElements(t, key, k, e);
    var kt := key(t[|t| - 1]);
    WithKeyHas(t, key, |t| - 1);
    assert WithKey(r, key, kt) == WithKey(t, key, kt);
    var e' := WithKey(r, key, kt)[0];
    WithKeyElements(r, key, kt, e');
    LastIsGreatest(t, key, e);
    LastIsGreatest(r, key, e');
  }

  /** Two sequences whose per-key subsequences agree and whose last
      elements share a key end with the same element, and agree per key
      without it. */
  lemma WithKeyDropLast<T>(r: seq<T>, lr: T, t: seq<T>, lt: T, key: T -> Key)
    requires key(lr) == key(lt)
    requires forall k :: WithKey(r + [lr], key, k) == WithKey(t + [lt], key, k)
    ensures lr == lt
    ensures forall k :: WithKey(r, key, k) == WithKey(t, key, k)
  {
    forall j ensures WithKey(r, key, j) == WithKey(t, key, j) && (j == key(lr) ==> lr == lt) {
      WithKeyAppend(r, [lr], key, j);
      WithKeyAppend(t, [lt], key, j);
      WithKeySingle(lr, key, j);
      WithKeySingle(lt, key, j);
      var wr, wt := WithKey(r, key, j), WithKey(t, key, j);
      assert WithKey(r + [lr], key, j) == WithKey(t + [lt], key, j);
      if j == key(lr) {
        assert WithKey([lr], key, j) == [lr] && WithKey([lt], key, j) == [lt];
        assert wr + [lr] == wt + [lt];
        assert |wr| == |wt|;
        assert (wr + [lr])[|wr|] == lr && (wt + [lt])[|wt|] == lt;
        assert wr == (wr + [lr])[..|wr|] && wt == (wt + [lt])[..|wt|];
        assert wr == wt;
        assert lr == lt;
      } else {
        assert WithKey([lr], key, j) == [] && WithKey([lt], key, j) == [];
        assert wr + [] == wt + [];
        assert wr + [] == wr && wt + [] == wt;
      }
    }
    assert WithKey(r, key, key(lr)) == WithKey(t, key, key(lr));
  }

  /** Two sorted sequences that hold the same elements of every key in the
      same order are equal. */
  lemma {:induction false} StableSortIsUnique<T>(r: seq<T>, t: seq<T>, key: T -> Key)
    requires SortedBy(r, key) && SortedBy(t, key)
    requires forall k :: WithKey(r, key, k) == WithKey(t, key, k)
    ensures r == t
    decreases |r| + |t|
  {
    if r == [] {
      if t != [] {
        WithKeyHas(t, key, 0);
      }
    } else {
      LastKeysAgree(r, t, key);
      var r', t' := r[..|r| - 1], t[..|t| - 1];
      assert r == r' + [r[|r| - 1]] && t == t' + [t[|t| - 1]];
      WithKeyDropLast(r', r[|r| - 1], t', t[|t| - 1], key);
      assert SortedBy(r', key) && SortedBy(t', key);
      StableSortIsUnique(r', t', key);
    }
  }

  /** Any sorted rearrangement that keeps the order among equal keys, which
      is what every stable sort produces, is `SortBy`. */
  lemma StableSortIsSortBy<T>(s: seq<T>, r: seq<T>, key: T -> Key)
    requires SortedBy(r, key)
    requires forall k :: WithKey(r, key, k) == WithKey(s, key, k)
    ensures r == SortBy(s, key)
  {
    SortBySorted(s, key);
    forall k ensures WithKey(r, key, k) == WithKey(SortBy(s, key), key, k) {
      SortByStable(s, key, k);
    }
    StableSortIsUnique(r, SortBy(s, key), key);
  }

  /** `Insert` puts `x` right after the last element that does not compare
      greater than it. */
  lemma {:induction false} InsertAt<T>(t: seq<T>, x: T, key: T -> Key, j: nat)
    requires j <= |t|
    requires forall k :: j <= k < |t| ==> KeyCompare(key(t[k]), key(x)) > 0
    requires j == 0 || KeyCompare(key(t[j - 1]), key(x)) <= 0
    ensures Insert(t, x, key) == t[..j] + [x] + t[j..]
    decreases |t|
  {
    if j < |t| {
      var t' := t[..|t| - 1];
      assert t'[..j] == t[..j];
      if j > 0 {
        assert t'[j - 1] == t[j - 1];
      }
      InsertAt(t', x, key, j);
      assert t[j..] == t'[j..] + [t[|t| - 1]];
    } else if t != [] {
      assert t[..j] == t;
    }
  }

  /** Moves `a[i]` left past the elements of `a[..i]` that compare greater
      than it, as one pass of insertion sort does. */
  method InsertInPlace<T>(a: array<T>, i: nat, key: T -> Key)
    requires i < a.Length
    modifies a
    ensures a[..i + 1] == Insert(old(a[..i]), old(a[i]), key)
    ensures a[i + 1..] == old(a[i + 1..])
  {
    ghost var sorted := a[..i];
    var x := a[i];
    var j := i;
    while j > 0 && KeyCompare(key(a[j - 1]), key(x)) > 0
      invariant 0 <= j <= i
      invariant forall k :: 0 <= k < j ==> a[k] == sorted[k]
      invariant forall k :: j < k <= i ==> a[k] == sorted[k - 1]
      invariant forall k :: i < k < a.Length ==> a[k] == old(a[k])
      invariant forall k :: j <= k < i ==> KeyCompare(key(sorted[k]), key(x)) > 0
    {
      a[j] := a[j - 1];
      j := j - 1;
    }
    a[j] := x;
    InsertAt(sorted, x, key, j);
    assert a[..i + 1] == sorted[..j] + [x] + sorted[j..];
  }

  /** Sorts `a` in place by insertion, growing a sorted prefix one element
      at a time. */
  method SortInPlace<T>(a: array<T>, key: T -> Key)
    modifies a
    ensures a[..] == SortBy(old(a[..]), key)
  {
    ghost var input := a[..];
    var i := 0;
    while i < a.Length
      invariant 0 <= i <= a.Length
      invariant a[..i] == SortBy(input[..i], key)
      invariant a[i..] == input[i..]
    {
      InsertInPlace(a, i, key);
      assert input[..i + 1][..i] == input[..i];
      assert input[i] == input[i..][0];
      i := i + 1;
    }
    assert input[..a.Length] == input;
  }
}
