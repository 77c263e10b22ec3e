/**
 * A stable sort by key, largest key first, as a function over sequences,
 * and what is true of it: the result is a permutation, its keys never
 * increase, it keeps items with equal keys in their input order, and it is
 * the only ordering with the last two properties.  The last fact is what
 * lets one insertion sort stand for any stable sort.
 *
 * The key is a parameter, so the facts here hold for every comparator of
 * the list view at once.
 */
module StableSort {
  import opened Keys

  /**
   * Insert `x` behind `t`, moving it in front of every trailing element
   * whose key is smaller than its own.
   */
  function Insert<T>(key: T -> SortKey, t: seq<T>, x: T): (r: seq<T>)
    ensures |r| == |t| + 1
    decreases |t|
  {
    if |t| == 0 then [x]
    else if KeyLess(key(t[|t| - 1]), key(x)) then
      Insert(key, t[..|t| - 1], x) + [t[|t| - 1]]
    else t + [x]
  }

  /** Insertion sort of `s`, one element after the other from the front. */
  function SortBy<T>(key: T -> SortKey, s: seq<T>): (r: seq<T>)
    ensures |r| == |s|
    decreases |s|
  {
    if |s| == 0 then []
    else
      Insert(key, SortBy(key, s[..|s| - 1]), s[|s| - 1])
  }

  lemma {:induction false} InsertPermutation<T>(key: T -> SortKey, t: seq<T>, x: T)
    ensures multiset(Insert(key, t, x)) == multiset(t) + multiset{x}
    decreases |t|
  {
    if |t| != 0 {
      assert t == t[..|t| - 1] + [t[|t| - 1]];
      if KeyLess(key(t[|t| - 1]), key(x)) {
        InsertPermutation(key, t[..|t| - 1], x);
      }
    }
  }

  /** Sorting only rearranges: the result holds the same items, each as often. */
  lemma {:induction false} SortByPermutation<T>(key: T -> SortKey, s: seq<T>)
    ensures multiset(SortBy(key, s)) == multiset(s)
    decreases |s|
  {
    if |s| != 0 {
      assert s == s[..|s| - 1] + [s[|s| - 1]];
      SortByPermutation(key, s[..|s| - 1]);
      InsertPermutation(key, SortBy(key, s[..|s| - 1]), s[|s| - 1]);
    }
  }

  /** Keys never increase from left to right. */
  predicate Sorted<T>(key: T -> SortKey, s: seq<T>)
  {
    forall i, j :: 0 <= i < j < |s| ==> KeyLe(key(s[j]), key(s[i]))
  }

  /** The items of `s` whose key is `k`, in their order in `s`. */
  function WithKey<T>(key: T -> SortKey, s: seq<T>, k: SortKey): seq<T>
    decreases |s|
  {
    if |s| == 0 then []
    else WithKey(key, s[..|s| - 1], k) + (if key(s[|s| - 1]) == k then [s[|s| - 1]] else [])
  }

  /** `t` holds the items of every key in the same order as `s`. */
  ghost predicate Stable<T>(key: T -> SortKey, s: seq<T>, t: seq<T>)
  {
    forall k :: WithKey(key, t, k) == WithKey(key, s, k)
  }

  lemma SortedPrefix<T>(key: T -> SortKey, s: seq<T>, n: nat)
    requires Sorted(key, s) && n <= |s|
    ensures Sorted(key, s[..n])
  {
    assert forall i :: 0 <= i < n ==> s[..n][i] == s[i];
  }

  /** The last item of a sorted sequence has the smallest key. */
  lemma SortedLastIsLeast<T>(key: T -> SortKey, s: seq<T>, y: T)
    requires Sorted(key, s) && y in s
    ensures KeyLe(key(s[|s| - 1]), key(y))
  {
    var i :| 0 <= i < |s| && s[i] == y;
    if i == |s| - 1 {
      assert key(s[|s| - 1]) == key(y);
    }
  }

  lemma {:induction false} InsertSorted<T>(key: T -> SortKey, t: seq<T>, x: T)
    requires Sorted(key, t)
    ensures Sorted(key, Insert(key, t, x))
    decreases |t|
  {
    if |t| != 0 {
      var init, last := t[..|t| - 1], t[|t| - 1];
      if KeyLess(key(last), key(x)) {
        SortedPrefix(key, t, |t| - 1);
        InsertSorted(key, init, x);
        var r := Insert(key, init, x);
        InsertPermutation(key, init, x);
        forall i | 0 <= i < |r| ensures KeyLe(key(last), key(r[i])) {
          assert r[i] in multiset(r);
          if r[i] != x {
            assert r[i] in init;
            var j :| 0 <= j < |init| && init[j] == r[i];
            assert t[j] == r[i];
          }
        }
        assert Insert(key, t, x) == r + [last];
      } else {
        KeyLeTotal(key(x), key(last));
        forall i | 0 <= i < |t| ensures KeyLe(key(x), key(t[i])) {
          if i < |t| - 1 {
            KeyLeTransitive(key(x), key(last), key(t[i]));
          }
        }
        assert Insert(key, t, x) == t + [x];
      }
    }
  }

  /** Sorting leaves keys non-increasing. */
  lemma {:induction false} SortBySorted<T>(key: T -> SortKey, s: seq<T>)
    ensures Sorted(key, SortBy(key, s))
    decreases |s|
  {
    if |s| != 0 {
      SortBySorted(key, s[..|s| - 1]);
      InsertSorted(key, SortBy(key, s[..|s| - 1]), s[|s| - 1]);
    }
  }

  lemma {:induction false} WithKeyAppend<T>(key: T -> SortKey, a: seq<T>, b: seq<T>, k: SortKey)
    ensures WithKey(key, a + b, k) == WithKey(key, a, k) + WithKey(key, b, k)
    decreases |b|
  {
    if |b| == 0 {
      assert a + b == a;
    } else {
      assert (a + b)[..|a + b| - 1] == a + b[..|b| - 1];
      WithKeyAppend(key, a, b[..|b| - 1], k);
    }
  }

  lemma WithKeySingle<T>(key: T -> SortKey, y: T, k: SortKey)
    ensures WithKey(key, [y], k) == if key(y) == k then [y] else []
  {
    assert [y][..0] == [];
  }

  lemma {:induction false} InsertWithKey<T>(key: T -> SortKey, t: seq<T>, x: T, k: SortKey)
    ensures WithKey(key, Insert(key, t, x), k) == WithKey(key, t, k) + (if key(x) == k then [x] else [])
    decreases |t|, 1
  {
    if |t| == 0 {
      WithKeySingle(key, x, k);
    } else if KeyLess(key(t[|t| - 1]), key(x)) {
      InsertWithKeyPassing(key, t, x, k);
    } else {
      assert Insert(key, t, x) == t + [x];
      WithKeyAppend(key, t, [x], k);
      WithKeySingle(key, x, k);
    }
  }

  /** The case where `x` moves in front of the last item of `t`. */
  lemma {:induction false} InsertWithKeyPassing<T>(key: T -> SortKey, t: seq<T>, x: T, k: SortKey)
    requires |t| != 0 && KeyLess(key(t[|t| - 1]), key(x))
    ensures WithKey(key, Insert(key, t, x), k) == WithKey(key, t, k) + (if key(x) == k then [x] else [])
    decreases |t|, 0
  {
    var init, last := t[..|t| - 1], t[|t| - 1];
    var r := Insert(key, init, x);
    assert Insert(key, t, x) == r + [last];
    InsertWithKey(key, init, x, k);
    WithKeyAppend(key, r, [last], k);
    WithKeySingle(key, last, k);
    KeyTrichotomy(key(last), key(x));
    if key(x) == k {
      assert WithKey(key, [last], k) == [];
      assert WithKey(key, t, k) == WithKey(key, init, k);
    } else {
      assert WithKey(key, r, k) == WithKey(key, init, k);
    }
  }

  /** Sorting keeps the items of each key in their input order. */
  lemma {:induction false} SortByStable<T>(key: T -> SortKey, s: seq<T>)
    ensures Stable(key, s, SortBy(key, s))
    decreases |s|
  {
    if |s| != 0 {
      var init, last := s[..|s| - 1], s[|s| - 1];
      SortByStable(key, init);
      forall k ensures WithKey(key, SortBy(key, s), k) == WithKey(key, s, k) {
        InsertWithKey(key, SortBy(key, init), last, k);
      }
    }
  }

  lemma {:induction false} WithKeyMember<T>(key: T -> SortKey, s: seq<T>, k: SortKey, y: T)
    requires y in WithKey(key, s, k)
    ensures y in s && key(y) == k
    decreases |s|
  {
    if y !in WithKey(key, s[..|s| - 1], k) {
      assert y == s[|s| - 1];
    } else {
      WithKeyMember(key, s[..|s| - 1], k, y);
    }
  }

  /** A nonempty sequence holds an item with the key of its last item. */
  lemma WithKeyOfLast<T>(key: T -> SortKey, s: seq<T>)
    requires |s| != 0
    ensures WithKey(key, s, key(s[|s| - 1])) == WithKey(key, s[..|s| - 1], key(s[|s| - 1])) + [s[|s| - 1]]
  {
  }

  /** Two sorted sequences that agree on the items of every key are equal. */
  lemma {:induction false} SortedStableUnique<T>(key: T -> SortKey, t: seq<T>, u: seq<T>)
    requires Sorted(key, t) && Sorted(key, u)
    requires forall k :: WithKey(key, t, k) == WithKey(key, u, k)
    ensures t == u
    decreases |t| + |u|
  {
    if |t| == 0 && |u| != 0 {
      WithKeyOfLast(key, u);
    } else if |t| != 0 && |u| == 0 {
      WithKeyOfLast(key, t);
    } else if |t| != 0 && |u| != 0 {
      var ti, tl, ui, ul := t[..|t| - 1], t[|t| - 1], u[..|u| - 1], u[|u| - 1];
      var kt, ku := key(tl), key(ul);
      WithKeyOfLast(key, t);
      WithKeyOfLast(key, u);
      var wt := WithKey(key, t, kt);
      var wu := WithKey(key, u, ku);
      WithKeyMember(key, u, kt, wt[|wt| - 1]);
      SortedLastIsLeast(key, u, wt[|wt| - 1]);
      WithKeyMember(key, t, ku, wu[|wu| - 1]);
      SortedLastIsLeast(key, t, wu[|wu| - 1]);
      KeyLeAntisymmetric(kt, ku);
      assert tl == ul;
      forall k ensures WithKey(key, ti, k) == WithKey(key, ui, k) {
        if k == kt {
          assert WithKey(key, ti, k) == WithKey(key, t, k)[..|WithKey(key, t, k)| - 1];
          assert WithKey(key, ui, k) == WithKey(key, u, k)[..|WithKey(key, u, k)| - 1];
        } else {
          assert WithKey(key, ti, k) == WithKey(key, t, k);
          assert WithKey(key, ui, k) == WithKey(key, u, k);
        }
      }
      SortedPrefix(key, t, |t| - 1);
      SortedPrefix(key, u, |u| - 1);
      SortedStableUnique(key, ti, ui);
      assert t == ti + [tl] && u == ui + [ul];
    }
  }

  /**
   * The sorted order is exactly the ordering that is sorted by key and
   * stable: `SortBy` has both properties, and nothing else does.
   */
  lemma SortByCharacterized<T>(key: T -> SortKey, s: seq<T>, t: seq<T>)
    ensures t == SortBy(key, s) <==> Sorted(key, t) && Stable(key, s, t)
  {
    SortBySorted(key, s);
    SortByStable(key, s);
    if Sorted(key, t) && Stable(key, s, t) {
      SortedStableUnique(key, t, SortBy(key, s));
    }
  }

  /** An already sorted sequence is left as it is. */
  lemma SortBySortedIdentity<T>(key: T -> SortKey, s: seq<T>)
    requires Sorted(key, s)
    ensures SortBy(key, s) == s
  {
    SortByCharacterized(key, s, s);
  }

  /** Sorting twice is sorting once. */
  lemma SortByIdempotent<T>(key: T -> SortKey, s: seq<T>)
    ensures SortBy(key, SortBy(key, s)) == SortBy(key, s)
  {
    SortBySorted(key, s);
    SortBySortedIdentity(key, SortBy(key, s));
  }

  /** Keeping only some items of a sorted sequence keeps it sorted. */
  lemma {:induction false} SortedSubsequence<T>(key: T -> SortKey, s: seq<T>, keep: T -> bool)
    requires Sorted(key, s)
    ensures Sorted(key, Filter(s, keep))
    decreases |s|
  {
    if |s| != 0 {
      var init, last := s[..|s| - 1], s[|s| - 1];
      SortedPrefix(key, s, |s| - 1);
      SortedSubsequence(key, init, keep);
      var f := Filter(init, keep);
      forall i | 0 <= i < |f| ensures KeyLe(key(last), key(f[i])) {
        FilterMember(init, keep, f[i]);
        SortedLastIsLeast(key, s, f[i]);
      }
    }
  }

  /** The items of `s` that satisfy `keep`, in order (Array.prototype.filter). */
  function Filter<T>(s: seq<T>, keep: T -> bool): (r: seq<T>)
    ensures |r| <= |s|
    ensures forall i :: 0 <= i < |r| ==> keep(r[i])
    decreases |s|
  {
    if |s| == 0 then []
    else Filter(s[..|s| - 1], keep) + (if keep(s[|s| - 1]) then [s[|s| - 1]] else [])
  }

  lemma {:induction false} FilterMember<T>(s: seq<T>, keep: T -> bool, y: T)
    requires y in Filter(s, keep)
    ensures y in s && keep(y)
    decreases |s|
  {
    if y !in Filter(s[..|s| - 1], keep) {
      assert y == s[|s| - 1];
    } else {
      FilterMember(s[..|s| - 1], keep, y);
    }
  }

  /** `r` is `s` with some items left out: each item of `s` is either dropped or kept in place. */
  ghost predicate IsSubsequence<T>(r: seq<T>, s: seq<T>)
    decreases |s|
  {
    if |s| == 0 then |r| == 0
    else
      || IsSubsequence(r, s[..|s| - 1])
      || (|r| != 0 && r[|r| - 1] == s[|s| - 1] && IsSubsequence(r[..|r| - 1], s[..|s| - 1]))
  }

  /** Filtering keeps the order of what it keeps. */
  lemma {:induction false} FilterIsSubsequence<T>(s: seq<T>, keep: T -> bool)
    ensures IsSubsequence(Filter(s, keep), s)
    decreases |s|
  {
    if |s| != 0 {
      var init, last := s[..|s| - 1], s[|s| - 1];
      FilterIsSubsequence(init, keep);
      var r := Filter(s, keep);
      if keep(last) {
        assert r == Filter(init, keep) + [last];
        assert r[..|r| - 1] == Filter(init, keep);
      } else {
        assert r == Filter(init, keep);
      }
    }
  }

  /** Filtering keeps every occurrence of a kept item and none of the others. */
  lemma {:induction false} FilterCount<T>(s: seq<T>, keep: T -> bool, x: T)
    ensures multiset(Filter(s, keep))[x] == if keep(x) then multiset(s)[x] else 0
    decreases |s|
  {
    if |s| != 0 {
      var init, last := s[..|s| - 1], s[|s| - 1];
      FilterCount(init, keep, x);
      assert s == init + [last];
    }
  }

  /** Filtering twice with the same test is filtering once. */
  lemma {:induction false} FilterAgain<T>(s: seq<T>, keep: T -> bool)
    ensures Filter(Filter(s, keep), keep) == Filter(s, keep)
    decreases |s|
  {
    if |s| != 0 {
      var init, last := s[..|s| - 1], s[|s| - 1];
      FilterAgain(init, keep);
      var f := Filter(init, keep);
      if keep(last) {
        var g := f + [last];
        assert Filter(s, keep) == g;
        assert g[..|g| - 1] == f && g[|g| - 1] == last;
        assert Filter(g, keep) == Filter(f, keep) + [last];
      } else {
        assert Filter(s, keep) == f;
      }
    }
  }

  // ---------------------------------------------------------------------
  // The sort in place

  /**
   * `compare(a, b)` is positive exactly when `a` belongs after `b`, that is
   * when `a` has the smaller key: what the runtime requires of the callback
   * it sorts with.
   */
  ghost predicate OrdersByKey<T(!new)>(compare: (T, T) -> int, key: T -> SortKey)
  {
    forall a, b {:trigger compare(a, b)} :: compare(a, b) > 0 <==> KeyLess(key(a), key(b))
  }

  lemma SortByPrefixStep<T>(key: T -> SortKey, s: seq<T>, i: nat)
    requires i < |s|
    ensures SortBy(key, s[..i + 1]) == Insert(key, SortBy(key, s[..i]), s[i])
  {
    assert s[..i + 1][..i] == s[..i];
  }

  /** Stable insertion sort of `a` in place, as `a.sort(compare)` leaves it. */
  method InsertionSort<T(!new)>(a: array<T>, compare: (T, T) -> int, ghost key: T -> SortKey)
    requires OrdersByKey(compare, key)
    modifies a
    ensures a[..] == SortBy(key, old(a[..]))
  {
    ghost var s := a[..];
    var i := 0;
    while i < a.Length
      invariant 0 <= i <= a.Length
      invariant a[..i] == SortBy(key, s[..i])
      invariant forall k :: i <= k < a.Length ==> a[k] == s[k]
    {
      SortByPrefixStep(key, s, i);
      InsertAt(a, i, compare, key);
      i := i + 1;
    }
    assert s[..a.Length] == s;
  }

  /**
   * `x` goes in at position `j` of `t` when every item from `j` on has a
   * smaller key and the item before `j`, if any, does not.
   */
  lemma {:induction false} InsertPosition<T>(key: T -> SortKey, t: seq<T>, j: nat, x: T)
    requires j <= |t| && (j == 0 || !KeyLess(key(t[j - 1]), key(x)))
    requires forall k :: j <= k < |t| ==> KeyLess(key(t[k]), key(x))
    ensures Insert(key, t, x) == t[..j] + [x] + t[j..]
    decreases |t|
  {
    if j < |t| {
      var init, last := t[..|t| - 1], t[|t| - 1];
      assert KeyLess(key(last), key(x));
      assert Insert(key, t, x) == Insert(key, init, x) + [last];
      assert forall k :: j <= k < |init| ==> init[k] == t[k];
      InsertPosition(key, init, j, x);
      assert init[..j] == t[..j];
      assert init[j..] + [last] == t[j..];
    } else {
      assert t[..j] == t && t[j..] == [];
    }
  }

  /** The array the inner loop leaves holds `t` with `x` put in at `j`. */
  lemma InsertLoopExit<T>(t: seq<T>, j: nat, x: T, cur: seq<T>)
    requires j <= |t| < |cur|
    requires cur[j] == x
    requires forall k :: 0 <= k < j ==> cur[k] == t[k]
    requires forall k :: j < k <= |t| ==> cur[k] == t[k - 1]
    ensures cur[..|t| + 1] == t[..j] + [x] + t[j..]
  {
    var r := t[..j] + [x] + t[j..];
    forall k | 0 <= k <= |t| ensures cur[k] == r[k] {
      if k < j {
        assert r[k] == t[k];
      } else if k > j {
        assert r[k] == t[k - 1];
      }
    }
  }

  /** Move `a[i]` left past the items of `a[..i]` that `compare` puts after it. */
  method InsertAt<T(!new)>(a: array<T>, i: nat, compare: (T, T) -> int, ghost key: T -> SortKey)
    requires OrdersByKey(compare, key)
    requires i < a.Length
    modifies a
    ensures a[..i + 1] == Insert(key, old(a[..i]), old(a[i]))
    ensures forall k :: i < k < a.Length ==> a[k] == old(a[k])
  {
    ghost var t := a[..i];
    var x := a[i];
    var j := i;
    while j > 0 && compare(a[j - 1], a[j]) > 0
      invariant 0 <= j <= i
      invariant a[j] == x
      invariant forall k :: 0 <= k < j ==> a[k] == t[k]
      invariant forall k :: j < k <= i ==> a[k] == t[k - 1]
      invariant forall k :: i < k < a.Length ==> a[k] == old(a[k])
      invariant forall k :: j <= k < i ==> KeyLess(key(t[k]), key(x))
    {
      assert a[j - 1] == t[j - 1];
      a[j - 1], a[j] := a[j], a[j - 1];
      j := j - 1;
    }
    InsertLoopExit(t, j, x, a[..]);
    InsertPosition(key, t, j, x);
  }
}
