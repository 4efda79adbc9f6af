/** Python's stable sort (`list.sort(key=..., reverse=...)` and `sorted`):
    elements are ordered by a key, and elements whose keys are equal keep
    their original relative order, also when `reverse=True`. The order on
    keys is a parameter: `Strings.LexLt` for ascending names, `Greater` for
    percentages in descending order. */
module StableSort {
  import opened Dicts

  ghost predicate Irreflexive<K(!new)>(lt: (K, K) -> bool) {
    forall a :: !lt(a, a)
  }

  /** `lt` is a strict total order. */
  ghost predicate StrictTotal<K(!new)>(lt: (K, K) -> bool) {
    && Irreflexive(lt)
    && (forall a, b, c :: lt(a, b) && lt(b, c) ==> lt(a, c))
    && (forall a, b :: a != b ==> lt(a, b) || lt(b, a))
  }

  /** No element is placed after one whose key it precedes. */
  ghost predicate SortedBy<T, K>(s: seq<T>, key: T -> K, lt: (K, K) -> bool) {
    forall i, j | 0 <= i < j < |s| :: !lt(key(s[j]), key(s[i]))
  }

  /** Inserts `x` before the first element whose key `x`'s key does not follow. */
  function Insert<T, K>(x: T, t: seq<T>, key: T -> K, lt: (K, K) -> bool): (r: seq<T>)
    ensures |r| == |t| + 1
    ensures multiset(r) == multiset(t) + multiset{x}
  {
    if t == [] then [x]
    else if lt(key(t[0]), key(x)) then
      assert t == [t[0]] + t[1..];
      [t[0]] + Insert(x, t[1..], key, lt)
    else [x] + t
  }

  /** The stably sorted list. */
  function SortBy<T, K>(s: seq<T>, key: T -> K, lt: (K, K) -> bool): (r: seq<T>)
    ensures |r| == |s|
    ensures multiset(r) == multiset(s)
  {
    if s == [] then []
    else
      assert s == [s[0]] + s[1..];
      Insert(s[0], SortBy(s[1..], key, lt), key, lt)
  }

  lemma {:induction false} InsertSorted<T, K(!new)>(x: T, t: seq<T>, key: T -> K, lt: (K, K) -> bool)
    requires StrictTotal(lt) && SortedBy(t, key, lt)
    ensures SortedBy(Insert(x, t, key, lt), key, lt)
  {
    if t != [] && lt(key(t[0]), key(x)) {
      InsertSorted(x, t[1..], key, lt);
      var r := Insert(x, t, key, lt);
      var tail := Insert(x, t[1..], key, lt);
      assert multiset(tail) == multiset(t[1..]) + multiset{x};
      forall j | 1 <= j < |r| ensures !lt(key(r[j]), key(r[0])) {
        assert r[j] == tail[j - 1];
        assert r[j] in multiset(tail);
        if r[j] != x {
          assert r[j] in multiset(t[1..]);
          var m :| 0 <= m < |t[1..]| && t[1..][m] == r[j];
          assert t[m + 1] == r[j];
        }
      }
    } else if t != [] {
      var r := Insert(x, t, key, lt);
      forall j | 1 <= j < |r| ensures !lt(key(r[j]), key(r[0])) {
        assert r[j] == t[j - 1];
        if j > 1 {
          assert !lt(key(t[j - 1]), key(t[0]));
        }
      }
    }
  }

  /** The result is sorted by the key. */
  lemma {:induction false} SortBySorted<T, K(!new)>(s: seq<T>, key: T -> K, lt: (K, K) -> bool)
    requires StrictTotal(lt)
    ensures SortedBy(SortBy(s, key, lt), key, lt)
  {
    if s != [] {
      SortBySorted(s[1..], key, lt);
      InsertSorted(s[0], SortBy(s[1..], key, lt), key, lt);
    }
  }

  lemma {:induction false} FilterKeyCons<T, K>(x: T, t: seq<T>, key: T -> K, k: K)
    ensures FilterKey([x] + t, key, k) == (if key(x) == k then [x] else []) + FilterKey(t, key, k)
  {
    FilterKeyAppend([x], t, key, k);
    assert [x][..0] == [];
  }

  lemma {:induction false} InsertFilter<T, K(!new)>(x: T, t: seq<T>, key: T -> K, lt: (K, K) -> bool, k: K)
    requires Irreflexive(lt)
    ensures FilterKey(Insert(x, t, key, lt), key, k) == (if key(x) == k then [x] else []) + FilterKey(t, key, k)
  {
    if t == [] {
      FilterKeyCons(x, t, key, k);
    } else if lt(key(t[0]), key(x)) {
      var tail := Insert(x, t[1..], key, lt);
      var hx: seq<T> := if key(x) == k then [x] else [];
      var ht: seq<T> := if key(t[0]) == k then [t[0]] else [];
      InsertFilter(x, t[1..], key, lt, k);
      assert FilterKey(tail, key, k) == hx + FilterKey(t[1..], key, k);
      FilterKeyCons(t[0], tail, key, k);
      FilterKeyCons(t[0], t[1..], key, k);
      ConsSplit(t);
      assert key(t[0]) != key(x);
      SwapHeads(ht, hx, FilterKey(t[1..], key, k));
    } else {
      FilterKeyCons(x, t, key, k);
    }
  }

  lemma ConsSplit<T>(s: seq<T>)
    requires |s| > 0
    ensures [s[0]] + s[1..] == s
  {
  }

  /** Two prefixes of which one is empty commute. */
  lemma SwapHeads<T>(a: seq<T>, b: seq<T>, rest: seq<T>)
    requires a == [] || b == []
    ensures a + (b + rest) == b + (a + rest)
  {
    if a == [] { assert a + (b + rest) == b + rest; } else { assert b + (a + rest) == a + rest; }
  }

  /** Stability: the elements with any one key keep their original order. */
  lemma {:induction false} SortByStable<T, K(!new)>(s: seq<T>, key: T -> K, lt: (K, K) -> bool, k: K)
    requires Irreflexive(lt)
    ensures FilterKey(SortBy(s, key, lt), key, k) == FilterKey(s, key, k)
  {
    if s != [] {
      SortByStable(s[1..], key, lt, k);
      InsertFilter(s[0], SortBy(s[1..], key, lt), key, lt, k);
      FilterKeyCons(s[0], s[1..], key, k);
      ConsSplit(s);
    }
  }
}
