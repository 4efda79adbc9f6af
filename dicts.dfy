/** Python dicts as the core uses them: insertion ordered, assignment to an
    existing key keeps its position, and `defaultdict(list)` grouping that
    appends each element to the list of its key. */
module Dicts {

  predicate UniqueKeys<K(==), V>(d: seq<(K, V)>) {
    forall i, j | 0 <= i < j < |d| :: d[i].0 != d[j].0
  }

  /** An insertion-ordered dictionary: its entries in insertion order. */
  type Dict<K(==), V> = d: seq<(K, V)> | UniqueKeys(d) witness []

  function Keys<K(==), V>(d: seq<(K, V)>): (ks: seq<K>)
    ensures |ks| == |d| && forall i | 0 <= i < |d| :: ks[i] == d[i].0
  {
    if d == [] then [] else Keys(d[..|d| - 1]) + [d[|d| - 1].0]
  }

  predicate HasKey<K(==), V>(d: seq<(K, V)>, k: K) {
    exists i | 0 <= i < |d| :: d[i].0 == k
  }

  /** The position of key `k`. */
  function IndexOf<K(==), V>(d: Dict<K, V>, k: K): (i: nat)
    requires HasKey(d, k)
    ensures i < |d| && d[i].0 == k
  {
    if d[|d| - 1].0 == k then |d| - 1
    else
      assert HasKey(d[..|d| - 1], k) by {
        var j :| 0 <= j < |d| && d[j].0 == k;
        assert d[..|d| - 1][j].0 == k;
      }
      IndexOf(d[..|d| - 1], k)
  }

  /** d.get(k, default). */
  function Get<K(==), V>(d: Dict<K, V>, k: K, default: V): V {
    if HasKey(d, k) then d[IndexOf(d, k)].1 else default
  }

  /** d[k] = v: an existing key keeps its place; a new key goes at the end. */
  function Put<K(==), V>(d: Dict<K, V>, k: K, v: V): (r: Dict<K, V>)
    ensures HasKey(d, k) ==> |r| == |d| && r == d[IndexOf(d, k) := (k, v)]
    ensures !HasKey(d, k) ==> r == d + [(k, v)]
  {
    if HasKey(d, k) then
      var i := IndexOf(d, k);
      var r := d[i := (k, v)];
      assert UniqueKeys(r) by {
        forall a, b | 0 <= a < b < |r| ensures r[a].0 != r[b].0 {
          assert r[a].0 == d[a].0 && r[b].0 == d[b].0;
        }
      }
      r
    else
      var r := d + [(k, v)];
      assert UniqueKeys(r) by {
        forall a, b | 0 <= a < b < |r| ensures r[a].0 != r[b].0 {
          if b == |d| {
            assert r[a] == d[a];
          } else {
            assert r[a] == d[a] && r[b] == d[b];
          }
        }
      }
      r
  }

  /** After d[k] = v, key k maps to v and every other key is unchanged. */
  lemma GetPut<K, V>(d: Dict<K, V>, k: K, v: V, k2: K, default: V)
    ensures Get(Put(d, k, v), k, default) == v
    ensures k2 != k ==> Get(Put(d, k, v), k2, default) == Get(d, k2, default)
  {
    var r := Put(d, k, v);
    assert HasKey(r, k) by {
      if HasKey(d, k) { assert r[IndexOf(d, k)].0 == k; } else { assert r[|d|].0 == k; }
    }
    if k2 != k {
      if HasKey(d, k2) {
        var j := IndexOf(d, k2);
        assert r[j].0 == k2;
      }
      if HasKey(r, k2) {
        var j := IndexOf(r, k2);
        assert j < |d| && d[j].0 == k2;
      }
    }
  }

  /** Appending a new key: lookups of other keys are unchanged. */
  lemma GetSnoc<K, V>(d: Dict<K, V>, k: K, v: V, k2: K, default: V)
    requires !HasKey(d, k)
    ensures UniqueKeys(d + [(k, v)])
    ensures HasKey(d + [(k, v)], k2) <==> HasKey(d, k2) || k2 == k
    ensures Get(d + [(k, v)], k2, default) == if k2 == k then v else Get(d, k2, default)
  {
    var r := Put(d, k, v);
    GetPut(d, k, v, k2, default);
    if HasKey(r, k2) && k2 != k {
      var j := IndexOf(r, k2);
      assert d[j].0 == k2;
    }
    if HasKey(d, k2) {
      var j := IndexOf(d, k2);
      assert r[j].0 == k2;
    }
    assert r[|d|].0 == k;
  }

  /** The last entry of a dictionary is not among the others. */
  lemma LastKeyFresh<K, V>(d: Dict<K, V>)
    requires |d| > 0
    ensures !HasKey(d[..|d| - 1], d[|d| - 1].0)
    ensures d == d[..|d| - 1] + [d[|d| - 1]]
  {
    var init := d[..|d| - 1];
    forall j | 0 <= j < |init| ensures init[j].0 != d[|d| - 1].0 {
      assert init[j] == d[j];
    }
  }

  /** groups[k].append(x) on a defaultdict(list). */
  function AppendTo<K(==), V>(d: Dict<K, seq<V>>, k: K, x: V): (r: Dict<K, seq<V>>)
    ensures Keys(r) == if HasKey(d, k) then Keys(d) else Keys(d) + [k]
  {
    var r := Put(d, k, Get(d, k, []) + [x]);
    assert Keys(r) == if HasKey(d, k) then Keys(d) else Keys(d) + [k];
    r
  }

  /** The elements of `s` with key `k`, in order. */
  function FilterKey<T, K(==)>(s: seq<T>, key: T -> K, k: K): (r: seq<T>)
    ensures |r| <= |s|
    ensures forall i | 0 <= i < |r| :: key(r[i]) == k
  {
    if s == [] then []
    else
      var init := FilterKey(s[..|s| - 1], key, k);
      if key(s[|s| - 1]) == k then init + [s[|s| - 1]] else init
  }

  /** `for x in s: groups[key(x)].append(x)` on an empty defaultdict(list). */
  function GroupBy<T, K(==)>(s: seq<T>, key: T -> K): Dict<K, seq<T>> {
    if s == [] then [] else AppendTo(GroupBy(s[..|s| - 1], key), key(s[|s| - 1]), s[|s| - 1])
  }

  /** The list under each key holds exactly the elements with that key, in their order. */
  lemma GroupByGet<T, K>(s: seq<T>, key: T -> K, k: K)
    ensures Get(GroupBy(s, key), k, []) == FilterKey(s, key, k)
    ensures HasKey(GroupBy(s, key), k) <==> exists i | 0 <= i < |s| :: key(s[i]) == k
  {
    GroupByValues(s, key, k);
    GroupByHasKey(s, key, k);
  }

  lemma {:induction false} GroupByValues<T, K>(s: seq<T>, key: T -> K, k: K)
    ensures Get(GroupBy(s, key), k, []) == FilterKey(s, key, k)
  {
    if s != [] {
      var init := s[..|s| - 1];
      var last := s[|s| - 1];
      GroupByValues(init, key, k);
      var g := GroupBy(init, key);
      GetPut(g, key(last), Get(g, key(last), []) + [last], k, []);
    }
  }

  lemma {:induction false} GroupByHasKey<T, K>(s: seq<T>, key: T -> K, k: K)
    ensures HasKey(GroupBy(s, key), k) <==> exists i | 0 <= i < |s| :: key(s[i]) == k
  {
    if s != [] {
      var init := s[..|s| - 1];
      var last := s[|s| - 1];
      GroupByHasKey(init, key, k);
      AppendToKeys(GroupBy(init, key), key(last), last, k);
      ExistsKeySnoc(s, init, key, k);
    }
  }

  /** A key occurs in a sequence exactly when it occurs before the last element or at it. */
  lemma ExistsKeySnoc<T, K>(s: seq<T>, init: seq<T>, key: T -> K, k: K)
    requires |s| > 0 && init == s[..|s| - 1]
    ensures (exists i | 0 <= i < |s| :: key(s[i]) == k) <==>
      (exists i | 0 <= i < |init| :: key(init[i]) == k) || key(s[|s| - 1]) == k
  {
    if exists i | 0 <= i < |s| :: key(s[i]) == k {
      var i :| 0 <= i < |s| && key(s[i]) == k;
      if i < |init| { assert s[i] == init[i]; }
    }
    if exists i | 0 <= i < |init| :: key(init[i]) == k {
      var i :| 0 <= i < |init| && key(init[i]) == k;
      assert s[i] == init[i];
    }
  }

  /** Appending to a key's list adds that key and no other. */
  lemma AppendToKeys<K, V>(d: Dict<K, seq<V>>, kk: K, x: V, k: K)
    ensures HasKey(AppendTo(d, kk, x), k) <==> HasKey(d, k) || k == kk
  {
    var r := AppendTo(d, kk, x);
    if HasKey(d, kk) {
      var i := IndexOf(d, kk);
      assert r[i].0 == kk;
      if HasKey(d, k) {
        var j := IndexOf(d, k);
        assert r[j].0 == k;
      }
      if HasKey(r, k) {
        var j :| 0 <= j < |r| && r[j].0 == k;
        assert d[j].0 == k;
      }
    } else {
      GetSnoc(d, kk, Get(d, kk, []) + [x], k, []);
    }
  }

  /** Keys appear in the order of their first element, once each. */
  lemma {:induction false} GroupByKeys<T, K>(s: seq<T>, key: T -> K)
    ensures |GroupBy(s, key)| <= |s|
    ensures forall j | 0 <= j < |GroupBy(s, key)| :: FirstIndex(s, key, GroupBy(s, key)[j].0) < |s|
    ensures forall a, b | 0 <= a < b < |GroupBy(s, key)| ::
      FirstIndex(s, key, GroupBy(s, key)[a].0) < FirstIndex(s, key, GroupBy(s, key)[b].0)
  {
    if s != [] {
      var init := s[..|s| - 1];
      var last := s[|s| - 1];
      GroupByKeys(init, key);
      var g := GroupBy(init, key);
      var r := GroupBy(s, key);
      assert Keys(r) == if HasKey(g, key(last)) then Keys(g) else Keys(g) + [key(last)];
      forall j | 0 <= j < |g| ensures FirstIndex(s, key, g[j].0) == FirstIndex(init, key, g[j].0) {
        FirstIndexPrefix(s, key, g[j].0);
      }
      if !HasKey(g, key(last)) {
        GroupByGet(init, key, key(last));
        FirstIndexPrefix(s, key, key(last));
        assert FirstIndex(s, key, key(last)) == |s| - 1;
        forall j | 0 <= j < |g| ensures FirstIndex(s, key, g[j].0) < |s| - 1 {
        }
      }
      forall j | 0 <= j < |r| ensures r[j].0 == Keys(r)[j] {
      }
    }
  }

  /** The index of the first element with key `k` (|s| when there is none). */
  function FirstIndex<T, K(==)>(s: seq<T>, key: T -> K, k: K): (i: nat)
    ensures i <= |s|
    ensures i < |s| ==> key(s[i]) == k
    ensures forall j | 0 <= j < i :: key(s[j]) != k
  {
    if s == [] then 0
    else if key(s[0]) == k then 0
    else 1 + FirstIndex(s[1..], key, k)
  }

  lemma {:induction false} FirstIndexPrefix<T, K>(s: seq<T>, key: T -> K, k: K)
    requires |s| > 0
    ensures FirstIndex(s[..|s| - 1], key, k) < |s| - 1 ==> FirstIndex(s, key, k) == FirstIndex(s[..|s| - 1], key, k)
    ensures FirstIndex(s[..|s| - 1], key, k) == |s| - 1 ==>
      FirstIndex(s, key, k) == if key(s[|s| - 1]) == k then |s| - 1 else |s|
  {
    var init := s[..|s| - 1];
    var fi := FirstIndex(init, key, k);
    var f := FirstIndex(s, key, k);
    if fi < |init| {
      assert s[fi] == init[fi];
    } else {
      forall j | 0 <= j < |init| ensures key(s[j]) != k { assert s[j] == init[j]; }
    }
  }

  lemma {:induction false} FilterKeyAppend<T, K>(a: seq<T>, b: seq<T>, key: T -> K, k: K)
    ensures FilterKey(a + b, key, k) == FilterKey(a, key, k) + FilterKey(b, key, k)
    decreases |b|
  {
    if b == [] {
      assert a + b == a;
    } else {
      var b' := b[..|b| - 1];
      assert (a + b)[..|a + b| - 1] == a + b';
      FilterKeyAppend(a, b', key, k);
    }
  }

  /** An element is kept by FilterKey exactly when it has the key. */
  lemma {:induction false} FilterKeyMembers<T, K>(s: seq<T>, key: T -> K, k: K, x: T)
    ensures x in FilterKey(s, key, k) <==> x in s && key(x) == k
  {
    if s != [] {
      var init := s[..|s| - 1];
      FilterKeyMembers(init, key, k, x);
      assert s == init + [s[|s| - 1]];
    }
  }

  /** The position of a key is where it is stored. */
  lemma IndexOfAt<K, V>(d: Dict<K, V>, i: nat)
    requires i < |d|
    ensures HasKey(d, d[i].0) && IndexOf(d, d[i].0) == i
  {
  }

  /** Every group of GroupBy is the non-empty list of the elements with its key. */
  lemma GroupByEntries<T, K>(s: seq<T>, key: T -> K, j: nat)
    requires j < |GroupBy(s, key)|
    ensures var g := GroupBy(s, key);
      && g[j].1 == FilterKey(s, key, g[j].0)
      && |g[j].1| > 0
  {
    var g := GroupBy(s, key);
    IndexOfAt(g, j);
    GroupByGet(s, key, g[j].0);
    var i :| 0 <= i < |s| && key(s[i]) == g[j].0;
    FilterKeyMembers(s, key, g[j].0, s[i]);
  }

  /** Put adds the key if it was missing and keeps every other key. */
  lemma PutKeys<K, V>(d: Dict<K, V>, k: K, v: V, k2: K)
    ensures HasKey(Put(d, k, v), k2) <==> HasKey(d, k2) || k2 == k
  {
    var r := Put(d, k, v);
    if HasKey(d, k2) {
      var j := IndexOf(d, k2);
      assert r[j].0 == k2;
    }
    if HasKey(r, k2) && k2 != k {
      var j :| 0 <= j < |r| && r[j].0 == k2;
      assert d[j].0 == k2;
    }
    if !HasKey(d, k) {
      assert r[|d|].0 == k;
    }
  }

  /** A dict filled by a loop that sets d[key(x)] = val(x) for every x that passes `keep`, in order. */
  function PutEach<T, K(==), V>(xs: seq<T>, keep: T -> bool, key: T -> K, val: T -> V): Dict<K, V> {
    if xs == [] then []
    else
      var d := PutEach(xs[..|xs| - 1], keep, key, val);
      var x := xs[|xs| - 1];
      if keep(x) then Put(d, key(x), val(x)) else d
  }

  /** One more element of the loop: it is put when kept, and skipped otherwise. */
  lemma PutEachStep<T, K, V>(xs: seq<T>, j: nat, keep: T -> bool, key: T -> K, val: T -> V)
    requires j < |xs|
    ensures PutEach(xs[..j + 1], keep, key, val)
      == if keep(xs[j]) then Put(PutEach(xs[..j], keep, key, val), key(xs[j]), val(xs[j]))
         else PutEach(xs[..j], keep, key, val)
  {
    assert xs[..j + 1][..j] == xs[..j];
  }

  /** The keys are exactly the keys of the kept elements. */
  lemma {:induction false} PutEachKeys<T, K, V>(xs: seq<T>, keep: T -> bool, key: T -> K, val: T -> V, k: K)
    ensures HasKey(PutEach(xs, keep, key, val), k) <==> exists i | 0 <= i < |xs| :: keep(xs[i]) && key(xs[i]) == k
  {
    if xs != [] {
      var init := xs[..|xs| - 1];
      var x := xs[|xs| - 1];
      PutEachKeys(init, keep, key, val, k);
      if keep(x) {
        PutKeys(PutEach(init, keep, key, val), key(x), val(x), k);
      }
      KeptSnoc(xs, init, keep, key, k);
    }
  }

  /** Some element of `xs` is kept with key `k` exactly when one of all but the last is, or the last is. */
  lemma KeptSnoc<T, K>(xs: seq<T>, init: seq<T>, keep: T -> bool, key: T -> K, k: K)
    requires |xs| > 0 && init == xs[..|xs| - 1]
    ensures (exists i | 0 <= i < |xs| :: keep(xs[i]) && key(xs[i]) == k)
      <==> ((exists i | 0 <= i < |init| :: keep(init[i]) && key(init[i]) == k)
            || (keep(xs[|xs| - 1]) && key(xs[|xs| - 1]) == k))
  {
    if exists i | 0 <= i < |init| :: keep(init[i]) && key(init[i]) == k {
      var i :| 0 <= i < |init| && keep(init[i]) && key(init[i]) == k;
      assert xs[i] == init[i];
    }
    if exists i | 0 <= i < |xs| :: keep(xs[i]) && key(xs[i]) == k {
      var i :| 0 <= i < |xs| && keep(xs[i]) && key(xs[i]) == k;
      if i < |init| {
        assert init[i] == xs[i];
      }
    }
  }

  /** The value under a key is that of the last kept element with the key: later ones overwrite. */
  lemma {:induction false} PutEachLast<T, K, V>(xs: seq<T>, keep: T -> bool, key: T -> K, val: T -> V, i: nat, default: V)
    requires i < |xs| && keep(xs[i])
    requires forall j | i < j < |xs| :: !(keep(xs[j]) && key(xs[j]) == key(xs[i]))
    ensures Get(PutEach(xs, keep, key, val), key(xs[i]), default) == val(xs[i])
  {
    var init := xs[..|xs| - 1];
    var x := xs[|xs| - 1];
    var d := PutEach(init, keep, key, val);
    if i == |xs| - 1 {
      GetPut(d, key(x), val(x), key(x), default);
    } else {
      assert init[i] == xs[i];
      forall j | i < j < |init| ensures !(keep(init[j]) && key(init[j]) == key(xs[i])) {
        assert init[j] == xs[j];
      }
      PutEachLast(init, keep, key, val, i, default);
      if keep(x) {
        GetPut(d, key(x), val(x), key(xs[i]), default);
      }
    }
  }

  /** The dict {k: f(v) for k, v in d.items()}, built entry by entry. */
  function MapValues<K(==), A, B>(d: seq<(K, A)>, f: A -> B): seq<(K, B)> {
    if d == [] then [] else MapValues(d[..|d| - 1], f) + [(d[|d| - 1].0, f(d[|d| - 1].1))]
  }

  lemma {:induction false} MapValuesKeys<K, A, B>(d: seq<(K, A)>, f: A -> B)
    ensures |MapValues(d, f)| == |d|
    ensures forall i | 0 <= i < |d| :: MapValues(d, f)[i] == (d[i].0, f(d[i].1))
  {
    if d != [] {
      MapValuesKeys(d[..|d| - 1], f);
    }
  }
}
