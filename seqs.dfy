/** Building a list in a loop that appends a value for some of the elements
    of another list: the list built, and what it holds. */
module Seqs {
  import opened Strings

  /** The elements for which f gives a value, each with its value, in order. */
  function Pick<T, U>(xs: seq<T>, f: T -> Option<U>): seq<(T, U)> {
    if xs == [] then []
    else
      var init := Pick(xs[..|xs| - 1], f);
      var y := f(xs[|xs| - 1]);
      if y.Some? then init + [(xs[|xs| - 1], y.value)] else init
  }

  /** The values f gives, in order, skipping None. */
  function Collect<A, B>(xs: seq<A>, f: A -> Option<B>): seq<B> {
    if xs == [] then []
    else
      var init := Collect(xs[..|xs| - 1], f);
      var y := f(xs[|xs| - 1]);
      if y.Some? then init + [y.value] else init
  }

  lemma {:induction false} PickMembers<T, U>(xs: seq<T>, f: T -> Option<U>)
    ensures Pick(xs, f) == [] <==> forall i | 0 <= i < |xs| :: f(xs[i]).None?
    ensures forall j | 0 <= j < |Pick(xs, f)| :: f(Pick(xs, f)[j].0) == Some(Pick(xs, f)[j].1)
  {
    if xs != [] {
      var init := xs[..|xs| - 1];
      PickMembers(init, f);
      assert forall i | 0 <= i < |init| :: init[i] == xs[i];
    }
  }

  lemma {:induction false} CollectAll<A, B>(xs: seq<A>, f: A -> Option<B>)
    requires forall i | 0 <= i < |xs| :: f(xs[i]).Some?
    ensures |Collect(xs, f)| == |xs|
    ensures forall i | 0 <= i < |xs| :: Some(Collect(xs, f)[i]) == f(xs[i])
  {
    if xs != [] {
      var init := xs[..|xs| - 1];
      assert forall i | 0 <= i < |init| :: init[i] == xs[i];
      CollectAll(init, f);
    }
  }

  /** Every value collected is f of some element, and there are no more values than elements. */
  lemma {:induction false} CollectFrom<A, B>(xs: seq<A>, f: A -> Option<B>)
    ensures |Collect(xs, f)| <= |xs|
    ensures forall j | 0 <= j < |Collect(xs, f)| :: exists i | 0 <= i < |xs| :: f(xs[i]) == Some(Collect(xs, f)[j])
  {
    if xs != [] {
      var init := xs[..|xs| - 1];
      CollectFrom(init, f);
      forall j | 0 <= j < |Collect(xs, f)|
        ensures exists i | 0 <= i < |xs| :: f(xs[i]) == Some(Collect(xs, f)[j])
      {
        if j < |Collect(init, f)| {
          var i :| 0 <= i < |init| && f(init[i]) == Some(Collect(init, f)[j]);
          assert xs[i] == init[i];
        } else {
          assert f(xs[|xs| - 1]) == Some(Collect(xs, f)[j]);
        }
      }
    }
  }

  /** The position of the last element with the given key. */
  function LastWith<T, K(==)>(xs: seq<T>, key: T -> K, k: K): (i: nat)
    requires exists i | 0 <= i < |xs| :: key(xs[i]) == k
    ensures i < |xs| && key(xs[i]) == k
    ensures forall j | i < j < |xs| :: key(xs[j]) != k
  {
    var n := |xs| - 1;
    if key(xs[n]) == k then n
    else
      var init := xs[..n];
      assert exists i | 0 <= i < n :: key(init[i]) == k by {
        var i :| 0 <= i < |xs| && key(xs[i]) == k;
        assert init[i] == xs[i];
      }
      var i := LastWith(init, key, k);
      assert init[i] == xs[i];
      assert forall j | i < j < n :: init[j] == xs[j];
      i
  }
}
