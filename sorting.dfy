/** The two orders in which the section-bond binder walks the indices of an
    event: Swift's `sorted(i, <)` (insertions) and `sorted(i, >)` (removals).
    Sorting is modelled as an insertion sort; what matters to the binder is
    that the result is ordered, is a permutation of the input, and is the only
    ordered permutation of it. */
module Sorting {

  datatype Order = Increasing | Decreasing

  /** `x` may stand before `y` in a sequence sorted by `o`. */
  predicate Precedes(o: Order, x: int, y: int)
  {
    match o
    case Increasing => x <= y
    case Decreasing => x >= y
  }

  predicate Ordered(o: Order, s: seq<int>)
  {
    forall i, j :: 0 <= i < j < |s| ==> Precedes(o, s[i], s[j])
  }

  lemma ConsOrdered(o: Order, x: int, t: seq<int>)
    requires Ordered(o, t) && forall k :: 0 <= k < |t| ==> Precedes(o, x, t[k])
    ensures Ordered(o, [x] + t)
  {
    var r := [x] + t;
    forall i, j | 0 <= i < j < |r| ensures Precedes(o, r[i], r[j]) {
      assert r[j] == t[j - 1];
      if i > 0 {
        assert r[i] == t[i - 1];
      }
    }
  }

  /** Insert `x` into the sorted sequence `s` at its place. */
  function InsertOrdered(o: Order, x: int, s: seq<int>): (r: seq<int>)
    requires Ordered(o, s)
    ensures Ordered(o, r)
    ensures multiset(r) == multiset(s) + multiset{x}
  {
    if s == [] || Precedes(o, x, s[0]) then
      [x] + s
    else
      var tail := s[1..];
      assert Ordered(o, tail) by {
        forall i, j | 0 <= i < j < |tail| ensures Precedes(o, tail[i], tail[j]) {
          assert tail[i] == s[i + 1] && tail[j] == s[j + 1];
        }
      }
      var rest := InsertOrdered(o, x, tail);
      assert s == [s[0]] + tail;
      forall k | 0 <= k < |rest|
        ensures Precedes(o, s[0], rest[k])
      {
        assert rest[k] in multiset(tail) + multiset{x};
        if rest[k] != x {
          var i :| 0 <= i < |tail| && tail[i] == rest[k];
          assert s[i + 1] == rest[k];
        }
      }
      ConsOrdered(o, s[0], rest);
      [s[0]] + rest
  }

  /** Swift's `sorted(s, <)` for `Increasing` and `sorted(s, >)` for `Decreasing`. */
  function Sort(s: seq<int>, o: Order): (r: seq<int>)
    ensures Ordered(o, r)
    ensures multiset(r) == multiset(s)
    ensures |r| == |s|
  {
    if s == [] then
      []
    else
      assert s == [s[0]] + s[1..];
      InsertOrdered(o, s[0], Sort(s[1..], o))
  }

  lemma TailOrdered(o: Order, a: seq<int>)
    requires Ordered(o, a) && a != []
    ensures Ordered(o, a[1..])
  {
    var t := a[1..];
    forall i, j | 0 <= i < j < |t| ensures Precedes(o, t[i], t[j]) {
      assert t[i] == a[i + 1] && t[j] == a[j + 1];
    }
  }

  lemma TailMultiset(a: seq<int>)
    requires a != []
    ensures multiset(a[1..]) == multiset(a) - multiset{a[0]}
  {
    assert a == [a[0]] + a[1..];
    assert multiset(a) == multiset{a[0]} + multiset(a[1..]);
  }

  /** Two nonempty ordered sequences with the same elements start alike. */
  lemma HeadsEqual(o: Order, a: seq<int>, b: seq<int>)
    requires Ordered(o, a) && Ordered(o, b) && a != [] && b != []
    requires multiset(a) == multiset(b)
    ensures a[0] == b[0]
  {
    assert a[0] in multiset(b);
    var i :| 0 <= i < |b| && b[i] == a[0];
    assert b[0] in multiset(a);
    var j :| 0 <= j < |a| && a[j] == b[0];
    assert Precedes(o, b[0], a[0]) && Precedes(o, a[0], b[0]);
  }

  /** An ordered permutation is unique: two ordered sequences holding the same
      elements are equal. */
  lemma {:induction false} OrderedUnique(o: Order, a: seq<int>, b: seq<int>)
    requires Ordered(o, a) && Ordered(o, b)
    requires multiset(a) == multiset(b)
    ensures a == b
    decreases |a|
  {
    assert |a| == |multiset(a)| == |multiset(b)| == |b|;
    if a != [] {
      HeadsEqual(o, a, b);
      TailOrdered(o, a);
      TailOrdered(o, b);
      TailMultiset(a);
      TailMultiset(b);
      OrderedUnique(o, a[1..], b[1..]);
      assert a == [a[0]] + a[1..] && b == [b[0]] + b[1..];
    }
  }

  /** The sorted order depends only on which indices an event carries, not on
      the order it lists them in. */
  lemma SortIgnoresInputOrder(o: Order, s: seq<int>, t: seq<int>)
    requires multiset(s) == multiset(t)
    ensures Sort(s, o) == Sort(t, o)
  {
    OrderedUnique(o, Sort(s, o), Sort(t, o));
  }

}
