/** The bookkeeping of the section-bond array, stated on values.

    A `BondView` is what one section bond holds: the section it believes it
    serves and the inner array it listens to (None once unbound). The binder's
    state is a sequence of these; the functions below say what each outer-array
    event does to it, and the lemmas say why the invariant
    `view[k].section == k` survives. The generic functions at the end say the
    same about the sequence of bond objects themselves. */
module SectionViews {
  import opened Options
  import opened Sorting

  datatype BondView = BondView(section: int, source: Option<nat>)

  /** The invariant of a well-kept section-bond array: bond k serves section k. */
  predicate Indexed(v: seq<BondView>)
  {
    forall k :: 0 <= k < |v| ==> v[k].section == k
  }

  /** Every bond's section moved by `delta` (the `+= 1` / `-= 1` loops). */
  function Bump(v: seq<BondView>, delta: int): (r: seq<BondView>)
  {
    seq(|v|, k requires 0 <= k < |v| => v[k].(section := v[k].section + delta))
  }

  // ------------------------------------------------------------------
  // Insertion of sections (processed in increasing order)

  /** The renumbering loop part way: the bonds in `from..upto` bumped. */
  function PartlyBumped(v: seq<BondView>, from: nat, upto: nat, delta: int): seq<BondView>
    requires from <= upto <= |v|
  {
    v[..from] + Bump(v[from..upto], delta) + v[upto..]
  }

  /** The renumbering loop at its start and at its end. */
  lemma BumpDone(v: seq<BondView>, from: nat, delta: int)
    requires from <= |v|
    ensures PartlyBumped(v, from, from, delta) == v
    ensures PartlyBumped(v, from, |v|, delta) == v[..from] + Bump(v[from..], delta)
  {
    assert v[from..from] == [] && Bump([], delta) == [];
    assert v[..from] + [] + v[from..] == v;
    assert v[from..|v|] == v[from..] && v[|v|..] == [];
  }

  /** The renumbering loop after one more bond. */
  lemma BumpExtend(v: seq<BondView>, from: nat, idx: nat, delta: int)
    requires from <= idx < |v|
    ensures PartlyBumped(v, from, idx, delta)[idx] == v[idx]
    ensures PartlyBumped(v, from, idx, delta)[idx := v[idx].(section := v[idx].section + delta)] ==
      PartlyBumped(v, from, idx + 1, delta)
  {
    var a := PartlyBumped(v, from, idx, delta)[idx := v[idx].(section := v[idx].section + delta)];
    var b := PartlyBumped(v, from, idx + 1, delta);
    assert |a| == |b|;
    forall k | 0 <= k < |a| ensures a[k] == b[k] {
      if k < from {
        assert a[k] == v[k] && b[k] == v[k];
      } else if k < idx {
        assert a[k] == Bump(v[from..idx], delta)[k - from];
        assert b[k] == Bump(v[from..idx + 1], delta)[k - from];
      } else if k == idx {
        assert b[k] == Bump(v[from..idx + 1], delta)[k - from];
      } else {
        assert a[k] == v[k] && b[k] == v[k];
      }
    }
  }

  /** One step of the insertion loop: a fresh bond for section `s`, bound to
      `src`, goes in at position `s`; every bond after it moves up one section. */
  function InsertStep(v: seq<BondView>, s: nat, src: nat): (r: seq<BondView>)
    requires s <= |v|
    ensures |r| == |v| + 1 && r[..s] == v[..s] && r[s] == BondView(s, Some(src))
    ensures forall k :: s < k < |r| ==> r[k] == v[k - 1].(section := v[k - 1].section + 1)
  {
    v[..s] + [BondView(s, Some(src))] + Bump(v[s..], 1)
  }

  /** `insert(atIndex:)` does not trap: the j-th insertion lands within the
      array as it has grown by then. */
  predicate InsertPositionsValid(n: nat, xs: seq<int>)
  {
    forall j :: 0 <= j < |xs| ==> 0 <= xs[j] <= n + j
  }

  /** `array[section]` does not trap. */
  predicate AllBelow(xs: seq<int>, bound: nat)
  {
    forall j :: 0 <= j < |xs| ==> 0 <= xs[j] < bound
  }

  /** The insertion loop over `xs`, in the order given. */
  function InsertAll(v: seq<BondView>, xs: seq<int>, outer: seq<nat>): (r: seq<BondView>)
    requires InsertPositionsValid(|v|, xs) && AllBelow(xs, |outer|)
    ensures |r| == |v| + |xs|
    decreases |xs|
  {
    if xs == [] then
      v
    else
      var n := |xs| - 1;
      var prev := InsertAll(v, xs[..n], outer);
      InsertStep(prev, xs[n], outer[xs[n]])
  }

  lemma InsertStepKeepsIndexed(v: seq<BondView>, s: nat, src: nat)
    requires s <= |v| && Indexed(v)
    ensures Indexed(InsertStep(v, s, src))
  {
    var r := InsertStep(v, s, src);
    forall k | 0 <= k < |r| ensures r[k].section == k {
      if k > s {
        assert r[k] == Bump(v[s..], 1)[k - s - 1];
      }
    }
  }

  /** Insertion keeps the invariant, for any valid positions. */
  lemma {:induction false} InsertAllKeepsIndexed(v: seq<BondView>, xs: seq<int>, outer: seq<nat>)
    requires InsertPositionsValid(|v|, xs) && AllBelow(xs, |outer|)
    requires Indexed(v)
    ensures Indexed(InsertAll(v, xs, outer))
    decreases |xs|
  {
    if xs != [] {
      var n := |xs| - 1;
      InsertAllKeepsIndexed(v, xs[..n], outer);
      InsertStepKeepsIndexed(InsertAll(v, xs[..n], outer), xs[n], outer[xs[n]]);
    }
  }

  predicate StrictlyIncreasing(xs: seq<int>)
  {
    forall i, j :: 0 <= i < j < |xs| ==> xs[i] < xs[j]
  }

  /** With distinct positions inserted in increasing order, each inserted
      position `s` ends up holding the bond made for it: section `s`, bound to
      `outer[s]`. */
  lemma {:induction false} InsertAllPlacesNewBonds(v: seq<BondView>, xs: seq<int>, outer: seq<nat>)
    requires InsertPositionsValid(|v|, xs) && AllBelow(xs, |outer|)
    requires StrictlyIncreasing(xs)
    ensures forall j :: 0 <= j < |xs| ==>
      InsertAll(v, xs, outer)[xs[j]] == BondView(xs[j], Some(outer[xs[j]]))
    decreases |xs|
  {
    if xs != [] {
      var n := |xs| - 1;
      var prev := InsertAll(v, xs[..n], outer);
      InsertAllPlacesNewBonds(v, xs[..n], outer);
      forall j | 0 <= j < |xs|
        ensures InsertAll(v, xs, outer)[xs[j]] == BondView(xs[j], Some(outer[xs[j]]))
      {
        if j < n {
          assert xs[..n][j] == xs[j];
          assert xs[j] < xs[n];
        }
      }
    }
  }


  /** No index is listed twice. */
  predicate NoRepeats(xs: seq<int>)
  {
    forall i, j :: 0 <= i < j < |xs| ==> xs[i] != xs[j]
  }

  lemma ConsStrict(x: int, t: seq<int>)
    requires StrictlyIncreasing(t) && forall k :: 0 <= k < |t| ==> x < t[k]
    ensures StrictlyIncreasing([x] + t)
  {
    var r := [x] + t;
    forall i, j | 0 <= i < j < |r| ensures r[i] < r[j] {
      assert r[j] == t[j - 1];
      if i > 0 {
        assert r[i] == t[i - 1];
      }
    }
  }

  lemma {:induction false} InsertOrderedStrict(x: int, s: seq<int>)
    requires StrictlyIncreasing(s) && x !in s
    ensures StrictlyIncreasing(InsertOrdered(Increasing, x, s))
    decreases |s|
  {
    if s == [] || x <= s[0] {
      ConsStrict(x, s);
    } else {
      var tail := s[1..];
      var rest := InsertOrdered(Increasing, x, tail);
      assert InsertOrdered(Increasing, x, s) == [s[0]] + rest;
      assert StrictlyIncreasing(tail) by {
        forall i, j | 0 <= i < j < |tail| ensures tail[i] < tail[j] {
          assert tail[i] == s[i + 1] && tail[j] == s[j + 1];
        }
      }
      assert x !in tail;
      InsertOrderedStrict(x, tail);
      forall k | 0 <= k < |rest| ensures s[0] < rest[k] {
        assert rest[k] in multiset(tail) + multiset{x};
        if rest[k] != x {
          var i :| 0 <= i < |tail| && tail[i] == rest[k];
          assert s[i + 1] == rest[k];
        }
      }
      ConsStrict(s[0], rest);
    }
  }

  /** Sorting indices that are all different gives a strictly increasing order. */
  lemma {:induction false} SortDistinctIsStrict(xs: seq<int>)
    requires NoRepeats(xs)
    ensures StrictlyIncreasing(Sort(xs, Increasing))
    decreases |xs|
  {
    if xs != [] {
      var tail := xs[1..];
      assert NoRepeats(tail) by {
        forall i, j | 0 <= i < j < |tail| ensures tail[i] != tail[j] {
          assert tail[i] == xs[i + 1] && tail[j] == xs[j + 1];
        }
      }
      SortDistinctIsStrict(tail);
      assert xs[0] !in tail by {
        forall k | 0 <= k < |tail| ensures tail[k] != xs[0] {
          assert tail[k] == xs[k + 1];
        }
      }
      assert xs[0] !in multiset(Sort(tail, Increasing));
      InsertOrderedStrict(xs[0], Sort(tail, Increasing));
    }
  }

  /** The insertion handler on an event listing distinct sections: every
      listed section ends up holding the bond made for it, with that section
      number and bound to the inner array now at that position. */
  lemma InsertEventPlacesNewBonds(v: seq<BondView>, indices: seq<int>, outer: seq<nat>)
    requires NoRepeats(indices)
    requires InsertPositionsValid(|v|, Sort(indices, Increasing)) && AllBelow(Sort(indices, Increasing), |outer|)
    ensures forall s :: s in indices ==>
      0 <= s < |InsertAll(v, Sort(indices, Increasing), outer)| && s < |outer| &&
      InsertAll(v, Sort(indices, Increasing), outer)[s] == BondView(s, Some(outer[s]))
  {
    var sorted := Sort(indices, Increasing);
    SortDistinctIsStrict(indices);
    InsertAllPlacesNewBonds(v, sorted, outer);
    forall s | s in indices
      ensures 0 <= s < |InsertAll(v, sorted, outer)| && s < |outer| &&
        InsertAll(v, sorted, outer)[s] == BondView(s, Some(outer[s]))
    {
      assert s in multiset(sorted);
      var j :| 0 <= j < |sorted| && sorted[j] == s;
    }
  }

  // ------------------------------------------------------------------
  // Removal of sections (processed in decreasing order)

  /** One step of the removal loop: the bond at `s` leaves; every bond after
      it moves down one section. */
  function RemoveStep(v: seq<BondView>, s: nat): (r: seq<BondView>)
    requires s < |v|
    ensures |r| == |v| - 1 && r[..s] == v[..s]
    ensures forall k :: s <= k < |r| ==> r[k] == v[k + 1].(section := v[k + 1].section - 1)
  {
    v[..s] + Bump(v[s + 1..], -1)
  }

  /** `sectionBonds[section]` and `removeAtIndex` do not trap. */
  predicate RemovePositionsValid(n: nat, xs: seq<int>)
  {
    forall j :: 0 <= j < |xs| ==> 0 <= xs[j] && xs[j] + j < n
  }

  function RemoveAll(v: seq<BondView>, xs: seq<int>): (r: seq<BondView>)
    requires RemovePositionsValid(|v|, xs)
    ensures |r| == |v| - |xs|
    decreases |xs|
  {
    if xs == [] then
      v
    else
      var n := |xs| - 1;
      RemoveStep(RemoveAll(v, xs[..n]), xs[n])
  }

  lemma RemoveStepKeepsIndexed(v: seq<BondView>, s: nat)
    requires s < |v| && Indexed(v)
    ensures Indexed(RemoveStep(v, s))
  {
    var r := RemoveStep(v, s);
    forall k | 0 <= k < |r| ensures r[k].section == k {
      if k >= s {
        assert r[k] == Bump(v[s + 1..], -1)[k - s];
      }
    }
  }

  /** Removal keeps the invariant. */
  lemma {:induction false} RemoveAllKeepsIndexed(v: seq<BondView>, xs: seq<int>)
    requires RemovePositionsValid(|v|, xs)
    requires Indexed(v)
    ensures Indexed(RemoveAll(v, xs))
    decreases |xs|
  {
    if xs != [] {
      var n := |xs| - 1;
      RemoveAllKeepsIndexed(v, xs[..n]);
      RemoveStepKeepsIndexed(RemoveAll(v, xs[..n]), xs[n]);
    }
  }

  /** The removal handler sorts its indices in decreasing order first, so two
      events carrying the same indices in different orders are accepted alike
      and leave the same state. */
  lemma RemoveIgnoresInputOrder(v: seq<BondView>, i1: seq<int>, i2: seq<int>)
    requires multiset(i1) == multiset(i2)
    ensures RemovePositionsValid(|v|, Sort(i1, Decreasing)) <==> RemovePositionsValid(|v|, Sort(i2, Decreasing))
    ensures RemovePositionsValid(|v|, Sort(i1, Decreasing)) ==>
      RemoveAll(v, Sort(i1, Decreasing)) == RemoveAll(v, Sort(i2, Decreasing))
  {
    SortIgnoresInputOrder(Decreasing, i1, i2);
  }

  // ------------------------------------------------------------------
  // Update of sections and the initial install

  /** The update loop: each updated position holds a fresh bond for that
      section, bound to the new inner array; the others are untouched. */
  function UpdateView(v: seq<BondView>, updated: set<int>, outer: seq<nat>): (r: seq<BondView>)
    requires forall x :: x in updated ==> 0 <= x < |v| && x < |outer|
    ensures |r| == |v|
    ensures forall k :: k in updated ==> r[k] == BondView(k, Some(outer[k]))
    ensures forall k :: 0 <= k < |v| && k !in updated ==> r[k] == v[k]
  {
    seq(|v|, k requires 0 <= k < |v| => if k in updated then BondView(k, Some(outer[k])) else v[k])
  }

  /** One more updated position is one more replaced element. */
  lemma UpdateViewAddOne(v: seq<BondView>, updated: set<int>, s: int, outer: seq<nat>)
    requires forall x :: x in updated ==> 0 <= x < |v| && x < |outer|
    requires 0 <= s < |v| && s < |outer|
    ensures UpdateView(v, updated + {s}, outer) == UpdateView(v, updated, outer)[s := BondView(s, Some(outer[s]))]
  {
  }

  /** Update keeps the length and, on an indexed array, every section value. */
  lemma UpdateKeepsSections(v: seq<BondView>, updated: set<int>, outer: seq<nat>)
    requires forall x :: x in updated ==> 0 <= x < |v| && x < |outer|
    requires Indexed(v)
    ensures |UpdateView(v, updated, outer)| == |v|
    ensures forall k :: 0 <= k < |v| ==> UpdateView(v, updated, outer)[k].section == v[k].section
    ensures Indexed(UpdateView(v, updated, outer))
  {
  }

  /** The bonds a non-stale deferred bind appends: one per outer section, in
      order, each with its own index as section. */
  function InstallView(outer: seq<nat>): (r: seq<BondView>)
    ensures |r| == |outer| && Indexed(r)
    ensures forall k :: 0 <= k < |r| ==> r[k].source == Some(outer[k])
  {
    seq(|outer|, k requires 0 <= k < |outer| => BondView(k, Some(outer[k])))
  }

  /** The install loop after one more section. */
  lemma InstallViewSnoc(outer: seq<nat>, k: nat)
    requires k < |outer|
    ensures InstallView(outer[..k + 1]) == InstallView(outer[..k]) + [BondView(k, Some(outer[k]))]
  {
  }

  /** The install appends without clearing, so the invariant holds afterwards
      exactly when it held before and the array was empty or nothing was
      appended. Starting from no bonds, it always holds. */
  lemma InstallIndexedIff(v: seq<BondView>, outer: seq<nat>)
    ensures Indexed(v + InstallView(outer)) <==> Indexed(v) && (v == [] || outer == [])
    ensures |v + InstallView(outer)| == |v| + |outer|
  {
    var r := v + InstallView(outer);
    if v != [] && outer != [] {
      assert r[|v|] == InstallView(outer)[0];
      assert r[|v|].section != |v|;
    }
    if Indexed(r) {
      forall k | 0 <= k < |v| ensures v[k].section == k { assert r[k] == v[k]; }
    }
    if Indexed(v) && (v == [] || outer == []) {
      forall k | 0 <= k < |r| ensures r[k].section == k {
        if k >= |v| { assert r[k] == InstallView(outer)[k - |v|]; }
      }
    }
  }

  // ------------------------------------------------------------------
  // The same loops on the sequence of bond objects

  /** `insert(x, atIndex: k)`: `x` lands at `k`, the elements before `k`
      stay, and the others move up one place. */
  function InsertAt<T>(s: seq<T>, k: nat, x: T): (r: seq<T>)
    requires k <= |s|
    ensures |r| == |s| + 1 && r[k] == x
    ensures forall i :: 0 <= i < k ==> r[i] == s[i]
    ensures forall i :: k < i < |r| ==> r[i] == s[i - 1]
  {
    s[..k] + [x] + s[k..]
  }

  /** Insert `xs[j]` at `ks[j]`, for j in order. */
  function InsertEachAt<T>(s: seq<T>, ks: seq<int>, xs: seq<T>): (r: seq<T>)
    requires |ks| == |xs| && InsertPositionsValid(|s|, ks)
    ensures |r| == |s| + |ks|
    ensures forall x :: x in r ==> x in s || x in xs
    decreases |ks|
  {
    if ks == [] then
      s
    else
      var n := |ks| - 1;
      InsertAt(InsertEachAt(s, ks[..n], xs[..n]), ks[n], xs[n])
  }

  /** `removeAtIndex(k)`: the elements before `k` stay, and those after it
      move down one place. */
  function RemoveAt<T>(s: seq<T>, k: nat): (r: seq<T>)
    requires k < |s|
    ensures |r| == |s| - 1
    ensures forall i :: 0 <= i < k ==> r[i] == s[i]
    ensures forall i :: k <= i < |r| ==> r[i] == s[i + 1]
  {
    s[..k] + s[k + 1..]
  }

  /** Remove the element at `ks[j]`, for j in order. */
  function RemoveEachAt<T>(s: seq<T>, ks: seq<int>): (r: seq<T>)
    requires RemovePositionsValid(|s|, ks)
    ensures |r| == |s| - |ks|
    ensures forall x :: x in r ==> x in s
    decreases |ks|
  {
    if ks == [] then
      s
    else
      var n := |ks| - 1;
      RemoveAt(RemoveEachAt(s, ks[..n]), ks[n])
  }

  /** `s` with every element of `d` filtered out. */
  function Without<T>(s: seq<T>, d: set<T>): (r: seq<T>)
    decreases |s|
  {
    if s == [] then
      []
    else
      (if s[0] in d then [] else [s[0]]) + Without(s[1..], d)
  }

  lemma {:induction false} WithoutConcat<T>(a: seq<T>, b: seq<T>, d: set<T>)
    ensures Without(a + b, d) == Without(a, d) + Without(b, d)
    decreases |a|
  {
    if a != [] {
      var head := if a[0] in d then [] else [a[0]];
      assert (a + b)[0] == a[0];
      assert (a + b)[1..] == a[1..] + b;
      WithoutConcat(a[1..], b, d);
      assert Without(a + b, d) == head + Without(a[1..] + b, d);
      assert Without(a, d) == head + Without(a[1..], d);
    } else {
      assert a + b == b;
    }
  }

  lemma {:induction false} WithoutNone<T>(s: seq<T>, d: set<T>)
    requires forall x :: x in s ==> x !in d
    ensures Without(s, d) == s
    decreases |s|
  {
    if s != [] {
      WithoutNone(s[1..], d);
    }
  }

  /** Inserting an element that is filtered out changes nothing after filtering. */
  lemma WithoutInsertAt<T>(s: seq<T>, k: nat, x: T, d: set<T>)
    requires k <= |s| && x in d
    ensures Without(InsertAt(s, k, x), d) == Without(s, d)
  {
    assert s == s[..k] + s[k..];
    assert Without([x], d) == [] by {
      assert [x][1..] == [];
    }
    WithoutConcat(s[..k] + [x], s[k..], d);
    WithoutConcat(s[..k], [x], d);
    WithoutConcat(s[..k], s[k..], d);
  }

  /** Insertion keeps the elements that were there, in their relative order:
      filtering the inserted elements out gives back the original sequence. */
  lemma {:induction false} InsertEachAtKeepsOrder<T>(s: seq<T>, ks: seq<int>, xs: seq<T>)
    requires |ks| == |xs| && InsertPositionsValid(|s|, ks)
    requires forall x :: x in s ==> x !in xs
    ensures Without(InsertEachAt(s, ks, xs), set x | x in xs) == s
    decreases |ks|
  {
    var d := set x | x in xs;
    if ks == [] {
      WithoutNone(s, d);
    } else {
      var n := |ks| - 1;
      var prev := InsertEachAt(s, ks[..n], xs[..n]);
      var dn := set x | x in xs[..n];
      InsertEachAtKeepsOrder(s, ks[..n], xs[..n]);
      WithoutInsertAt(prev, ks[n], xs[n], d);
      forall x | x in prev ensures x in d <==> x in dn {
        if x in xs[..n] {
          assert x in xs;
        } else {
          assert x in s;
          assert x !in xs;
          assert x !in d && x !in dn;
        }
      }
      WithoutSameOn(prev, d, dn);
    }
  }

  /** With strictly increasing positions, no later insertion lands at or
      before an earlier one, so each `xs[j]` ends up at position `ks[j]`. */
  lemma {:induction false} InsertEachAtPlaces<T>(s: seq<T>, ks: seq<int>, xs: seq<T>)
    requires |ks| == |xs| && InsertPositionsValid(|s|, ks) && StrictlyIncreasing(ks)
    ensures forall j :: 0 <= j < |ks| ==>
      0 <= ks[j] < |InsertEachAt(s, ks, xs)| && InsertEachAt(s, ks, xs)[ks[j]] == xs[j]
    decreases |ks|
  {
    if ks != [] {
      var n := |ks| - 1;
      var prev := InsertEachAt(s, ks[..n], xs[..n]);
      assert InsertPositionsValid(|s|, ks[..n]);
      assert StrictlyIncreasing(ks[..n]);
      InsertEachAtPlaces(s, ks[..n], xs[..n]);
      var r := InsertAt(prev, ks[n], xs[n]);
      forall j | 0 <= j < |ks| ensures 0 <= ks[j] < |r| && r[ks[j]] == xs[j] {
        if j < n {
          assert ks[..n][j] == ks[j] && xs[..n][j] == xs[j];
          assert ks[j] < ks[n];
          assert r[ks[j]] == prev[ks[j]];
        }
      }
    }
  }

  /** For an insert event listing distinct sections, every listed section
      holds, afterwards, one of the elements created for the event. */
  lemma InsertEventPlacesCreated<T>(s: seq<T>, indices: seq<int>, created: seq<T>)
    requires NoRepeats(indices) && |created| == |indices|
    requires InsertPositionsValid(|s|, Sort(indices, Increasing))
    ensures forall k :: k in indices ==>
      0 <= k < |InsertEachAt(s, Sort(indices, Increasing), created)| &&
      InsertEachAt(s, Sort(indices, Increasing), created)[k] in created
  {
    var sorted := Sort(indices, Increasing);
    SortDistinctIsStrict(indices);
    InsertEachAtPlaces(s, sorted, created);
    forall k | k in indices
      ensures 0 <= k < |InsertEachAt(s, sorted, created)| && InsertEachAt(s, sorted, created)[k] in created
    {
      assert k in multiset(sorted);
      var j :| 0 <= j < |sorted| && sorted[j] == k;
    }
  }

  /** Filtering by two sets that agree on the elements present gives the same result. */
  lemma {:induction false} WithoutSameOn<T>(s: seq<T>, d1: set<T>, d2: set<T>)
    requires forall x :: x in s ==> (x in d1 <==> x in d2)
    ensures Without(s, d1) == Without(s, d2)
    decreases |s|
  {
    if s != [] {
      WithoutSameOn(s[1..], d1, d2);
    }
  }

}
