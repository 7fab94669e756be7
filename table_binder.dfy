/** `UITableViewDataSourceBond`: the binder between an outer array of row
    arrays and a table view. It keeps one section bond per section, renumbers
    them as sections are inserted and removed, and defers creating them after a
    `bind` until the outer array stops mutating, discarding the deferred work if
    another `bind` came in first. */
module TableBinder {
  import opened Options
  import opened Sorting
  import opened Sink
  import opened SectionViews
  import opened SectionBonds

  /** A deferred install registered by `bind` with `doAfterMutating`: the bind
      generation it captured and the outer array it waits on. */
  datatype Pending = Pending(generation: nat, target: nat)

  /** What `bind` is handed: a plain value holder (not an outer array) or an
      outer array, identified by `target`, with whether it is inside a mutation
      batch right now and the inner arrays it holds when it settles. */
  datatype BindSource =
    | PlainDynamic
    | OuterArray(target: nat, mutating: bool, sections: seq<nat>)

  /** Each `bind` captures a larger generation than the one before, and none
      exceeds the current counter. */
  predicate PendingOrdered(q: seq<Pending>, bindCount: nat)
  {
    (forall i, j :: 0 <= i < j < |q| ==> q[i].generation < q[j].generation) &&
    (forall i :: 0 <= i < |q| ==> q[i].generation <= bindCount)
  }

  /** Some install waiting on `target` is not stale: it captured `bindCount`. */
  predicate HasLive(q: seq<Pending>, target: nat, bindCount: nat)
  {
    exists k :: 0 <= k < |q| && q[k].target == target && q[k].generation == bindCount
  }

  /** The installs still waiting after `target` has settled: exactly those
      registered with other outer arrays. */
  function KeepOthers(q: seq<Pending>, target: nat): (r: seq<Pending>)
    ensures forall p :: p in r <==> p in q && p.target != target
    ensures |r| <= |q|
    decreases |q|
  {
    if q == [] then
      []
    else
      var n := |q| - 1;
      assert q == q[..n] + [q[n]];
      KeepOthers(q[..n], target) + (if q[n].target == target then [] else [q[n]])
  }

  lemma KeepOthersSnoc(q: seq<Pending>, p: Pending, target: nat)
    ensures KeepOthers(q + [p], target) == KeepOthers(q, target) + (if p.target == target then [] else [p])
  {
    assert (q + [p])[..|q|] == q;
  }

  /** Settling keeps the waiting installs in the order they were registered:
      filtering a queue is filtering its two parts and joining them. */
  lemma {:induction false} KeepOthersConcat(a: seq<Pending>, b: seq<Pending>, target: nat)
    ensures KeepOthers(a + b, target) == KeepOthers(a, target) + KeepOthers(b, target)
    decreases |b|
  {
    if b == [] {
      assert a + b == a;
    } else {
      var n := |b| - 1;
      var last := b[n];
      assert b == b[..n] + [last];
      assert a + b == (a + b[..n]) + [last];
      KeepOthersSnoc(a + b[..n], last, target);
      KeepOthersSnoc(b[..n], last, target);
      KeepOthersConcat(a, b[..n], target);
    }
  }

  /** Two binds before the outer array settles: whatever was waiting before
      and the first bind's install are stale; only the second bind's install can
      run, and it runs when its own outer array settles. */
  lemma SecondBindSupersedesFirst(q: seq<Pending>, g: nat, first: nat, second: nat, target: nat)
    requires PendingOrdered(q, g)
    ensures PendingOrdered(q + [Pending(g + 1, first), Pending(g + 2, second)], g + 2)
    ensures HasLive(q + [Pending(g + 1, first), Pending(g + 2, second)], target, g + 2) <==> target == second
  {
    var q2 := q + [Pending(g + 1, first), Pending(g + 2, second)];
    forall k | 0 <= k < |q2| - 1 ensures q2[k].generation < g + 2 {
      if k < |q| {
        assert q2[k] == q[k];
      }
    }
    assert q2[|q2| - 1] == Pending(g + 2, second);
  }

  lemma HasLiveSnoc(q: seq<Pending>, p: Pending, target: nat, g: nat)
    ensures HasLive(q + [p], target, g) <==> HasLive(q, target, g) || (p.target == target && p.generation == g)
  {
    var q2 := q + [p];
    assert q2[|q|] == p;
    if HasLive(q, target, g) {
      var k :| 0 <= k < |q| && q[k].target == target && q[k].generation == g;
      assert q2[k] == q[k];
    }
    if HasLive(q2, target, g) {
      var k :| 0 <= k < |q2| && q2[k].target == target && q2[k].generation == g;
      if k < |q| {
        assert q2[k] == q[k];
      }
    }
  }

  /** Only the newest pending install can be live: every one before it
      captured an older generation. */
  lemma OnlyNewestCanBeLive(q: seq<Pending>, target: nat, bindCount: nat, j: nat)
    requires PendingOrdered(q, bindCount) && j < |q| && q[j].generation == bindCount
    ensures !HasLive(q[..j], target, bindCount)
  {
    forall k | 0 <= k < j ensures q[..j][k].generation != bindCount {
      assert q[..j][k] == q[k];
    }
  }

  lemma PrefixOrdered(q: seq<Pending>, n: nat, bindCount: nat)
    requires PendingOrdered(q, bindCount) && n <= |q|
    ensures PendingOrdered(q[..n], bindCount)
  {
    forall i, j | 0 <= i < j < n ensures q[..n][i].generation < q[..n][j].generation {
      assert q[..n][i] == q[i] && q[..n][j] == q[j];
    }
    forall i | 0 <= i < n ensures q[..n][i].generation <= bindCount {
      assert q[..n][i] == q[i];
    }
  }

  lemma SnocOrdered(q: seq<Pending>, p: Pending, bindCount: nat)
    requires PendingOrdered(q, bindCount) && p.generation <= bindCount
    requires forall x :: x in q ==> x.generation < p.generation
    ensures PendingOrdered(q + [p], bindCount)
  {
    var r := q + [p];
    forall i, j | 0 <= i < j < |r| ensures r[i].generation < r[j].generation {
      assert r[i] == q[i];
      if j < |q| {
        assert r[j] == q[j];
      } else {
        assert q[i] in q;
      }
    }
  }

  /** Dropping the installs of one outer array keeps the rest ordered. */
  lemma {:induction false} KeepOthersOrdered(q: seq<Pending>, target: nat, bindCount: nat)
    requires PendingOrdered(q, bindCount)
    ensures PendingOrdered(KeepOthers(q, target), bindCount)
    decreases |q|
  {
    if q != [] {
      var n := |q| - 1;
      PrefixOrdered(q, n, bindCount);
      KeepOthersOrdered(q[..n], target, bindCount);
      var prev := KeepOthers(q[..n], target);
      if q[n].target != target {
        assert KeepOthers(q, target) == prev + [q[n]];
        forall x | x in prev ensures x.generation < q[n].generation {
          assert x in q[..n];
          var i :| 0 <= i < n && q[..n][i] == x;
          assert q[i] == x;
        }
        SnocOrdered(prev, q[n], bindCount);
      } else {
        assert KeepOthers(q, target) == prev + [];
        assert prev + [] == prev;
      }
    }
  }

  class DataSourceBond {
    const tableView: TableView
    const disableAnimation: bool
    /** One bond per table section, meant to satisfy `sectionBonds[k].section == k`. */
    var sectionBonds: seq<SectionBond>
    /** Bind generation: incremented by every `bind`. */
    var bindCount: nat
    /** Deferred installs registered with outer arrays that are still mutating. */
    var pending: seq<Pending>
    /** The outer array the table's data source answers counts from. */
    var dataSource: Option<nat>
    /** The outer array whose structural events reach this binder (`superBind`). */
    var observed: Option<nat>

    ghost predicate Valid()
      reads this, sectionBonds
    {
      (forall i, j :: 0 <= i < j < |sectionBonds| ==> sectionBonds[i] != sectionBonds[j]) &&
      (forall k :: 0 <= k < |sectionBonds| ==>
        sectionBonds[k].source.Some? &&
        sectionBonds[k].tableView == tableView &&
        sectionBonds[k].disableAnimation == disableAnimation) &&
      PendingOrdered(pending, bindCount)
    }

    /** What the section bonds hold, position by position. */
    ghost function View(): (v: seq<BondView>)
      reads this, sectionBonds
      ensures |v| == |sectionBonds|
    {
      seq(|sectionBonds|, k reads this, sectionBonds requires 0 <= k < |sectionBonds| =>
        BondView(sectionBonds[k].section, sectionBonds[k].source))
    }

    ghost predicate SectionsIndexed()
      reads this, sectionBonds
    {
      Indexed(View())
    }

    constructor (tableView: TableView, disableAnimation: bool)
      ensures Valid()
      ensures this.tableView == tableView && this.disableAnimation == disableAnimation
      ensures sectionBonds == [] && bindCount == 0 && pending == []
      ensures dataSource == None && observed == None
    {
      this.tableView := tableView;
      this.disableAnimation := disableAnimation;
      sectionBonds := [];
      bindCount := 0;
      pending := [];
      dataSource := None;
      observed := None;
    }

    /** The outer array opens a mutation batch. */
    method WillMutate()
      modifies tableView
      ensures tableView.log == old(tableView.log) + [BeginUpdates]
    {
      tableView.Apply(BeginUpdates);
    }

    /** The outer array closes its mutation batch. */
    method DidMutate()
      modifies tableView
      ensures tableView.log == old(tableView.log) + [EndUpdates]
    {
      tableView.Apply(EndUpdates);
    }

    /** One turn of the renumbering loop: `sectionBonds[idx].section += delta`. */
    method BumpOne(from: nat, idx: nat, delta: int, ghost v0: seq<BondView>)
      requires Valid() && from <= idx < |sectionBonds| == |v0|
      requires View() == PartlyBumped(v0, from, idx, delta)
      modifies sectionBonds[idx]
      ensures Valid()
      ensures View() == PartlyBumped(v0, from, idx + 1, delta)
    {
      ghost var w := View();
      BumpExtend(v0, from, idx, delta);
      sectionBonds[idx].section := sectionBonds[idx].section + delta;
      assert forall k :: 0 <= k < |sectionBonds| && k != idx ==> View()[k] == w[k];
      assert View() == w[idx := v0[idx].(section := v0[idx].section + delta)];
    }

    /** The renumbering loop: every bond from position `from` on has `delta`
        added to its section. */
    method ShiftSections(from: nat, delta: int, ghost v0: seq<BondView>)
      requires Valid() && from <= |sectionBonds| && v0 == View()
      modifies (set b | b in sectionBonds)
      ensures Valid()
      ensures View() == v0[..from] + Bump(v0[from..], delta)
    {
      var idx := from;
      BumpDone(v0, from, delta);
      while idx < |sectionBonds|
        invariant from <= idx <= |sectionBonds| == |v0|
        invariant Valid()
        invariant View() == PartlyBumped(v0, from, idx, delta)
      {
        BumpOne(from, idx, delta, v0);
        idx := idx + 1;
      }
    }

    /** Splice `bond` into the bond array at position `s`. */
    method SpliceIn(s: nat, bond: SectionBond, ghost v0: seq<BondView>)
      requires Valid() && s <= |sectionBonds| && bond !in sectionBonds && v0 == View()
      requires bond.source.Some? && bond.tableView == tableView && bond.disableAnimation == disableAnimation
      modifies this`sectionBonds
      ensures Valid() && sectionBonds == InsertAt(old(sectionBonds), s, bond)
      ensures View() == v0[..s] + [BondView(bond.section, bond.source)] + v0[s..]
    {
      sectionBonds := sectionBonds[..s] + [bond] + sectionBonds[s..];
      ghost var expected := v0[..s] + [BondView(bond.section, bond.source)] + v0[s..];
      forall k | 0 <= k < |sectionBonds| ensures View()[k] == expected[k] {
        if k > s {
          assert sectionBonds[k] == old(sectionBonds)[k - 1];
        }
      }
    }

    /** The body of the insertion loop for one section `s`. */
    method InsertBond(s: nat, inner: nat, ghost v0: seq<BondView>) returns (ghost b: SectionBond)
      requires Valid() && s <= |sectionBonds| && v0 == View()
      modifies this`sectionBonds, (set b | b in sectionBonds)
      ensures Valid()
      ensures fresh(b) && sectionBonds == InsertAt(old(sectionBonds), s, b)
      ensures View() == InsertStep(v0, s, inner)
    {
      var bond := new SectionBond(tableView, s, disableAnimation);
      bond.BindTo(inner);
      SpliceIn(s, bond, v0);
      ghost var mid := View();
      ShiftSections(s + 1, 1, mid);
      b := bond;
      assert mid[..s + 1] == v0[..s] + [BondView(s, Some(inner))];
      assert mid[s + 1..] == v0[s..];
    }

    /** The body of the removal loop for one section `s`. */
    method RemoveBond(s: nat, ghost v0: seq<BondView>)
      requires Valid() && s < |sectionBonds| && v0 == View()
      modifies this`sectionBonds, (set b | b in sectionBonds)
      ensures Valid()
      ensures sectionBonds == RemoveAt(old(sectionBonds), s)
      ensures old(sectionBonds)[s].source == None
      ensures View() == RemoveStep(v0, s)
    {
      ghost var gone := sectionBonds[s];
      sectionBonds[s].UnbindAll();
      sectionBonds := sectionBonds[..s] + sectionBonds[s + 1..];
      assert gone !in sectionBonds;
      ghost var mid := v0[..s] + v0[s + 1..];
      assert View() == mid;
      ShiftSections(s, -1, mid);
      assert mid[..s] == v0[..s];
      assert mid[s..] == v0[s + 1..];
    }

    /** Where the insertion loop stands after the first `j` positions of
        `sorted`: those bonds, `created`, are in, and the view has followed. */
    ghost predicate InsertedSoFar(bonds0: seq<SectionBond>, view0: seq<BondView>, sorted: seq<int>, j: nat,
                                  created: seq<SectionBond>, outer: seq<nat>)
      reads this, sectionBonds
    {
      j <= |sorted| && |created| == j && |view0| == |bonds0| &&
      InsertPositionsValid(|bonds0|, sorted) && AllBelow(sorted, |outer|) &&
      InsertPositionsValid(|bonds0|, sorted[..j]) && AllBelow(sorted[..j], |outer|) &&
      sectionBonds == InsertEachAt(bonds0, sorted[..j], created) &&
      View() == InsertAll(view0, sorted[..j], outer)
    }

    /** One turn of the insertion loop, for position `sorted[j]`. */
    method InsertNext(outer: seq<nat>, sorted: seq<int>, j: nat, ghost bonds0: seq<SectionBond>,
                      ghost view0: seq<BondView>, ghost created: seq<SectionBond>)
      returns (ghost created': seq<SectionBond>)
      requires Valid() && j < |sorted| && InsertedSoFar(bonds0, view0, sorted, j, created, outer)
      modifies this`sectionBonds, (set b | b in sectionBonds)
      ensures Valid() && InsertedSoFar(bonds0, view0, sorted, j + 1, created', outer)
      ensures created' == created + [created'[j]] && fresh(created'[j])
      ensures forall b :: b in sectionBonds ==> b in old(sectionBonds) || fresh(b)
    {
      var s := sorted[j];
      assert sorted[..j + 1][..j] == sorted[..j];
      assert sorted[..j + 1][j] == s;
      ghost var b := InsertBond(s, outer[s], View());
      created' := created + [b];
    }

    /** The insertion loop over already sorted positions. */
    method InsertSorted(outer: seq<nat>, sorted: seq<int>, ghost view0: seq<BondView>)
      returns (ghost created: seq<SectionBond>)
      requires Valid() && view0 == View()
      requires InsertPositionsValid(|sectionBonds|, sorted) && AllBelow(sorted, |outer|)
      modifies this`sectionBonds, (set b | b in sectionBonds)
      ensures Valid()
      ensures |created| == |sorted| && forall b :: b in created ==> fresh(b)
      ensures sectionBonds == InsertEachAt(old(sectionBonds), sorted, created)
      ensures View() == InsertAll(view0, sorted, outer)
    {
      ghost var bonds0 := sectionBonds;
      created := [];
      for j := 0 to |sorted|
        invariant Valid() && bonds0 == old(sectionBonds)
        invariant InsertedSoFar(bonds0, view0, sorted, j, created, outer)
        invariant forall b :: b in created ==> fresh(b)
        invariant forall b :: b in sectionBonds ==> b in bonds0 || fresh(b)
      {
        created := InsertNext(outer, sorted, j, bonds0, view0, created);
      }
      assert sorted[..|sorted|] == sorted;
    }

    /** The bond work of an insert event: the loop over the sorted indices,
        and what follows from it. `v0` is the view before. */
    method InsertEvent(outer: seq<nat>, indices: seq<int>, ghost v0: seq<BondView>)
      returns (ghost created: seq<SectionBond>)
      requires Valid() && v0 == View()
      requires InsertPositionsValid(|sectionBonds|, Sort(indices, Increasing))
      requires AllBelow(Sort(indices, Increasing), |outer|)
      modifies this`sectionBonds, (set b | b in sectionBonds)
      ensures Valid()
      ensures |created| == |indices| && forall b :: b in created ==> fresh(b)
      ensures sectionBonds == InsertEachAt(old(sectionBonds), Sort(indices, Increasing), created)
      ensures Without(sectionBonds, set b | b in created) == old(sectionBonds)
      ensures View() == InsertAll(v0, Sort(indices, Increasing), outer)
      ensures Indexed(v0) ==> SectionsIndexed()
      ensures NoRepeats(indices) ==> forall s :: s in indices ==>
        0 <= s < |sectionBonds| && sectionBonds[s] in created
    {
      ghost var bonds0 := sectionBonds;
      var sorted := Sort(indices, Increasing);
      created := InsertSorted(outer, sorted, v0);
      InsertEachAtKeepsOrder(bonds0, sorted, created);
      if Indexed(v0) {
        InsertAllKeepsIndexed(v0, sorted, outer);
      }
      if NoRepeats(indices) {
        InsertEventPlacesCreated(bonds0, indices, created);
      }
    }

    /** Sections inserted into the outer array at `indices`; `outer` is the
        outer array after the insertion. */
    method DidInsert(outer: seq<nat>, indices: seq<int>) returns (ghost created: seq<SectionBond>)
      requires Valid()
      requires InsertPositionsValid(|sectionBonds|, Sort(indices, Increasing))
      requires AllBelow(Sort(indices, Increasing), |outer|)
      modifies this`sectionBonds, (set b | b in sectionBonds), tableView
      ensures Valid()
      ensures tableView.log == old(tableView.log) + [InsertSections(IndexSet(indices), !disableAnimation)]
      ensures |created| == |indices| && forall b :: b in created ==> fresh(b)
      ensures sectionBonds == InsertEachAt(old(sectionBonds), Sort(indices, Increasing), created)
      ensures Without(sectionBonds, set b | b in created) == old(sectionBonds)
      ensures View() == InsertAll(old(View()), Sort(indices, Increasing), outer)
      ensures old(SectionsIndexed()) ==> SectionsIndexed()
      ensures NoRepeats(indices) ==> forall s :: s in indices ==>
        0 <= s < |sectionBonds| && sectionBonds[s] in created && fresh(sectionBonds[s])
    {
      ghost var v0 := View();
      tableView.Apply(InsertSections(IndexSet(indices), !disableAnimation));
      assert View() == v0;
      created := InsertEvent(outer, indices, v0);
    }

    /** The removal loop over positions already in decreasing order. */
    method RemoveSorted(sorted: seq<int>, ghost view0: seq<BondView>)
      requires Valid() && view0 == View()
      requires RemovePositionsValid(|sectionBonds|, sorted)
      modifies this`sectionBonds, (set b | b in sectionBonds)
      ensures Valid()
      ensures sectionBonds == RemoveEachAt(old(sectionBonds), sorted)
      ensures forall b :: b in old(sectionBonds) && b !in sectionBonds ==> b.source == None
      ensures View() == RemoveAll(view0, sorted)
    {
      ghost var bonds0 := sectionBonds;
      for j := 0 to |sorted|
        invariant Valid() && bonds0 == old(sectionBonds)
        invariant RemovePositionsValid(|bonds0|, sorted[..j])
        invariant sectionBonds == RemoveEachAt(bonds0, sorted[..j])
        invariant forall b :: b in sectionBonds ==> b in bonds0
        invariant forall b :: b in bonds0 && b !in sectionBonds ==> b.source == None
        invariant View() == RemoveAll(view0, sorted[..j])
      {
        var s := sorted[j];
        RemoveBond(s, View());
        assert sorted[..j + 1][..j] == sorted[..j];
      }
      assert sorted[..|sorted|] == sorted;
    }

    /** Sections removed from the outer array at `indices` (positions before the removal). */
    method DidRemove(indices: seq<int>)
      requires Valid()
      requires RemovePositionsValid(|sectionBonds|, Sort(indices, Decreasing))
      modifies this`sectionBonds, (set b | b in sectionBonds), tableView
      ensures Valid()
      ensures tableView.log == old(tableView.log) + [DeleteSections(IndexSet(indices), !disableAnimation)]
      ensures sectionBonds == RemoveEachAt(old(sectionBonds), Sort(indices, Decreasing))
      ensures forall b :: b in old(sectionBonds) && b !in sectionBonds ==> b.source == None
      ensures View() == RemoveAll(old(View()), Sort(indices, Decreasing))
      ensures old(SectionsIndexed()) ==> SectionsIndexed()
    {
      ghost var view0 := View();
      tableView.Apply(DeleteSections(IndexSet(indices), !disableAnimation));
      assert View() == view0;
      var sorted := Sort(indices, Decreasing);
      RemoveSorted(sorted, view0);
      if Indexed(view0) {
        RemoveAllKeepsIndexed(view0, sorted);
      }
    }

    /** The body of the update loop for one section `s`: a fresh bond bound
        to `inner` takes position `s`, and the bond it replaces is unbound. */
    method ReplaceBond(s: nat, inner: nat, ghost v0: seq<BondView>)
      requires Valid() && s < |sectionBonds| && v0 == View()
      modifies this`sectionBonds, (set b | b in sectionBonds)
      ensures Valid()
      ensures |sectionBonds| == old(|sectionBonds|)
      ensures fresh(sectionBonds[s]) && old(sectionBonds)[s].source == None
      ensures forall k :: 0 <= k < |sectionBonds| && k != s ==> sectionBonds[k] == old(sectionBonds)[k]
      ensures old(sectionBonds)[s] !in sectionBonds
      ensures forall b :: b in sectionBonds ==> b in old(sectionBonds) || fresh(b)
      ensures View() == v0[s := BondView(s, Some(inner))]
    {
      var bond := new SectionBond(tableView, s, disableAnimation);
      bond.BindTo(inner);
      sectionBonds[s].UnbindAll();
      sectionBonds := sectionBonds[s := bond];
      assert forall k :: 0 <= k < |sectionBonds| && k != s ==> View()[k] == v0[k];
    }

    /** Where an update loop stands after replacing the positions `done`:
        they hold new bonds and their old bonds are unbound and gone; every
        other position keeps its bond. */
    ghost predicate ReplacedSoFar(bonds0: seq<SectionBond>, view0: seq<BondView>, done: set<int>, outer: seq<nat>)
      reads this, sectionBonds, set b | b in bonds0
    {
      |sectionBonds| == |bonds0| == |view0| &&
      (forall x :: x in done ==> 0 <= x < |bonds0| && x < |outer|) &&
      (forall k :: 0 <= k < |bonds0| && k !in done ==> sectionBonds[k] == bonds0[k]) &&
      (forall k :: 0 <= k < |bonds0| && k in done ==> bonds0[k].source == None && bonds0[k] !in sectionBonds) &&
      View() == UpdateView(view0, done, outer)
    }

    /** One turn of the update loop, for position `s`. */
    method ReplaceNext(s: int, outer: seq<nat>, ghost bonds0: seq<SectionBond>, ghost view0: seq<BondView>, ghost done: set<int>)
      requires Valid() && ReplacedSoFar(bonds0, view0, done, outer)
      requires 0 <= s < |sectionBonds| && s < |outer|
      modifies this`sectionBonds, (set b | b in sectionBonds)
      ensures Valid() && ReplacedSoFar(bonds0, view0, done + {s}, outer)
      ensures |sectionBonds| == old(|sectionBonds|)
      ensures fresh(sectionBonds[s])
      ensures forall k :: 0 <= k < |sectionBonds| && k != s ==> sectionBonds[k] == old(sectionBonds)[k]
      ensures forall b :: b in sectionBonds ==> b in old(sectionBonds) || fresh(b)
    {
      UpdateViewAddOne(view0, done, s, outer);
      ReplaceBond(s, outer[s], View());
    }

    /** The update loop, in the order the indices are given. */
    method ReplaceAll(outer: seq<nat>, indices: seq<int>)
      requires Valid()
      requires forall x :: x in indices ==> 0 <= x < |sectionBonds| && x < |outer|
      modifies this`sectionBonds, (set b | b in sectionBonds)
      ensures Valid()
      ensures |sectionBonds| == old(|sectionBonds|)
      ensures forall k :: 0 <= k < |sectionBonds| && k !in IndexSet(indices) ==> sectionBonds[k] == old(sectionBonds)[k]
      ensures forall k :: 0 <= k < |sectionBonds| && k in IndexSet(indices) ==>
        fresh(sectionBonds[k]) && old(sectionBonds)[k].source == None
      ensures View() == UpdateView(old(View()), IndexSet(indices), outer)
    {
      ghost var bonds0 := sectionBonds;
      ghost var view0 := View();
      ghost var done: set<int> := {};
      for j := 0 to |indices|
        invariant Valid() && bonds0 == old(sectionBonds)
        invariant done == IndexSet(indices[..j])
        invariant ReplacedSoFar(bonds0, view0, done, outer)
        invariant forall b :: b in sectionBonds ==> b in bonds0 || fresh(b)
        invariant forall k :: 0 <= k < |bonds0| && k in done ==> fresh(sectionBonds[k])
      {
        var s := indices[j];
        assert s in indices;
        assert indices[..j + 1] == indices[..j] + [s];
        ReplaceNext(s, outer, bonds0, view0, done);
        done := done + {s};
      }
      assert indices[..|indices|] == indices;
    }

    /** Sections replaced in the outer array at `indices`; `outer` is the
        outer array after the update. */
    method DidUpdate(outer: seq<nat>, indices: seq<int>)
      requires Valid()
      requires forall x :: x in indices ==> 0 <= x < |sectionBonds| && x < |outer|
      modifies this`sectionBonds, (set b | b in sectionBonds), tableView
      ensures Valid()
      ensures tableView.log == old(tableView.log) + [ReloadSections(IndexSet(indices), !disableAnimation)]
      ensures |sectionBonds| == old(|sectionBonds|)
      ensures forall k :: 0 <= k < |sectionBonds| && k !in indices ==> sectionBonds[k] == old(sectionBonds)[k]
      ensures forall k :: 0 <= k < |sectionBonds| && k in indices ==>
        fresh(sectionBonds[k]) && old(sectionBonds)[k].source == None
      ensures View() == UpdateView(old(View()), IndexSet(indices), outer)
      ensures old(SectionsIndexed()) ==> SectionsIndexed()
    {
      ghost var view0 := View();
      tableView.Apply(ReloadSections(IndexSet(indices), !disableAnimation));
      assert View() == view0;
      ReplaceAll(outer, indices);
      if Indexed(view0) {
        UpdateKeepsSections(view0, IndexSet(indices), outer);
      }
    }

    /** The outer array was reset: the table reloads; the bonds are left as they are. */
    method DidReset()
      modifies tableView
      ensures tableView.log == old(tableView.log) + [ReloadData]
      ensures unchanged(this)
    {
      tableView.Apply(ReloadData);
    }

    /** One turn of the install loop: a new bond for section `k`, bound to
        `inner`, is appended. */
    method AppendBond(k: nat, inner: nat, ghost v: seq<BondView>)
      requires Valid() && v == View()
      modifies this`sectionBonds
      ensures Valid()
      ensures |sectionBonds| == old(|sectionBonds|) + 1 && sectionBonds[..old(|sectionBonds|)] == old(sectionBonds)
      ensures fresh(sectionBonds[old(|sectionBonds|)])
      ensures View() == v + [BondView(k, Some(inner))]
    {
      var bond := new SectionBond(tableView, k, disableAnimation);
      bond.BindTo(inner);
      SpliceIn(|sectionBonds|, bond, v);
      assert v[..|v|] == v && v[|v|..] == [];
    }

    /** `superBind` to the outer array, then append one bond per section:
        the install does not clear the bonds already there. */
    method InstallSectionBonds(target: nat, sections: seq<nat>)
      requires Valid()
      modifies this`sectionBonds, this`observed
      ensures Valid()
      ensures observed == Some(target)
      ensures |sectionBonds| == old(|sectionBonds|) + |sections|
      ensures sectionBonds[..old(|sectionBonds|)] == old(sectionBonds)
      ensures forall k :: old(|sectionBonds|) <= k < |sectionBonds| ==> fresh(sectionBonds[k])
      ensures View() == old(View()) + InstallView(sections)
    {
      observed := Some(target);
      ghost var bonds0 := sectionBonds;
      ghost var view0 := View();
      for k := 0 to |sections|
        invariant Valid() && observed == Some(target)
        invariant |sectionBonds| == |bonds0| + k
        invariant sectionBonds[..|bonds0|] == bonds0
        invariant forall i :: |bonds0| <= i < |sectionBonds| ==> fresh(sectionBonds[i])
        invariant View() == view0 + InstallView(sections[..k])
      {
        AppendBond(k, sections[k], View());
        InstallViewSnoc(sections, k);
      }
      assert sections[..|sections|] == sections;
    }

    /** The deferred closure of `bind`: install only if no later `bind` happened. */
    method RunDeferred(p: Pending, sections: seq<nat>)
      requires Valid()
      modifies this`sectionBonds, this`observed
      ensures Valid()
      ensures p.generation == bindCount ==>
        observed == Some(p.target) &&
        |sectionBonds| == old(|sectionBonds|) + |sections| &&
        sectionBonds[..old(|sectionBonds|)] == old(sectionBonds) &&
        View() == old(View()) + InstallView(sections)
      ensures p.generation != bindCount ==> sectionBonds == old(sectionBonds) && observed == old(observed)
    {
      if bindCount == p.generation {
        InstallSectionBonds(p.target, sections);
      }
    }

    /** `bind`: bump the generation; for an outer array, point the data source
        at it, reload, and install the section bonds once it is not mutating. */
    method Bind(source: BindSource)
      requires Valid()
      modifies this, tableView
      ensures Valid()
      ensures bindCount == old(bindCount) + 1
      ensures source.PlainDynamic? ==>
        sectionBonds == old(sectionBonds) && pending == old(pending) &&
        dataSource == old(dataSource) && observed == old(observed) &&
        tableView.log == old(tableView.log)
      ensures source.OuterArray? ==>
        dataSource == Some(source.target) && tableView.log == old(tableView.log) + [ReloadData]
      ensures source.OuterArray? && source.mutating ==>
        pending == old(pending) + [Pending(bindCount, source.target)] &&
        sectionBonds == old(sectionBonds) && observed == old(observed)
      ensures source.OuterArray? && !source.mutating ==>
        pending == old(pending) && observed == Some(source.target) &&
        |sectionBonds| == old(|sectionBonds|) + |source.sections| &&
        sectionBonds[..old(|sectionBonds|)] == old(sectionBonds) &&
        View() == old(View()) + InstallView(source.sections)
    {
      bindCount := bindCount + 1;
      if source.OuterArray? {
        dataSource := Some(source.target);
        tableView.Apply(ReloadData);
        var captured := Pending(bindCount, source.target);
        if source.mutating {
          pending := pending + [captured];
        } else {
          RunDeferred(captured, source.sections);
        }
      }
    }

    /** Where a settle loop stands: once a live install has run, the bonds
        of `sections` follow the ones held before; until then nothing changed. */
    ghost predicate SettledSoFar(installed: bool, target: nat, sections: seq<nat>,
                                 bonds0: seq<SectionBond>, view0: seq<BondView>, observed0: Option<nat>)
      reads this, sectionBonds
    {
      (installed ==>
        observed == Some(target) &&
        |sectionBonds| == |bonds0| + |sections| &&
        sectionBonds[..|bonds0|] == bonds0 &&
        View() == view0 + InstallView(sections)) &&
      (!installed ==> sectionBonds == bonds0 && observed == observed0 && View() == view0)
    }

    /** One turn of the settle loop, for the install `queue[j]`: it runs when
        it waits on `target`, and is kept otherwise. */
    method SettleOne(queue: seq<Pending>, j: nat, target: nat, sections: seq<nat>, kept: seq<Pending>,
                     ghost installed: bool, ghost bonds0: seq<SectionBond>, ghost view0: seq<BondView>,
                     ghost observed0: Option<nat>)
      returns (kept': seq<Pending>, ghost now: bool)
      requires Valid() && PendingOrdered(queue, bindCount) && j < |queue|
      requires kept == KeepOthers(queue[..j], target)
      requires installed == HasLive(queue[..j], target, bindCount)
      requires SettledSoFar(installed, target, sections, bonds0, view0, observed0)
      modifies this`sectionBonds, this`observed
      ensures Valid()
      ensures kept' == KeepOthers(queue[..j + 1], target)
      ensures now == HasLive(queue[..j + 1], target, bindCount)
      ensures SettledSoFar(now, target, sections, bonds0, view0, observed0)
    {
      var p := queue[j];
      assert queue[..j + 1] == queue[..j] + [p];
      HasLiveSnoc(queue[..j], p, target, bindCount);
      KeepOthersSnoc(queue[..j], p, target);
      if p.generation == bindCount {
        OnlyNewestCanBeLive(queue, target, bindCount, j);
      }
      now := installed || (p.target == target && p.generation == bindCount);
      kept' := kept;
      if p.target == target {
        RunDeferred(p, sections);
      } else {
        kept' := kept + [p];
      }
    }

    /** The installs of `queue` that wait on `target` run in order; the
        others are kept, in order. `view0` is the view before. */
    method RunQueue(queue: seq<Pending>, target: nat, sections: seq<nat>, ghost view0: seq<BondView>)
      returns (kept: seq<Pending>)
      requires Valid() && PendingOrdered(queue, bindCount) && view0 == View()
      modifies this`sectionBonds, this`observed
      ensures Valid()
      ensures kept == KeepOthers(queue, target)
      ensures HasLive(queue, target, bindCount) ==>
        observed == Some(target) &&
        |sectionBonds| == old(|sectionBonds|) + |sections| &&
        sectionBonds[..old(|sectionBonds|)] == old(sectionBonds) &&
        View() == view0 + InstallView(sections)
      ensures !HasLive(queue, target, bindCount) ==>
        sectionBonds == old(sectionBonds) && observed == old(observed)
    {
      ghost var bonds0 := sectionBonds;
      ghost var observed0 := observed;
      kept := [];
      ghost var installed := false;
      for j := 0 to |queue|
        invariant Valid()
        invariant kept == KeepOthers(queue[..j], target)
        invariant installed == HasLive(queue[..j], target, bindCount)
        invariant SettledSoFar(installed, target, sections, bonds0, view0, observed0)
      {
        kept, installed := SettleOne(queue, j, target, sections, kept, installed, bonds0, view0, observed0);
      }
      assert queue[..|queue|] == queue;
    }

    /** The outer array `target` stops mutating: the installs waiting on it
        run in the order they were registered, and are dropped. */
    method Settle(target: nat, sections: seq<nat>)
      requires Valid()
      modifies this`sectionBonds, this`observed, this`pending
      ensures Valid()
      ensures pending == KeepOthers(old(pending), target)
      ensures HasLive(old(pending), target, bindCount) ==>
        observed == Some(target) &&
        |sectionBonds| == old(|sectionBonds|) + |sections| &&
        sectionBonds[..old(|sectionBonds|)] == old(sectionBonds) &&
        View() == old(View()) + InstallView(sections)
      ensures !HasLive(old(pending), target, bindCount) ==>
        sectionBonds == old(sectionBonds) && observed == old(observed)
    {
      var kept := RunQueue(pending, target, sections, View());
      KeepOthersOrdered(pending, target, bindCount);
      pending := kept;
    }
  }

}
