/** Two end-to-end runs of the binder against a fresh table view, each with
    the table-view calls it issues stated exactly. */
module Scenarios {
  import opened Sorting
  import opened Sink
  import opened SectionViews
  import opened SectionBonds
  import opened TableBinder

  /** Inserting sections 0 and 2 into three sections, with five after. */
  lemma SortTwo()
    ensures Sort([0, 2], Increasing) == [0, 2]
    ensures InsertPositionsValid(3, [0, 2]) && AllBelow([0, 2], 5)
    ensures IndexSet([0, 2]) == {0, 2}
  {
    assert [0, 2][1..] == [2];
    assert [2][1..] == [];
  }

  /** Where the bonds of three sections end up when sections 0 and 2 are inserted. */
  lemma InsertTwo<T>(s: seq<T>, x: T, y: T)
    requires |s| == 3
    ensures InsertEachAt(s, [0, 2], [x, y]) == [x, s[0], y, s[1], s[2]]
  {
    assert [0, 2][..1] == [0] && [x, y][..1] == [x];
    assert [0][..0] == [] && [x][..0] == [];
    assert InsertEachAt(s, [], []) == s;
    var once := InsertEachAt(s, [0], [x]);
    assert once == InsertAt(s, 0, x) == [x] + s;
    assert InsertEachAt(s, [0, 2], [x, y]) == InsertAt(once, 2, y);
    assert once[..2] == [x, s[0]] && once[2..] == [s[1], s[2]];
  }

  /** Bind a fresh binder to a settled outer array of three sections. */
  method BindThree() returns (tv: TableView, binder: DataSourceBond)
    ensures fresh(tv) && fresh(binder) && binder.tableView == tv && !binder.disableAnimation
    ensures binder.Valid() && binder.SectionsIndexed() && |binder.sectionBonds| == 3
    ensures forall b :: b in binder.sectionBonds ==> fresh(b)
    ensures tv.log == [ReloadData]
  {
    tv := new TableView();
    binder := new DataSourceBond(tv, false);
    binder.Bind(OuterArray(7, false, [10, 11, 12]));
    InstallIndexedIff([], [10, 11, 12]);
    assert [] + InstallView([10, 11, 12]) == InstallView([10, 11, 12]);
  }

  /** After sections 0 and 2 are inserted into three, the bond that served
      section 1 sits at position 3, so an indexed binder has renumbered it 3. */
  lemma MovedToThree(binder: DataSourceBond, before: seq<SectionBond>, created: seq<SectionBond>)
    requires |before| == 3 && |created| == 2
    requires binder.sectionBonds == InsertEachAt(before, [0, 2], created)
    requires binder.SectionsIndexed()
    ensures before[1].section == 3
  {
    assert created == [created[0], created[1]];
    InsertTwo(before, created[0], created[1]);
    assert binder.sectionBonds[3] == before[1];
    assert binder.View()[3].section == 3;
  }

  /** Insert sections 0 and 2 into an indexed binder of three sections: the
      bond that served section 1 now serves section 3. */
  method InsertTwoSections(binder: DataSourceBond, moved: SectionBond)
    requires binder.Valid() && binder.SectionsIndexed() && |binder.sectionBonds| == 3
    requires moved == binder.sectionBonds[1]
    modifies binder`sectionBonds, (set b | b in binder.sectionBonds), binder.tableView
    ensures binder.Valid() && |binder.sectionBonds| == 5
    ensures moved.section == 3
    ensures binder.tableView.log == old(binder.tableView.log) + [InsertSections({0, 2}, !binder.disableAnimation)]
  {
    SortTwo();
    ghost var before := binder.sectionBonds;
    ghost var created := binder.DidInsert([20, 10, 21, 11, 12], [0, 2]);
    MovedToThree(binder, before, created);
  }

  /** Bind to a settled outer array of three sections, insert sections at 0
      and 2, then replace row 0 of the inner array that used to be section 1:
      its reload addresses section 3, where that inner array now is. */
  method ReloadAfterInsert() returns (log: seq<Command>, bonds: nat)
    ensures bonds == 5
    ensures log == [ReloadData, InsertSections({0, 2}, true)] + Bracketed(ReloadRows([IndexPath(3, 0)], true))
  {
    var tv, binder := BindThree();
    var moved := binder.sectionBonds[1];
    InsertTwoSections(binder, moved);
    assert [0][1..] == [];
    assert Paths(3, [0]) == [IndexPath(3, 0)];
    moved.DidUpdate([0]);
    log := tv.log;
    bonds := |binder.sectionBonds|;
  }

  /** How the queue of two waiting installs, with generations 1 and 2 and
      the counter at 2, is settled array by array. */
  lemma TwoWaitingInstalls()
    ensures !HasLive([Pending(1, 1), Pending(2, 2)], 1, 2)
    ensures KeepOthers([Pending(1, 1), Pending(2, 2)], 1) == [Pending(2, 2)]
    ensures HasLive([Pending(2, 2)], 2, 2)
  {
    SecondBindSupersedesFirst([], 0, 1, 2, 1);
    assert [] + [Pending(1, 1), Pending(2, 2)] == [Pending(1, 1), Pending(2, 2)];
    assert [Pending(1, 1), Pending(2, 2)][..1] == [Pending(1, 1)];
    assert [Pending(1, 1)][..0] == [];
    assert [Pending(2, 2)][0] == Pending(2, 2);
  }

  /** Bind a fresh binder twice, each time to an outer array that is
      mutating: both installs wait, with generations 1 and 2. */
  method BindTwiceMutating() returns (tv: TableView, binder: DataSourceBond)
    ensures fresh(tv) && fresh(binder) && binder.tableView == tv
    ensures binder.Valid() && binder.sectionBonds == [] && binder.bindCount == 2
    ensures binder.pending == [Pending(1, 1), Pending(2, 2)]
    ensures tv.log == [ReloadData, ReloadData]
  {
    tv := new TableView();
    binder := new DataSourceBond(tv, false);
    binder.Bind(OuterArray(1, true, [10, 11, 12]));
    binder.Bind(OuterArray(2, true, [20, 21]));
  }

  /** Bind twice while both outer arrays are mutating: when the first settles
      its install is stale and nothing happens; when the second settles its
      bonds are installed, once. */
  method SecondBindWins() returns (bonds: nat, log: seq<Command>)
    ensures bonds == 2
    ensures log == [ReloadData, ReloadData]
  {
    var tv, binder := BindTwiceMutating();
    TwoWaitingInstalls();
    binder.Settle(1, [10, 11, 12]);
    binder.Settle(2, [20, 21]);
    bonds := |binder.sectionBonds|;
    log := tv.log;
  }
}
