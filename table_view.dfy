/** The presentation widget, reduced to what the binder tells it: every UIKit
    call the binder makes is recorded, in order, in an append-only log. */
module Sink {

  datatype IndexPath = IndexPath(section: int, item: int)

  /** One call on the table view. Structural commands carry the animation flag
      of the `perform(animated:)` block they were issued in. */
  datatype Command =
    | BeginUpdates
    | EndUpdates
    | ReloadData
    | InsertSections(sections: set<int>, animated: bool)
    | DeleteSections(sections: set<int>, animated: bool)
    | ReloadSections(sections: set<int>, animated: bool)
    | InsertRows(paths: seq<IndexPath>, animated: bool)
    | DeleteRows(paths: seq<IndexPath>, animated: bool)
    | ReloadRows(paths: seq<IndexPath>, animated: bool)

  /** The index set an event's index list is turned into. */
  function IndexSet(indices: seq<int>): set<int>
  {
    set x | x in indices
  }

  /** The index paths of a row event: one per row index, each in `section`. */
  function Paths(section: int, rows: seq<int>): (r: seq<IndexPath>)
    ensures |r| == |rows|
    ensures forall p :: p in r ==> p.section == section
    decreases |rows|
  {
    if rows == [] then [] else [IndexPath(section, rows[0])] + Paths(section, rows[1..])
  }

  /** One path per row index, in the order given, all in `section`. */
  lemma {:induction false} PathsAddressSection(section: int, rows: seq<int>)
    ensures |Paths(section, rows)| == |rows|
    ensures forall j :: 0 <= j < |rows| ==> Paths(section, rows)[j] == IndexPath(section, rows[j])
    decreases |rows|
  {
    if rows != [] {
      PathsAddressSection(section, rows[1..]);
    }
  }

  /** A command wrapped in `beginUpdates()` / `endUpdates()`. */
  function Bracketed(c: Command): seq<Command>
  {
    [BeginUpdates, c, EndUpdates]
  }

  /** How many `beginUpdates()` are still waiting for their `endUpdates()`. */
  function OpenUpdates(log: seq<Command>): int
  {
    if log == [] then 0
    else
      var n := |log| - 1;
      OpenUpdates(log[..n]) + (if log[n] == BeginUpdates then 1 else if log[n] == EndUpdates then -1 else 0)
  }

  /** Appending commands to a log adds their open updates to it. */
  lemma {:induction false} OpenUpdatesAppend(log: seq<Command>, more: seq<Command>)
    ensures OpenUpdates(log + more) == OpenUpdates(log) + OpenUpdates(more)
    decreases |more|
  {
    if more == [] {
      assert log + more == log;
    } else {
      var n := |more| - 1;
      assert (log + more)[..|log| + n] == log + more[..n];
      assert (log + more)[|log| + n] == more[n];
      OpenUpdatesAppend(log, more[..n]);
    }
  }

  /** A bracketed command leaves no update open. */
  lemma BracketedIsBalanced(log: seq<Command>, c: Command)
    requires c != BeginUpdates && c != EndUpdates
    ensures OpenUpdates(log + Bracketed(c)) == OpenUpdates(log)
  {
    OpenUpdatesAppend(log, Bracketed(c));
    var b := Bracketed(c);
    assert [BeginUpdates][..0] == [];
    assert OpenUpdates([BeginUpdates]) == 1;
    assert [BeginUpdates, c][..1] == [BeginUpdates];
    assert OpenUpdates([BeginUpdates, c]) == 1;
    assert b[..2] == [BeginUpdates, c];
    assert OpenUpdates(b) == 0;
  }

  class TableView {
    var log: seq<Command>

    constructor ()
      ensures log == []
    {
      log := [];
    }

    /** The widget receives `c`. */
    method Apply(c: Command)
      modifies this
      ensures log == old(log) + [c]
    {
      log := log + [c];
    }
  }

}
