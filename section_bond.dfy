/** `UITableViewDataSourceSectionBond`: the listener on one section's row
    array. It turns the row array's structural events into row commands on the
    table view, addressed to the section it currently serves. That section is
    a mutable field: the binder renumbers it as sections come and go, and a
    row event reads it when the event fires. */
module SectionBonds {
  import opened Options
  import opened Sink

  class SectionBond {
    const tableView: TableView
    const disableAnimation: bool
    /** The section this bond's row commands address. */
    var section: int
    /** The inner (row) array this bond listens to; None when unbound. */
    var source: Option<nat>

    constructor (tableView: TableView, section: int, disableAnimation: bool)
      ensures this.tableView == tableView && this.disableAnimation == disableAnimation
      ensures this.section == section && source == None
    {
      this.tableView := tableView;
      this.section := section;
      this.disableAnimation := disableAnimation;
      source := None;
    }

    /** `sectionDynamic.bindTo(sectionBond)`: start listening to a row array. */
    method BindTo(inner: nat)
      modifies this
      ensures source == Some(inner) && section == old(section)
    {
      source := Some(inner);
    }

    /** `unbindAll()`: stop listening; the bond receives no further events. */
    method UnbindAll()
      modifies this
      ensures source == None && section == old(section)
    {
      source := None;
    }

    /** Rows inserted into this bond's row array: one bracketed insert-rows
        command, one path per row index, in order, all in the current section. */
    method DidInsert(rows: seq<int>)
      modifies tableView
      ensures tableView.log == old(tableView.log) + Bracketed(InsertRows(Paths(section, rows), !disableAnimation))
    {
      tableView.Apply(BeginUpdates);
      tableView.Apply(InsertRows(Paths(section, rows), !disableAnimation));
      tableView.Apply(EndUpdates);
    }

    /** Rows removed: one bracketed delete-rows command in the current section. */
    method DidRemove(rows: seq<int>)
      modifies tableView
      ensures tableView.log == old(tableView.log) + Bracketed(DeleteRows(Paths(section, rows), !disableAnimation))
    {
      tableView.Apply(BeginUpdates);
      tableView.Apply(DeleteRows(Paths(section, rows), !disableAnimation));
      tableView.Apply(EndUpdates);
    }

    /** Rows replaced: one bracketed reload-rows command in the current section. */
    method DidUpdate(rows: seq<int>)
      modifies tableView
      ensures tableView.log == old(tableView.log) + Bracketed(ReloadRows(Paths(section, rows), !disableAnimation))
    {
      tableView.Apply(BeginUpdates);
      tableView.Apply(ReloadRows(Paths(section, rows), !disableAnimation));
      tableView.Apply(EndUpdates);
    }

    /** The row array was reset: the whole table is reloaded, nothing else. */
    method DidReset()
      modifies tableView
      ensures tableView.log == old(tableView.log) + [ReloadData]
    {
      tableView.Apply(ReloadData);
    }
  }

}
