/** `TableViewDynamicArrayDataSource`: answers the table view's count and cell
    queries from the outer array it holds weakly. When that array is gone,
    every count is zero and the cell is a blank one. The outer array is
    modelled by its contents: one sequence of cells per section. */
module DataSource {
  import opened Options
  import opened Sink

  datatype ArrayDataSource<C> = ArrayDataSource(dynamic: Option<seq<seq<C>>>)

  /** `numberOfSectionsInTableView`: the outer array's count, or 0 without one. */
  function NumberOfSections<C>(ds: ArrayDataSource<C>): (r: nat)
    ensures ds.dynamic.None? ==> r == 0
    ensures ds.dynamic.Some? ==> r == |ds.dynamic.value|
  {
    match ds.dynamic
    case None => 0
    case Some(outer) => |outer|
  }

  /** `numberOfRowsInSection`: the count of that section's row array, or 0
      without an outer array. Indexing past the end of a present outer array
      traps, so that is the caller's obligation. */
  function NumberOfRows<C>(ds: ArrayDataSource<C>, section: int): (r: nat)
    requires ds.dynamic.Some? ==> 0 <= section < |ds.dynamic.value|
    ensures ds.dynamic.None? ==> r == 0
    ensures ds.dynamic.Some? ==> r == |ds.dynamic.value[section]|
  {
    match ds.dynamic
    case None => 0
    case Some(outer) => |outer[section]|
  }

  /** `cellForRowAtIndexPath`: the stored cell, or `blank` (a fresh
      `UITableViewCell()`) without an outer array. */
  function CellForRow<C>(ds: ArrayDataSource<C>, path: IndexPath, blank: C): (r: C)
    requires ds.dynamic.Some? ==>
      0 <= path.section < |ds.dynamic.value| && 0 <= path.item < |ds.dynamic.value[path.section]|
    ensures ds.dynamic.None? ==> r == blank
    ensures ds.dynamic.Some? ==> r == ds.dynamic.value[path.section][path.item]
  {
    match ds.dynamic
    case None => blank
    case Some(outer) => outer[path.section][path.item]
  }

  /** The counts admit exactly the paths of stored cells, and the cell asked
      for at such a path is the one stored there. */
  lemma CountsAdmitStoredCells<C>(ds: ArrayDataSource<C>, section: int, item: int, blank: C)
    ensures (0 <= section < NumberOfSections(ds) && 0 <= item < NumberOfRows(ds, section)) <==>
      (ds.dynamic.Some? && 0 <= section < |ds.dynamic.value| && 0 <= item < |ds.dynamic.value[section]|)
    ensures 0 <= section < NumberOfSections(ds) && 0 <= item < NumberOfRows(ds, section) ==>
      CellForRow(ds, IndexPath(section, item), blank) == ds.dynamic.value[section][item]
  {
  }

  /** Without an outer array the table shows nothing: no sections, no rows in
      any section, and any cell asked for is the blank one. */
  lemma NoArrayShowsNothing<C>(ds: ArrayDataSource<C>, section: int, path: IndexPath, blank: C)
    requires ds.dynamic.None?
    ensures NumberOfSections(ds) == 0 && NumberOfRows(ds, section) == 0
    ensures CellForRow(ds, path, blank) == blank
  {
  }
}
