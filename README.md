# Section-bond bookkeeping of Bond's `UITableViewDataSourceBond`

This project models, in Dafny, how Bond's table-view binder keeps a table view
in step with a two-level observable array: an outer `DynamicArray` of
sections, each itself a `DynamicArray` of cells.

The binder (`UITableViewDataSourceBond`) holds one section bond
(`UITableViewDataSourceSectionBond`) per table section. Each section bond
records, in a mutable `section` field, the section it currently serves. The
binder reacts to events on the outer array:

- **insert**: new bonds are spliced in, in increasing order, and later bonds are renumbered up.
- **remove**: bonds are unbound and removed, in decreasing order, and later bonds are renumbered down.
- **update**: bonds are replaced in place.
- **reset**: the whole table is reloaded.

Each event also sends the table view one section command. A section bond turns
row events into bracketed row commands, addressed to the `section` value it
holds at the moment the event fires. `bind` bumps a generation counter and
reloads the table. It then installs one section bond per section once the
outer array stops mutating, and skips that install if a later `bind` came
first.

Modules:

- **`Sink`** (`table_view.dfy`): the table view as an append-only log of the UIKit calls it receives, plus index paths and the begin/end bracket.
- **`Sorting`** (`sorting.dfy`): Swift's `sorted(i, <)` and `sorted(i, >)`, as an insertion sort proved to return the unique ordered permutation of its input.
- **`SectionViews`** (`section_views.dfy`): the value-level specification. The bond array is seen as a sequence of `(section, source)` pairs. Each event loop is a fold over that sequence, and lemmas say when `view[k].section == k` survives. Generic sequence folds give the object-level splice and removal order.
- **`SectionBonds`** (`section_bond.dfy`): the section bond as a class with a mutable `section`, and its four row listeners.
- **`TableBinder`** (`table_binder.dfy`): the binder as a class.
  - Its state is the `sectionBonds` sequence, `bindCount`, the queue of deferred installs, and the outer array its data source and its structural listener point at.
  - Each outer-array listener is a method proved against the `SectionViews` folds.
  - A `Valid()` invariant is required and ensured by every method that changes the bonds. `WillMutate`, `DidMutate` and `DidReset` may change only the table view, so their frames alone keep it, and they do not state it.
- **`DataSource`** (`data_source.dfy`): the data source's count and cell lookups over an optional outer array.
- **`Scenarios`** (`scenarios.dfy`): two whole runs with their exact table-view logs.
  - Insert sections 0 and 2 into a three-section table, then reload a row of the section that moved: the reload addresses section 3.
  - Bind twice while both arrays are mutating: only the second bind installs.

Three behaviours of the code that the model keeps as written:

- A reset of the outer array only calls `reloadData()` (Bond/iOS/Bond+UITableView.swift:258-262). It does not rebuild the section bonds, and the model leaves them as they are.
- A reset of one section's row array reloads the whole table (:162-166), not just that section.
- A non-stale install appends one bond per section to whatever `sectionBonds` already holds (:290-295). It does not clear it first. `SectionViews.InstallIndexedIff` shows the indexing invariant holds afterwards exactly when it held before and, in addition, the array was empty or the install added nothing.

## Model

| member | source | states |
|---|---|---|
| `Sorting.Sort` | Bond/iOS/Bond+UITableView.swift:204 | `sorted(i, <)` / `sorted(i, >)`: the result is ordered by the chosen order and is a permutation of the input (same multiset, same length) |
| `Sorting.OrderedUnique` | Bond/iOS/Bond+UITableView.swift:225 | two ordered sequences with the same elements are equal, so the sorted order is determined by the elements alone |
| `Sorting.SortIgnoresInputOrder` | Bond/iOS/Bond+UITableView.swift:225 | indices carrying the same elements in any order sort to the same sequence |
| `SectionViews.InsertStep` | Bond/iOS/Bond+UITableView.swift:205-212 | one insertion step: the length grows by one, bonds before `s` are kept, position `s` holds section `s` bound to the new inner array, and every later bond is the one before it with its section raised by one |
| `SectionViews.InsertAll` | Bond/iOS/Bond+UITableView.swift:204-212 | the insertion loop over the sorted indices grows the bond array by exactly the number of indices |
| `SectionViews.InsertStepKeepsIndexed` | Bond/iOS/Bond+UITableView.swift:205-212 | inserting a bond for section `s` at `s` and adding 1 to every later section keeps `view[k].section == k` |
| `SectionViews.InsertAllKeepsIndexed` | Bond/iOS/Bond+UITableView.swift:204-212 | the whole insertion loop keeps `view[k].section == k` for every k |
| `SectionViews.InsertAllPlacesNewBonds` | Bond/iOS/Bond+UITableView.swift:205-208 | with strictly increasing positions, each inserted position `s` ends up holding a bond with section `s` bound to `array[s]` |
| `SectionViews.SortDistinctIsStrict` | Bond/iOS/Bond+UITableView.swift:204 | sorting indices with no repeats gives a strictly increasing sequence |
| `SectionViews.InsertEventPlacesNewBonds` | Bond/iOS/Bond+UITableView.swift:204-212 | for an insert event listing distinct sections, every listed section `s` holds, afterwards, the bond created for it: section `s`, bound to `array[s]` |
| `SectionViews.InsertAt` | Bond/iOS/Bond+UITableView.swift:208 | `insert(_, atIndex: k)`: the length grows by one, the new element is at `k`, the elements before `k` stay, and those from `k` on move up one place |
| `SectionViews.InsertEachAt` | Bond/iOS/Bond+UITableView.swift:204-208 | the object-level insertion loop: the length grows by the number of positions, and every element comes from the old sequence or from the inserted ones |
| `SectionViews.RemoveAt` | Bond/iOS/Bond+UITableView.swift:227 | `removeAtIndex(k)`: the length shrinks by one, the elements before `k` stay, and those after `k` move down one place |
| `SectionViews.RemoveEachAt` | Bond/iOS/Bond+UITableView.swift:225-227 | the object-level removal loop: the length shrinks by the number of positions, and every element left was there before |
| `SectionViews.InsertEachAtPlaces` | Bond/iOS/Bond+UITableView.swift:204-208 | inserting at strictly increasing positions leaves each inserted element at the position it was inserted at |
| `SectionViews.InsertEventPlacesCreated` | Bond/iOS/Bond+UITableView.swift:204-208 | for an insert event listing distinct sections, every listed section holds, afterwards, one of the elements created for the event |
| `SectionViews.InsertEachAtKeepsOrder` | Bond/iOS/Bond+UITableView.swift:208 | removing the inserted elements from the result of the insertion loop gives back the original sequence: old bonds keep their relative order |
| `SectionViews.RemoveStep` | Bond/iOS/Bond+UITableView.swift:226-231 | one removal step: the length shrinks by one, bonds before `s` are kept, and every later bond is the one after it with its section lowered by one |
| `SectionViews.RemoveAll` | Bond/iOS/Bond+UITableView.swift:225-231 | the removal loop shrinks the bond array by exactly the number of indices |
| `SectionViews.RemoveStepKeepsIndexed` | Bond/iOS/Bond+UITableView.swift:226-231 | removing the bond at `s` and subtracting 1 from every later section keeps `view[k].section == k` |
| `SectionViews.RemoveAllKeepsIndexed` | Bond/iOS/Bond+UITableView.swift:225-231 | the whole removal loop keeps `view[k].section == k` |
| `SectionViews.RemoveIgnoresInputOrder` | Bond/iOS/Bond+UITableView.swift:225-231 | two remove events with the same indices in different orders are in range together and leave the same bond array |
| `SectionViews.UpdateView` | Bond/iOS/Bond+UITableView.swift:245-251 | the update loop keeps the length; each updated position holds section `k` bound to the new inner array, and every other position is unchanged |
| `SectionViews.UpdateKeepsSections` | Bond/iOS/Bond+UITableView.swift:245-251 | updating keeps the length and every section value of an indexed bond array, so it stays indexed |
| `SectionViews.InstallView` | Bond/iOS/Bond+UITableView.swift:290-295 | the install creates one bond per outer section, each serving its own index and bound to that section's inner array |
| `SectionViews.InstallIndexedIff` | Bond/iOS/Bond+UITableView.swift:290-295 | appending the install's bonds gives length old + outer count, and leaves the array indexed if and only if it was indexed and either empty or the install appended nothing |
| `Sink.Paths` | Bond/iOS/Bond+UITableView.swift:136 | the index paths of a row event: one per row index, each in the bond's section |
| `Sink.PathsAddressSection` | Bond/iOS/Bond+UITableView.swift:136 | `i.map { NSIndexPath(forItem: $0, inSection: section) }` gives one path per row index, in order, all in `section` |
| `Sink.OpenUpdatesAppend` | Bond/iOS/Bond+UITableView.swift:190-196 | the number of open `beginUpdates()` of a log is additive over concatenation |
| `Sink.BracketedIsBalanced` | Bond/iOS/Bond+UITableView.swift:134-138 | a command wrapped in `beginUpdates()`/`endUpdates()` leaves no update open |
| `SectionBonds.SectionBond.constructor` | Bond/iOS/Bond+UITableView.swift:127-130 | a new section bond serves the given section, shares the table view and the animation flag, and listens to nothing yet |
| `SectionBonds.SectionBond.BindTo` | Bond/iOS/Bond+UITableView.swift:207 | `sectionDynamic.bindTo(sectionBond)`: the bond listens to the given inner array, and its section is unchanged |
| `SectionBonds.SectionBond.UnbindAll` | Bond/iOS/Bond+UITableView.swift:226 | `unbindAll()`: the bond listens to nothing, and its section is unchanged |
| `SectionBonds.SectionBond.DidInsert` | Bond/iOS/Bond+UITableView.swift:132-140 | appends exactly `beginUpdates`, one insert-rows command with the paths `(section, i)` of the current `section`, `endUpdates` |
| `SectionBonds.SectionBond.DidRemove` | Bond/iOS/Bond+UITableView.swift:142-150 | the same for delete-rows |
| `SectionBonds.SectionBond.DidUpdate` | Bond/iOS/Bond+UITableView.swift:152-160 | the same for reload-rows |
| `SectionBonds.SectionBond.DidReset` | Bond/iOS/Bond+UITableView.swift:162-166 | a row-array reset only appends `reloadData` |
| `TableBinder.KeepOthers` | Bond/iOS/Bond+UITableView.swift:287 | an install is left waiting after an outer array settles if and only if it was waiting and is registered with another array; the queue does not grow |
| `TableBinder.KeepOthersConcat` | Bond/iOS/Bond+UITableView.swift:287 | settling filters a queue part by part, so the installs left waiting keep their registration order |
| `TableBinder.SecondBindSupersedesFirst` | Bond/iOS/Bond+UITableView.swift:273-288 | after two binds in a row, the queue stays ordered and the only live install is the second bind's |
| `TableBinder.OnlyNewestCanBeLive` | Bond/iOS/Bond+UITableView.swift:285-288 | every install registered before one that captured the current generation is stale |
| `TableBinder.KeepOthersOrdered` | Bond/iOS/Bond+UITableView.swift:287 | dropping the settled array's installs keeps generations increasing and bounded by `bindCount` |
| `TableBinder.DataSourceBond.constructor` | Bond/iOS/Bond+UITableView.swift:185-188 | a new binder has no section bonds, generation 0, no waiting installs and no data source |
| `TableBinder.DataSourceBond.WillMutate` | Bond/iOS/Bond+UITableView.swift:190-192 | `willMutate` appends exactly `beginUpdates` |
| `TableBinder.DataSourceBond.DidMutate` | Bond/iOS/Bond+UITableView.swift:194-196 | `didMutate` appends exactly `endUpdates` |
| `TableBinder.DataSourceBond.BumpOne` | Bond/iOS/Bond+UITableView.swift:211 | one renumbering step: exactly the bond at `idx` has `delta` added to its section |
| `TableBinder.DataSourceBond.ShiftSections` | Bond/iOS/Bond+UITableView.swift:210-212 | the renumbering loop adds `delta` to the section of every bond from `from` on and changes nothing else |
| `TableBinder.DataSourceBond.SpliceIn` | Bond/iOS/Bond+UITableView.swift:208 | `insert(_, atIndex:)`: the bond takes position `s` and every other bond keeps its relative place |
| `TableBinder.DataSourceBond.InsertBond` | Bond/iOS/Bond+UITableView.swift:205-212 | one insertion step: a fresh bond bound to the inner array is spliced in at `s` and later bonds move up one section |
| `TableBinder.DataSourceBond.InsertSorted` | Bond/iOS/Bond+UITableView.swift:204-213 | the insertion loop over sorted positions splices fresh bonds at those positions and yields `InsertAll` of the old view |
| `TableBinder.DataSourceBond.DidInsert` | Bond/iOS/Bond+UITableView.swift:198-218 | one insert-sections command for the index set; fresh bonds at the sorted positions; old bonds kept in order; the new view is `InsertAll`; indexing preserved; when the indices do not repeat, every listed section holds one of the bonds just created |
| `TableBinder.DataSourceBond.RemoveBond` | Bond/iOS/Bond+UITableView.swift:226-231 | one removal step: the bond at `s` is unbound and removed and later bonds move down one section |
| `TableBinder.DataSourceBond.RemoveSorted` | Bond/iOS/Bond+UITableView.swift:225-232 | the removal loop over decreasing positions removes the bonds at those positions, unbinds every bond it removes, and yields `RemoveAll` of the old view |
| `TableBinder.DataSourceBond.DidRemove` | Bond/iOS/Bond+UITableView.swift:220-237 | one delete-sections command; bonds removed at the decreasing positions; every removed bond unbound; the new view is `RemoveAll`; indexing preserved |
| `TableBinder.DataSourceBond.ReplaceBond` | Bond/iOS/Bond+UITableView.swift:246-251 | one update step: a fresh bond for section `s` bound to the new inner array takes position `s`, the old one is unbound, the rest are untouched |
| `TableBinder.DataSourceBond.ReplaceAll` | Bond/iOS/Bond+UITableView.swift:245-252 | the update loop: listed positions hold fresh bonds and their old bonds are unbound, all other positions keep their bond, the count is unchanged |
| `TableBinder.DataSourceBond.DidUpdate` | Bond/iOS/Bond+UITableView.swift:239-256 | exactly one reload-sections command; count kept; only listed positions changed; indexing preserved |
| `TableBinder.DataSourceBond.DidReset` | Bond/iOS/Bond+UITableView.swift:258-262 | an outer reset appends only `reloadData` and leaves the binder unchanged |
| `TableBinder.DataSourceBond.AppendBond` | Bond/iOS/Bond+UITableView.swift:291-294 | one install step: a fresh bond for section `k`, bound to the array's `k`-th inner array, is appended after the bonds already held |
| `TableBinder.DataSourceBond.InstallSectionBonds` | Bond/iOS/Bond+UITableView.swift:289-295 | starts observing the array and appends one fresh bond per section, in order, with section equal to its index, after the bonds already held |
| `TableBinder.DataSourceBond.RunDeferred` | Bond/iOS/Bond+UITableView.swift:287-296 | the deferred closure installs if and only if the generation it captured is still current, and otherwise changes nothing |
| `TableBinder.DataSourceBond.Bind` | Bond/iOS/Bond+UITableView.swift:275-299 | bumps the generation; for an outer array, points the data source at it and reloads, then installs now or queues the install with the current generation |
| `TableBinder.DataSourceBond.RunQueue` | Bond/iOS/Bond+UITableView.swift:287-297 | the waiting installs run in registration order: those on other arrays are kept in order, and the bonds are installed once if and only if a live one waits on the settled array |
| `TableBinder.DataSourceBond.Settle` | Bond/iOS/Bond+UITableView.swift:287-297 | when an array stops mutating, its waiting installs are dropped, and the bonds are installed once if and only if one of them is live, else nothing changes |
| `DataSource.NumberOfSections` | Bond/iOS/Bond+UITableView.swift:49-51 | the outer array's count, or 0 when there is no outer array |
| `DataSource.NumberOfRows` | Bond/iOS/Bond+UITableView.swift:53-55 | the row count of the given section, or 0 when there is no outer array |
| `DataSource.CellForRow` | Bond/iOS/Bond+UITableView.swift:57-59 | the cell stored at the path, or the blank cell when there is no outer array |
| `DataSource.CountsAdmitStoredCells` | Bond/iOS/Bond+UITableView.swift:49-59 | the section and row counts admit exactly the paths of stored cells, and the cell for such a path is the one stored there |
| `DataSource.NoArrayShowsNothing` | Bond/iOS/Bond+UITableView.swift:49-59 | the no-array case of the three lookups in one statement: 0 sections, 0 rows in any section, and the blank cell |
| `Scenarios.BindThree` | Bond/iOS/Bond+UITableView.swift:275-295 | binding a settled three-section array to a new binder reloads once and leaves three indexed bonds |
| `Scenarios.InsertTwoSections` | Bond/iOS/Bond+UITableView.swift:204-212 | inserting sections 0 and 2 into three moves the bond of section 1 to section 3 |
| `Scenarios.ReloadAfterInsert` | Bond/iOS/Bond+UITableView.swift:152-160 | after that insert, a row reload in the moved section is sent to section 3; the exact log is stated |
| `Scenarios.SecondBindWins` | Bond/iOS/Bond+UITableView.swift:273-299 | two binds before their arrays settle reload twice and install only the second array's two bonds |

## Left out

- UIKit effects: `insertSections`, `reloadData`, `beginUpdates` and the other table-view calls are recorded as log entries, not modelled. `perform(animated:)` and `UIView.performWithoutAnimation` (:313-319) are reduced to the `animated` flag each command carries, which is `!disableAnimation`.
- The forwarding methods of the data source to `nextDataSource` (:63-121), and the `nextDataSource` property (:179-183): they pass calls through to an external delegate.
- Memory and lifetime: `weak`/`unowned` captures, `deinit`, and the `tableView?`/`self?` nil checks. The table view is taken to be always present. A section bond's `deinit` unbinding (:169-171) is not modelled.
- Library internals that are not part of this model: `DynamicArray`, `ArrayBond`, `Bond.bindTo` and `doAfterMutating`.
  - An inner array is identified by a number, and a section bond's `source` records which one it listens to.
  - "The outer array is mutating" is an input to `Bind`, and `Settle` stands for the moment it stops.
  - Whether `bindTo` fires the bond on binding is not modelled.
- `superBind` (:302-304) is reduced to recording which outer array the binder observes.
- The `->>` operator (:321-323) and `bind(DynamicArray)` (:265-267) are one-line wrappers around `bind` and are not modelled.
- `NSIndexSet(array:)` (:30-38) is modelled only as the set of the listed indices.
- UITextView's lazy attachment through `objc_getAssociatedObject` (Bond/Bond+UITextView.swift) is runtime plumbing and is not modelled.
- `TableBinder.DataSourceBond.Bind`: the data source is recorded only as the outer array it answers from. Its table-view registration (:280-282) is not modelled. `DataSource` states the lookups it then serves.
- Out-of-range indices: an index past the end of the outer array, an `insert(atIndex:)` or `removeAtIndex` outside the bond array, and a subscript of the bond array all make the Swift code trap. The model makes each of them a precondition instead of modelling the trap. Each precondition is the exact condition under which the source's loop, taken in its sorted order, stays in range.
- `TableBinder.DataSourceBond.Bind`: `bindCount` is an unbounded `nat`. The Swift `bindCount++` (:276) traps on `Int` overflow, which the model does not capture.
