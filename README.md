# air-table view-state engine in Dafny

This project models the view-state engine of the air-table data table (`TableComponent`).
It also models the pending/applied filter state of the demo application (`App`).

The table holds a small amount of state:
- the internal search query;
- the sort column and direction;
- the internal set of selected row ids;
- the column-visibility map and the column-order list;
- the two drag indices of the column picker.

Everything the table displays is derived from that state and from the inputs given by the
parent: `data`, `columns`, `selectionMode`, `rowIdentifier`, `selectedRows`,
`externalSearchQuery` and `externalFilter`.

The modules follow the structure of the component:

- `Values`: cell values, rows, column descriptors, and the string operations the table
  applies to them (`trim`, `toLowerCase`, `includes`, `String(value)`, `localeCompare`).
  It also holds the dotted-path lookup `getNestedValue`.
- `Search`: the filter stage of `filteredAndSortedData`. The external predicate runs
  first, then the effective search query, trimmed and lower-cased.
- `Sorting`: the comparator and the sort of a copy of the filtered rows. The sort is
  modelled as an insertion sort. JavaScript's `Array.prototype.sort` is stable, so for a
  consistent comparator it gives the same result.
- `Pipeline`: the sort state, the three-state click cycle, the sort icon, and the whole
  filter-then-sort pipeline.
- `Selection`: row identities, the effective selection, the toggle rules, the counts and
  the rows emitted on `selectionChange`. A JavaScript `Set` iterates in insertion order, so
  a set of ids is a duplicate-free sequence.
- `Columns`: column visibility, the column ordering, the effect's lazy initialisation, and
  the drag-and-drop move and indicator rules.
- `Table`: class `TableComponent`. Its fields are the inputs and signals. Its functions
  are the computed values. Its methods are the event handlers, and each one states the
  component's whole new state in terms of the functions above.
- `Demo`: class `App`. It holds the pending and applied filter values, the active-only
  filter predicate and the selection read-outs.

The table sorts by one column at a time, with no secondary sort, and it has no
pagination.

All files verify together with Dafny 4.11: `dafny verify *.dfy` from this directory.

## Model

| member | source | states |
|---|---|---|
| Values.TrimBlank | src/app/components/table/table.component.ts:108-109 | a query trims to the empty string exactly when every character is ECMAScript whitespace |
| Values.Lower | src/app/components/table/table.component.ts:108 | the result has the same length and no upper-case letter; each upper-case letter becomes its lower-case letter and every other character is kept |
| Values.LowerIdempotent | src/app/components/table/table.component.ts:108 | lower-casing twice is lower-casing once |
| Values.LexCompare | src/app/components/table/table.component.ts:147-154 | the string comparison answers -1, 0 or 1, and 0 exactly for equal strings |
| Values.LexCompareAntisymmetric | src/app/components/table/table.component.ts:150-153 | swapping the operands negates the comparison, so the descending branch is the ascending one negated |
| Values.LexCompareTransitive | src/app/components/table/table.component.ts:147-154 | the string comparison is transitive |
| Values.SplitJoin | src/app/components/table/table.component.ts:219-220 | splitting a path at its dots loses nothing, and no part holds a dot |
| Values.GetNestedValue | src/app/components/table/table.component.ts:218-223 | every path reads as the reduce over its dot-separated parts, starting from the row; a path without a dot is also a plain property access, so both branches of the source agree |
| Values.WalkSinglePart | src/app/components/table/table.component.ts:218-223 | the reduce over a dot-free path agrees with plain property access |
| Values.WalkMissingHead | src/app/components/table/table.component.ts:220 | a dotted path whose first step is missing reads as undefined |
| Values.NestedRecordLookup | src/app/components/table/table.component.ts:218-223 | a two-part path whose first part names a nested record reads that record's property |
| Search.MatchesSearch | src/app/components/table/table.component.ts:234-252 | a row can match only when some column holds a non-null value |
| Search.MatchesSearchSome | src/app/components/table/table.component.ts:234-252 | a row matches exactly when some column's non-null value, rendered and lower-cased, contains the query |
| Search.NormalizeQuery | src/app/components/table/table.component.ts:108-109 | the normalised query is empty exactly when the raw query is all whitespace |
| Search.EffectiveSearchQuery | src/app/components/table/table.component.ts:268-271 | the external query when it is defined, even when empty; otherwise the internal query |
| Search.ApplyExternalFilter | src/app/components/table/table.component.ts:99-102 | the external predicate never adds rows |
| Search.ApplySearch | src/app/components/table/table.component.ts:109-117 | the search filter never adds rows |
| Search.FilterStage | src/app/components/table/table.component.ts:96-118 | the filter stage never adds rows |
| Search.FilterStageIsFilter | src/app/components/table/table.component.ts:96-118 | the external filter followed by the search filter is one filter by the combined condition |
| Search.FilterStageSound | src/app/components/table/table.component.ts:96-118 | the result is a subsequence of the data; a data row is kept exactly when it passes the external predicate (if given) and matches the non-empty query |
| Search.BlankQueryKeepsAll | src/app/components/table/table.component.ts:109-117 | an empty or whitespace-only effective query filters nothing |
| Search.ExternalQueryOverrides | src/app/components/table/table.component.ts:105-118 | a defined external query, even the empty one, makes the internal query irrelevant |
| Sorting.CompareAsWritten | src/app/components/table/table.component.ts:132-154 | a null or undefined left operand compares greater, and a null or undefined right operand less, whatever the other side holds |
| Sorting.CompareValues | src/app/components/table/table.component.ts:136-154 | dates compare by instant and numbers numerically, each negated for descending; other present values are equal exactly when their lower-cased renderings are equal |
| Sorting.Compare | src/app/components/table/table.component.ts:128-155 | a null or undefined value sorts after a present one in either direction; two present values compare as the source compares them |
| Sorting.CompareAsWrittenNullsInconsistent | src/app/components/table/table.component.ts:132 | as written, two null values compare as 1 in both orders |
| Sorting.CompareAntisymmetric | src/app/components/table/table.component.ts:128-155 | the corrected comparator is antisymmetric |
| Sorting.DescendingNegates | src/app/components/table/table.component.ts:136-154 | for two present values, descending is ascending negated; nulls go last in both directions |
| Sorting.ValueTransitive | src/app/components/table/table.component.ts:136-154 | the comparison is transitive on values of one kind: numbers, dates or strings, with nulls |
| Sorting.SortRows | src/app/components/table/table.component.ts:128 | the sorted copy has as many rows as the filtered rows |
| Sorting.SortPermutes | src/app/components/table/table.component.ts:128 | sorting a copy yields a permutation of the filtered rows |
| Sorting.SortNullsLast | src/app/components/table/table.component.ts:132-133 | after sorting, every row with a null or undefined key value comes after every row with a present one |
| Sorting.SortOrdered | src/app/components/table/table.component.ts:128-155 | neighbouring rows of the sorted output are in comparator order |
| Sorting.SortSorted | src/app/components/table/table.component.ts:128-155 | when the comparator is transitive on the rows, every pair of the output is in comparator order |
| Sorting.SortStable | src/app/components/table/table.component.ts:128-155 | when the comparator is transitive on the rows and on the reference row, the rows that compare equal to it keep their relative order |
| Sorting.SortOfOrdered | src/app/components/table/table.component.ts:128-155 | rows whose neighbours are already in comparator order come out of the sort unchanged |
| Sorting.SortIdempotent | src/app/components/table/table.component.ts:128-155 | sorting the sorted rows again by the same key and direction changes nothing |
| Pipeline.NextSort | src/app/components/table/table.component.ts:195-216 | a click keeps the sort column and direction set or unset together; it leaves the state, clears it, or makes the clicked column the sort column |
| Pipeline.SortCycle | src/app/components/table/table.component.ts:195-216 | a non-sortable column changes nothing; a new column starts ascending; ascending goes to descending; descending goes to unsorted; the two signals stay set or unset together |
| Pipeline.ThreeClicksUnsort | src/app/components/table/table.component.ts:195-216 | three clicks on a fresh sortable column end unsorted |
| Pipeline.SortIcon | src/app/components/table/table.component.ts:184-189 | the neutral icon shows exactly when the column is not the sort column |
| Pipeline.IsSorted | src/app/components/table/table.component.ts:191-193 | with consistent signals, a column is sorted exactly when it is the sort column |
| Pipeline.SortedColumnIcon | src/app/components/table/table.component.ts:184-193 | a sorted column shows the arrow of its direction |
| Pipeline.SortStage | src/app/components/table/table.component.ts:121-155 | the sort stage keeps the number of rows |
| Pipeline.SortStageSound | src/app/components/table/table.component.ts:121-155 | without a sort column or direction the filtered rows pass unchanged; otherwise the output is a permutation with nulls last and neighbours in order |
| Pipeline.SortStageOneKind | src/app/components/table/table.component.ts:121-155 | on a column holding one kind of value, the output is fully sorted and the sort is stable |
| Pipeline.SortStageIdempotent | src/app/components/table/table.component.ts:121-155 | applying the sort stage again with the same sort state changes nothing |
| Pipeline.FilteredAndSortedData | src/app/components/table/table.component.ts:95-156 | the displayed rows are never more than the data rows |
| Pipeline.FilteredAndSortedSound | src/app/components/table/table.component.ts:95-156 | the displayed rows are a rearrangement of exactly the data rows that pass the filter stage, in data order when unsorted |
| Pipeline.NameSortScenario | src/app/components/table/table.component.ts:95-216 | two rows sorted by name: ascending, then descending, then back to data order on the third click |
| Selection.AddKey | src/app/components/table/table.component.ts:57 | adding to a set keeps it duplicate-free and adds exactly the new id |
| Selection.DeleteKey | src/app/components/table/table.component.ts:290 | the deleted id is absent afterwards and the set does not grow |
| Selection.DeleteKeySound | src/app/components/table/table.component.ts:290 | deleting from a set removes exactly that id and keeps it duplicate-free |
| Selection.IdsOf | src/app/components/table/table.component.ts:53-58 | the id set of some rows is duplicate-free and no larger than the rows |
| Selection.IdsOfSound | src/app/components/table/table.component.ts:50-62 | the id set of some rows holds each of their ids once and nothing else |
| Selection.EffectiveSelection | src/app/components/table/table.component.ts:50-62 | the effective selection is duplicate-free whenever the internal set is, and it is the internal set when `selectedRows` is not given |
| Selection.ToggleRow | src/app/components/table/table.component.ts:283-296 | outside single mode the clicked id is selected afterwards exactly when it was not; in single mode exactly one id is selected |
| Selection.ToggleRowSound | src/app/components/table/table.component.ts:283-296 | in single mode the selection becomes exactly the clicked id; otherwise only the clicked id flips membership; the set stays duplicate-free |
| Selection.SingleModeOne | src/app/components/table/table.component.ts:285-288 | in single mode a click always leaves exactly one id selected, including a click on the selected row |
| Selection.ToggleAll | src/app/components/table/table.component.ts:312-329 | the new selection is duplicate-free and holds at most one id per visible row |
| Selection.ToggleAllSound | src/app/components/table/table.component.ts:312-329 | select-all toggling empties a fully selected non-empty view and otherwise selects exactly the visible rows |
| Selection.SelectAllThenToggle | src/app/components/table/table.component.ts:312-329 | toggling right after selecting every visible row empties the selection |
| Selection.ToggleAllTwice | src/app/components/table/table.component.ts:312-329 | two toggles on a non-empty view that is not fully selected end empty |
| Selection.CountSelected | src/app/components/table/table.component.ts:405-419 | the selected count never exceeds the number of rows |
| Selection.CountAll | src/app/components/table/table.component.ts:341-378 | every row is counted exactly when every row's id is selected |
| Selection.CountSome | src/app/components/table/table.component.ts:360-378 | the count is positive exactly when some row is selected |
| Selection.IsAllSelected | src/app/components/table/table.component.ts:341-358 | when the header check box is checked, every visible row is counted as selected |
| Selection.IsIndeterminate | src/app/components/table/table.component.ts:360-378 | the header check box is indeterminate exactly when the mode is multiple and some, but not all, of the visible rows are selected |
| Selection.AllSelectedNotIndeterminate | src/app/components/table/table.component.ts:341-378 | the header check box is never both checked and indeterminate; it is checked exactly when the count equals the number of visible rows |
| Selection.FindRow | src/app/components/table/table.component.ts:386-389 | a found row belongs to the data and has the id; nothing is found exactly when no row has the id |
| Selection.FindRowFirst | src/app/components/table/table.component.ts:386-389 | the found row is the first one with the id |
| Selection.EmittedRows | src/app/components/table/table.component.ts:380-397 | at most one row is emitted per selected id |
| Selection.EmittedRowsSound | src/app/components/table/table.component.ts:380-397 | the ids of the emitted rows are the selected ids that resolve to a row, in order; unresolved ids are dropped; every emitted row belongs to the data |
| Selection.EmittedRowsFirst | src/app/components/table/table.component.ts:380-397 | each emitted row is the row `find` answers for its own id: the first row of all the data with that id |
| Selection.EmittedRowsDistinct | src/app/components/table/table.component.ts:380-397 | distinct selected ids give distinct emitted rows |
| Columns.IsColumnVisible | src/app/components/table/table.component.ts:461-464 | a column is hidden exactly when its entry is explicitly false; a missing entry means visible |
| Columns.ToggleVisibility | src/app/components/table/table.component.ts:466-472 | toggling gives the key an entry, adds no other key, and flips the key's visibility |
| Columns.ToggleVisibilitySound | src/app/components/table/table.component.ts:461-472 | toggling flips the toggled key's visibility (absent means visible) and leaves every other key as it was |
| Columns.ToggleVisibilityTwice | src/app/components/table/table.component.ts:461-472 | toggling twice restores every key's visibility |
| Columns.FindColumn | src/app/components/table/table.component.ts:494 | a found column has the key; nothing is found exactly when no column has it |
| Columns.InOrder | src/app/components/table/table.component.ts:493-498 | the first loop places at most one column per key of the order |
| Columns.InOrderSound | src/app/components/table/table.component.ts:493-498 | order keys that name no column are skipped; the placed columns are the columns of the naming keys, in the order's order |
| Columns.InOrderNoDup | src/app/components/table/table.component.ts:493-498 | a duplicate-free order places every column at most once |
| Columns.OrderedColumns | src/app/components/table/table.component.ts:483-507 | the ordering has at most as many columns as the order has keys plus the columns themselves |
| Columns.OrderedColumnsSound | src/app/components/table/table.component.ts:483-507 | without an order the columns come as given; otherwise the order's columns lead, in the order's order, and then come exactly the columns missing from the order, in original order; every listed column is a column, and every column missing from the order is listed |
| Columns.OrderedColumnsPermutation | src/app/components/table/table.component.ts:483-507 | with distinct column keys and a duplicate-free order, the ordering is a permutation of the columns |
| Columns.InitialOrderIdentity | src/app/components/table/table.component.ts:178-180 | the order the effect initialises displays the columns as given |
| Columns.VisibleColumns | src/app/components/table/table.component.ts:65-93 | every shown column is visible |
| Columns.VisibleColumnsSound | src/app/components/table/table.component.ts:65-93 | the visible columns are the subsequence of the ordering whose visibility is not false; hidden columns keep their place in the order |
| Columns.InitVisibility | src/app/components/table/table.component.ts:166-176 | the initialisation keeps every existing entry as it was |
| Columns.InitVisibilitySound | src/app/components/table/table.component.ts:166-176 | the effect gives every column an entry, keeps existing entries, adds nothing else and changes no column's visibility |
| Columns.InitVisibilityComplete | src/app/components/table/table.component.ts:166-167 | when every column has an entry, the map is left as it is |
| Columns.InitOrder | src/app/components/table/table.component.ts:178-180 | an empty order becomes the column keys; a non-empty one is kept |
| Columns.InitOrderDisplay | src/app/components/table/table.component.ts:178-180 | initialising the order does not change what is displayed when keys are distinct |
| Columns.Move | src/app/components/table/table.component.ts:555-558 | a drop keeps the number of keys |
| Columns.MoveSound | src/app/components/table/table.component.ts:555-558 | a drop is a permutation with the moved key at the drop position (or last when past the end), and the other keys keep their relative order |
| Columns.MoveNoDup | src/app/components/table/table.component.ts:555-558 | a drop keeps a duplicate-free order duplicate-free |
| Columns.MoveScenario | src/app/components/table/table.component.ts:555-558 | dragging `name` onto `id` in `[id, name]` gives `[name, id]` |
| Columns.DragOverIndex | src/app/components/table/table.component.ts:518-536 | the over-index either stays or becomes the index under the mouse |
| Columns.DragOverIndexSound | src/app/components/table/table.component.ts:518-536 | a newly set over-index is never the dragged index; without a drag, or over the dragged column itself, nothing changes |
| Columns.DropIndicator | src/app/components/table/table.component.ts:570-584 | an indicator shows only at the over-index, while a different column is dragged |
| Columns.DropIndicatorSound | src/app/components/table/table.component.ts:570-584 | an indicator shows only at the over-index while another column is dragged; it is after exactly when the drag comes from an earlier position; at most one position shows one |
| Table.CellValue | src/app/components/table/table.component.ts:225-232 | a displayed cell is never a date, and its lower-cased rendering is the text the search looks in |
| Table.TableComponent.constructor | src/app/components/table/table.component.ts:17-47 | the component starts with its inputs and every signal at its initial value |
| Table.TableComponent.Displayed | src/app/components/table/table.component.ts:95-156 | the displayed rows are never more than the data rows |
| Table.TableComponent.Effective | src/app/components/table/table.component.ts:50-62 | in a valid state the effective selection is duplicate-free |
| Table.TableComponent.IsExternalControlActive | src/app/components/table/table.component.ts:263-265 | without external controls the filter stage is the internal search alone |
| Table.TableComponent.ExternalControls | src/app/components/table/table.component.ts:95-118 | without external controls the internal search decides the rows; with an external query the internal one has no effect |
| Table.TableComponent.CollectIds | src/app/components/table/table.component.ts:56-59 | the loop builds the duplicate-free id set of the rows |
| Table.TableComponent.EffectiveSelectedRows | src/app/components/table/table.component.ts:50-62 | the effective selection is the external rows' ids when given, otherwise the internal set |
| Table.TableComponent.IsRowSelected | src/app/components/table/table.component.ts:274-278 | without `selectedRows` a row is selected exactly when its id is in the internal set; with it, a row is selected exactly when some given row has its id, so every given row is selected |
| Table.TableComponent.TotalSelectedCount | src/app/components/table/table.component.ts:405-419 | the loop counts the data rows whose id is selected, at most the number of data rows |
| Table.TableComponent.EmitSelectionChange | src/app/components/table/table.component.ts:380-397 | the loop emits the first row for each resolvable selected id, in selection order, each row once |
| Table.TableComponent.OnSort | src/app/components/table/table.component.ts:195-216 | the sort state takes the next step of the cycle and nothing else changes |
| Table.TableComponent.OnSearchChange | src/app/components/table/table.component.ts:254-256 | only the internal query changes |
| Table.TableComponent.ClearSearch | src/app/components/table/table.component.ts:258-260 | only the internal query changes, to empty |
| Table.TableComponent.ToggleRowSelection | src/app/components/table/table.component.ts:280-305 | the toggled selection is written to the internal set only when `selectedRows` is not given, and its rows are emitted |
| Table.TableComponent.ToggleSelectAll | src/app/components/table/table.component.ts:307-339 | outside multiple mode nothing changes and nothing is emitted; otherwise the select-all toggle is written (when uncontrolled) and emitted |
| Table.TableComponent.SelectAll | src/app/components/table/table.component.ts:421-442 | outside multiple mode nothing happens; otherwise the visible rows' ids are written (when uncontrolled) and emitted |
| Table.TableComponent.DeselectAll | src/app/components/table/table.component.ts:444-458 | outside multiple mode nothing happens; otherwise the empty selection is written (when uncontrolled) and nothing is emitted as selected |
| Table.TableComponent.Visible | src/app/components/table/table.component.ts:65-93 | every shown column is visible |
| Table.TableComponent.ToggleColumnVisibility | src/app/components/table/table.component.ts:466-472 | only the visibility map changes, by the toggle |
| Table.TableComponent.RunColumnEffect | src/app/components/table/table.component.ts:159-180 | the effect's loop fills missing visibility entries and an empty order, and changes nothing else |
| Table.TableComponent.OnDragStart | src/app/components/table/table.component.ts:510-516 | only the dragged index changes |
| Table.TableComponent.OnDragOver | src/app/components/table/table.component.ts:518-528 | the over-index moves only while another column is dragged, and never to the dragged index |
| Table.TableComponent.OnDragEnter | src/app/components/table/table.component.ts:530-536 | the same rule as drag-over |
| Table.TableComponent.OnDragLeave | src/app/components/table/table.component.ts:538-544 | the over-index is cleared unless the mouse moves onto another picker item |
| Table.TableComponent.OnDrop | src/app/components/table/table.component.ts:546-563 | a drop of a dragged column elsewhere moves its key there; a drop without a drag or on itself leaves the order; both indices end null |
| Table.TableComponent.OnDragEnd | src/app/components/table/table.component.ts:565-568 | both drag indices become null and nothing else changes |
| Table.TableComponent.ShouldShowDropIndicator | src/app/components/table/table.component.ts:570-584 | an indicator shows only at the over-index and only while a column is dragged |
| Demo.ActiveFilter | src/app/app.ts:22-27 | the filter is defined exactly when the active-only flag is set |
| Demo.ActiveFilterAccepts | src/app/app.ts:84-89 | the filter accepts exactly the users whose status is active |
| Demo.UserIdentifier | src/app/app.ts:134 | a row is identified by its `id` field |
| Demo.UserIdentifierDistinguishes | src/app/app.ts:134 | users with different ids have different identities in the table |
| Demo.HasPendingChanges | src/app/app.ts:111-116 | there are pending changes exactly when applying would change the filter values |
| Demo.Apply | src/app/app.ts:99-102 | after applying there are no pending changes and the pending values are kept |
| Demo.Reset | src/app/app.ts:104-109 | after a reset there are no pending changes and no applied filter |
| Demo.EditPending | src/app/app.ts:91-97 | a pending edit touches neither the applied values nor the pending flag |
| Demo.ApplySound | src/app/app.ts:99-116 | applying is idempotent, and it changes nothing exactly when there are no pending changes |
| Demo.FlagThenApply | src/app/app.ts:77-116 | after setting the pending flag there are pending changes exactly when the query or the new flag differs from the applied ones; applying then turns the table's filter on exactly when the flag is set |
| Demo.EditThenApply | src/app/app.ts:91-116 | after an edit there are pending changes exactly when the query or the flag differs from the applied ones; applying then hands the edited query on |
| Demo.JoinCommaSound | src/app/app.ts:122-124 | `join(', ')` of no parts is empty; otherwise the text is as long as the parts plus two characters per separator, each part sits at its offset, and `", "` stands before every part after the first |
| Demo.SelectedUserNames | src/app/app.ts:122-124 | no selection reads as the empty text; otherwise each selected name appears at its offset, in order, with `", "` between each two and no other character |
| Demo.OneSelectedUserName | src/app/app.ts:122-124 | a single selected user reads as its name alone |
| Demo.FirstSelected | src/app/app.ts:130-132 | the single selection is the first emitted user, or undefined for an empty list |
| Demo.App.constructor | src/app/app.ts:14-120 | the demo starts with empty queries, flags off and nothing selected |
| Demo.App.OnExternalSearchChange | src/app/app.ts:67-69 | only the external query changes |
| Demo.App.ClearExternalSearch | src/app/app.ts:71-73 | only the external query changes, to empty |
| Demo.App.ExternalFilter | src/app/app.ts:22-27 | a filter exactly when `showActiveOnly` is set, accepting exactly the active users |
| Demo.App.AppliedExternalFilter | src/app/app.ts:84-89 | a filter exactly when the applied flag is set, accepting exactly the active users |
| Demo.App.SetShowActiveOnly | src/app/app.ts:19 | only `showActiveOnly` changes, and the external filter is present exactly when it is set |
| Demo.App.SetPendingShowActiveOnly | src/app/app.ts:77 | only the pending flag changes; whether the table receives a filter does not |
| Demo.App.OnPendingSearchChange | src/app/app.ts:91-93 | only the pending query changes; the applied values do not |
| Demo.App.ClearPendingSearch | src/app/app.ts:95-97 | only the pending query changes, to empty |
| Demo.App.ApplyFilters | src/app/app.ts:99-102 | the applied values become the pending ones, so there are no pending changes |
| Demo.App.ResetFilters | src/app/app.ts:104-109 | all four filter values reset, so there are no pending changes and no applied filter |
| Demo.App.OnSelectionChange | src/app/app.ts:126-128 | only the selected users change |
| Demo.App.OnSingleSelectionChange | src/app/app.ts:130-132 | only the single selection changes, to the first emitted user or undefined |

## Left out

- The HTTP client in `src/app/services/posts.service.ts` is not part of this model. It is an asynchronous network call.
- The fixture users in `src/app/data/dummy-data.ts` are not modelled. `App` takes its users as a constructor argument.
- The Angular `cellTemplate` of a column, the templates, and the `showColumnPicker` toggles (`toggleColumnPicker`, `closeColumnPicker`) are not modelled. They are rendering only.
- `console.log` in the effect is not modelled.
- Signal and effect scheduling is not modelled. Computed values are functions of the fields, and the effect's body is the method `RunColumnEffect`, which a caller runs explicitly.
- There is no method for a parent changing an input. The inputs are constructor arguments.
- `DragEvent` and `dataTransfer` handling, and `preventDefault`, are left out. `onDragLeave`'s `relatedTarget.classList` test becomes a boolean parameter.
- `localeCompare` is modelled as code-point order, and `toLowerCase` as ASCII case mapping. These stand in for locale-dependent and Unicode behaviour.
- `String(date)` and `toLocaleDateString()` become fixed renderings: `"Date "` followed by the epoch milliseconds, and the day number. The real text depends on time zone and locale.
- Numbers and date instants are integers. JavaScript floating point is not modelled.
- Rows are values. Identity by reference, when no `rowIdentifier` is given, is modelled as equality of the row's contents.
- A nested path through a primitive value (for example a property of a string) reads as undefined.
- `Table.TableComponent.OnDrop` requires the dragged index to be an index of the order list when a move happens. The source splices regardless. For an index past the end, the source would insert `undefined` into the order, which the model cannot hold in a list of keys.
- `Sorting.SortSorted`, `Sorting.SortStable` and `Pipeline.SortStageOneKind` state full sortedness and stability only when the comparator is transitive on the rows (for example, one kind of value in the column). With mixed kinds the comparator of the source is not a total order, and the model then proves only that neighbouring rows are in order and that nulls come last.
- `getRowId` (lines 399-402) is the one-line lookup `Selection.RowId`, without a contract of its own.
- On a sort column holding mixed kinds of values, the comparator of the source is not consistent, and ECMAScript then leaves the order of `Array.prototype.sort` implementation-defined. There, `Sorting.SortNullsLast`, `Sorting.SortOrdered` and `Pipeline.SortStageSound` describe the insertion sort of the model, not a promise of the source. Only the permutation property (`Sorting.SortPermutes`) holds of every implementation.
- The single-mode bound in `TableComponent.Valid` (at most one internal id) holds because the inputs never change. A parent that switched `selectionMode` from multiple to single would leave several ids in the source's internal set.
- The template `src/app/app.html` is not part of this model. Its two active-only checkboxes write the signals `showActiveOnly` and `pendingShowActiveOnly`; each binding is modelled as a setter method, `Demo.App.SetShowActiveOnly` and `Demo.App.SetPendingShowActiveOnly`. `ResetFilters` also clears `pendingShowActiveOnly`.

## Findings

| source | as written | input that shows it | evidently intended | confidence | as-written member | corrected member |
|---|---|---|---|---|---|---|
| src/app/components/table/table.component.ts:132 | the comparator answers 1 whenever the first value is null or undefined, also when both are | two rows whose sort-key values are both null: `compare(a, b)` and `compare(b, a)` are both 1 | two null values compare as equal (0), so the comparator is consistent and the sort keeps their order | not executed | Sorting.CompareAsWrittenNullsInconsistent | Sorting.CompareAntisymmetric |
