/** The table component (table.component.ts): its inputs and signals as the fields of
    a class, the computed values as functions of those fields, and the event handlers as
    methods that update the signals. An emitted `selectionChange` event is returned as an
    out-parameter. */
module Table {
  import opened Options
  import opened Values
  import opened Seqs
  import opened Search
  import opened Sorting
  import opened Pipeline
  import opened Selection
  import opened Columns

  /** `getCellValue(row, column)` (lines 225-232): a date cell is displayed as its
      `toLocaleDateString()` text, any other value as it is. The text a cell is searched in
      is the lower-cased rendering of what it displays. */
  function CellValue(row: Row, column: Column): (v: Value)
    ensures !v.Date?
    ensures SearchText(GetNestedValue(row, column.key)) == Lower(Render(v))
    ensures (v == Null) == (GetNestedValue(row, column.key) == Null)
  {
    var value := GetNestedValue(row, column.key);
    if value.Date? then Str(LocaleDateString(value.time)) else value
  }

  /** Every field of the component at one instant. */
  datatype TableState = TableState(
    data: seq<Row>, columns: seq<Column>, selectionMode: SelectionMode,
    rowIdentifier: Option<Row -> Value>, selectedRows: Option<seq<Row>>,
    externalSearchQuery: Option<string>, externalFilter: Option<Row -> bool>,
    searchQuery: string, sortColumn: Option<string>, sortDirection: Option<Direction>,
    internalSelectedRows: seq<Key>, columnVisibility: map<string, bool>, columnOrder: seq<string>,
    draggedColumnIndex: Option<nat>, dragOverColumnIndex: Option<nat>)

  class TableComponent {
    // Inputs, set by the parent.
    var data: seq<Row>
    var columns: seq<Column>
    var selectionMode: SelectionMode
    var rowIdentifier: Option<Row -> Value>
    var selectedRows: Option<seq<Row>>
    var externalSearchQuery: Option<string>
    var externalFilter: Option<Row -> bool>

    // Signals, owned by the component.
    var searchQuery: string
    var sortColumn: Option<string>
    var sortDirection: Option<Direction>
    var internalSelectedRows: seq<Key>
    var columnVisibility: map<string, bool>
    var columnOrder: seq<string>
    var draggedColumnIndex: Option<nat>
    var dragOverColumnIndex: Option<nat>

    ghost function State(): TableState
      reads this
    {
      TableState(data, columns, selectionMode, rowIdentifier, selectedRows, externalSearchQuery,
                 externalFilter, searchQuery, sortColumn, sortDirection, internalSelectedRows,
                 columnVisibility, columnOrder, draggedColumnIndex, dragOverColumnIndex)
    }

    /** The sort column and direction are set together; the internal selection holds each
        id once, and at most one id in single mode; an over-index is recorded only while a
        column is dragged. */
    ghost predicate Valid()
      reads this
    {
      Consistent(SortState(sortColumn, sortDirection)) &&
      NoDup(internalSelectedRows) &&
      (selectionMode == ModeSingle ==> |internalSelectedRows| <= 1) &&
      (dragOverColumnIndex.Some? ==> draggedColumnIndex.Some?)
    }

    /** A new component with the given inputs and every signal at its initial value. */
    constructor(data: seq<Row>, columns: seq<Column>, selectionMode: SelectionMode,
                rowIdentifier: Option<Row -> Value>, selectedRows: Option<seq<Row>>,
                externalSearchQuery: Option<string>, externalFilter: Option<Row -> bool>)
      ensures Valid()
      ensures State() == TableState(data, columns, selectionMode, rowIdentifier, selectedRows,
                                    externalSearchQuery, externalFilter, "", None, None, [],
                                    map[], [], None, None)
    {
      this.data := data;
      this.columns := columns;
      this.selectionMode := selectionMode;
      this.rowIdentifier := rowIdentifier;
      this.selectedRows := selectedRows;
      this.externalSearchQuery := externalSearchQuery;
      this.externalFilter := externalFilter;
      searchQuery := "";
      sortColumn := None;
      sortDirection := None;
      internalSelectedRows := [];
      columnVisibility := map[];
      columnOrder := [];
      draggedColumnIndex := None;
      dragOverColumnIndex := None;
    }

    // ------------------------------------------------------------ computed values

    function Sort(): SortState
      reads this
    {
      SortState(sortColumn, sortDirection)
    }

    /** `filteredAndSortedData()`. */
    function Displayed(): (r: seq<Row>)
      reads this
      ensures |r| <= |data|
    {
      FilteredAndSortedData(data, columns, externalFilter, externalSearchQuery, searchQuery, Sort())
    }

    /** `effectiveSelectedRows()`. */
    function Effective(): (r: seq<Key>)
      reads this
      ensures Valid() ==> NoDup(r)
    {
      EffectiveSelection(selectedRows, rowIdentifier, internalSelectedRows)
    }

    /** `isExternalControlActive()` (lines 263-265). */
    predicate IsExternalControlActive()
      reads this
      ensures !IsExternalControlActive() ==>
              FilterStage(data, columns, externalFilter, externalSearchQuery, searchQuery) ==
              ApplySearch(data, columns, NormalizeQuery(searchQuery))
    {
      externalSearchQuery.Some? || externalFilter.Some?
    }

    /** Without external controls the displayed rows are the internal search's result,
        sorted; with an external query the internal query has no effect. */
    lemma ExternalControls(otherQuery: string)
      ensures !IsExternalControlActive() ==>
              Displayed() == SortStage(ApplySearch(data, columns, NormalizeQuery(searchQuery)), Sort())
      ensures externalSearchQuery.Some? ==>
              Displayed() == FilteredAndSortedData(data, columns, externalFilter, externalSearchQuery,
                                                   otherQuery, Sort())
    {
      if externalSearchQuery.Some? {
        ExternalQueryOverrides(data, columns, externalFilter, externalSearchQuery.value, searchQuery, otherQuery);
      }
    }

    /** The ids of some rows in a new `Set`, added in row order (the `forEach` loops at
        lines 56-59 and 325-328, and at 430-433). */
    method CollectIds(rows: seq<Row>) returns (ids: seq<Key>)
      ensures ids == IdsOf(rowIdentifier, rows)
      ensures NoDup(ids)
    {
      ids := [];
      var i := 0;
      while i < |rows|
        invariant 0 <= i <= |rows|
        invariant ids == IdsOf(rowIdentifier, rows[..i])
      {
        assert rows[..i + 1][..i] == rows[..i];
        ids := AddKey(ids, RowId(rowIdentifier, rows[i]));
        i := i + 1;
      }
      assert rows[..|rows|] == rows;
      IdsOfSound(rowIdentifier, rows);
    }

    /** `effectiveSelectedRows` (lines 50-62). */
    method EffectiveSelectedRows() returns (ids: seq<Key>)
      requires Valid()
      ensures ids == Effective()
      ensures NoDup(ids)
    {
      if selectedRows.Some? {
        ids := CollectIds(selectedRows.value);
      } else {
        ids := internalSelectedRows;
      }
    }

    /** `isRowSelected(row)` (lines 273-277). */
    predicate IsRowSelected(row: Row)
      reads this
      ensures selectedRows.None? ==> (IsRowSelected(row) <==> RowId(rowIdentifier, row) in internalSelectedRows)
      ensures selectedRows.Some? && row in selectedRows.value ==> IsRowSelected(row)
      ensures selectedRows.Some? ==>
                (IsRowSelected(row) <==>
                 exists i :: 0 <= i < |selectedRows.value| &&
                   RowId(rowIdentifier, selectedRows.value[i]) == RowId(rowIdentifier, row))
    {
      if selectedRows.Some? then
        IdsOfSound(rowIdentifier, selectedRows.value);
        RowId(rowIdentifier, row) in Effective()
      else RowId(rowIdentifier, row) in Effective()
    }

    /** `totalSelectedCount` (lines 405-419): the rows of all the data, not only the
        displayed ones, whose id is selected. */
    method TotalSelectedCount() returns (count: nat)
      requires Valid()
      ensures count == CountSelected(rowIdentifier, data, Effective())
      ensures count <= |data|
    {
      var selectedIds := EffectiveSelectedRows();
      count := 0;
      var i := 0;
      while i < |data|
        invariant 0 <= i <= |data|
        invariant count == CountSelected(rowIdentifier, data[..i], selectedIds)
      {
        assert data[..i + 1][..i] == data[..i];
        if RowId(rowIdentifier, data[i]) in selectedIds {
          count := count + 1;
        }
        i := i + 1;
      }
      assert data[..|data|] == data;
    }

    /** The rows `emitSelectionChange(ids)` emits (lines 380-397). */
    method EmitSelectionChange(ids: seq<Key>) returns (rows: seq<Row>)
      ensures rows == EmittedRows(rowIdentifier, data, ids)
      ensures IdsOfRows(rowIdentifier, rows) == ResolvingIds(rowIdentifier, data, ids)
      ensures NoDup(ids) ==> NoDup(rows)
    {
      rows := [];
      var i := 0;
      while i < |ids|
        invariant 0 <= i <= |ids|
        invariant rows == EmittedRows(rowIdentifier, data, ids[..i])
      {
        assert ids[..i + 1][..i] == ids[..i];
        var row := FindRow(rowIdentifier, data, ids[i]);
        if row.Some? {
          rows := rows + [row.value];
        }
        i := i + 1;
      }
      assert ids[..|ids|] == ids;
      EmittedRowsSound(rowIdentifier, data, ids);
      if NoDup(ids) {
        EmittedRowsDistinct(rowIdentifier, data, ids);
      }
    }

    // ------------------------------------------------------------ sorting and search

    /** `onSort(column)` (lines 195-216). */
    method OnSort(column: Column)
      requires Valid()
      modifies this
      ensures Valid()
      ensures Sort() == NextSort(old(Sort()), column)
      ensures State() == old(State()).(sortColumn := sortColumn, sortDirection := sortDirection)
    {
      SortCycle(Sort(), column);
      var next := NextSort(Sort(), column);
      sortColumn := next.column;
      sortDirection := next.direction;
    }

    /** `onSearchChange(value)` (lines 254-256). */
    method OnSearchChange(value: string)
      requires Valid()
      modifies this
      ensures Valid()
      ensures State() == old(State()).(searchQuery := value)
    {
      searchQuery := value;
    }

    /** `clearSearch()` (lines 258-260). */
    method ClearSearch()
      requires Valid()
      modifies this
      ensures Valid()
      ensures State() == old(State()).(searchQuery := "")
    {
      searchQuery := "";
    }

    // ------------------------------------------------------------ selection

    /** The internal selection after a command computed `selected`: it is written only
        when the selection is not controlled by the `selectedRows` input. */
    ghost function Written(selected: seq<Key>): TableState
      reads this
    {
      State().(internalSelectedRows := if selectedRows.None? then selected else internalSelectedRows)
    }

    /** `toggleRowSelection(row)` (lines 280-305). */
    method ToggleRowSelection(row: Row) returns (emitted: seq<Row>)
      requires Valid()
      modifies this
      ensures Valid()
      ensures var selected := ToggleRow(old(selectionMode), old(Effective()), RowId(rowIdentifier, row));
              State() == old(Written(selected)) &&
              emitted == EmittedRows(rowIdentifier, data, selected)
    {
      var id := RowId(rowIdentifier, row);
      var current := EffectiveSelectedRows();
      var selected := ToggleRow(selectionMode, current, id);
      ToggleRowSound(selectionMode, current, id);
      if selectedRows.None? {
        internalSelectedRows := selected;
      }
      emitted := EmitSelectionChange(selected);
    }

    /** `toggleSelectAll()` (lines 307-339): nothing happens and nothing is emitted unless
        the mode is 'multiple'. */
    method ToggleSelectAll() returns (emitted: Option<seq<Row>>)
      requires Valid()
      modifies this
      ensures Valid()
      ensures old(selectionMode) != ModeMultiple ==> emitted == None && State() == old(State())
      ensures old(selectionMode) == ModeMultiple ==>
              var selected := ToggleAll(rowIdentifier, old(Displayed()), old(Effective()));
              State() == old(Written(selected)) &&
              emitted == Some(EmittedRows(rowIdentifier, data, selected))
    {
      if selectionMode != ModeMultiple {
        return None;
      }
      var current := EffectiveSelectedRows();
      var allRows := Displayed();
      var allSelected := |allRows| > 0 &&
                         forall i :: 0 <= i < |allRows| ==> RowId(rowIdentifier, allRows[i]) in current;
      var selected: seq<Key> := [];
      if !allSelected {
        selected := CollectIds(allRows);
      }
      assert selected == ToggleAll(rowIdentifier, allRows, current);
      ghost var target := Written(selected);
      if selectedRows.None? {
        internalSelectedRows := selected;
      }
      assert State() == target;
      var rows := EmitSelectionChange(selected);
      emitted := Some(rows);
    }

    /** `selectAll()` (lines 421-442). */
    method SelectAll() returns (emitted: Option<seq<Row>>)
      requires Valid()
      modifies this
      ensures Valid()
      ensures old(selectionMode) != ModeMultiple ==> emitted == None && State() == old(State())
      ensures old(selectionMode) == ModeMultiple ==>
              var selected := IdsOf(rowIdentifier, old(Displayed()));
              State() == old(Written(selected)) &&
              emitted == Some(EmittedRows(rowIdentifier, data, selected))
    {
      if selectionMode != ModeMultiple {
        return None;
      }
      var shown := Displayed();
      var selected := CollectIds(shown);
      ghost var target := Written(selected);
      if selectedRows.None? {
        internalSelectedRows := selected;
      }
      assert State() == target;
      var rows := EmitSelectionChange(selected);
      emitted := Some(rows);
    }

    /** `deselectAll()` (lines 444-458). */
    method DeselectAll() returns (emitted: Option<seq<Row>>)
      requires Valid()
      modifies this
      ensures Valid()
      ensures old(selectionMode) != ModeMultiple ==> emitted == None && State() == old(State())
      ensures old(selectionMode) == ModeMultiple ==>
              State() == old(Written([])) && emitted == Some([])
    {
      if selectionMode != ModeMultiple {
        return None;
      }
      if selectedRows.None? {
        internalSelectedRows := [];
      }
      var rows := EmitSelectionChange([]);
      emitted := Some(rows);
    }

    // ------------------------------------------------------------ columns

    /** `visibleColumns()`. */
    function Visible(): (r: seq<Column>)
      reads this
      ensures forall i :: 0 <= i < |r| ==> IsColumnVisible(columnVisibility, r[i].key)
    {
      VisibleColumns(columns, columnVisibility, columnOrder)
    }

    /** `toggleColumnVisibility(key)` (lines 466-472). */
    method ToggleColumnVisibility(key: string)
      requires Valid()
      modifies this
      ensures Valid()
      ensures State() == old(State()).(columnVisibility := ToggleVisibility(old(columnVisibility), key))
    {
      var current := IsColumnVisible(columnVisibility, key);
      columnVisibility := columnVisibility[key := !current];
    }

    /** The body of the constructor's effect (lines 159-180): give every column without
        a visibility entry the entry `true`, and fill an empty order with the column keys. */
    method RunColumnEffect()
      requires Valid()
      modifies this
      ensures Valid()
      ensures State() == old(State()).(columnVisibility := InitVisibility(old(columnVisibility), columns),
                                      columnOrder := InitOrder(old(columnOrder), columns))
    {
      ghost var target := State().(columnVisibility := InitVisibility(columnVisibility, columns),
                                   columnOrder := InitOrder(columnOrder, columns));
      var cols, visibility := columns, columnVisibility;
      var needsInit := exists i :: 0 <= i < |cols| && cols[i].key !in visibility;
      if needsInit {
        var newVisibility := visibility;
        var i := 0;
        while i < |cols|
          invariant 0 <= i <= |cols|
          invariant newVisibility == InitVisibility(visibility, cols[..i])
        {
          assert cols[..i + 1][..i] == cols[..i];
          if cols[i].key !in newVisibility {
            newVisibility := newVisibility[cols[i].key := true];
          }
          i := i + 1;
        }
        assert cols[..|cols|] == cols;
        columnVisibility := newVisibility;
      } else {
        InitVisibilityComplete(visibility, cols);
      }
      if |columnOrder| == 0 && |cols| > 0 {
        columnOrder := KeysOf(cols);
      }
      assert State() == target;
    }

    // ------------------------------------------------------------ drag and drop

    /** `onDragStart(event, index)` (lines 510-516). */
    method OnDragStart(index: nat)
      requires Valid()
      modifies this
      ensures Valid()
      ensures State() == old(State()).(draggedColumnIndex := Some(index))
    {
      draggedColumnIndex := Some(index);
    }

    /** `onDragOver(event, index)` (lines 518-528). */
    method OnDragOver(index: nat)
      requires Valid()
      modifies this
      ensures Valid()
      ensures State() == old(State()).(dragOverColumnIndex :=
                                         DragOverIndex(old(draggedColumnIndex), old(dragOverColumnIndex), index))
      ensures dragOverColumnIndex != old(dragOverColumnIndex) ==> dragOverColumnIndex != draggedColumnIndex
    {
      var dragIndex := draggedColumnIndex;
      if dragIndex.Some? && dragIndex.value != index {
        dragOverColumnIndex := Some(index);
      }
    }

    /** `onDragEnter(event, index)` (lines 530-536): the same rule as `onDragOver`. */
    method OnDragEnter(index: nat)
      requires Valid()
      modifies this
      ensures Valid()
      ensures State() == old(State()).(dragOverColumnIndex :=
                                         DragOverIndex(old(draggedColumnIndex), old(dragOverColumnIndex), index))
      ensures dragOverColumnIndex != old(dragOverColumnIndex) ==> dragOverColumnIndex != draggedColumnIndex
    {
      var dragIndex := draggedColumnIndex;
      if dragIndex.Some? && dragIndex.value != index {
        dragOverColumnIndex := Some(index);
      }
    }

    /** `onDragLeave(event)` (lines 538-544); `intoPickerItem` says whether the mouse
        moved onto another item of the column picker. */
    method OnDragLeave(intoPickerItem: bool)
      requires Valid()
      modifies this
      ensures Valid()
      ensures State() == old(State()).(dragOverColumnIndex := if intoPickerItem then old(dragOverColumnIndex) else None)
    {
      if !intoPickerItem {
        dragOverColumnIndex := None;
      }
    }

    /** `onDrop(event, dropIndex)` (lines 546-563): a drop of a dragged column on another
        position moves its key there; any drop ends the drag. */
    method OnDrop(dropIndex: nat)
      requires Valid()
      requires draggedColumnIndex.Some? && draggedColumnIndex.value != dropIndex ==>
               draggedColumnIndex.value < |columnOrder|
      modifies this
      ensures Valid()
      ensures var moves := old(draggedColumnIndex).Some? && old(draggedColumnIndex).value != dropIndex;
              State() == old(State()).(columnOrder := if moves then Move(old(columnOrder), old(draggedColumnIndex).value, dropIndex)
                                                      else old(columnOrder),
                                       draggedColumnIndex := None, dragOverColumnIndex := None)
    {
      var dragIndex := draggedColumnIndex;
      if dragIndex.None? || dragIndex.value == dropIndex {
        draggedColumnIndex := None;
        dragOverColumnIndex := None;
        return;
      }
      columnOrder := Move(columnOrder, dragIndex.value, dropIndex);
      draggedColumnIndex := None;
      dragOverColumnIndex := None;
    }

    /** `onDragEnd()` (lines 565-568). */
    method OnDragEnd()
      requires Valid()
      modifies this
      ensures Valid()
      ensures State() == old(State()).(draggedColumnIndex := None, dragOverColumnIndex := None)
    {
      draggedColumnIndex := None;
      dragOverColumnIndex := None;
    }

    /** `shouldShowDropIndicator(index)`. */
    function ShouldShowDropIndicator(index: nat): (r: Option<Indicator>)
      reads this
      ensures r.Some? ==> dragOverColumnIndex == Some(index) && draggedColumnIndex.Some?
    {
      DropIndicator(draggedColumnIndex, dragOverColumnIndex, index)
    }
  }
}
