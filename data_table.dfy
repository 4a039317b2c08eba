/**
 * The DataTable component's state (DataTable.tsx lines 35-150): the props it
 * is rendered with, the `sortState` and `selectedRows` it holds, and the
 * header-click, select-all and row-toggle handlers. Each handler updates the
 * fields and returns the list it would pass to `onRowSelect`.
 */
module DataTableComponent {
  import opened Wrappers
  import opened TableSort
  import opened TableSelection

  class DataTable {
    const data: seq<Record>
    const columns: seq<Column>
    const rowKey: RowKeyConfig
    var sortState: SortState
    var selectedRows: set<Key>

    /** The sort state keeps its key null exactly when its direction is. */
    ghost predicate Valid()
      reads this
    {
      WellFormed(sortState)
    }

    /** Mounting: nothing sorted and nothing selected. */
    constructor (data: seq<Record>, columns: seq<Column>, rowKey: RowKeyConfig)
      ensures Valid()
      ensures this.data == data && this.columns == columns && this.rowKey == rowKey
      ensures sortState == Unsorted && selectedRows == {}
    {
      this.data := data;
      this.columns := columns;
      this.rowKey := rowKey;
      sortState := Unsorted;
      selectedRows := {};
    }

    /** `sortedData` for the current state. */
    function Displayed(): seq<Record>
      reads this`sortState
    {
      DisplayOrder(data, columns, sortState)
    }

    /** The header checkbox is checked. */
    function AllSelected(): bool
      reads this`sortState, this`selectedRows
    {
      IsAllSelected(Displayed(), selectedRows)
    }

    /** The header checkbox shows its partial mark. */
    function Indeterminate(): bool
      reads this`sortState, this`selectedRows
    {
      IsIndeterminate(Displayed(), selectedRows)
    }

    /** `handleSort(column)`: a header click; the selection is untouched. */
    method HandleSort(column: Column)
      requires Valid()
      modifies this`sortState
      ensures Valid()
      ensures sortState == NextSortState(old(sortState), column)
      ensures !column.sortable ==> sortState == old(sortState)
    {
      NextSortStatePreservesWellFormed(sortState, column);
      sortState := NextSortState(sortState, column);
    }

    /** `handleSelectAll(checked)`: every displayed key, or none. The emitted
        list is the whole display, or empty, and in both cases it is what the
        filter of `handleRowSelect` would report for the new set. After
        checking, the header shows "all selected" exactly when the displayed
        keys are distinct, and "indeterminate" when two displayed rows share a
        key. */
    method HandleSelectAll(checked: bool) returns (emitted: seq<Record>)
      requires Valid()
      modifies this`selectedRows
      ensures Valid()
      ensures checked ==> selectedRows == AllKeys(rowKey, Displayed()) && emitted == Displayed()
      ensures !checked ==> selectedRows == {} && emitted == []
      ensures emitted == SelectedData(rowKey, Displayed(), selectedRows)
      ensures checked ==> (AllSelected() <==> |Displayed()| > 0 && DistinctKeys(rowKey, Displayed()))
      ensures checked ==> (Indeterminate() <==> |Displayed()| > 0 && !DistinctKeys(rowKey, Displayed()))
      ensures !checked ==> !AllSelected() && !Indeterminate()
      ensures sortState == old(sortState)
    {
      var shown := Displayed();
      if checked {
        selectedRows := AllKeys(rowKey, shown);
        emitted := shown;
        assert emitted == SelectedData(rowKey, shown, selectedRows) by {
          SelectAllReportsDisplayed(rowKey, shown);
        }
        assert && (IsAllSelected(shown, selectedRows) <==> |shown| > 0 && DistinctKeys(rowKey, shown))
               && (IsIndeterminate(shown, selectedRows) <==> |shown| > 0 && !DistinctKeys(rowKey, shown)) by {
          SelectAllIndicators(rowKey, shown);
        }
      } else {
        selectedRows := {};
        emitted := [];
        assert emitted == SelectedData(rowKey, shown, selectedRows) by {
          SelectAllReportsDisplayed(rowKey, shown);
        }
        IndicatorsExclusive(shown, {});
      }
    }

    /** `handleRowSelect(record, index, checked)`: the row's key is added or
        removed, no other key changes, and the emitted list is the displayed
        rows whose key is now selected, in display order. */
    method HandleRowSelect(record: Record, index: nat, checked: bool) returns (emitted: seq<Record>)
      requires Valid()
      modifies this`selectedRows
      ensures Valid()
      ensures selectedRows == Toggle(old(selectedRows), RowKey(rowKey, record, index), checked)
      ensures emitted == SelectedData(rowKey, Displayed(), selectedRows)
      ensures sortState == old(sortState)
    {
      var key := RowKey(rowKey, record, index);
      selectedRows := Toggle(selectedRows, key, checked);
      emitted := SelectedData(rowKey, Displayed(), selectedRows);
    }
  }

  /** Toggling the same row to the same value twice leaves the same selection
      and emits the same list both times. */
  method ToggleTwice(t: DataTable, record: Record, index: nat, checked: bool) returns (first: seq<Record>, second: seq<Record>)
    requires t.Valid()
    modifies t
    ensures t.Valid()
    ensures first == second
    ensures t.selectedRows == Toggle(old(t.selectedRows), RowKey(t.rowKey, record, index), checked)
    ensures t.sortState == old(t.sortState)
  {
    first := t.HandleRowSelect(record, index, checked);
    ToggleIdempotent(old(t.selectedRows), RowKey(t.rowKey, record, index), checked);
    second := t.HandleRowSelect(record, index, checked);
  }

  /** Three clicks on a sortable header from the mounted state restore the
      original display order. */
  method ThreeClicks(t: DataTable, column: Column)
    requires t.Valid() && t.sortState == Unsorted && column.sortable
    modifies t
    ensures t.Valid() && t.sortState == Unsorted && t.Displayed() == t.data
    ensures t.selectedRows == old(t.selectedRows)
  {
    ThreeClicksRestore(t.data, t.columns, t.sortState, column);
    t.HandleSort(column);
    t.HandleSort(column);
    t.HandleSort(column);
  }
}
