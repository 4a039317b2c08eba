/**
 * Worked examples on concrete records. Names are coded as numbers
 * ("A" = 1, "B" = 2, "C" = 3) since the model has one value type.
 */
module TableExamples {
  import opened Wrappers
  import opened TableSort
  import opened TableSelection

  const RowB: Record := map["id" := 1, "name" := 2]
  const RowA: Record := map["id" := 2, "name" := 1]
  const RowC: Record := map["id" := 3, "name" := 3]
  const NameColumn: Column := Column("name", "Name", "name", true)

  lemma NamesOfRows()
    ensures Project(RowA, "name") == Some(1) && Project(RowB, "name") == Some(2) && Project(RowC, "name") == Some(3)
  {
  }

  lemma SortAscExample()
    ensures SortBy(Asc, "name", [RowB, RowA, RowC]) == [RowA, RowB, RowC]
  {
    NamesOfRows();
    var inner := SortBy(Asc, "name", [RowA, RowC]);
    assert inner == [RowA, RowC] by {
      assert [RowA, RowC][1..] == [RowC] && [RowC][1..] == [];
      assert SortBy(Asc, "name", [RowC]) == [RowC];
      assert Insert(Asc, "name", RowA, [RowC]) == [RowA, RowC];
    }
    assert Insert(Asc, "name", RowB, [RowC]) == [RowB, RowC];
    assert Insert(Asc, "name", RowB, [RowA, RowC]) == [RowA, RowB, RowC] by {
      assert [RowA, RowC][1..] == [RowC];
    }
    assert [RowB, RowA, RowC][1..] == [RowA, RowC];
  }

  lemma SortDescExample()
    ensures SortBy(Desc, "name", [RowB, RowA, RowC]) == [RowC, RowB, RowA]
  {
    NamesOfRows();
    var inner := SortBy(Desc, "name", [RowA, RowC]);
    assert inner == [RowC, RowA] by {
      assert [RowA, RowC][1..] == [RowC] && [RowC][1..] == [];
      assert SortBy(Desc, "name", [RowC]) == [RowC];
      assert Insert(Desc, "name", RowA, []) == [RowA];
      assert Insert(Desc, "name", RowA, [RowC]) == [RowC, RowA];
    }
    assert Insert(Desc, "name", RowB, [RowA]) == [RowB, RowA];
    assert Insert(Desc, "name", RowB, [RowC, RowA]) == [RowC, RowB, RowA] by {
      assert [RowC, RowA][1..] == [RowA];
    }
    assert [RowB, RowA, RowC][1..] == [RowA, RowC];
  }

  /** Clicking the name header once sorts ascending, twice descending, and a
      third time restores the original order. */
  lemma SortCycleExample()
    ensures DisplayOrder([RowB, RowA, RowC], [NameColumn], NextSortState(Unsorted, NameColumn)) == [RowA, RowB, RowC]
    ensures DisplayOrder([RowB, RowA, RowC], [NameColumn],
              NextSortState(NextSortState(Unsorted, NameColumn), NameColumn)) == [RowC, RowB, RowA]
    ensures DisplayOrder([RowB, RowA, RowC], [NameColumn],
              NextSortState(NextSortState(NextSortState(Unsorted, NameColumn), NameColumn), NameColumn)) == [RowB, RowA, RowC]
  {
    var st1 := NextSortState(Unsorted, NameColumn);
    var st2 := NextSortState(st1, NameColumn);
    var st3 := NextSortState(st2, NameColumn);
    assert st1 == SortState(Some("name"), Some(Asc));
    assert st2 == SortState(Some("name"), Some(Desc));
    assert st3 == Unsorted;
    assert FindColumn([NameColumn], "name") == Some(NameColumn);
    assert ActiveSort([NameColumn], st1) == Some((Asc, "name"));
    assert ActiveSort([NameColumn], st2) == Some((Desc, "name"));
    SortAscExample();
    SortDescExample();
  }

  /** In the unsorted display, checking id 2 and then id 1 reports id 1 first:
      rows are reported in display order, here the reverse of the click order;
      unchecking id 2 leaves id 1. */
  lemma SelectionExample()
    ensures var rows := [RowB, RowA, RowC];
      var sel := Toggle(Toggle({}, 2, true), 1, true);
      && SelectedData(DefaultRowKey, rows, sel) == [RowB, RowA]
      && SelectedData(DefaultRowKey, rows, Toggle(sel, 2, false)) == [RowB]
  {
    var rows := [RowB, RowA, RowC];
    var sel := Toggle(Toggle({}, 2, true), 1, true);
    assert sel == {1, 2};
    assert SelectedDataFrom(DefaultRowKey, rows, sel, 3) == [];
    assert SelectedDataFrom(DefaultRowKey, rows, sel, 2) == [];
    assert SelectedDataFrom(DefaultRowKey, rows, sel, 1) == [RowA];
    assert SelectedDataFrom(DefaultRowKey, rows, sel, 0) == [RowB, RowA];
    var sel' := Toggle(sel, 2, false);
    assert sel' == {1};
    assert SelectedDataFrom(DefaultRowKey, rows, sel', 2) == [];
    assert SelectedDataFrom(DefaultRowKey, rows, sel', 1) == [];
    assert SelectedDataFrom(DefaultRowKey, rows, sel', 0) == [RowB];
  }

  /** Because `record[rowKey] || index` also falls back on a value of 0, a
      record whose id is 0 shown at position 1 takes the key 1, which is also
      the id of the record at position 0: checking the first row reports both. */
  lemma FalsyIdCollisionExample()
    ensures var rows := [map["id" := 1], map["id" := 0]];
      && !DistinctKeys(DefaultRowKey, rows)
      && SelectedData(DefaultRowKey, rows, Toggle({}, RowKey(DefaultRowKey, rows[0], 0), true)) == rows
  {
    var rows: seq<Record> := [map["id" := 1], map["id" := 0]];
    assert RowKey(DefaultRowKey, rows[0], 0) == 1 == RowKey(DefaultRowKey, rows[1], 1);
    SelectedAllFrom(DefaultRowKey, rows, {1}, 0);
  }
}
