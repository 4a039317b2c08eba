/**
 * The DataTable's row identities and selection set (DataTable.tsx lines 41,
 * 49-54, 96-123 and 149-150): how a displayed row is keyed, how a toggle and
 * select-all change the set, which rows are reported as selected, and the
 * header checkbox's indicator flags.
 */
module TableSelection {
  import opened Wrappers
  import opened TableSort

  /** A row identity. The source allows a string or a number; the model uses
      the one value type that records hold. */
  type Key = int

  /** `rowKey`: the name of a field, or a function of the record. */
  datatype RowKeyConfig = ByField(name: string) | ByFunction(f: Record -> Key)

  /** The default `rowKey` is the field `id`. */
  const DefaultRowKey: RowKeyConfig := ByField("id")

  /** JavaScript truthiness of a field value: undefined, null and 0 are falsy. */
  predicate Truthy(v: Option<int>) {
    v.Some? && v.value != 0
  }

  /** `getRowKey(record, index)`: the function's result, or else the field's
      value when it is truthy and the display index when it is not. */
  function RowKey(cfg: RowKeyConfig, r: Record, index: nat): Key
  {
    match cfg
    case ByFunction(f) => f(r)
    case ByField(name) => if Truthy(Project(r, name)) then r[name] else index
  }

  /** A row's key depends on its display position exactly when `rowKey` names a
      field whose value in the record is falsy; a function key never looks at
      the index. */
  lemma RowKeyPositionIndependent(cfg: RowKeyConfig, r: Record)
    ensures (forall i: nat, j: nat :: RowKey(cfg, r, i) == RowKey(cfg, r, j)) <==>
            (cfg.ByFunction? || Truthy(Project(r, cfg.name)))
  {
    if cfg.ByField? && !Truthy(Project(r, cfg.name)) {
      assert RowKey(cfg, r, 0) != RowKey(cfg, r, 1);
    }
  }

  /** With the default key, a truthy `id` is the key and a falsy one falls back
      to the display index, so a record whose `id` is 0 at index 2 collides
      with a record whose `id` is 2. */
  lemma DefaultRowKeyFallsBack(r: Record, index: nat)
    ensures "id" in r && r["id"] != 0 ==> RowKey(DefaultRowKey, r, index) == r["id"]
    ensures !("id" in r && r["id"] != 0) ==> RowKey(DefaultRowKey, r, index) == index
    ensures RowKey(DefaultRowKey, map["id" := 0], 2) == RowKey(DefaultRowKey, map["id" := 2], 0)
  {
  }

  /** The first `n` displayed rows have distinct keys. */
  ghost predicate DistinctUpTo(cfg: RowKeyConfig, rows: seq<Record>, n: nat)
    requires n <= |rows|
  {
    forall i, j :: 0 <= i < j < n ==> RowKey(cfg, rows[i], i) != RowKey(cfg, rows[j], j)
  }

  /** Every displayed row has a distinct key. */
  ghost predicate DistinctKeys(cfg: RowKeyConfig, rows: seq<Record>) {
    DistinctUpTo(cfg, rows, |rows|)
  }

  // ---------------------------------------------------------------------------
  // Changing the set
  // ---------------------------------------------------------------------------

  /** The keys of the first `n` displayed rows. */
  function KeysUpTo(cfg: RowKeyConfig, rows: seq<Record>, n: nat): (keys: set<Key>)
    requires n <= |rows|
    ensures forall i :: 0 <= i < n ==> RowKey(cfg, rows[i], i) in keys
  {
    if n == 0 then {} else KeysUpTo(cfg, rows, n - 1) + {RowKey(cfg, rows[n - 1], n - 1)}
  }

  /** Every key in `KeysUpTo` is the key of one of the first `n` rows. */
  lemma {:induction false} KeysUpToWitness(cfg: RowKeyConfig, rows: seq<Record>, n: nat, k: Key) returns (i: nat)
    requires n <= |rows| && k in KeysUpTo(cfg, rows, n)
    ensures i < n && RowKey(cfg, rows[i], i) == k
  {
    if RowKey(cfg, rows[n - 1], n - 1) == k {
      i := n - 1;
    } else {
      i := KeysUpToWitness(cfg, rows, n - 1, k);
    }
  }

  /** `new Set(sortedData.map(getRowKey))`: the set select-all installs. */
  function AllKeys(cfg: RowKeyConfig, rows: seq<Record>): set<Key> {
    KeysUpTo(cfg, rows, |rows|)
  }

  /** `handleRowSelect`'s change to the set: the row's key is added when
      `checked` and removed otherwise; no other key changes. */
  function Toggle(sel: set<Key>, key: Key, checked: bool): (r: set<Key>)
    ensures key in r <==> checked
    ensures forall k :: k != key ==> (k in r <==> k in sel)
  {
    if checked then sel + {key} else sel - {key}
  }

  /** Setting a row to the same value twice gives the same set as once. */
  lemma ToggleIdempotent(sel: set<Key>, key: Key, checked: bool)
    ensures Toggle(Toggle(sel, key, checked), key, checked) == Toggle(sel, key, checked)
  {
  }

  // ---------------------------------------------------------------------------
  // The reported selection
  // ---------------------------------------------------------------------------

  /** The display positions from `from` on whose row key is in `sel`, ascending. */
  function SelectedIndicesFrom(cfg: RowKeyConfig, rows: seq<Record>, sel: set<Key>, from: nat): seq<nat>
    requires from <= |rows|
    decreases |rows| - from
  {
    if from == |rows| then []
    else (if RowKey(cfg, rows[from], from) in sel then [from] else []) + SelectedIndicesFrom(cfg, rows, sel, from + 1)
  }

  /** The filter keeps positions from `from` on. */
  lemma {:induction false} SelectedIndicesFromBounds(cfg: RowKeyConfig, rows: seq<Record>, sel: set<Key>, from: nat)
    requires from <= |rows|
    ensures forall k :: 0 <= k < |SelectedIndicesFrom(cfg, rows, sel, from)| ==>
      from <= SelectedIndicesFrom(cfg, rows, sel, from)[k] < |rows|
    decreases |rows| - from
  {
    if from < |rows| {
      SelectedIndicesFromBounds(cfg, rows, sel, from + 1);
    }
  }

  /** The filter keeps positions in ascending order. */
  lemma {:induction false} SelectedIndicesFromAscending(cfg: RowKeyConfig, rows: seq<Record>, sel: set<Key>, from: nat)
    requires from <= |rows|
    ensures forall k, l :: 0 <= k < l < |SelectedIndicesFrom(cfg, rows, sel, from)| ==>
      SelectedIndicesFrom(cfg, rows, sel, from)[k] < SelectedIndicesFrom(cfg, rows, sel, from)[l]
    decreases |rows| - from
  {
    if from < |rows| {
      var t := SelectedIndicesFrom(cfg, rows, sel, from + 1);
      SelectedIndicesFromAscending(cfg, rows, sel, from + 1);
      SelectedIndicesFromBounds(cfg, rows, sel, from + 1);
      if RowKey(cfg, rows[from], from) in sel {
        var r := [from] + t;
        assert SelectedIndicesFrom(cfg, rows, sel, from) == r;
        forall k, l | 0 <= k < l < |r| ensures r[k] < r[l] {
          assert r[l] == t[l - 1];
          if k > 0 {
            assert r[k] == t[k - 1];
          } else {
            assert r[k] == from && from < t[l - 1];
          }
        }
      } else {
        assert SelectedIndicesFrom(cfg, rows, sel, from) == t;
      }
    }
  }

  /** The filter keeps exactly the positions whose key is selected. */
  lemma {:induction false} SelectedIndicesFromMembers(cfg: RowKeyConfig, rows: seq<Record>, sel: set<Key>, from: nat)
    requires from <= |rows|
    ensures forall i :: from <= i < |rows| ==>
      (i in SelectedIndicesFrom(cfg, rows, sel, from) <==> RowKey(cfg, rows[i], i) in sel)
    decreases |rows| - from
  {
    if from < |rows| {
      SelectedIndicesFromMembers(cfg, rows, sel, from + 1);
      SelectedIndicesFromBounds(cfg, rows, sel, from + 1);
    }
  }

  /** The positions `sortedData.filter((item, idx) => sel.has(getRowKey(item, idx)))` keeps. */
  function SelectedIndices(cfg: RowKeyConfig, rows: seq<Record>, sel: set<Key>): (r: seq<nat>)
    ensures forall k :: 0 <= k < |r| ==> r[k] < |rows|
    ensures forall k, l :: 0 <= k < l < |r| ==> r[k] < r[l]
    ensures forall i :: 0 <= i < |rows| ==> (i in r <==> RowKey(cfg, rows[i], i) in sel)
  {
    SelectedIndicesFromBounds(cfg, rows, sel, 0);
    SelectedIndicesFromAscending(cfg, rows, sel, 0);
    SelectedIndicesFromMembers(cfg, rows, sel, 0);
    SelectedIndicesFrom(cfg, rows, sel, 0)
  }

  function SelectedDataFrom(cfg: RowKeyConfig, rows: seq<Record>, sel: set<Key>, from: nat): seq<Record>
    requires from <= |rows|
    decreases |rows| - from
  {
    if from == |rows| then []
    else (if RowKey(cfg, rows[from], from) in sel then [rows[from]] else []) + SelectedDataFrom(cfg, rows, sel, from + 1)
  }

  /** The filtered records are the records at the filtered positions. */
  lemma {:induction false} SelectedDataFromMatches(cfg: RowKeyConfig, rows: seq<Record>, sel: set<Key>, from: nat)
    requires from <= |rows|
    ensures var r := SelectedDataFrom(cfg, rows, sel, from);
      var idx := SelectedIndicesFrom(cfg, rows, sel, from);
      |r| == |idx| && forall k :: 0 <= k < |r| ==> idx[k] < |rows| && r[k] == rows[idx[k]]
    decreases |rows| - from
  {
    if from < |rows| {
      SelectedDataFromMatches(cfg, rows, sel, from + 1);
    }
  }

  /** The records passed to `onRowSelect`: the displayed rows whose key is in
      `sel`, in display order. */
  function SelectedData(cfg: RowKeyConfig, rows: seq<Record>, sel: set<Key>): (r: seq<Record>)
    ensures |r| == |SelectedIndices(cfg, rows, sel)|
    ensures forall k :: 0 <= k < |r| ==> r[k] == rows[SelectedIndices(cfg, rows, sel)[k]]
  {
    SelectedDataFromMatches(cfg, rows, sel, 0);
    SelectedDataFrom(cfg, rows, sel, 0)
  }

  lemma {:induction false} SelectedAllFrom(cfg: RowKeyConfig, rows: seq<Record>, sel: set<Key>, from: nat)
    requires from <= |rows|
    requires forall i :: from <= i < |rows| ==> RowKey(cfg, rows[i], i) in sel
    ensures SelectedDataFrom(cfg, rows, sel, from) == rows[from..]
    decreases |rows| - from
  {
    if from < |rows| {
      assert RowKey(cfg, rows[from], from) in sel;
      assert SelectedDataFrom(cfg, rows, sel, from) == [rows[from]] + SelectedDataFrom(cfg, rows, sel, from + 1);
      SelectedAllFrom(cfg, rows, sel, from + 1);
      assert rows[from..] == [rows[from]] + rows[from + 1..];
    }
  }

  lemma {:induction false} SelectedNoneFrom(cfg: RowKeyConfig, rows: seq<Record>, sel: set<Key>, from: nat)
    requires from <= |rows|
    requires forall i :: from <= i < |rows| ==> RowKey(cfg, rows[i], i) !in sel
    ensures SelectedDataFrom(cfg, rows, sel, from) == []
    decreases |rows| - from
  {
    if from < |rows| {
      SelectedNoneFrom(cfg, rows, sel, from + 1);
    }
  }

  /** Select-all agrees with the filter: reporting the displayed rows whose key
      is among all the displayed keys reports every displayed row, each once,
      in display order — the list select-all emits. Clearing reports none. */
  lemma SelectAllReportsDisplayed(cfg: RowKeyConfig, rows: seq<Record>)
    ensures SelectedData(cfg, rows, AllKeys(cfg, rows)) == rows
    ensures SelectedData(cfg, rows, {}) == []
  {
    SelectedAllFrom(cfg, rows, AllKeys(cfg, rows), 0);
    SelectedNoneFrom(cfg, rows, {}, 0);
  }

  /** After a row at display position `i` is checked, that row is reported;
      after it is unchecked, no displayed row with its key is reported, and
      every other displayed row is reported exactly as before. */
  lemma ToggleReportsRow(cfg: RowKeyConfig, rows: seq<Record>, sel: set<Key>, i: nat, checked: bool)
    requires i < |rows|
    ensures var key := RowKey(cfg, rows[i], i);
      var after := SelectedIndices(cfg, rows, Toggle(sel, key, checked));
      && (checked ==> i in after)
      && (!checked ==> forall j :: 0 <= j < |rows| && RowKey(cfg, rows[j], j) == key ==> j !in after)
      && (forall j :: 0 <= j < |rows| && RowKey(cfg, rows[j], j) != key ==>
            (j in after <==> j in SelectedIndices(cfg, rows, sel)))
  {
  }

  // ---------------------------------------------------------------------------
  // The header checkbox
  // ---------------------------------------------------------------------------

  /** `isAllSelected`. */
  predicate IsAllSelected(rows: seq<Record>, sel: set<Key>) {
    |rows| > 0 && |sel| == |rows|
  }

  /** `isIndeterminate`. */
  predicate IsIndeterminate(rows: seq<Record>, sel: set<Key>) {
    |sel| > 0 && |sel| < |rows|
  }

  /** The two indicators are never on together; with nothing selected neither is. */
  lemma IndicatorsExclusive(rows: seq<Record>, sel: set<Key>)
    ensures !(IsAllSelected(rows, sel) && IsIndeterminate(rows, sel))
    ensures sel == {} ==> !IsAllSelected(rows, sel) && !IsIndeterminate(rows, sel)
  {
  }

  lemma {:induction false} KeysUpToSize(cfg: RowKeyConfig, rows: seq<Record>, n: nat)
    requires n <= |rows|
    ensures |KeysUpTo(cfg, rows, n)| <= n
    ensures |KeysUpTo(cfg, rows, n)| == n <==> DistinctUpTo(cfg, rows, n)
  {
    if n > 0 {
      KeysUpToSize(cfg, rows, n - 1);
      var prev := KeysUpTo(cfg, rows, n - 1);
      var key := RowKey(cfg, rows[n - 1], n - 1);
      assert KeysUpTo(cfg, rows, n) == prev + {key};
      if key in prev {
        var i := KeysUpToWitness(cfg, rows, n - 1, key);
        assert !DistinctUpTo(cfg, rows, n);
      } else {
        assert |prev + {key}| == |prev| + 1;
        assert DistinctUpTo(cfg, rows, n) <==> DistinctUpTo(cfg, rows, n - 1) by {
          assert forall i :: 0 <= i < n - 1 ==> RowKey(cfg, rows[i], i) != key;
        }
      }
    }
  }

  /** After select-all the header checkbox shows "all selected" exactly when
      the display is non-empty and the displayed keys are distinct; when two
      displayed rows share a key it shows "indeterminate" instead. */
  lemma SelectAllIndicators(cfg: RowKeyConfig, rows: seq<Record>)
    ensures IsAllSelected(rows, AllKeys(cfg, rows)) <==> |rows| > 0 && DistinctKeys(cfg, rows)
    ensures IsIndeterminate(rows, AllKeys(cfg, rows)) <==> |rows| > 0 && !DistinctKeys(cfg, rows)
  {
    KeysUpToSize(cfg, rows, |rows|);
    if |rows| > 0 {
      assert RowKey(cfg, rows[0], 0) in AllKeys(cfg, rows);
    }
  }
}
