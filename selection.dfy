/** Row selection of the table (table.component.ts, lines 49-62 and 273-458): row
    identities, the effective selection (external rows or the internal set), the
    toggle and select-all rules, the selection counts and the rows emitted to the parent.
    A JavaScript `Set` iterates in insertion order, and that order decides the order of
    the emitted rows, so a set of ids is a duplicate-free sequence here. */
module Selection {
  import opened Options
  import opened Values
  import opened Seqs

  /** The `selectionMode` input: 'none', 'single' or 'multiple'. */
  datatype SelectionMode = ModeNone | ModeSingle | ModeMultiple

  /** What identifies a row: the value `rowIdentifier` returns, or the row itself when
      no identifier is given. */
  datatype Key = RowKey(row: Row) | IdKey(id: Value)

  /** `identifier ? identifier(row) : row`. */
  function RowId(identifier: Option<Row -> Value>, row: Row): Key {
    if identifier.Some? then IdKey(identifier.value(row)) else RowKey(row)
  }

  // ---------------------------------------------------------------- insertion-ordered sets

  /** `set.add(k)`: a new key goes at the end, a present key stays where it is. */
  function AddKey(s: seq<Key>, k: Key): (r: seq<Key>)
    ensures NoDup(s) ==> NoDup(r)
    ensures forall x :: x in r <==> x in s || x == k
    ensures |r| <= |s| + 1
  {
    if k in s then s else s + [k]
  }

  /** `set.delete(k)`. */
  function DeleteKey(s: seq<Key>, k: Key): (r: seq<Key>)
    ensures k !in r
    ensures |r| <= |s|
    decreases |s|
  {
    if s == [] then [] else (if s[0] == k then [] else [s[0]]) + DeleteKey(s[1..], k)
  }

  lemma {:induction false} DeleteKeySound(s: seq<Key>, k: Key)
    ensures forall x :: x in DeleteKey(s, k) <==> x in s && x != k
    ensures NoDup(s) ==> NoDup(DeleteKey(s, k))
    decreases |s|
  {
    if s != [] {
      DeleteKeySound(s[1..], k);
      assert s == [s[0]] + s[1..];
      var r := DeleteKey(s, k);
      if NoDup(s) {
        assert NoDup(s[1..]) by {
          forall i, j | 0 <= i < j < |s[1..]| ensures s[1..][i] != s[1..][j] {
            assert s[1..][i] == s[i + 1] && s[1..][j] == s[j + 1];
          }
        }
        assert s[0] !in s[1..] by {
          forall i | 0 <= i < |s[1..]| ensures s[1..][i] != s[0] {
            assert s[1..][i] == s[i + 1];
          }
        }
        if s[0] != k {
          forall i, j | 0 <= i < j < |r| ensures r[i] != r[j] {
            assert r[j] == DeleteKey(s[1..], k)[j - 1];
            if i > 0 { assert r[i] == DeleteKey(s[1..], k)[i - 1]; }
          }
        }
      }
    }
  }

  /** `new Set(rows.map(identify))`, built by adding each row's id in turn. */
  function IdsOf(identifier: Option<Row -> Value>, rows: seq<Row>): (ids: seq<Key>)
    ensures NoDup(ids)
    ensures |ids| <= |rows|
    decreases |rows|
  {
    if rows == [] then []
    else AddKey(IdsOf(identifier, rows[..|rows| - 1]), RowId(identifier, rows[|rows| - 1]))
  }

  /** The id set of some rows holds each of their ids once and nothing else. */
  lemma {:induction false} IdsOfSound(identifier: Option<Row -> Value>, rows: seq<Row>)
    ensures NoDup(IdsOf(identifier, rows))
    ensures forall k :: k in IdsOf(identifier, rows) <==>
                        exists i :: 0 <= i < |rows| && RowId(identifier, rows[i]) == k
    decreases |rows|
  {
    if rows != [] {
      var init := rows[..|rows| - 1];
      IdsOfSound(identifier, init);
      forall k ensures k in IdsOf(identifier, rows) <==>
                       exists i :: 0 <= i < |rows| && RowId(identifier, rows[i]) == k
      {
        if exists i :: 0 <= i < |rows| && RowId(identifier, rows[i]) == k {
          var i :| 0 <= i < |rows| && RowId(identifier, rows[i]) == k;
          if i < |rows| - 1 { assert init[i] == rows[i]; }
        }
        if k in IdsOf(identifier, init) {
          var i :| 0 <= i < |init| && RowId(identifier, init[i]) == k;
          assert rows[i] == init[i];
        }
      }
    }
  }

  /** `effectiveSelectedRows`: the ids of the external `selectedRows` when that input is
      given, otherwise the internal set. */
  function EffectiveSelection(selectedRows: Option<seq<Row>>, identifier: Option<Row -> Value>,
                              internal: seq<Key>): (r: seq<Key>)
    ensures NoDup(internal) ==> NoDup(r)
    ensures selectedRows.None? ==> r == internal
  {
    if selectedRows.Some? then IdsOf(identifier, selectedRows.value) else internal
  }

  // ---------------------------------------------------------------- toggling

  /** The new selection of `toggleRowSelection` (lines 283-296): in 'single' mode exactly
      the clicked row's id, otherwise that id's membership flips. The mode 'none' is not
      checked. */
  function ToggleRow(mode: SelectionMode, current: seq<Key>, id: Key): (r: seq<Key>)
    ensures mode != ModeSingle ==> (id in r <==> id !in current)
    ensures mode == ModeSingle ==> |r| == 1
  {
    if mode == ModeSingle then [id]
    else if id in current then DeleteKey(current, id)
    else current + [id]
  }

  /** In 'single' mode the result is exactly the clicked id (also when it was already
      selected); in the other modes only the clicked id changes membership. */
  lemma ToggleRowSound(mode: SelectionMode, current: seq<Key>, id: Key)
    ensures mode == ModeSingle ==> ToggleRow(mode, current, id) == [id]
    ensures mode != ModeSingle ==> (id in ToggleRow(mode, current, id) <==> id !in current)
    ensures mode != ModeSingle ==>
            forall k :: k != id ==> (k in ToggleRow(mode, current, id) <==> k in current)
    ensures NoDup(current) ==> NoDup(ToggleRow(mode, current, id))
  {
    DeleteKeySound(current, id);
    if NoDup(current) && mode != ModeSingle && id !in current {
      var r := current + [id];
      forall i, j | 0 <= i < j < |r| ensures r[i] != r[j] {
        if j == |current| { assert r[i] == current[i]; }
      }
    }
  }

  /** In 'single' mode one click leaves exactly one row selected. */
  lemma SingleModeOne(current: seq<Key>, id: Key)
    ensures |ToggleRow(ModeSingle, current, id)| == 1
  {
  }

  /** Every visible row is selected, and there is at least one. */
  ghost predicate AllSelected(identifier: Option<Row -> Value>, rows: seq<Row>, selected: seq<Key>) {
    |rows| > 0 && forall i :: 0 <= i < |rows| ==> RowId(identifier, rows[i]) in selected
  }

  /** The new selection of `toggleSelectAll` (lines 312-329): empty when the visible rows
      are all selected, otherwise the ids of the visible rows. */
  function ToggleAll(identifier: Option<Row -> Value>, rows: seq<Row>, selected: seq<Key>): (r: seq<Key>)
    ensures NoDup(r)
    ensures |r| <= |rows|
  {
    if |rows| > 0 && (forall i :: 0 <= i < |rows| ==> RowId(identifier, rows[i]) in selected)
    then []
    else IdsOf(identifier, rows)
  }

  /** Select-all toggling empties a fully selected non-empty view and otherwise selects
      exactly the visible rows. */
  lemma ToggleAllSound(identifier: Option<Row -> Value>, rows: seq<Row>, selected: seq<Key>)
    ensures AllSelected(identifier, rows, selected) ==> ToggleAll(identifier, rows, selected) == []
    ensures !AllSelected(identifier, rows, selected) ==>
            ToggleAll(identifier, rows, selected) == IdsOf(identifier, rows)
    ensures NoDup(ToggleAll(identifier, rows, selected))
  {
    IdsOfSound(identifier, rows);
  }

  /** Selecting all visible rows and toggling again empties the selection. */
  lemma SelectAllThenToggle(identifier: Option<Row -> Value>, rows: seq<Row>)
    requires |rows| > 0
    ensures ToggleAll(identifier, rows, IdsOf(identifier, rows)) == []
  {
    IdsOfSound(identifier, rows);
    assert forall i :: 0 <= i < |rows| ==> RowId(identifier, rows[i]) in IdsOf(identifier, rows);
  }

  /** On a non-empty view that is not fully selected, two toggles end empty. */
  lemma ToggleAllTwice(identifier: Option<Row -> Value>, rows: seq<Row>, selected: seq<Key>)
    requires |rows| > 0 && !AllSelected(identifier, rows, selected)
    ensures ToggleAll(identifier, rows, ToggleAll(identifier, rows, selected)) == []
  {
    SelectAllThenToggle(identifier, rows);
  }

  // ---------------------------------------------------------------- counts

  /** How many of the rows have a selected id (the loop of `totalSelectedCount`, and the
      `filter(...).length` of `isIndeterminate`). */
  function CountSelected(identifier: Option<Row -> Value>, rows: seq<Row>, selected: seq<Key>): (n: nat)
    ensures n <= |rows|
    decreases |rows|
  {
    if rows == [] then 0
    else CountSelected(identifier, rows[..|rows| - 1], selected) +
         (if RowId(identifier, rows[|rows| - 1]) in selected then 1 else 0)
  }

  /** All rows are counted exactly when every row is selected. */
  lemma {:induction false} CountAll(identifier: Option<Row -> Value>, rows: seq<Row>, selected: seq<Key>)
    ensures CountSelected(identifier, rows, selected) == |rows| <==>
            forall i :: 0 <= i < |rows| ==> RowId(identifier, rows[i]) in selected
    decreases |rows|
  {
    if rows != [] {
      var init := rows[..|rows| - 1];
      CountAll(identifier, init, selected);
      assert forall i :: 0 <= i < |init| ==> init[i] == rows[i];
    }
  }

  /** The count is positive exactly when some row is selected. */
  lemma {:induction false} CountSome(identifier: Option<Row -> Value>, rows: seq<Row>, selected: seq<Key>)
    ensures CountSelected(identifier, rows, selected) > 0 <==>
            exists i :: 0 <= i < |rows| && RowId(identifier, rows[i]) in selected
    decreases |rows|
  {
    if rows != [] {
      var init := rows[..|rows| - 1];
      CountSome(identifier, init, selected);
      if CountSelected(identifier, init, selected) > 0 {
        var i :| 0 <= i < |init| && RowId(identifier, init[i]) in selected;
        assert rows[i] == init[i];
      }
      if i :| 0 <= i < |rows| && RowId(identifier, rows[i]) in selected {
        if i < |init| {
          assert init[i] == rows[i];
        }
      }
    }
  }

  /** `isAllSelected()`. */
  ghost predicate IsAllSelected(mode: SelectionMode, identifier: Option<Row -> Value>, rows: seq<Row>,
                                selected: seq<Key>)
    ensures IsAllSelected(mode, identifier, rows, selected) ==> CountSelected(identifier, rows, selected) == |rows|
  {
    CountAll(identifier, rows, selected);
    mode == ModeMultiple && AllSelected(identifier, rows, selected)
  }

  /** `isIndeterminate()`. */
  predicate IsIndeterminate(mode: SelectionMode, identifier: Option<Row -> Value>, rows: seq<Row>,
                            selected: seq<Key>)
    ensures IsIndeterminate(mode, identifier, rows, selected) <==>
            mode == ModeMultiple && !AllSelected(identifier, rows, selected) &&
            exists i :: 0 <= i < |rows| && RowId(identifier, rows[i]) in selected
  {
    CountAll(identifier, rows, selected);
    CountSome(identifier, rows, selected);
    mode == ModeMultiple && |rows| > 0 &&
    0 < CountSelected(identifier, rows, selected) < |rows|
  }

  /** The header check box is never both checked and indeterminate; it is checked exactly
      when every visible row is counted as selected. */
  lemma AllSelectedNotIndeterminate(mode: SelectionMode, identifier: Option<Row -> Value>,
                                    rows: seq<Row>, selected: seq<Key>)
    ensures !(IsAllSelected(mode, identifier, rows, selected) && IsIndeterminate(mode, identifier, rows, selected))
    ensures IsAllSelected(mode, identifier, rows, selected) <==>
            mode == ModeMultiple && |rows| > 0 && CountSelected(identifier, rows, selected) == |rows|
  {
    CountAll(identifier, rows, selected);
  }

  // ---------------------------------------------------------------- emitted rows

  /** `allData.find(r => identify(r) === id)`. */
  function FindRow(identifier: Option<Row -> Value>, data: seq<Row>, id: Key): (r: Option<Row>)
    ensures r.Some? ==> r.value in data && RowId(identifier, r.value) == id
    ensures r.None? <==> forall i :: 0 <= i < |data| ==> RowId(identifier, data[i]) != id
    decreases |data|
  {
    if data == [] then None
    else if RowId(identifier, data[0]) == id then Some(data[0])
    else FindRow(identifier, data[1..], id)
  }

  /** `find` answers the first row with the id. */
  lemma {:induction false} FindRowFirst(identifier: Option<Row -> Value>, data: seq<Row>, id: Key)
    requires FindRow(identifier, data, id).Some?
    ensures exists k :: 0 <= k < |data| && data[k] == FindRow(identifier, data, id).value &&
                        forall j :: 0 <= j < k ==> RowId(identifier, data[j]) != id
    decreases |data|
  {
    if RowId(identifier, data[0]) != id {
      var found := FindRow(identifier, data[1..], id);
      assert FindRow(identifier, data, id) == found;
      FindRowFirst(identifier, data[1..], id);
      var k :| 0 <= k < |data[1..]| && data[1..][k] == found.value &&
               forall j :: 0 <= j < k ==> RowId(identifier, data[1..][j]) != id;
      assert data[k + 1] == found.value;
      forall j | 0 <= j < k + 1 ensures RowId(identifier, data[j]) != id {
        if j > 0 { assert data[j] == data[1..][j - 1]; }
      }
      assert 0 <= k + 1 < |data| && data[k + 1] == FindRow(identifier, data, id).value &&
             forall j :: 0 <= j < k + 1 ==> RowId(identifier, data[j]) != id;
    } else {
      assert data[0] == FindRow(identifier, data, id).value;
    }
  }

  /** The rows `emitSelectionChange` emits (lines 385-394): for each selected id in order,
      the first row of all the data with that id, if there is one. */
  function EmittedRows(identifier: Option<Row -> Value>, data: seq<Row>, ids: seq<Key>): (rows: seq<Row>)
    ensures |rows| <= |ids|
    decreases |ids|
  {
    if ids == [] then []
    else
      var found := FindRow(identifier, data, ids[|ids| - 1]);
      EmittedRows(identifier, data, ids[..|ids| - 1]) + (if found.Some? then [found.value] else [])
  }

  /** Whether some row of the data has the id. */
  ghost predicate Resolves(identifier: Option<Row -> Value>, data: seq<Row>, id: Key) {
    exists i :: 0 <= i < |data| && RowId(identifier, data[i]) == id
  }

  /** The ids of the emitted rows are the selected ids that resolve to a row, in the same
      order: one row per such id, and the ids that resolve to nothing are dropped. */
  function IdsOfRows(identifier: Option<Row -> Value>, rows: seq<Row>): (ks: seq<Key>)
    ensures |ks| == |rows|
  {
    seq(|rows|, i requires 0 <= i < |rows| => RowId(identifier, rows[i]))
  }

  function ResolvingIds(identifier: Option<Row -> Value>, data: seq<Row>, ids: seq<Key>): seq<Key>
    decreases |ids|
  {
    if ids == [] then []
    else ResolvingIds(identifier, data, ids[..|ids| - 1]) +
         (if FindRow(identifier, data, ids[|ids| - 1]).Some? then [ids[|ids| - 1]] else [])
  }

  lemma {:induction false} EmittedRowsSound(identifier: Option<Row -> Value>, data: seq<Row>, ids: seq<Key>)
    ensures IdsOfRows(identifier, EmittedRows(identifier, data, ids)) == ResolvingIds(identifier, data, ids)
    ensures forall i :: 0 <= i < |EmittedRows(identifier, data, ids)| ==>
              EmittedRows(identifier, data, ids)[i] in data
    ensures forall k :: k in ResolvingIds(identifier, data, ids) <==> k in ids && Resolves(identifier, data, k)
    decreases |ids|
  {
    if ids != [] {
      var init := ids[..|ids| - 1];
      var last := ids[|ids| - 1];
      EmittedRowsSound(identifier, data, init);
      var e := EmittedRows(identifier, data, ids);
      var e0 := EmittedRows(identifier, data, init);
      assert IdsOfRows(identifier, e) == IdsOfRows(identifier, e0) +
        (if FindRow(identifier, data, last).Some? then [last] else []);
      forall k ensures k in ResolvingIds(identifier, data, ids) <==> k in ids && Resolves(identifier, data, k) {
        assert k in ids <==> k in init || k == last by {
          assert ids == init + [last];
        }
        if FindRow(identifier, data, last).None? && k == last {
          assert !Resolves(identifier, data, k);
        }
      }
    }
  }

  /** The row occurs in the data, and no earlier row of the data has its id. */
  ghost predicate FirstWithItsId(identifier: Option<Row -> Value>, data: seq<Row>, row: Row) {
    exists k :: 0 <= k < |data| && data[k] == row &&
      forall j :: 0 <= j < k ==> RowId(identifier, data[j]) != RowId(identifier, row)
  }

  /** Each emitted row is the row `find` answers for its own id, so it is the first row of
      all the data with that id. */
  lemma {:induction false} EmittedRowsFirst(identifier: Option<Row -> Value>, data: seq<Row>, ids: seq<Key>)
    ensures forall i :: 0 <= i < |EmittedRows(identifier, data, ids)| ==>
              FindRow(identifier, data, RowId(identifier, EmittedRows(identifier, data, ids)[i])) ==
              Some(EmittedRows(identifier, data, ids)[i])
    ensures forall i :: 0 <= i < |EmittedRows(identifier, data, ids)| ==>
              FirstWithItsId(identifier, data, EmittedRows(identifier, data, ids)[i])
    decreases |ids|
  {
    var e := EmittedRows(identifier, data, ids);
    if ids != [] {
      var init := ids[..|ids| - 1];
      var last := ids[|ids| - 1];
      var e0 := EmittedRows(identifier, data, init);
      EmittedRowsFirst(identifier, data, init);
      forall i | 0 <= i < |e|
        ensures FindRow(identifier, data, RowId(identifier, e[i])) == Some(e[i])
      {
        if i < |e0| {
          assert e[i] == e0[i];
        } else {
          var found := FindRow(identifier, data, last);
          assert e == e0 + [found.value];
          assert e[i] == found.value;
          assert RowId(identifier, found.value) == last;
        }
      }
    }
    forall i | 0 <= i < |e|
      ensures FirstWithItsId(identifier, data, e[i])
    {
      FoundRowIsFirst(identifier, data, e[i]);
    }
  }

  /** A row that `find` answers for its own id is the first row of the data with that id. */
  lemma FoundRowIsFirst(identifier: Option<Row -> Value>, data: seq<Row>, row: Row)
    requires FindRow(identifier, data, RowId(identifier, row)) == Some(row)
    ensures FirstWithItsId(identifier, data, row)
  {
    var id := RowId(identifier, row);
    FindRowFirst(identifier, data, id);
    var k :| 0 <= k < |data| && data[k] == FindRow(identifier, data, id).value &&
             forall j :: 0 <= j < k ==> RowId(identifier, data[j]) != id;
    assert data[k] == row && RowId(identifier, row) == id;
    assert FirstWithItsId(identifier, data, row);
  }

  /** Distinct selected ids give distinct emitted rows. */
  lemma EmittedRowsDistinct(identifier: Option<Row -> Value>, data: seq<Row>, ids: seq<Key>)
    requires NoDup(ids)
    ensures NoDup(EmittedRows(identifier, data, ids))
  {
    EmittedRowsSound(identifier, data, ids);
    ResolvingIdsDistinct(identifier, data, ids);
    var e := EmittedRows(identifier, data, ids);
    var ks := IdsOfRows(identifier, e);
    forall i, j | 0 <= i < j < |e| ensures e[i] != e[j] {
      assert ks[i] == RowId(identifier, e[i]) && ks[j] == RowId(identifier, e[j]);
    }
  }

  lemma {:induction false} ResolvingIdsDistinct(identifier: Option<Row -> Value>, data: seq<Row>, ids: seq<Key>)
    requires NoDup(ids)
    ensures NoDup(ResolvingIds(identifier, data, ids))
    ensures forall k :: k in ResolvingIds(identifier, data, ids) ==> k in ids
    decreases |ids|
  {
    if ids != [] {
      var init := ids[..|ids| - 1];
      var last := ids[|ids| - 1];
      assert NoDup(init) by {
        forall i, j | 0 <= i < j < |init| ensures init[i] != init[j] {
          assert init[i] == ids[i] && init[j] == ids[j];
        }
      }
      ResolvingIdsDistinct(identifier, data, init);
      assert last !in init by {
        forall i | 0 <= i < |init| ensures init[i] != last {
          assert init[i] == ids[i];
        }
      }
      var r0 := ResolvingIds(identifier, data, init);
      var r := ResolvingIds(identifier, data, ids);
      forall i, j | 0 <= i < j < |r| ensures r[i] != r[j] {
        if j >= |r0| { assert r[j] == last && r[i] == r0[i]; }
        else { assert r[i] == r0[i] && r[j] == r0[j]; }
      }
      forall k | k in r ensures k in ids {
        if k in r0 { assert k in init; }
      }
    }
  }
}
