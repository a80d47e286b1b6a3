/** `filteredAndSortedData` as a whole (table.component.ts, lines 95-156), and the sort
    state with its three-state click cycle (`onSort`, `sortIcon`, `isSorted`, lines
    184-216). */
module Pipeline {
  import opened Options
  import opened Values
  import opened Seqs
  import opened Search
  import opened Sorting

  // ---------------------------------------------------------------- sort state

  /** The `sortColumn` and `sortDirection` signals. */
  datatype SortState = SortState(column: Option<string>, direction: Option<Direction>)

  /** Both signals are set or both are null. */
  predicate Consistent(st: SortState) {
    st.column.None? <==> st.direction.None?
  }

  /** `onSort(column)`: a non-sortable column is ignored, a new column starts ascending,
      the current column goes from ascending to descending and from descending to
      unsorted. */
  function NextSort(st: SortState, c: Column): (r: SortState)
    ensures Consistent(st) ==> Consistent(r)
    ensures r == st || r == SortState(None, None) || r.column == Some(c.key)
  {
    if !c.sortable then st
    else if st.column == Some(c.key) then
      if st.direction == Some(Asc) then st.(direction := Some(Desc))
      else if st.direction == Some(Desc) then SortState(None, None)
      else st
    else SortState(Some(c.key), Some(Asc))
  }

  /** The cycle: each case of a click, and that clicks keep the two signals consistent. */
  lemma SortCycle(st: SortState, c: Column)
    ensures !c.sortable ==> NextSort(st, c) == st
    ensures c.sortable && st.column != Some(c.key) ==> NextSort(st, c) == SortState(Some(c.key), Some(Asc))
    ensures c.sortable && st == SortState(Some(c.key), Some(Asc)) ==>
            NextSort(st, c) == SortState(Some(c.key), Some(Desc))
    ensures c.sortable && st == SortState(Some(c.key), Some(Desc)) ==> NextSort(st, c) == SortState(None, None)
    ensures Consistent(st) ==> Consistent(NextSort(st, c))
  {
  }

  /** Three clicks on a sortable column that is not the current one end unsorted. */
  lemma ThreeClicksUnsort(st: SortState, c: Column)
    requires c.sortable && st.column != Some(c.key)
    ensures NextSort(NextSort(NextSort(st, c), c), c) == SortState(None, None)
  {
  }

  /** `sortIcon(column)`. */
  function SortIcon(st: SortState, c: Column): (icon: string)
    ensures icon == "⇅" <==> st.column != Some(c.key)
  {
    if st.column != Some(c.key) then "⇅"
    else if st.direction == Some(Asc) then "↑"
    else "↓"
  }

  /** `isSorted(column)`. */
  predicate IsSorted(st: SortState, c: Column)
    ensures Consistent(st) ==> (IsSorted(st, c) <==> st.column == Some(c.key))
  {
    st.column == Some(c.key) && st.direction.Some?
  }

  /** A sorted column shows the arrow of its direction. */
  lemma SortedColumnIcon(st: SortState, c: Column)
    requires IsSorted(st, c)
    ensures SortIcon(st, c) == (if st.direction == Some(Asc) then "↑" else "↓")
    ensures SortIcon(st, c) != "⇅"
  {
  }

  // ---------------------------------------------------------------- the pipeline

  /** Whether the sort stage sorts: `!column || !direction` skips it, and the empty
      column key is falsy too. */
  predicate SortActive(st: SortState) {
    st.column.Some? && st.column.value != "" && st.direction.Some?
  }

  /** Lines 121-155. */
  function SortStage(filtered: seq<Row>, st: SortState): (r: seq<Row>)
    ensures |r| == |filtered|
  {
    if !SortActive(st) then filtered else SortRows(filtered, st.column.value, st.direction.value)
  }

  /** Re-sorting by the same column and direction changes nothing. */
  lemma SortStageIdempotent(filtered: seq<Row>, st: SortState)
    ensures SortStage(SortStage(filtered, st), st) == SortStage(filtered, st)
  {
    if SortActive(st) {
      SortIdempotent(filtered, st.column.value, st.direction.value);
    }
  }

  /** The filter stage followed by the sort stage. */
  function FilteredAndSortedData(data: seq<Row>, columns: seq<Column>, externalFilter: Option<Row -> bool>,
                                 externalQuery: Option<string>, searchQuery: string, st: SortState): (r: seq<Row>)
    ensures |r| <= |data|
  {
    SortStage(FilterStage(data, columns, externalFilter, externalQuery, searchQuery), st)
  }

  /** Without a sort the output is the filtered rows in their order; with one it is a
      permutation of them in which the rows with a null or undefined value under the
      sort key come last and neighbouring rows are ordered by the comparator. */
  lemma SortStageSound(filtered: seq<Row>, st: SortState)
    ensures !SortActive(st) ==> SortStage(filtered, st) == filtered
    ensures multiset(SortStage(filtered, st)) == multiset(filtered)
    ensures SortActive(st) ==> NullsLast(SortStage(filtered, st), st.column.value)
    ensures SortActive(st) ==> AdjacentOrdered(SortStage(filtered, st), st.column.value, st.direction.value)
  {
    if SortActive(st) {
      SortPermutes(filtered, st.column.value, st.direction.value);
      SortNullsLast(filtered, st.column.value, st.direction.value);
      SortOrdered(filtered, st.column.value, st.direction.value);
    }
  }

  /** On a sort column that holds one kind of value the output is fully sorted, and rows
      that compare equal keep their filtered order. */
  lemma SortStageOneKind(filtered: seq<Row>, st: SortState, x: Row)
    requires SortActive(st) && OneKind([x] + filtered, st.column.value)
    ensures Sorted(SortStage(filtered, st), st.column.value, st.direction.value)
    ensures Equivalents(SortStage(filtered, st), x, st.column.value, st.direction.value) ==
            Equivalents(filtered, x, st.column.value, st.direction.value)
  {
    var key, dir := st.column.value, st.direction.value;
    OneKindTransitive([x] + filtered, key, dir);
    assert Transitive(filtered, key, dir) by {
      assert forall w :: w in filtered ==> w in [x] + filtered;
    }
    SortSorted(filtered, key, dir);
    SortStable(filtered, x, key, dir);
  }

  /** The displayed rows are a rearrangement of exactly the rows of the data that pass
      the filter stage, and in data order when nothing is sorted. */
  lemma FilteredAndSortedSound(data: seq<Row>, columns: seq<Column>, externalFilter: Option<Row -> bool>,
                               externalQuery: Option<string>, searchQuery: string, st: SortState, row: Row)
    ensures var filtered := FilterStage(data, columns, externalFilter, externalQuery, searchQuery);
            multiset(FilteredAndSortedData(data, columns, externalFilter, externalQuery, searchQuery, st)) ==
            multiset(filtered) &&
            IsSubsequence(filtered, data) &&
            (!SortActive(st) ==>
               FilteredAndSortedData(data, columns, externalFilter, externalQuery, searchQuery, st) == filtered)
    ensures var q := NormalizeQuery(EffectiveSearchQuery(externalQuery, searchQuery));
            row in FilteredAndSortedData(data, columns, externalFilter, externalQuery, searchQuery, st) <==>
            row in data && Kept(row, columns, externalFilter, q)
  {
    var filtered := FilterStage(data, columns, externalFilter, externalQuery, searchQuery);
    var out := FilteredAndSortedData(data, columns, externalFilter, externalQuery, searchQuery, st);
    SortStageSound(filtered, st);
    FilterStageSound(data, columns, externalFilter, externalQuery, searchQuery, row);
    assert row in out <==> row in multiset(out);
    assert row in filtered <==> row in multiset(filtered);
  }

  /** Sorting the rows Bob and Amy by name: the first click sorts them ascending, the
      second descending, and the third clears the sort and shows them in data order. */
  lemma NameSortScenario()
    ensures var bob := map["id" := Num(1), "name" := Str("Bob"), "salary" := Num(50000)];
            var amy := map["id" := Num(2), "name" := Str("Amy"), "salary" := Num(70000)];
            var name := Column("name", "Name", true, false);
            var s1 := NextSort(SortState(None, None), name);
            var s2 := NextSort(s1, name);
            var s3 := NextSort(s2, name);
            FilteredAndSortedData([bob, amy], [name], None, None, "", s1) == [amy, bob] &&
            FilteredAndSortedData([bob, amy], [name], None, None, "", s2) == [bob, amy] &&
            s3 == SortState(None, None) &&
            FilteredAndSortedData([bob, amy], [name], None, None, "", s3) == [bob, amy]
  {
    var bob := map["id" := Num(1), "name" := Str("Bob"), "salary" := Num(50000)];
    var amy := map["id" := Num(2), "name" := Str("Amy"), "salary" := Num(70000)];
    var name := Column("name", "Name", true, false);
    assert Lower("Amy") == "amy" && Lower("Bob") == "bob";
    assert LexCompare("bob", "amy") == 1;
    assert LexCompare("amy", "bob") == -1;
    assert GetNestedValue(bob, "name") == Str("Bob") && GetNestedValue(amy, "name") == Str("Amy");
    assert RowCompare(bob, amy, "name", Asc) > 0 && RowCompare(bob, amy, "name", Desc) < 0;
    assert [bob, amy][1..] == [amy] && [amy][1..] == [];
    assert SortRows([amy], "name", Asc) == [amy] && SortRows([amy], "name", Desc) == [amy];
    assert Insert(bob, [amy], "name", Asc) == [amy] + Insert(bob, [], "name", Asc) == [amy, bob];
    assert SortRows([bob, amy], "name", Asc) == [amy, bob];
    assert SortRows([bob, amy], "name", Desc) == [bob, amy];
    assert FilterStage([bob, amy], [name], None, None, "") == [bob, amy];
    assert NextSort(SortState(None, None), name) == SortState(Some("name"), Some(Asc));
    assert NextSort(SortState(Some("name"), Some(Asc)), name) == SortState(Some("name"), Some(Desc));
  }
}
