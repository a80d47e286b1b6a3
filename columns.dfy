/** Column visibility, column order and the drag-and-drop reordering of the column
    picker (table.component.ts, lines 65-93, 158-181 and 460-584). The visibility map
    and the order list are the `columnVisibility` and `columnOrder` signals; the derived
    orderings are pure functions of them and of the `columns` input. */
module Columns {
  import opened Options
  import opened Values
  import opened Seqs

  // ---------------------------------------------------------------- visibility

  /** `isColumnVisible(key)`: `visibility.get(key) ?? true`. */
  function IsColumnVisible(visibility: map<string, bool>, key: string): (shown: bool)
    ensures !shown <==> key in visibility && !visibility[key]
  {
    if key in visibility then visibility[key] else true
  }

  /** The new map of `toggleColumnVisibility(key)`: the key is set to the negation of its
      current visibility. */
  function ToggleVisibility(visibility: map<string, bool>, key: string): (r: map<string, bool>)
    ensures r.Keys == visibility.Keys + {key}
    ensures IsColumnVisible(r, key) != IsColumnVisible(visibility, key)
  {
    visibility[key := !IsColumnVisible(visibility, key)]
  }

  /** Toggling flips exactly the toggled key and leaves every other key as it was. */
  lemma ToggleVisibilitySound(visibility: map<string, bool>, key: string)
    ensures IsColumnVisible(ToggleVisibility(visibility, key), key) == !IsColumnVisible(visibility, key)
    ensures forall k :: k != key ==>
              IsColumnVisible(ToggleVisibility(visibility, key), k) == IsColumnVisible(visibility, k)
    ensures forall k :: k != key ==> (k in ToggleVisibility(visibility, key) <==> k in visibility)
  {
  }

  /** Toggling twice restores the visibility of every key (the map itself may gain an
      explicit `true` entry for a key that was visible by default). */
  lemma ToggleVisibilityTwice(visibility: map<string, bool>, key: string, k: string)
    ensures IsColumnVisible(ToggleVisibility(ToggleVisibility(visibility, key), key), k) ==
            IsColumnVisible(visibility, k)
  {
    ToggleVisibilitySound(visibility, key);
    ToggleVisibilitySound(ToggleVisibility(visibility, key), key);
  }

  // ---------------------------------------------------------------- order

  /** The keys of some columns, in order. */
  function KeysOf(columns: seq<Column>): (keys: seq<string>)
    ensures |keys| == |columns|
    ensures forall i :: 0 <= i < |columns| ==> keys[i] == columns[i].key
  {
    seq(|columns|, i requires 0 <= i < |columns| => columns[i].key)
  }

  /** No two columns share a key. */
  ghost predicate DistinctKeys(columns: seq<Column>) {
    forall i, j :: 0 <= i < j < |columns| ==> columns[i].key != columns[j].key
  }

  /** `allColumns.find(c => String(c.key) === key)`. */
  function FindColumn(columns: seq<Column>, key: string): (r: Option<Column>)
    ensures r.Some? ==> r.value in columns && r.value.key == key
    ensures r.None? <==> forall i :: 0 <= i < |columns| ==> columns[i].key != key
    decreases |columns|
  {
    if columns == [] then None
    else if columns[0].key == key then Some(columns[0])
    else FindColumn(columns[1..], key)
  }

  /** With distinct keys, looking a column's key up finds that column. */
  lemma FindColumnUnique(columns: seq<Column>, c: Column)
    requires DistinctKeys(columns) && c in columns
    ensures FindColumn(columns, c.key) == Some(c)
  {
  }

  /** The first loop of `orderedColumns` (lines 493-498): for each key of the order, the
      first column with that key, if there is one. */
  function InOrder(columns: seq<Column>, order: seq<string>): (r: seq<Column>)
    ensures |r| <= |order|
    decreases |order|
  {
    if order == [] then []
    else
      var found := FindColumn(columns, order[|order| - 1]);
      InOrder(columns, order[..|order| - 1]) + (if found.Some? then [found.value] else [])
  }

  /** Whether a column's key is absent from the order (`!order.includes(key)`). */
  function MissingFrom(order: seq<string>): Column -> bool {
    (c: Column) => c.key !in order
  }

  /** Whether some column has the key. */
  function HasColumn(columns: seq<Column>): string -> bool {
    (key: string) => FindColumn(columns, key).Some?
  }

  /** `orderedColumns` (lines 483-507), also the ordering inside `visibleColumns`: without
      an order the columns as given, otherwise the columns the order names, in its order,
      followed by the columns it does not name, in their original order. */
  function OrderedColumns(columns: seq<Column>, order: seq<string>): (r: seq<Column>)
    ensures |r| <= |order| + |columns|
  {
    if order == [] then columns
    else InOrder(columns, order) + Filter(columns, MissingFrom(order))
  }

  /** The order's keys that name no column are skipped: the columns placed by the order
      are exactly those of its keys that name a column, in the order's order; every
      placed column belongs to the columns. */
  lemma {:induction false} InOrderSound(columns: seq<Column>, order: seq<string>)
    ensures KeysOf(InOrder(columns, order)) == Filter(order, HasColumn(columns))
    ensures forall c :: c in InOrder(columns, order) ==> c in columns && c.key in order
    decreases |order|
  {
    if order != [] {
      var init := order[..|order| - 1];
      var last := order[|order| - 1];
      InOrderSound(columns, init);
      assert order == init + [last];
      FilterAppend(init, [last], HasColumn(columns));
      assert Filter([last], HasColumn(columns)) ==
             (if FindColumn(columns, last).Some? then [last] else []) by {
        assert [last][1..] == [];
      }
      var io := InOrder(columns, order);
      var io0 := InOrder(columns, init);
      assert KeysOf(io) == KeysOf(io0) + (if FindColumn(columns, last).Some? then [last] else []);
      forall c | c in io ensures c in columns && c.key in order {
        if c in io0 {
          assert c.key in init;
        }
      }
    }
  }

  /** With distinct column keys, every column whose key the order names is placed. */
  lemma {:induction false} InOrderComplete(columns: seq<Column>, order: seq<string>, c: Column)
    requires DistinctKeys(columns) && c in columns && c.key in order
    ensures c in InOrder(columns, order)
    decreases |order|
  {
    var init := order[..|order| - 1];
    var last := order[|order| - 1];
    assert order == init + [last];
    if last == c.key {
      FindColumnUnique(columns, c);
    } else {
      assert c.key in init;
      InOrderComplete(columns, init, c);
    }
  }

  /** A duplicate-free order places every column at most once. */
  lemma {:induction false} InOrderNoDup(columns: seq<Column>, order: seq<string>)
    requires NoDup(order)
    ensures NoDup(InOrder(columns, order))
    decreases |order|
  {
    if order != [] {
      var init := order[..|order| - 1];
      var last := order[|order| - 1];
      NoDupPrefix(order, |order| - 1);
      InOrderNoDup(columns, init);
      InOrderSound(columns, init);
      var found := FindColumn(columns, last);
      if found.Some? {
        forall x | x in InOrder(columns, init) ensures x !in [found.value] {
          var k :| 0 <= k < |init| && init[k] == x.key;
          assert order[k] == init[k];
        }
        NoDupAppend(InOrder(columns, init), [found.value]);
      }
    }
  }

  /** What `orderedColumns` keeps: the order's columns lead, in the order's order; the
      columns missing from the order follow in their original order; nothing that is not
      a column appears. */
  lemma OrderedColumnsSound(columns: seq<Column>, order: seq<string>)
    ensures order == [] ==> OrderedColumns(columns, order) == columns
    ensures order != [] ==>
            KeysOf(OrderedColumns(columns, order)[..|InOrder(columns, order)|]) ==
            Filter(order, HasColumn(columns))
    ensures order != [] ==>
            OrderedColumns(columns, order)[|InOrder(columns, order)|..] == Filter(columns, MissingFrom(order))
    ensures order != [] ==>
            IsSubsequence(OrderedColumns(columns, order)[|InOrder(columns, order)|..], columns)
    ensures forall c :: c in OrderedColumns(columns, order) ==> c in columns
    ensures forall c :: c in columns && c.key !in order ==> c in OrderedColumns(columns, order)
  {
    if order != [] {
      var io := InOrder(columns, order);
      var rest := Filter(columns, MissingFrom(order));
      var oc := OrderedColumns(columns, order);
      InOrderSound(columns, order);
      assert oc[..|io|] == io && oc[|io|..] == rest;
      FilterIsSubsequence(columns, MissingFrom(order));
      forall c | c in oc ensures c in columns {
        if c !in io {
          FilterMembers(columns, MissingFrom(order), c);
        }
      }
      forall c | c in columns && c.key !in order ensures c in oc {
        FilterMembers(columns, MissingFrom(order), c);
      }
    }
  }

  /** When the column keys are distinct and the order lists no key twice, `orderedColumns`
      is a permutation of the columns. */
  lemma OrderedColumnsPermutation(columns: seq<Column>, order: seq<string>)
    requires DistinctKeys(columns) && NoDup(order)
    ensures multiset(OrderedColumns(columns, order)) == multiset(columns)
  {
    if order != [] {
      var io := InOrder(columns, order);
      var rest := Filter(columns, MissingFrom(order));
      assert NoDup(columns) by {
        forall i, j | 0 <= i < j < |columns| ensures columns[i] != columns[j] {
          assert columns[i].key != columns[j].key;
        }
      }
      InOrderNoDup(columns, order);
      InOrderSound(columns, order);
      FilterNoDup(columns, MissingFrom(order));
      forall x | x in io ensures x !in rest {
        FilterMembers(columns, MissingFrom(order), x);
      }
      NoDupAppend(io, rest);
      forall x ensures x in io + rest <==> x in columns {
        FilterMembers(columns, MissingFrom(order), x);
        if x in columns && x.key in order {
          InOrderComplete(columns, order, x);
        }
      }
      NoDupSameElements(io + rest, columns);
    }
  }

  /** The order the effect initialises (the keys of the columns, in order) displays the
      columns as given, when their keys are distinct. */
  lemma InitialOrderIdentity(columns: seq<Column>)
    requires DistinctKeys(columns)
    ensures OrderedColumns(columns, KeysOf(columns)) == columns
  {
    var keys := KeysOf(columns);
    if keys != [] {
      forall i | 0 <= i < |columns| ensures FindColumn(columns, columns[i].key) == Some(columns[i]) {
        FindColumnUnique(columns, columns[i]);
      }
      InOrderKeys(columns, columns);
      var rest := Filter(columns, MissingFrom(keys));
      if rest != [] {
        FilterMembers(columns, MissingFrom(keys), rest[0]);
        assert false;
      }
    }
  }

  /** Columns that their keys look up exactly are placed back by their own keys. */
  lemma {:induction false} InOrderKeys(columns: seq<Column>, sub: seq<Column>)
    requires forall i :: 0 <= i < |sub| ==> FindColumn(columns, sub[i].key) == Some(sub[i])
    ensures InOrder(columns, KeysOf(sub)) == sub
    decreases |sub|
  {
    if sub != [] {
      var init := sub[..|sub| - 1];
      var last := sub[|sub| - 1];
      InOrderKeys(columns, init);
      assert sub == init + [last];
      KeysOfSnoc(init, last);
      InOrderSnoc(columns, KeysOf(init), last.key);
    }
  }

  lemma KeysOfSnoc(columns: seq<Column>, c: Column)
    ensures KeysOf(columns + [c]) == KeysOf(columns) + [c.key]
  {
    var k := KeysOf(columns + [c]);
    assert forall i :: 0 <= i < |columns| ==> k[i] == KeysOf(columns)[i];
  }

  /** One more key in the order places the column it names, if any, at the end. */
  lemma InOrderSnoc(columns: seq<Column>, order: seq<string>, key: string)
    ensures InOrder(columns, order + [key]) ==
            InOrder(columns, order) + (if FindColumn(columns, key).Some? then [FindColumn(columns, key).value] else [])
  {
    assert (order + [key])[..|order|] == order;
  }

  /** Whether a column is shown (`visibility.get(key) ?? true`). */
  function Shown(visibility: map<string, bool>): Column -> bool {
    (c: Column) => IsColumnVisible(visibility, c.key)
  }

  /** `visibleColumns` (lines 65-93): the ordered columns whose visibility is not false. */
  function VisibleColumns(columns: seq<Column>, visibility: map<string, bool>, order: seq<string>): (r: seq<Column>)
    ensures forall i :: 0 <= i < |r| ==> IsColumnVisible(visibility, r[i].key)
  {
    FilterAll(OrderedColumns(columns, order), Shown(visibility));
    Filter(OrderedColumns(columns, order), Shown(visibility))
  }

  /** The visible columns are a subsequence of the ordered columns, and a column is among
      them exactly when it is ordered and not hidden; hiding a column keeps its place in
      the order. */
  lemma VisibleColumnsSound(columns: seq<Column>, visibility: map<string, bool>, order: seq<string>, c: Column)
    ensures IsSubsequence(VisibleColumns(columns, visibility, order), OrderedColumns(columns, order))
    ensures c in VisibleColumns(columns, visibility, order) <==>
            c in OrderedColumns(columns, order) && IsColumnVisible(visibility, c.key)
    ensures DistinctKeys(columns) && NoDup(order) ==>
            (c in VisibleColumns(columns, visibility, order) <==> c in columns && IsColumnVisible(visibility, c.key))
  {
    FilterIsSubsequence(OrderedColumns(columns, order), Shown(visibility));
    FilterMembers(OrderedColumns(columns, order), Shown(visibility), c);
    if DistinctKeys(columns) && NoDup(order) {
      OrderedColumnsPermutation(columns, order);
      assert c in OrderedColumns(columns, order) <==> c in multiset(OrderedColumns(columns, order));
      assert c in columns <==> c in multiset(columns);
    }
  }

  // ---------------------------------------------------------------- lazy initialisation

  /** The visibility map after the effect's first step (lines 166-176): every column key
      without an entry gets `true`, in column order. */
  function InitVisibility(visibility: map<string, bool>, columns: seq<Column>): (r: map<string, bool>)
    ensures forall k :: k in visibility ==> k in r && r[k] == visibility[k]
    decreases |columns|
  {
    if columns == [] then visibility
    else
      var v := InitVisibility(visibility, columns[..|columns| - 1]);
      var key := columns[|columns| - 1].key;
      if key in v then v else v[key := true]
  }

  /** The initialisation adds an entry for every column, keeps every existing entry, adds
      nothing else and so changes no column's visibility. */
  lemma {:induction false} InitVisibilitySound(visibility: map<string, bool>, columns: seq<Column>)
    ensures forall i :: 0 <= i < |columns| ==> columns[i].key in InitVisibility(visibility, columns)
    ensures forall k :: k in visibility ==> k in InitVisibility(visibility, columns) &&
                                            InitVisibility(visibility, columns)[k] == visibility[k]
    ensures forall k :: k in InitVisibility(visibility, columns) ==> k in visibility || k in KeysOf(columns)
    ensures forall k :: IsColumnVisible(InitVisibility(visibility, columns), k) == IsColumnVisible(visibility, k)
    decreases |columns|
  {
    if columns != [] {
      var init := columns[..|columns| - 1];
      InitVisibilitySound(visibility, init);
      assert forall i :: 0 <= i < |init| ==> init[i] == columns[i];
      forall k | k in InitVisibility(visibility, columns) ensures k in visibility || k in KeysOf(columns) {
        if k in InitVisibility(visibility, init) && k !in visibility {
          var i :| 0 <= i < |init| && KeysOf(init)[i] == k;
          assert KeysOf(columns)[i] == k;
        } else if k !in visibility {
          assert KeysOf(columns)[|columns| - 1] == k;
        }
      }
    }
  }

  /** When every column already has an entry, the initialisation leaves the map as it is
      (the effect then skips it). */
  lemma {:induction false} InitVisibilityComplete(visibility: map<string, bool>, columns: seq<Column>)
    requires forall i :: 0 <= i < |columns| ==> columns[i].key in visibility
    ensures InitVisibility(visibility, columns) == visibility
    decreases |columns|
  {
    if columns != [] {
      var init := columns[..|columns| - 1];
      assert forall i :: 0 <= i < |init| ==> init[i] == columns[i];
      InitVisibilityComplete(visibility, init);
    }
  }

  /** The order list after the effect's second step (lines 178-180): the column keys when
      the list is empty and there are columns, otherwise unchanged. */
  function InitOrder(order: seq<string>, columns: seq<Column>): (r: seq<string>)
    ensures order != [] ==> r == order
    ensures order == [] ==> r == KeysOf(columns)
  {
    if |order| == 0 && |columns| > 0 then KeysOf(columns) else order
  }

  /** The initialisation does not change what the picker displays when the keys are
      distinct: an empty order already displays the columns as given. */
  lemma InitOrderDisplay(order: seq<string>, columns: seq<Column>)
    requires DistinctKeys(columns)
    ensures OrderedColumns(columns, InitOrder(order, columns)) == OrderedColumns(columns, order)
  {
    if order == [] {
      InitialOrderIdentity(columns);
    }
  }

  // ---------------------------------------------------------------- drag and drop

  /** The splice pair of `onDrop` (lines 556-558): remove the key at `from`, then insert it
      at `to`; `splice` at a position past the end appends. */
  function Move(order: seq<string>, from: nat, to: nat): (r: seq<string>)
    requires from < |order|
    ensures |r| == |order|
  {
    var rest := order[..from] + order[from + 1..];
    var pos := if to <= |rest| then to else |rest|;
    rest[..pos] + [order[from]] + rest[pos..]
  }

  /** What a move removes and inserts: the remaining keys in their order, and the
      clamped insertion position. */
  function MoveRest(order: seq<string>, from: nat): (rest: seq<string>)
    requires from < |order|
    ensures |rest| == |order| - 1
  {
    order[..from] + order[from + 1..]
  }

  /** A move is a permutation that puts the moved key at the drop position (or at the end
      when the position is past it) and keeps the relative order of all the other keys. */
  lemma MoveSound(order: seq<string>, from: nat, to: nat)
    requires from < |order|
    ensures multiset(Move(order, from, to)) == multiset(order)
    ensures var pos := if to < |order| then to else |order| - 1;
            Move(order, from, to)[pos] == order[from] &&
            Move(order, from, to)[..pos] + Move(order, from, to)[pos + 1..] == MoveRest(order, from)
  {
    var rest := MoveRest(order, from);
    var pos := if to <= |rest| then to else |rest|;
    var r := Move(order, from, to);
    assert r == rest[..pos] + [order[from]] + rest[pos..];
    RemoveAtMultiset(order, from);
    InsertAtMultiset(rest, pos, order[from]);
    assert r[..pos] == rest[..pos];
    assert r[pos + 1..] == rest[pos..];
  }

  /** Removing the key at `k` removes one occurrence of it. */
  lemma RemoveAtMultiset(a: seq<string>, k: nat)
    requires k < |a|
    ensures multiset(a[..k] + a[k + 1..]) + multiset{a[k]} == multiset(a)
  {
    assert a == a[..k] + [a[k]] + a[k + 1..];
  }

  /** Inserting a key at `k` adds one occurrence of it. */
  lemma InsertAtMultiset(a: seq<string>, k: nat, x: string)
    requires k <= |a|
    ensures multiset(a[..k] + [x] + a[k..]) == multiset(a) + multiset{x}
  {
    assert a == a[..k] + a[k..];
  }

  /** A move keeps a duplicate-free order duplicate-free. */
  lemma MoveNoDup(order: seq<string>, from: nat, to: nat)
    requires from < |order| && NoDup(order)
    ensures NoDup(Move(order, from, to))
  {
  }

  /** Moving the second of two columns to the front: `name` dropped onto `id`. */
  lemma MoveScenario()
    ensures Move(["id", "name"], 1, 0) == ["name", "id"]
  {
  }

  /** The over-index after `onDragOver` or `onDragEnter` at `index`: it becomes `index`
      while a column is dragged and `index` is not the dragged one. */
  function DragOverIndex(dragged: Option<nat>, over: Option<nat>, index: nat): (r: Option<nat>)
    ensures r == over || r == Some(index)
  {
    if dragged.Some? && dragged.value != index then Some(index) else over
  }

  /** A newly set over-index is never the dragged index. */
  lemma DragOverIndexSound(dragged: Option<nat>, over: Option<nat>, index: nat)
    ensures DragOverIndex(dragged, over, index) != over ==>
            DragOverIndex(dragged, over, index) == Some(index) && dragged.Some? && dragged.value != index
    ensures dragged.None? ==> DragOverIndex(dragged, over, index) == over
    ensures dragged == Some(index) ==> DragOverIndex(dragged, over, index) == over
  {
  }

  /** The two drop indicators. */
  datatype Indicator = Before | After

  /** `shouldShowDropIndicator(index)`. */
  function DropIndicator(dragged: Option<nat>, over: Option<nat>, index: nat): (r: Option<Indicator>)
    ensures r.Some? ==> over == Some(index) && dragged.Some? && dragged.value != index
  {
    if dragged.None? || over.None? || dragged.value == over.value then None
    else if over.value == index then (if dragged.value < over.value then Some(After) else Some(Before))
    else None
  }

  /** An indicator shows only at the over-index, only while dragging a different column;
      it is `after` exactly when the dragged column comes from an earlier position; at
      most one position shows one. */
  lemma DropIndicatorSound(dragged: Option<nat>, over: Option<nat>, index: nat, other: nat)
    ensures DropIndicator(dragged, over, index).Some? <==>
            dragged.Some? && over == Some(index) && dragged.value != index
    ensures DropIndicator(dragged, over, index) == Some(After) <==>
            dragged.Some? && over == Some(index) && dragged.value < index
    ensures DropIndicator(dragged, over, index) == Some(Before) <==>
            dragged.Some? && over == Some(index) && dragged.value > index
    ensures index != other ==> DropIndicator(dragged, over, index).None? || DropIndicator(dragged, over, other).None?
  {
  }
}
