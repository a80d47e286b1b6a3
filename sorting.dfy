/** The sort stage of `filteredAndSortedData` (table.component.ts, lines 120-155): one
    sort column and one direction, a comparator that puts null and undefined values
    last in either direction, and a stable sort of a copy of the filtered rows. */
module Sorting {
  import opened Values

  datatype Direction = Asc | Desc

  /** The comparator exactly as the source writes it (lines 132-154): a null or
      undefined left operand answers 1 before the right operand is looked at, so two
      nulls compare as 1 in both orders. */
  function CompareAsWritten(a: Value, b: Value, dir: Direction): (r: int)
    ensures a == Null ==> r > 0
    ensures a != Null && b == Null ==> r < 0
  {
    if a == Null then 1
    else if b == Null then -1
    else CompareValues(a, b, dir)
  }

  /** The comparator the model sorts with: two nulls are equal, otherwise as written. */
  function Compare(a: Value, b: Value, dir: Direction): (r: int)
    ensures a == Null && b != Null ==> r > 0
    ensures a != Null && b == Null ==> r < 0
    ensures a != Null && b != Null ==> r == CompareAsWritten(a, b, dir)
  {
    if a == Null && b == Null then 0 else CompareAsWritten(a, b, dir)
  }

  /** Two present values: dates by instant, numbers numerically, everything else by the
      lower-cased `String(value)`; `desc` swaps the operands. */
  function CompareValues(a: Value, b: Value, dir: Direction): (r: int)
    ensures a.Date? && b.Date? ==> (r < 0 <==> (if dir == Asc then a.time < b.time else b.time < a.time))
    ensures a.Num? && b.Num? ==> (r < 0 <==> (if dir == Asc then a.n < b.n else b.n < a.n))
    ensures !(a.Num? && b.Num?) && !(a.Date? && b.Date?) ==>
            (r == 0 <==> Lower(Render(a)) == Lower(Render(b)))
  {
    if a.Date? && b.Date? then
      var diff := a.time - b.time;
      if dir == Asc then diff else -diff
    else if a.Num? && b.Num? then
      if dir == Asc then a.n - b.n else b.n - a.n
    else
      var aStr := Lower(Render(a));
      var bStr := Lower(Render(b));
      if dir == Asc then LexCompare(aStr, bStr) else LexCompare(bStr, aStr)
  }

  /** The comparator as written says of two null values that each is greater than the
      other. */
  lemma CompareAsWrittenNullsInconsistent(dir: Direction)
    ensures CompareAsWritten(Null, Null, dir) > 0
    ensures CompareAsWritten(Null, Null, dir) != -CompareAsWritten(Null, Null, dir)
  {
  }

  /** The model's comparator is antisymmetric: swapping the operands negates it. */
  lemma CompareAntisymmetric(a: Value, b: Value, dir: Direction)
    ensures Compare(b, a, dir) == -Compare(a, b, dir)
  {
    if a != Null && b != Null && !(a.Date? && b.Date?) && !(a.Num? && b.Num?) {
      LexCompareAntisymmetric(Lower(Render(a)), Lower(Render(b)));
    }
  }

  /** For two present values `desc` is the negated `asc` order; nulls stay last in
      both directions. */
  lemma DescendingNegates(a: Value, b: Value)
    ensures a != Null && b != Null ==> Compare(a, b, Desc) == -Compare(a, b, Asc)
    ensures a == Null && b != Null ==> Compare(a, b, Desc) > 0 && Compare(a, b, Asc) > 0
  {
    if a != Null && b != Null && !(a.Date? && b.Date?) && !(a.Num? && b.Num?) {
      LexCompareAntisymmetric(Lower(Render(a)), Lower(Render(b)));
    }
  }

  /** The comparator applied to the values two rows hold under the sort key. */
  function RowCompare(x: Row, y: Row, key: string, dir: Direction): int {
    Compare(GetNestedValue(x, key), GetNestedValue(y, key), dir)
  }

  /** Places `x` in front of the first row it does not compare greater than. */
  function Insert(x: Row, t: seq<Row>, key: string, dir: Direction): (r: seq<Row>)
    ensures |r| == |t| + 1
  {
    if t == [] || RowCompare(x, t[0], key, dir) <= 0 then [x] + t
    else [t[0]] + Insert(x, t[1..], key, dir)
  }

  /** `[...rows].sort(comparator)`, as a stable insertion sort: each row goes in front of
      the rows that come after it in the input and do not compare less than it. */
  function SortRows(rows: seq<Row>, key: string, dir: Direction): (r: seq<Row>)
    ensures |r| == |rows|
  {
    if rows == [] then [] else Insert(rows[0], SortRows(rows[1..], key, dir), key, dir)
  }

  predicate IsNullAt(row: Row, key: string) {
    GetNestedValue(row, key) == Null
  }

  /** The rows whose sort value is present come first, then those with null or
      undefined. */
  ghost predicate NullsLast(rows: seq<Row>, key: string) {
    forall i, j :: 0 <= i < j < |rows| && IsNullAt(rows[i], key) ==> IsNullAt(rows[j], key)
  }

  ghost predicate AllNull(rows: seq<Row>, key: string) {
    forall i :: 0 <= i < |rows| ==> IsNullAt(rows[i], key)
  }

  /** `NullsLast`, one row at a time. */
  ghost predicate NullsLastFrom(rows: seq<Row>, key: string)
    decreases |rows|
  {
    rows == [] ||
    if IsNullAt(rows[0], key) then AllNull(rows[1..], key) else NullsLastFrom(rows[1..], key)
  }

  lemma {:induction false} NullsLastFromMeans(rows: seq<Row>, key: string)
    requires NullsLastFrom(rows, key)
    ensures NullsLast(rows, key)
    decreases |rows|
  {
    if rows != [] {
      var t := rows[1..];
      if !IsNullAt(rows[0], key) {
        NullsLastFromMeans(t, key);
      }
      forall i, j | 0 <= i < j < |rows| && IsNullAt(rows[i], key) ensures IsNullAt(rows[j], key) {
        assert rows[j] == t[j - 1];
        if i > 0 { assert rows[i] == t[i - 1]; }
      }
    }
  }

  /** Each row compares less than or equal to the next one. */
  ghost predicate AdjacentOrdered(rows: seq<Row>, key: string, dir: Direction) {
    forall i :: 0 <= i < |rows| - 1 ==> RowCompare(rows[i], rows[i + 1], key, dir) <= 0
  }

  lemma {:induction false} InsertPermutes(x: Row, t: seq<Row>, key: string, dir: Direction)
    ensures multiset(Insert(x, t, key, dir)) == multiset(t) + multiset{x}
  {
    if t != [] && RowCompare(x, t[0], key, dir) > 0 {
      InsertPermutes(x, t[1..], key, dir);
      assert t == [t[0]] + t[1..];
    }
  }

  /** Sorting only rearranges the rows. */
  lemma {:induction false} SortPermutes(rows: seq<Row>, key: string, dir: Direction)
    ensures multiset(SortRows(rows, key, dir)) == multiset(rows)
  {
    if rows != [] {
      SortPermutes(rows[1..], key, dir);
      InsertPermutes(rows[0], SortRows(rows[1..], key, dir), key, dir);
      assert rows == [rows[0]] + rows[1..];
    }
  }

  lemma {:induction false} InsertNullsLast(x: Row, t: seq<Row>, key: string, dir: Direction)
    requires NullsLastFrom(t, key)
    ensures NullsLastFrom(Insert(x, t, key, dir), key)
    decreases |t|
  {
    if t != [] {
      var r := Insert(x, t, key, dir);
      if RowCompare(x, t[0], key, dir) <= 0 {
        assert r[1..] == t;
        if IsNullAt(x, key) {
          // x goes in front of t[0] only when t[0] is null as well
          assert IsNullAt(t[0], key);
          assert AllNull(t, key) by {
            forall i | 0 <= i < |t| ensures IsNullAt(t[i], key) {
              if i > 0 { assert t[i] == t[1..][i - 1]; }
            }
          }
        }
      } else {
        // x compares greater than t[0] only when t[0] has a present value
        assert r[0] == t[0] && r[1..] == Insert(x, t[1..], key, dir);
        assert !IsNullAt(t[0], key);
        InsertNullsLast(x, t[1..], key, dir);
      }
    }
  }

  lemma {:induction false} SortNullsLastFrom(rows: seq<Row>, key: string, dir: Direction)
    ensures NullsLastFrom(SortRows(rows, key, dir), key)
  {
    if rows != [] {
      SortNullsLastFrom(rows[1..], key, dir);
      InsertNullsLast(rows[0], SortRows(rows[1..], key, dir), key, dir);
    }
  }

  /** Rows whose sort value is null or undefined end up after every row with a present
      value, in either direction. */
  lemma SortNullsLast(rows: seq<Row>, key: string, dir: Direction)
    ensures NullsLast(SortRows(rows, key, dir), key)
  {
    SortNullsLastFrom(rows, key, dir);
    NullsLastFromMeans(SortRows(rows, key, dir), key);
  }

  lemma {:induction false} InsertOrdered(x: Row, t: seq<Row>, key: string, dir: Direction)
    requires AdjacentOrdered(t, key, dir)
    ensures AdjacentOrdered(Insert(x, t, key, dir), key, dir)
    ensures t != [] ==> Insert(x, t, key, dir)[0] == x || Insert(x, t, key, dir)[0] == t[0]
  {
    if t != [] && RowCompare(x, t[0], key, dir) > 0 {
      var rest := Insert(x, t[1..], key, dir);
      AdjacentOrderedTail(t, key, dir);
      InsertOrdered(x, t[1..], key, dir);
      CompareAntisymmetric(GetNestedValue(x, key), GetNestedValue(t[0], key), dir);
      AdjacentOrderedCons(t[0], rest, key, dir);
    } else {
      AdjacentOrderedCons(x, t, key, dir);
    }
  }

  lemma AdjacentOrderedTail(t: seq<Row>, key: string, dir: Direction)
    requires AdjacentOrdered(t, key, dir) && t != []
    ensures AdjacentOrdered(t[1..], key, dir)
  {
    forall i | 0 <= i < |t[1..]| - 1 ensures RowCompare(t[1..][i], t[1..][i + 1], key, dir) <= 0 {
      assert t[1..][i] == t[i + 1] && t[1..][i + 1] == t[i + 2];
    }
  }

  /** A row in front of ordered rows keeps them ordered when it does not compare greater
      than the first of them. */
  lemma AdjacentOrderedCons(z: Row, t: seq<Row>, key: string, dir: Direction)
    requires AdjacentOrdered(t, key, dir) && (t == [] || RowCompare(z, t[0], key, dir) <= 0)
    ensures AdjacentOrdered([z] + t, key, dir)
  {
    var r := [z] + t;
    forall i | 0 <= i < |r| - 1 ensures RowCompare(r[i], r[i + 1], key, dir) <= 0 {
      if i > 0 { assert r[i] == t[i - 1] && r[i + 1] == t[i]; }
    }
  }

  /** Rows already ordered pair by neighbouring pair come out of the sort as they are. */
  lemma {:induction false} SortOfOrdered(rows: seq<Row>, key: string, dir: Direction)
    requires AdjacentOrdered(rows, key, dir)
    ensures SortRows(rows, key, dir) == rows
    decreases |rows|
  {
    if rows != [] {
      AdjacentOrderedTail(rows, key, dir);
      SortOfOrdered(rows[1..], key, dir);
      assert rows == [rows[0]] + rows[1..];
    }
  }

  /** Sorting the sorted rows again by the same key and direction changes nothing. */
  lemma SortIdempotent(rows: seq<Row>, key: string, dir: Direction)
    ensures SortRows(SortRows(rows, key, dir), key, dir) == SortRows(rows, key, dir)
  {
    SortOrdered(rows, key, dir);
    SortOfOrdered(SortRows(rows, key, dir), key, dir);
  }

  /** The sorted rows are ordered by the comparator, pair by neighbouring pair. */
  lemma {:induction false} SortOrdered(rows: seq<Row>, key: string, dir: Direction)
    ensures AdjacentOrdered(SortRows(rows, key, dir), key, dir)
  {
    if rows != [] {
      SortOrdered(rows[1..], key, dir);
      InsertOrdered(rows[0], SortRows(rows[1..], key, dir), key, dir);
    }
  }

  // ------------------------------------------------- columns of one kind of value

  /** The comparator is transitive on the given rows. */
  ghost predicate Transitive(rows: seq<Row>, key: string, dir: Direction) {
    forall a, b, c ::
      a in rows && b in rows && c in rows &&
      RowCompare(a, b, key, dir) <= 0 && RowCompare(b, c, key, dir) <= 0
      ==> RowCompare(a, c, key, dir) <= 0
  }

  /** Every row compares less than or equal to every later row. */
  ghost predicate Sorted(rows: seq<Row>, key: string, dir: Direction) {
    forall i, j :: 0 <= i < j < |rows| ==> RowCompare(rows[i], rows[j], key, dir) <= 0
  }

  /** All values present in the sort column are numbers, or all are dates, or all are
      strings: the case of every column of the demo. */
  ghost predicate OneKind(rows: seq<Row>, key: string) {
    || (forall r :: r in rows ==> NumOrNull(GetNestedValue(r, key)))
    || (forall r :: r in rows ==> DateOrNull(GetNestedValue(r, key)))
    || (forall r :: r in rows ==> StrOrNull(GetNestedValue(r, key)))
  }

  /** Each value is null or of the given kind. */
  predicate NumOrNull(v: Value) { v.Null? || v.Num? }
  predicate DateOrNull(v: Value) { v.Null? || v.Date? }
  predicate StrOrNull(v: Value) { v.Null? || v.Str? }

  lemma ValueTransitive(a: Value, b: Value, c: Value, dir: Direction)
    requires || (NumOrNull(a) && NumOrNull(b) && NumOrNull(c))
             || (DateOrNull(a) && DateOrNull(b) && DateOrNull(c))
             || (StrOrNull(a) && StrOrNull(b) && StrOrNull(c))
    requires Compare(a, b, dir) <= 0 && Compare(b, c, dir) <= 0
    ensures Compare(a, c, dir) <= 0
  {
    if a.Str? && b.Str? && c.Str? {
      var x, y, z := Lower(a.s), Lower(b.s), Lower(c.s);
      if dir == Asc { LexCompareTransitive(x, y, z); } else { LexCompareTransitive(z, y, x); }
    }
  }

  /** On a column holding one kind of value the comparator is transitive. */
  lemma OneKindTransitive(rows: seq<Row>, key: string, dir: Direction)
    requires OneKind(rows, key)
    ensures Transitive(rows, key, dir)
  {
    forall a, b, c | a in rows && b in rows && c in rows &&
      RowCompare(a, b, key, dir) <= 0 && RowCompare(b, c, key, dir) <= 0
      ensures RowCompare(a, c, key, dir) <= 0
    {
      ValueTransitive(GetNestedValue(a, key), GetNestedValue(b, key), GetNestedValue(c, key), dir);
    }
  }

  lemma {:induction false} AdjacentToSorted(rows: seq<Row>, key: string, dir: Direction)
    requires AdjacentOrdered(rows, key, dir) && Transitive(rows, key, dir)
    ensures Sorted(rows, key, dir)
  {
    forall i, j | 0 <= i < j < |rows| ensures RowCompare(rows[i], rows[j], key, dir) <= 0 {
      var k := i + 1;
      while k < j
        invariant i < k <= j
        invariant RowCompare(rows[i], rows[k], key, dir) <= 0
      {
        assert RowCompare(rows[k], rows[k + 1], key, dir) <= 0;
        k := k + 1;
      }
    }
  }

  /** When the comparator is transitive on the rows, the result is fully sorted. */
  lemma SortSorted(rows: seq<Row>, key: string, dir: Direction)
    requires Transitive(rows, key, dir)
    ensures Sorted(SortRows(rows, key, dir), key, dir)
  {
    var r := SortRows(rows, key, dir);
    SortOrdered(rows, key, dir);
    SortPermutes(rows, key, dir);
    assert forall z :: z in r ==> z in rows by {
      forall z | z in r ensures z in rows {
        assert z in multiset(r);
      }
    }
    AdjacentToSorted(r, key, dir);
  }

  /** The rows that compare equal to `x`, in order. */
  function Equivalents(rows: seq<Row>, x: Row, key: string, dir: Direction): seq<Row> {
    if rows == [] then []
    else (if RowCompare(rows[0], x, key, dir) == 0 then [rows[0]] else []) +
         Equivalents(rows[1..], x, key, dir)
  }

  /** Transitivity through `x`, for `y` and each row of `t`. */
  ghost predicate ThroughX(y: Row, x: Row, t: seq<Row>, key: string, dir: Direction) {
    forall z :: z in t && RowCompare(y, x, key, dir) <= 0 && RowCompare(x, z, key, dir) <= 0
      ==> RowCompare(y, z, key, dir) <= 0
  }

  lemma TransitiveAt(rows: seq<Row>, a: Row, b: Row, c: Row, key: string, dir: Direction)
    requires Transitive(rows, key, dir) && a in rows && b in rows && c in rows
    requires RowCompare(a, b, key, dir) <= 0 && RowCompare(b, c, key, dir) <= 0
    ensures RowCompare(a, c, key, dir) <= 0
  {
  }

  lemma {:induction false} InsertKeepsEquivalents(y: Row, t: seq<Row>, x: Row, key: string, dir: Direction)
    requires ThroughX(y, x, t, key, dir)
    ensures Equivalents(Insert(y, t, key, dir), x, key, dir) ==
            (if RowCompare(y, x, key, dir) == 0 then [y] else []) + Equivalents(t, x, key, dir)
    decreases |t|
  {
    if t == [] || RowCompare(y, t[0], key, dir) <= 0 {
      EquivalentsCons(y, t, x, key, dir);
    } else {
      var z := t[0];
      assert t == [z] + t[1..];
      assert ThroughX(y, x, t[1..], key, dir) by {
        forall w | w in t[1..] ensures w in t { }
      }
      InsertKeepsEquivalents(y, t[1..], x, key, dir);
      EquivalentsCons(z, Insert(y, t[1..], key, dir), x, key, dir);
      EquivalentsCons(z, t[1..], x, key, dir);
      assert !(RowCompare(z, x, key, dir) == 0 && RowCompare(y, x, key, dir) == 0) by {
        // z and y are both equivalent to x, so y cannot compare greater than z
        CompareAntisymmetric(GetNestedValue(z, key), GetNestedValue(x, key), dir);
      }
      SwapFront(if RowCompare(z, x, key, dir) == 0 then [z] else [],
                if RowCompare(y, x, key, dir) == 0 then [y] else [], Equivalents(t[1..], x, key, dir));
    }
  }

  lemma SwapFront(a: seq<Row>, b: seq<Row>, c: seq<Row>)
    requires a == [] || b == []
    ensures a + (b + c) == b + (a + c)
  {
  }

  lemma EquivalentsCons(z: Row, t: seq<Row>, x: Row, key: string, dir: Direction)
    ensures Equivalents([z] + t, x, key, dir) ==
            (if RowCompare(z, x, key, dir) == 0 then [z] else []) + Equivalents(t, x, key, dir)
  {
    assert ([z] + t)[1..] == t;
  }

  /** Stability: when the comparator is transitive on the rows (and on `x`), the rows
      comparing equal to `x` keep their relative order. */
  lemma {:induction false} SortStable(rows: seq<Row>, x: Row, key: string, dir: Direction)
    requires Transitive([x] + rows, key, dir)
    ensures Equivalents(SortRows(rows, key, dir), x, key, dir) == Equivalents(rows, x, key, dir)
  {
    if rows != [] {
      var y := rows[0];
      var t := SortRows(rows[1..], key, dir);
      assert Transitive([x] + rows[1..], key, dir) by {
        assert forall w :: w in [x] + rows[1..] ==> w in [x] + rows;
      }
      SortStable(rows[1..], x, key, dir);
      SortPermutes(rows[1..], key, dir);
      assert ThroughX(y, x, t, key, dir) by {
        forall z | z in t && RowCompare(y, x, key, dir) <= 0 && RowCompare(x, z, key, dir) <= 0
          ensures RowCompare(y, z, key, dir) <= 0
        {
          assert z in multiset(t);
          assert z in rows[1..];
          TransitiveAt([x] + rows, y, x, z, key, dir);
        }
      }
      InsertKeepsEquivalents(y, t, x, key, dir);
    }
  }
}
