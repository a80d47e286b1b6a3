/** The filter stage of `filteredAndSortedData` (table.component.ts, lines 95-118):
    the optional external predicate, then the search query (the external one when it
    is defined, else the internal one), trimmed and lower-cased, matched against every
    column by `matchesSearch`. */
module Search {
  import opened Options
  import opened Values
  import opened Seqs

  /** The text a cell is searched in: `toLocaleDateString()` for a date and
      `String(value)` for anything else, lower-cased. */
  function SearchText(v: Value): string {
    Lower(if v.Date? then LocaleDateString(v.time) else Render(v))
  }

  /** One column of `matchesSearch`: a null or undefined value never matches. */
  predicate CellMatches(row: Row, column: Column, query: string) {
    var v := GetNestedValue(row, column.key);
    v != Null && Contains(SearchText(v), query)
  }

  /** `matchesSearch(row, query)`: `columns.some(...)`. */
  predicate MatchesSearch(row: Row, columns: seq<Column>, query: string)
    ensures MatchesSearch(row, columns, query) ==>
            exists i :: 0 <= i < |columns| && GetNestedValue(row, columns[i].key) != Null
    decreases |columns|
  {
    columns != [] && (CellMatches(row, columns[0], query) || MatchesSearch(row, columns[1..], query))
  }

  /** `matchesSearch` holds exactly when some column's value matches. */
  lemma {:induction false} MatchesSearchSome(row: Row, columns: seq<Column>, query: string)
    ensures MatchesSearch(row, columns, query) <==>
            exists i :: 0 <= i < |columns| && CellMatches(row, columns[i], query)
    decreases |columns|
  {
    if columns != [] {
      MatchesSearchSome(row, columns[1..], query);
      if MatchesSearch(row, columns[1..], query) {
        var i :| 0 <= i < |columns[1..]| && CellMatches(row, columns[1..][i], query);
        assert CellMatches(row, columns[i + 1], query);
      }
      if exists i :: 0 <= i < |columns| && CellMatches(row, columns[i], query) {
        var i :| 0 <= i < |columns| && CellMatches(row, columns[i], query);
        if i > 0 {
          assert columns[1..][i - 1] == columns[i];
        }
      }
    }
  }

  /** `query.trim().toLowerCase()`. */
  function NormalizeQuery(query: string): (q: string)
    ensures q == [] <==> forall i :: 0 <= i < |query| ==> IsWhitespace(query[i])
  {
    TrimBlank(query);
    Lower(Trim(query))
  }

  /** The external search query when it is defined (even when it is empty), otherwise
      the internal one (`effectiveSearchQuery`, line 268). */
  function EffectiveSearchQuery(external: Option<string>, internal: string): (q: string)
    ensures external.Some? ==> q == external.value
    ensures external.None? ==> q == internal
  {
    if external.Some? then external.value else internal
  }

  /** `dataArray.filter(externalFilterFn)` when an external filter is given. */
  function ApplyExternalFilter(data: seq<Row>, externalFilter: Option<Row -> bool>): (r: seq<Row>)
    ensures |r| <= |data|
  {
    if externalFilter.Some? then Filter(data, externalFilter.value) else data
  }

  /** The search filter for an already normalised query; an empty query is falsy and
      keeps every row. */
  function ApplySearch(rows: seq<Row>, columns: seq<Column>, query: string): (r: seq<Row>)
    ensures |r| <= |rows|
  {
    if query == [] then rows else Filter(rows, (r: Row) => MatchesSearch(r, columns, query))
  }

  /** Lines 96-118 of `filteredAndSortedData`. */
  function FilterStage(data: seq<Row>, columns: seq<Column>, externalFilter: Option<Row -> bool>,
                       externalQuery: Option<string>, searchQuery: string): (r: seq<Row>)
    ensures |r| <= |data|
  {
    ApplySearch(ApplyExternalFilter(data, externalFilter), columns,
                NormalizeQuery(EffectiveSearchQuery(externalQuery, searchQuery)))
  }

  /** The condition a row must meet to survive the filter stage. */
  predicate Kept(row: Row, columns: seq<Column>, externalFilter: Option<Row -> bool>, query: string) {
    (externalFilter.Some? ==> externalFilter.value(row)) &&
    (query != [] ==> MatchesSearch(row, columns, query))
  }

  /** The filter stage is one filter by `Kept`. */
  lemma FilterStageIsFilter(data: seq<Row>, columns: seq<Column>, externalFilter: Option<Row -> bool>,
                            externalQuery: Option<string>, searchQuery: string)
    ensures var q := NormalizeQuery(EffectiveSearchQuery(externalQuery, searchQuery));
            FilterStage(data, columns, externalFilter, externalQuery, searchQuery) ==
            Filter(data, (r: Row) => Kept(r, columns, externalFilter, q))
  {
    var q := NormalizeQuery(EffectiveSearchQuery(externalQuery, searchQuery));
    var kept := (r: Row) => Kept(r, columns, externalFilter, q);
    var search := (r: Row) => MatchesSearch(r, columns, q);
    if externalFilter.Some? {
      var f := externalFilter.value;
      if q == [] {
        FilterSame(data, f, kept);
      } else {
        FilterFilter(data, f, search, kept);
      }
    } else {
      if q == [] {
        FilterTrue(data, kept);
      } else {
        FilterSame(data, search, kept);
      }
    }
  }

  lemma {:induction false} FilterSame(s: seq<Row>, p: Row -> bool, q: Row -> bool)
    requires forall r :: p(r) == q(r)
    ensures Filter(s, p) == Filter(s, q)
  {
    if s != [] {
      FilterSame(s[1..], p, q);
    }
  }

  /** The filter stage keeps a subsequence of the data, and a row of the data is kept
      exactly when it satisfies the external predicate (if any) and matches the
      normalised query (if it is not empty). */
  lemma FilterStageSound(data: seq<Row>, columns: seq<Column>, externalFilter: Option<Row -> bool>,
                         externalQuery: Option<string>, searchQuery: string, row: Row)
    ensures IsSubsequence(FilterStage(data, columns, externalFilter, externalQuery, searchQuery), data)
    ensures var q := NormalizeQuery(EffectiveSearchQuery(externalQuery, searchQuery));
            row in FilterStage(data, columns, externalFilter, externalQuery, searchQuery) <==>
            row in data && Kept(row, columns, externalFilter, q)
  {
    var q := NormalizeQuery(EffectiveSearchQuery(externalQuery, searchQuery));
    FilterStageIsFilter(data, columns, externalFilter, externalQuery, searchQuery);
    FilterIsSubsequence(data, (r: Row) => Kept(r, columns, externalFilter, q));
    FilterMembers(data, (r: Row) => Kept(r, columns, externalFilter, q), row);
  }

  /** An empty or whitespace-only effective query filters nothing: the stage returns the
      externally filtered rows unchanged. */
  lemma BlankQueryKeepsAll(data: seq<Row>, columns: seq<Column>, externalFilter: Option<Row -> bool>,
                           externalQuery: Option<string>, searchQuery: string)
    requires var e := EffectiveSearchQuery(externalQuery, searchQuery);
             forall i :: 0 <= i < |e| ==> IsWhitespace(e[i])
    ensures FilterStage(data, columns, externalFilter, externalQuery, searchQuery) ==
            ApplyExternalFilter(data, externalFilter)
  {
  }

  /** A defined external query, even the empty one, overrides the internal query. */
  lemma ExternalQueryOverrides(data: seq<Row>, columns: seq<Column>, externalFilter: Option<Row -> bool>,
                               external: string, internal1: string, internal2: string)
    ensures FilterStage(data, columns, externalFilter, Some(external), internal1) ==
            FilterStage(data, columns, externalFilter, Some(external), internal2)
    ensures FilterStage(data, columns, externalFilter, Some(""), internal1) ==
            ApplyExternalFilter(data, externalFilter)
  {
  }
}
