/**
 * The schools page: the fetched rows, numbered in response order; the
 * search box, which keeps the schools whose name or email contains the
 * query regardless of ASCII letter case; and the page state of the table.
 */
module SchoolsPage {
  import opened Text
  import opened Sequences
  import opened Pagination

  /** One element of the `/schools/admin` response. */
  datatype SchoolRecord = SchoolRecord(
    id: string,
    name: string,
    email: string,
    licenses: int,
    allLicensesActive: bool)

  /** A table row, as `createData` builds it: `id` is the row's number, `schoolId` the school's. */
  datatype SchoolRow = SchoolRow(
    id: int,
    schoolId: string,
    name: string,
    email: string,
    licenses: int,
    allLicensesActive: bool)

  /** `response.data.map((school, index) => createData(index + 1, ...))`. */
  function CreateRows(data: seq<SchoolRecord>): (rows: seq<SchoolRow>)
    ensures |rows| == |data|
    ensures forall i :: 0 <= i < |data| ==>
      rows[i] == SchoolRow(i + 1, data[i].id, data[i].name, data[i].email, data[i].licenses, data[i].allLicensesActive)
  {
    seq(|data|, i requires 0 <= i < |data| =>
      SchoolRow(i + 1, data[i].id, data[i].name, data[i].email, data[i].licenses, data[i].allLicensesActive))
  }

  /**
   * The rows are numbered 1 to n in response order: increasing numbers from
   * 1 to n over n rows, so every row `id` (the React key) is distinct.
   */
  lemma CreateRowsNumbering(data: seq<SchoolRecord>)
    ensures forall i, j :: 0 <= i < j < |data| ==> CreateRows(data)[i].id < CreateRows(data)[j].id
    ensures forall r :: r in CreateRows(data) ==> 1 <= r.id <= |data|
    ensures |data| > 0 ==> CreateRows(data)[0].id == 1 && CreateRows(data)[|data| - 1].id == |data|
  {
  }

  /** The search predicate: the lower-cased name or email contains the lower-cased query. */
  predicate Matches(row: SchoolRow, query: string)
  {
    Includes(ToLower(row.name), ToLower(query)) || Includes(ToLower(row.email), ToLower(query))
  }

  /** `filteredRows`. */
  function FilterSchools(rows: seq<SchoolRow>, query: string): seq<SchoolRow>
  {
    Filter(rows, (r: SchoolRow) => Matches(r, query))
  }

  /**
   * The filter keeps exactly the matching rows, every occurrence of each:
   * a row is in the result if and only if it is in `rows` and matches.
   */
  lemma FilterSchoolsExact(rows: seq<SchoolRow>, query: string, r: SchoolRow)
    ensures multiset(FilterSchools(rows, query))[r] == if Matches(r, query) then multiset(rows)[r] else 0
    ensures r in FilterSchools(rows, query) <==> r in rows && Matches(r, query)
  {
    FilterCount(rows, (x: SchoolRow) => Matches(x, query), r);
  }

  /** The filter never adds or reorders rows. */
  lemma FilterSchoolsSubsequence(rows: seq<SchoolRow>, query: string)
    ensures IsSubsequence(FilterSchools(rows, query), rows)
  {
    FilterIsSubsequence(rows, (x: SchoolRow) => Matches(x, query));
  }

  /** The empty query keeps every row. */
  lemma EmptyQueryKeepsAll(rows: seq<SchoolRow>)
    ensures FilterSchools(rows, "") == rows
  {
    forall i | 0 <= i < |rows|
      ensures Matches(rows[i], "")
    {
      IncludesEmpty(ToLower(rows[i].name));
    }
    FilterKeepsAll(rows, (x: SchoolRow) => Matches(x, ""));
  }

  /** Queries that differ only in ASCII letter case select the same rows. */
  lemma QueryCaseInsensitive(rows: seq<SchoolRow>, q1: string, q2: string)
    requires SameIgnoringCase(q1, q2)
    ensures FilterSchools(rows, q1) == FilterSchools(rows, q2)
  {
    SameIgnoringCaseLowers(q1, q2);
    FilterCongruent(rows, (x: SchoolRow) => Matches(x, q1), (x: SchoolRow) => Matches(x, q2));
  }

  /** A row matching a query matches every prefix of it. */
  lemma MatchesPrefix(row: SchoolRow, query: string, more: string)
    ensures Matches(row, query + more) ==> Matches(row, query)
  {
    ToLowerAppend(query, more);
    if Includes(ToLower(row.name), ToLower(query + more)) {
      IncludesPrefix(ToLower(row.name), ToLower(query), ToLower(more));
    }
    if Includes(ToLower(row.email), ToLower(query + more)) {
      IncludesPrefix(ToLower(row.email), ToLower(query), ToLower(more));
    }
  }

  /** Typing more characters into the search box narrows the result to a subsequence of it. */
  lemma LongerQueryNarrows(rows: seq<SchoolRow>, query: string, more: string)
    ensures IsSubsequence(FilterSchools(rows, query + more), FilterSchools(rows, query))
  {
    forall i | 0 <= i < |rows|
      ensures Matches(rows[i], query + more) ==> Matches(rows[i], query)
    {
      MatchesPrefix(rows[i], query, more);
    }
    FilterNarrows(rows, (x: SchoolRow) => Matches(x, query + more), (x: SchoolRow) => Matches(x, query));
  }

  /** The schools table's state: the fetched rows, the search text and the page. */
  class SchoolsView {
    var rows: seq<SchoolRow>
    var globalFilter: string
    var page: nat
    var rowsPerPage: nat

    /** The initial state: no rows, an empty search, page 0 of 10 rows. */
    constructor()
      ensures rows == [] && globalFilter == "" && page == 0 && rowsPerPage == 10
    {
      rows := [];
      globalFilter := "";
      page := 0;
      rowsPerPage := 10;
    }

    /** `setRows(data)` after a successful fetch. */
    method ApplyFetch(data: seq<SchoolRecord>)
      modifies this
      ensures rows == CreateRows(data)
      ensures globalFilter == old(globalFilter) && page == old(page) && rowsPerPage == old(rowsPerPage)
    {
      rows := CreateRows(data);
    }

    /** Typing into the search box: the page index is left as it is. */
    method SetGlobalFilter(query: string)
      modifies this
      ensures globalFilter == query
      ensures rows == old(rows) && page == old(page) && rowsPerPage == old(rowsPerPage)
    {
      globalFilter := query;
    }

    /** `handleChangePage`. */
    method ChangePage(newPage: nat)
      modifies this
      ensures page == newPage
      ensures rows == old(rows) && globalFilter == old(globalFilter) && rowsPerPage == old(rowsPerPage)
    {
      page := newPage;
    }

    /** `handleChangeRowsPerPage`: the new size, and back to the first page. */
    method ChangeRowsPerPage(newRowsPerPage: nat)
      modifies this
      ensures rowsPerPage == newRowsPerPage && page == 0
      ensures rows == old(rows) && globalFilter == old(globalFilter)
    {
      rowsPerPage := newRowsPerPage;
      page := 0;
    }

    function FilteredRows(): seq<SchoolRow>
      reads this
    {
      FilterSchools(rows, globalFilter)
    }

    /**
     * The rows the table body shows, with their "No." cells: the window of
     * the filtered rows that starts at `page * rowsPerPage`.
     */
    function VisibleRows(): (shown: seq<Shown<SchoolRow>>)
      reads this
      ensures shown == PageEntries(FilteredRows(), page, rowsPerPage)
      ensures |shown| <= rowsPerPage
      ensures forall i :: 0 <= i < |shown| ==> shown[i].row in rows && Matches(shown[i].row, globalFilter)
    {
      PageOfSearch(rows, globalFilter, page, rowsPerPage);
      PageEntries(FilteredRows(), page, rowsPerPage)
    }

    /**
     * The count `TablePagination` is given: the number of rows that pass the
     * search. It is 0 exactly when no fetched row matches, and the pages with
     * content are exactly those that start before it.
     */
    function PaginationCount(): (count: nat)
      reads this
      ensures count <= |rows|
      ensures count == 0 <==> forall r :: r in rows ==> !Matches(r, globalFilter)
      ensures rowsPerPage > 0 ==> forall p: nat :: |PageEntries(FilteredRows(), p, rowsPerPage)| > 0 <==> p * rowsPerPage < count
    {
      NoMatchIffEmpty(rows, globalFilter);
      |FilteredRows()|
    }
  }

  /** Every row on a page of the search result is a fetched row that matches. */
  lemma PageOfSearch(rows: seq<SchoolRow>, query: string, page: nat, rowsPerPage: nat)
    ensures forall i :: 0 <= i < |PageEntries(FilterSchools(rows, query), page, rowsPerPage)| ==>
      PageEntries(FilterSchools(rows, query), page, rowsPerPage)[i].row in rows
      && Matches(PageEntries(FilterSchools(rows, query), page, rowsPerPage)[i].row, query)
  {
    var shown := PageEntries(FilterSchools(rows, query), page, rowsPerPage);
    forall i | 0 <= i < |shown|
      ensures shown[i].row in rows && Matches(shown[i].row, query)
    {
      assert shown[i].row in FilterSchools(rows, query);
      FilterSchoolsExact(rows, query, shown[i].row);
    }
  }

  /** The search shows nothing exactly when no row matches it. */
  lemma NoMatchIffEmpty(rows: seq<SchoolRow>, query: string)
    ensures FilterSchools(rows, query) == [] <==> forall r :: r in rows ==> !Matches(r, query)
  {
    forall r
      ensures r in FilterSchools(rows, query) <==> r in rows && Matches(r, query)
    {
      FilterSchoolsExact(rows, query, r);
    }
    if FilterSchools(rows, query) != [] {
      assert FilterSchools(rows, query)[0] in FilterSchools(rows, query);
    }
  }

  /**
   * The search does not reset the page: on page 1 of 10 rows a query that
   * leaves three schools shows an empty page while the count is 3.
   */
  lemma StalePageAfterSearch(rows: seq<SchoolRow>, query: string)
    requires |FilterSchools(rows, query)| == 3
    ensures PageEntries(FilterSchools(rows, query), 1, 10) == []
  {
  }
}
