/**
 * The page window both tables show: `rows.slice(page * rowsPerPage,
 * page * rowsPerPage + rowsPerPage)`, each shown row numbered in the "No."
 * column by its place in the whole list.
 */
module Pagination {

  function Min(a: int, b: int): int
  {
    if a <= b then a else b
  }

  /** `s.slice(start, end)` for non-negative bounds: clipped to the length, empty when `end <= start`. */
  function Slice<T>(s: seq<T>, start: nat, end: nat): (r: seq<T>)
    ensures |r| == if start < Min(end, |s|) then Min(end, |s|) - start else 0
    ensures forall i :: 0 <= i < |r| ==> r[i] == s[start + i]
  {
    if start < Min(end, |s|) then s[start..Min(end, |s|)] else []
  }

  /** A shown row: the "No." cell and the row. */
  datatype Shown<T> = Shown(no: int, row: T)

  /**
   * The rows of page `page` (0-based) with `rowsPerPage` rows a page, the i-th
   * of them numbered `page * rowsPerPage + i + 1`.
   */
  function PageEntries<T>(rows: seq<T>, page: nat, rowsPerPage: nat): (shown: seq<Shown<T>>)
    ensures |shown| <= rowsPerPage
    ensures |shown| == if page * rowsPerPage < |rows| then Min(rowsPerPage, |rows| - page * rowsPerPage) else 0
    ensures forall i :: 0 <= i < |shown| ==>
      shown[i].no == page * rowsPerPage + i + 1 && shown[i].row == rows[page * rowsPerPage + i]
  {
    var window := Slice(rows, page * rowsPerPage, page * rowsPerPage + rowsPerPage);
    seq(|window|, i requires 0 <= i < |window| => Shown(page * rowsPerPage + i + 1, window[i]))
  }

  lemma DivMod(k: nat, rowsPerPage: nat)
    requires rowsPerPage > 0
    ensures k == (k / rowsPerPage) * rowsPerPage + k % rowsPerPage
    ensures 0 <= k % rowsPerPage < rowsPerPage
  {
  }

  /**
   * Row `k` of the list is shown on page `k / rowsPerPage`, at place
   * `k % rowsPerPage`, numbered `k + 1`: the "No." column numbers the whole
   * list consecutively from 1 across pages.
   */
  lemma RowOnItsPage<T>(rows: seq<T>, rowsPerPage: nat, k: nat)
    requires rowsPerPage > 0 && k < |rows|
    ensures var shown := PageEntries(rows, k / rowsPerPage, rowsPerPage);
      k % rowsPerPage < |shown| && shown[k % rowsPerPage] == Shown(k + 1, rows[k])
  {
    DivMod(k, rowsPerPage);
  }

  /** A shown entry is on no other page: its number fixes the page and the place. */
  lemma ShownOnOnePage<T>(rows: seq<T>, rowsPerPage: nat, page: nat, i: nat)
    requires rowsPerPage > 0
    requires i < |PageEntries(rows, page, rowsPerPage)|
    ensures var no := PageEntries(rows, page, rowsPerPage)[i].no;
      1 <= no <= |rows| && page == (no - 1) / rowsPerPage && i == (no - 1) % rowsPerPage
  {
    var k := page * rowsPerPage + i;
    DivMod(k, rowsPerPage);
    assert i < rowsPerPage;
    UniqueDivMod(k, rowsPerPage, page, i);
  }

  /** The quotient and remainder are the only split of `k` into whole pages and a place on the next. */
  lemma UniqueDivMod(k: nat, rowsPerPage: nat, q: nat, r: nat)
    requires rowsPerPage > 0 && r < rowsPerPage && k == q * rowsPerPage + r
    ensures q == k / rowsPerPage && r == k % rowsPerPage
  {
    DivMod(k, rowsPerPage);
    var q', r' := k / rowsPerPage, k % rowsPerPage;
    if q < q' {
      assert (q + 1) * rowsPerPage <= q' * rowsPerPage by {
        MulMonotone(q + 1, q', rowsPerPage);
      }
    } else if q' < q {
      assert (q' + 1) * rowsPerPage <= q * rowsPerPage by {
        MulMonotone(q' + 1, q, rowsPerPage);
      }
    }
  }

  lemma MulMonotone(a: nat, b: nat, c: nat)
    requires a <= b
    ensures a * c <= b * c
  {
  }

  /** A page past the end of the list shows nothing; page 0 of a non-empty list shows something. */
  lemma PageBounds<T>(rows: seq<T>, page: nat, rowsPerPage: nat)
    ensures page * rowsPerPage >= |rows| ==> PageEntries(rows, page, rowsPerPage) == []
    ensures rowsPerPage > 0 && |rows| > 0 ==> |PageEntries(rows, 0, rowsPerPage)| > 0
  {
  }

  /** A page of a rearrangement of the rows shows only rows of the list. */
  lemma PageOfPermutation<T>(sorted: seq<T>, rows: seq<T>, page: nat, rowsPerPage: nat)
    requires multiset(sorted) == multiset(rows)
    ensures forall i :: 0 <= i < |PageEntries(sorted, page, rowsPerPage)| ==> PageEntries(sorted, page, rowsPerPage)[i].row in rows
  {
    var shown := PageEntries(sorted, page, rowsPerPage);
    forall i | 0 <= i < |shown|
      ensures shown[i].row in rows
    {
      assert shown[i].row in multiset(sorted);
    }
  }
}
