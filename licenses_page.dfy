/**
 * The licenses page of one school: the fetched rows with their status, the
 * sort state the column headers toggle, the page state, the optimistic local
 * delete, and the expiry date a renewal sends.
 */
module LicensesPage {
  import opened Calendar
  import opened Sequences
  import opened Pagination
  import opened LicenseStatus
  import opened Renewal
  import opened LicenseTable
  import opened LicenseSort

  /**
   * One element of the `/schools/{id}/licenses` response. `expiryDate` is
   * the locale text of the expiry and `expiry` the day/month/year it splits
   * into; `status` is the server's status, which the page does not use.
   */
  datatype LicenseRecord = LicenseRecord(
    id: string,
    status: string,
    expiryDate: string,
    expiry: CalendarDate,
    deviceName: Option<string>)

  /** `createData(index + 1, ...)` over the response, the status worked out with the clock at `now`. */
  function CreateLicenseRows(data: seq<LicenseRecord>, now: DateTime): (rows: seq<LicenseRow>)
    ensures |rows| == |data|
    ensures forall i :: 0 <= i < |data| ==>
      var device := StoredDeviceName(data[i].deviceName);
      rows[i] == LicenseRow(i + 1, data[i].id, StatusOf(data[i].expiry, device, now), data[i].expiryDate, data[i].expiry, device)
  {
    seq(|data|, i requires 0 <= i < |data| =>
      var device := StoredDeviceName(data[i].deviceName);
      LicenseRow(i + 1, data[i].id, StatusOf(data[i].expiry, device, now), data[i].expiryDate, data[i].expiry, device))
  }

  /**
   * A fetched license without a device name is "Not Active" until its expiry
   * date and never "Active".
   */
  lemma FetchedWithoutDevice(data: seq<LicenseRecord>, now: DateTime, i: int)
    requires 0 <= i < |data| && (data[i].deviceName == None || data[i].deviceName == Some(""))
    ensures CreateLicenseRows(data, now)[i].deviceName == "N/A"
    ensures CreateLicenseRows(data, now)[i].status != Active
    ensures TimeValue(now) <= Midnight(data[i].expiry) ==> CreateLicenseRows(data, now)[i].status == NotActive
  {
    MissingDeviceNeverActive(data[i].expiry, data[i].deviceName, now);
  }

  /**
   * The initial sort state ("asc" on the index) shows the fetched rows in
   * response order: the indices already increase.
   */
  lemma DefaultSortKeepsFetchOrder(data: seq<LicenseRecord>, now: DateTime, sorted: seq<LicenseRow>, perm: seq<int>)
    requires IsStableSortOf(sorted, perm, CreateLicenseRows(data, now), Asc, IndexColumn)
    ensures sorted == CreateLicenseRows(data, now)
  {
    SortedInputUnchanged(sorted, perm, CreateLicenseRows(data, now), Asc, IndexColumn);
  }

  /**
   * Fetched rows are pairwise different, by their numbering; so when two
   * fetched licenses share a key, "desc" on that column is not the reverse of "asc".
   */
  lemma FetchedRepeatedKeyNotReversed(data: seq<LicenseRecord>, now: DateTime, orderBy: Column,
                                      asc: seq<LicenseRow>, ascPerm: seq<int>, desc: seq<LicenseRow>, descPerm: seq<int>,
                                      k: int, l: int)
    requires IsStableSortOf(asc, ascPerm, CreateLicenseRows(data, now), Asc, orderBy)
    requires IsStableSortOf(desc, descPerm, CreateLicenseRows(data, now), Desc, orderBy)
    requires 0 <= k < l < |data| && Field(CreateLicenseRows(data, now)[k], orderBy) == Field(CreateLicenseRows(data, now)[l], orderBy)
    ensures desc != Reverse(asc)
  {
    var rows := CreateLicenseRows(data, now);
    forall i, j | 0 <= i < j < |rows|
      ensures rows[i] != rows[j]
    {
      assert rows[i].index == i + 1 && rows[j].index == j + 1;
    }
    RepeatedKeyNeverReversed(asc, ascPerm, desc, descPerm, rows, orderBy, k, l);
  }

  /**
   * The status column sorts on the label stored at fetch time, while its
   * cell recomputes the label when drawn. Drawn at the fetch time the two
   * agree; drawn later the cell is never behind the stored label.
   */
  lemma DrawnStatus(row: LicenseRow, fetched: DateTime, drawn: DateTime)
    requires row.status == StatusOf(row.expiry, row.deviceName, fetched)
    requires TimeValue(fetched) <= TimeValue(drawn)
    ensures Stage(row.status) <= Stage(StatusOf(row.expiry, row.deviceName, drawn))
    ensures fetched == drawn ==> StatusOf(row.expiry, row.deviceName, drawn) == row.status
  {
    StatusMonotoneInTime(row.expiry, row.deviceName, fetched, drawn);
  }

  /** `handleRequestSort(property)`: the next (order, orderBy) pair. */
  function NextSort(order: Order, orderBy: Column, property: Column): (Order, Column)
  {
    var isAsc := orderBy == property && order == Asc;
    (if isAsc then Desc else Asc, property)
  }

  /**
   * A request always sorts on the requested column; it sorts "desc" exactly
   * when that column was already the "asc" sort, so a second request on the
   * same column switches back, and a new column always starts "asc".
   */
  lemma NextSortToggles(order: Order, orderBy: Column, property: Column)
    ensures NextSort(order, orderBy, property).1 == property
    ensures NextSort(order, orderBy, property).0 == Desc <==> orderBy == property && order == Asc
    ensures orderBy == property ==> NextSort(order, orderBy, property).0 != order
    ensures var (o, b) := NextSort(order, orderBy, property); NextSort(o, b, property) == (if o == Asc then Desc else Asc, property)
  {
  }

  /** Row `k` is the first row with license number `id`. */
  predicate FirstWith(rows: seq<LicenseRow>, id: string, k: int)
  {
    0 <= k < |rows| && rows[k].licenseNo == id && forall j :: 0 <= j < k ==> rows[j].licenseNo != id
  }

  /** `rows.find((row) => row.licenseNo === id)`: the first row with that license number. */
  function FindLicense(rows: seq<LicenseRow>, id: string): (r: Option<LicenseRow>)
    ensures r == None <==> forall k :: 0 <= k < |rows| ==> rows[k].licenseNo != id
    ensures r != None ==> exists k :: FirstWith(rows, id, k) && rows[k] == r.value
  {
    if rows == [] then None
    else if rows[0].licenseNo == id then
      assert FirstWith(rows, id, 0);
      Some(rows[0])
    else
      var r := FindLicense(rows[1..], id);
      assert r != None ==> exists k :: FirstWith(rows, id, k) && rows[k] == r.value by {
        if r != None {
          var k :| FirstWith(rows[1..], id, k) && rows[1..][k] == r.value;
          assert FirstWith(rows, id, k + 1);
        }
      }
      r
  }

  /** `rows.filter((row) => row.licenseNo !== id)`: the optimistic local delete. */
  function WithoutLicense(rows: seq<LicenseRow>, id: string): seq<LicenseRow>
  {
    Filter(rows, (r: LicenseRow) => r.licenseNo != id)
  }

  /**
   * The local delete drops every row with the license number and keeps every
   * other row, in order and with its index unchanged.
   */
  lemma WithoutLicenseExact(rows: seq<LicenseRow>, id: string, r: LicenseRow)
    ensures multiset(WithoutLicense(rows, id))[r] == if r.licenseNo != id then multiset(rows)[r] else 0
    ensures r in WithoutLicense(rows, id) <==> r in rows && r.licenseNo != id
    ensures IsSubsequence(WithoutLicense(rows, id), rows)
  {
    FilterCount(rows, (x: LicenseRow) => x.licenseNo != id, r);
    FilterIsSubsequence(rows, (x: LicenseRow) => x.licenseNo != id);
  }

  /** Deleting a license number no row has leaves the rows as they are. */
  lemma WithoutAbsentLicense(rows: seq<LicenseRow>, id: string)
    requires FindLicense(rows, id) == None
    ensures WithoutLicense(rows, id) == rows
  {
    FilterKeepsAll(rows, (x: LicenseRow) => x.licenseNo != id);
  }

  datatype DeleteOutcome = DeleteDenied | DeleteCancelled | DeleteFailed | Deleted

  datatype RenewOutcome = RenewDenied | RenewCancelled | RenewFailed | Renewed(licenseNo: string, newExpiry: int)

  /** The licenses table's state. `userRole` is the `auth` value read from local storage. */
  class LicensesView {
    var rows: seq<LicenseRow>
    var order: Order
    var orderBy: Column
    var page: nat
    var rowsPerPage: nat
    var userRole: string

    /** The initial state: no rows, "asc" on the index, page 0 of 10 rows. */
    constructor(auth: string)
      ensures rows == [] && order == Asc && orderBy == IndexColumn && page == 0 && rowsPerPage == 10
      ensures userRole == auth
    {
      rows := [];
      order := Asc;
      orderBy := IndexColumn;
      page := 0;
      rowsPerPage := 10;
      userRole := auth;
    }

    /** `setRows(data)` after a successful fetch, with the clock at `now`. */
    method ApplyFetch(data: seq<LicenseRecord>, now: DateTime)
      modifies this
      ensures rows == CreateLicenseRows(data, now)
      ensures order == old(order) && orderBy == old(orderBy) && page == old(page)
      ensures rowsPerPage == old(rowsPerPage) && userRole == old(userRole)
    {
      rows := CreateLicenseRows(data, now);
    }

    /** `handleRequestSort(property)`; the page index is left as it is. */
    method RequestSort(property: Column)
      modifies this
      ensures (order, orderBy) == NextSort(old(order), old(orderBy), property)
      ensures rows == old(rows) && page == old(page) && rowsPerPage == old(rowsPerPage) && userRole == old(userRole)
    {
      var next := NextSort(order, orderBy, property);
      order, orderBy := next.0, next.1;
    }

    /** `handleChangePage`. */
    method ChangePage(newPage: nat)
      modifies this
      ensures page == newPage
      ensures rows == old(rows) && order == old(order) && orderBy == old(orderBy)
      ensures rowsPerPage == old(rowsPerPage) && userRole == old(userRole)
    {
      page := newPage;
    }

    /** `handleChangeRowsPerPage`: the new size, and back to the first page. */
    method ChangeRowsPerPage(newRowsPerPage: nat)
      modifies this
      ensures rowsPerPage == newRowsPerPage && page == 0
      ensures rows == old(rows) && order == old(order) && orderBy == old(orderBy) && userRole == old(userRole)
    {
      rowsPerPage := newRowsPerPage;
      page := 0;
    }

    /**
     * `handleDelete(id)`: only an admin may delete; `confirmed` is the answer
     * to the confirmation dialog and `deleteSucceeded` the outcome of the
     * DELETE request. On success the row is dropped locally.
     */
    method HandleDelete(id: string, confirmed: bool, deleteSucceeded: bool) returns (outcome: DeleteOutcome)
      modifies this
      ensures outcome == Deleted <==> userRole == "admin" && confirmed && deleteSucceeded
      ensures outcome == DeleteDenied <==> userRole != "admin"
      ensures outcome == DeleteCancelled <==> userRole == "admin" && !confirmed
      ensures rows == if outcome == Deleted then WithoutLicense(old(rows), id) else old(rows)
      ensures order == old(order) && orderBy == old(orderBy) && page == old(page)
      ensures rowsPerPage == old(rowsPerPage) && userRole == old(userRole)
    {
      if userRole != "admin" {
        return DeleteDenied;
      }
      if !confirmed {
        return DeleteCancelled;
      }
      if !deleteSucceeded {
        return DeleteFailed;
      }
      rows := WithoutLicense(rows, id);
      outcome := Deleted;
    }

    /**
     * `handleRedo(id)`: only an admin may renew; `confirmed` is the answer to
     * the confirmation dialog and `putSucceeded` the outcome of the PUT
     * request. A license number no row has makes the lookup throw, which the
     * handler reports as a failure. The expiry sent is strictly later than
     * now and at least a year after the current expiry.
     */
    method HandleRedo(id: string, confirmed: bool, putSucceeded: bool, now: DateTime) returns (outcome: RenewOutcome)
      ensures outcome == RenewDenied <==> userRole != "admin"
      ensures outcome == RenewCancelled <==> userRole == "admin" && !confirmed
      ensures userRole == "admin" && confirmed && FindLicense(rows, id) == None ==> outcome == RenewFailed
      ensures outcome.Renewed? <==> userRole == "admin" && confirmed && FindLicense(rows, id) != None && putSucceeded
      ensures outcome.Renewed? ==>
        var license := FindLicense(rows, id).value;
        && outcome.licenseNo == id
        && outcome.newExpiry == RenewedExpiry(license.expiry, now)
        && outcome.newExpiry > TimeValue(now)
        && outcome.newExpiry >= MidnightPlusOneYear(license.expiry)
    {
      if userRole != "admin" {
        return RenewDenied;
      }
      if !confirmed {
        return RenewCancelled;
      }
      var license := FindLicense(rows, id);
      if license == None || !putSucceeded {
        return RenewFailed;
      }
      var newExpiry := RenewedExpiry(license.value.expiry, now);
      RenewedAfterNow(license.value.expiry, now);
      RenewedNotBeforeExpiryPlusYear(license.value.expiry, now);
      outcome := Renewed(id, newExpiry);
    }

    /**
     * The table body: `sortedRows` (a stable sort of the rows in the current
     * order) cut to the current page, each shown row numbered by its place.
     */
    method VisibleRows() returns (shown: seq<Shown<LicenseRow>>, ghost sorted: seq<LicenseRow>, ghost perm: seq<int>)
      ensures IsStableSortOf(sorted, perm, rows, order, orderBy)
      ensures shown == PageEntries(sorted, page, rowsPerPage)
      ensures |shown| <= rowsPerPage
      ensures forall i :: 0 <= i < |shown| ==> shown[i].no == page * rowsPerPage + i + 1 && shown[i].row in rows
    {
      var s;
      s, perm := SortRows(rows, order, orderBy);
      sorted := s;
      shown := PageEntries(s, page, rowsPerPage);
      PageOfPermutation(s, rows, page, rowsPerPage);
    }

    /** The count `TablePagination` is given: all rows, as the sort keeps their number. */
    function PaginationCount(): nat
      reads this
    {
      |rows|
    }
  }
}
