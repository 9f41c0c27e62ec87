# NAPFA Admin Portal: licenses and schools pages

This project models the two data pages of the NAPFA admin portal.

The licenses page of one school:
- It fetches the school's licenses and numbers them in response order.
- It gives each license a status label from its expiry date and device name at the current time: "Expired", "Probation", "Active" or "Not Active".
- It sorts the table by a column header. The sort is stabilised by the original position and alternates between "asc" and "desc".
- It shows one page of the sorted rows with a running "No." column.
- An admin can delete a license, which is dropped locally on success. An admin can also renew one, which sends a new expiry date one calendar year on.

The schools page:
- It fetches the schools and numbers them.
- It filters them with a search box that matches the name or the email as ASCII-case-insensitive substrings.
- It shows one page of the filtered rows.

Modules, in dependency order:

- `Text`: string `<` (lexicographic on characters), ASCII `toLowerCase`, and `indexOf`/`includes`. A Dafny `char` is a Unicode scalar value, not a UTF-16 code unit (see "## Left out").
- `Sequences`: `filter`, `map`, subsequences and permutations of positions.
- `Calendar`: the ECMAScript date arithmetic the pages use.
  - Local dates are counted as day numbers from 1 January 1970.
  - A time value is a day number times 86400000, plus the milliseconds into the day.
  - `new Date(y, m - 1, d)` is `MakeDay`, including the month overflow that `setMonth(getMonth() + 2)` and `setFullYear(getFullYear() + 1)` rely on.
- `LicenseStatus`: `getStatusLabel` and the `|| "N/A"` default of the device name.
- `Renewal`: the expiry date `handleRedo` sends.
- `LicenseTable`: the row record, `descendingComparator` and `getComparator`.
- `LicenseSort`: `sortRows`.
  - It is an in-place stable sort of (row, index) pairs under the tie-broken comparator.
  - It is proved to give the unique stable sort, so it is fully determined by the comparator.
- `Pagination`: `slice(page * rowsPerPage, page * rowsPerPage + rowsPerPage)` and the "No." cell `page * rowsPerPage + index + 1`.
- `LicensesPage` and `SchoolsView` in `SchoolsPage`: the React state of each page as a class whose methods are the event handlers.

The current time, the confirmation dialog and the outcome of each HTTP request are parameters. When the same time is needed twice (at fetch and at draw, or in two `new Date()` calls), the model takes one value per call.

The tie-break by original position does not depend on the direction. So "desc" is the reverse of "asc" only when no two rows share a key:
- `LicenseSort.DistinctKeysReverse` proves the reversal when all keys are distinct.
- `LicenseSort.RepeatedKeyNeverReversed` proves the converse for pairwise different rows: when two rows share a key, "desc" is not the reverse of "asc". The rows must differ, since `[r, r]` is its own reverse. Fetched rows always differ, by their index (`LicensesPage.FetchedRepeatedKeyNotReversed`).
- `LicenseSort.RepeatedKeyNotReversed` shows two rows with the same status keep their fetched order in both directions.

The expiry column is sorted on its display text. So it follows string order, not calendar order (`LicenseTable.ExpiryColumnIsTextual`).

## Model

| member | source | states |
|---|---|---|
| Text.ToLower | src/pages/Schools.js:239-243 | the lower-cased string has the same length, maps every character through the ASCII lower-case map and contains no upper-case ASCII letter |
| Text.ToLowerAppend | src/pages/Schools.js:239-243 | lower-casing distributes over concatenation |
| Text.ToLowerIdempotent | src/pages/Schools.js:239-243 | lower-casing twice is lower-casing once |
| Text.StrLess | src/pages/Licenses.js:352-360 | no contract of its own: string `<` on two field values, lexicographic with a proper prefix first; its order properties are `Text.StrLessIrreflexive`, `Text.StrLessTransitive` and `Text.StrLessTotal` |
| Text.Includes | src/pages/Schools.js:239-243 | no contract of its own: `includes`, as `indexOf` not returning -1; its meaning is `Text.IncludesIff` |
| Text.IndexFrom | src/pages/Schools.js:239-243 | the search from a position returns -1 or the first position at or after it where the query occurs, and there is no earlier occurrence |
| Text.IncludesIff | src/pages/Schools.js:239-243 | `includes` holds exactly when the query occurs at some position |
| Text.IncludesPrefix | src/pages/Schools.js:239-243 | a string that contains a query contains every prefix of it |
| Text.StrLessTransitive | src/pages/Licenses.js:352-360 | string `<` is transitive |
| Text.StrLessTotal | src/pages/Licenses.js:352-360 | any two distinct strings are ordered one way or the other by `<` |
| Text.StrLessIrreflexive | src/pages/Licenses.js:352-360 | no string is `<` itself |
| Calendar.MakeDay | src/pages/Licenses.js:28-30 | no contract of its own: ECMAScript MakeDay, the carry of an out-of-range month into the year; its effects are `Calendar.MakeDayOfDate`, `Calendar.TwoMonthsLength` and `Calendar.OneYearLength` |
| Calendar.MidnightPlusMonths | src/pages/Licenses.js:28-30 | no contract of its own: `setMonth(getMonth() + k)` on the expiry midnight; `LicenseStatus.GraceWindow` bounds it for k = 2 |
| Calendar.PlusOneYear | src/pages/Licenses.js:150-156 | no contract of its own: `setFullYear(getFullYear() + 1)` on a date and time; `Renewal.RenewedAfterNow` and `Renewal.RenewalAddsOneYear` bound it |
| Calendar.DaysInMonth | src/pages/Licenses.js:28 | every month has 28 to 31 days, and 29 only for February of a leap year |
| Calendar.MakeDayOfDate | src/pages/Licenses.js:27-28 | `new Date(year, month - 1, day)` of a valid date is that date's day number |
| Calendar.DayFromYearStep | src/pages/Licenses.js:152-156 | the next year starts one year length later |
| Calendar.DayNumberOrder | src/pages/Licenses.js:28 | day numbers order valid dates exactly as the calendar does, in both directions |
| Calendar.DayNumberInjective | src/pages/Licenses.js:28 | distinct valid dates have distinct day numbers |
| Calendar.TwoMonthsLength | src/pages/Licenses.js:29-30 | adding two months to a date, with overflow, moves it 59 to 62 days on |
| Calendar.OneYearLength | src/pages/Licenses.js:152-156 | adding one year to a date, with overflow, moves it 365 or 366 days on |
| Calendar.PlusOneYearMonotone | src/pages/Licenses.js:150-157 | adding a year keeps the order of two dates |
| Calendar.TimeOrder | src/pages/Licenses.js:32-34 | time values compare by day first, then by time of day |
| LicenseStatus.LabelInjective | src/pages/Licenses.js:32-40 | the four labels are distinct |
| LicenseStatus.StoredDeviceName | src/pages/Licenses.js:121 | the stored device name is never empty, and it counts as no device exactly when the response had none, an empty one, "N/A" or "none" |
| LicenseStatus.StatusOf | src/pages/Licenses.js:25-41 | no contract of its own: `getStatusLabel`'s first-match decision list; `LicenseStatus.StatusWindows` states all four outcomes as if-and-only-if |
| LicenseStatus.GraceWindow | src/pages/Licenses.js:28-30 | the grace period ends 59 to 62 days after the expiry midnight |
| LicenseStatus.StatusWindows | src/pages/Licenses.js:25-41 | "Expired" exactly after the grace end; "Probation" exactly after the expiry midnight up to the grace end; "Active" or "Not Active" exactly up to the expiry midnight, depending on whether a device is recorded |
| LicenseStatus.ExpiredIsWellPastExpiry | src/pages/Licenses.js:29-33 | an expired license is more than 59 days past its expiry |
| LicenseStatus.ActiveOnlyUntilExpiry | src/pages/Licenses.js:32-40 | "Active" or "Not Active" exactly until the expiry midnight, and "Active" only with a device |
| LicenseStatus.MissingDeviceNeverActive | src/pages/Licenses.js:36-39 | a license fetched without a device name is never "Active", and is "Not Active" until its expiry |
| LicenseStatus.StatusMonotoneInTime | src/pages/Licenses.js:25-41 | as time passes the status only moves forward from Active/Not Active to Probation to Expired |
| LicenseStatus.ExpiryDay | src/pages/Licenses.js:28-37 | on the expiry day itself only midnight is before expiry; any later moment is "Probation" |
| LicenseStatus.ExamplesBeforeExpiry | src/pages/Licenses.js:36-39 | five days before 15/1/2024 a license with device "iPad-1" is "Active" and one with "N/A" is "Not Active" |
| LicenseStatus.ExamplesAfterExpiry | src/pages/Licenses.js:29-35 | for expiry 15/1/2024 the license is "Probation" on 20/1 and at midnight of 15/3, and "Expired" one millisecond later and on 16/3 |
| LicenseStatus.GraceEndCarries | src/pages/Licenses.js:29-30 | the grace end of 31/12/2023 overflows 31/2/2024 to 2/3/2024 |
| Renewal.RenewedExpiry | src/pages/Licenses.js:146-157 | no contract of its own: `newExpiryDate` by the strict `>` on the current expiry; the Renewal lemmas below state its bounds |
| Renewal.RenewedTimeOfDay | src/pages/Licenses.js:146-157 | a lapsed license is renewed at the current time of day; a current one at midnight |
| Renewal.RenewedAfterNow | src/pages/Licenses.js:146-157 | the new expiry is strictly later than now |
| Renewal.RenewedNotBeforeExpiryPlusYear | src/pages/Licenses.js:146-157 | the new expiry is never earlier than the current expiry plus one year |
| Renewal.RenewalAddsOneYear | src/pages/Licenses.js:149-157 | the new expiry is 365 or 366 days after the later of now and the current expiry midnight |
| Renewal.ExampleCurrent | src/pages/Licenses.js:154-156 | expiry 1/6/2025 renewed on 1/1/2024 becomes midnight of 1/6/2026 |
| Renewal.ExampleLapsed | src/pages/Licenses.js:150-152 | expiry 1/6/2023 renewed on 1/1/2024 at 10:00 becomes 1/1/2025 at 10:00 |
| Renewal.ExampleLeapDay | src/pages/Licenses.js:150-152 | a renewal on 29/2/2024 of a lapsed license overflows to 1/3/2025 |
| LicenseTable.DescendingComparator | src/pages/Licenses.js:352-360 | no contract of its own: `descendingComparator`; `LicenseTable.ComparatorSign` states its sign |
| LicenseTable.Comparator | src/pages/Licenses.js:346-350 | no contract of its own: `getComparator`, negated for "asc"; `LicenseTable.ComparatorSign` and `LicenseTable.DescIsAscFlipped` state its meaning |
| LicenseTable.Field | src/pages/Licenses.js:43-53 | a row's field is a number exactly for the index column |
| LicenseTable.CellOrder | src/pages/Licenses.js:352-360 | the field order of every column is irreflexive, asymmetric, transitive and total |
| LicenseTable.ComparatorSign | src/pages/Licenses.js:346-360 | the comparator is -1, 0 or 1; it is negative exactly when the first row sorts first, zero exactly when the keys are equal, and it changes sign when its arguments are swapped |
| LicenseTable.KeyBeforeTransitive | src/pages/Licenses.js:346-360 | sorting-before is transitive, and rows with equal keys sort alike against a third |
| LicenseTable.DescIsAscFlipped | src/pages/Licenses.js:346-350 | the "desc" comparator on (a, b) is the "asc" comparator on (b, a) |
| LicenseTable.ExpiryColumnIsTextual | src/pages/Licenses.js:220 | sorted "asc", expiry text 15/3/2024 comes before 2/1/2024 although it is the later date |
| LicenseSort.StableCompare | src/pages/Licenses.js:338-342 | no contract of its own: the comparator with ties broken by position; `LicenseSort.StableCompareAntisymmetric` and `LicenseSort.StableCompareTies` state its meaning |
| LicenseSort.StableCompareAntisymmetric | src/pages/Licenses.js:338-342 | a positive tie-broken comparison turns negative when its arguments are swapped |
| LicenseSort.StableCompareTies | src/pages/Licenses.js:338-342 | the tie-broken comparison is zero only for two pairs with the same position |
| LicenseSort.SortBy | src/pages/Licenses.js:338-342 | the array is rearranged, a permutation of its elements, so that each element compares no greater than the next, for any comparator that turns negative when a positive comparison's arguments are swapped |
| LicenseSort.Insert | src/pages/Licenses.js:338-342 | one insertion step extends the ordered prefix by one element and keeps the elements |
| LicenseSort.ReadBack | src/pages/Licenses.js:337-343 | any rearrangement of the row/position pairs reads back as a permutation of the positions with each row the one at its position, so the rows keep their multiset |
| LicenseSort.Decorate | src/pages/Licenses.js:337 | each row is paired with its own position |
| LicenseSort.AdjacentToPairwise | src/pages/Licenses.js:338-342 | ordered neighbours give an ordered sequence |
| LicenseSort.SortedPairs | src/pages/Licenses.js:336-344 | sorted pairs, projected to rows and positions, are a stable sort of the rows |
| LicenseSort.SortRows | src/pages/Licenses.js:336-344 | the result is the rows permuted so that row k is `rows[perm[k]]` and every earlier row sorts before or ties with an earlier original position; "asc" gives non-decreasing keys, "desc" non-increasing, and equal keys keep their original order |
| LicenseSort.StableSortFacts | src/pages/Licenses.js:336-344 | in a stable sort no later row sorts strictly before an earlier one, and rows with equal keys keep their original order |
| LicenseSort.PrecedesTotal | src/pages/Licenses.js:338-342 | any two distinct positions are ordered by the tie-broken order |
| LicenseSort.InPrecedesOrderUnique | src/pages/Licenses.js:338-342 | two lists holding the same positions, both in tie-broken order, are equal |
| LicenseSort.StableSortUnique | src/pages/Licenses.js:336-344 | there is only one stable sort of given rows in a given order, so any correct sort gives the table's order |
| LicenseSort.SortedInputUnchanged | src/pages/Licenses.js:336-344 | sorting leaves the rows as they are exactly when no row sorts strictly before an earlier one |
| LicenseSort.EqualKeysKeepOrder | src/pages/Licenses.js:340-341 | rows with equal keys keep their original relative order |
| LicenseSort.DistinctKeysReverse | src/pages/Licenses.js:346-350 | when all keys are distinct the "desc" order is the reverse of the "asc" order |
| LicenseSort.SameStatusKeepsOrder | src/pages/Licenses.js:340-341 | two rows with the same status stay in fetched order whichever direction the status column is sorted in |
| LicenseSort.RepeatedKeyNotReversed | src/pages/Licenses.js:340-350 | with two rows of the same status, "desc" equals "asc" and is not its reverse |
| LicenseSort.RepeatedKeyNeverReversed | src/pages/Licenses.js:336-350 | for pairwise different rows, two of which share a key, the "desc" stable sort is not the reverse of the "asc" one |
| LicenseSort.EqualKeysStayInOrder | src/pages/Licenses.js:338-342 | in a stable sort two rows with equal keys come out in their original order |
| LicenseSort.SortSmallInput | src/pages/Licenses.js:336-344 | zero or one rows are returned unchanged |
| LicenseSort.SortIdempotent | src/pages/Licenses.js:336-344 | sorting sorted rows again in the same order changes nothing |
| Pagination.Slice | src/pages/Licenses.js:497-500 | `slice` with non-negative bounds is clipped to the length, empty when the end is not after the start, and elementwise the source from the start |
| Pagination.PageEntries | src/pages/Licenses.js:495-512 | a page has at most `rowsPerPage` entries, exactly the rows left from `page * rowsPerPage`, and entry i is row `page * rowsPerPage + i` numbered one more than that |
| Pagination.RowOnItsPage | src/pages/Schools.js:383-401 | row k appears on page k / rowsPerPage at place k % rowsPerPage with number k + 1 |
| Pagination.ShownOnOnePage | src/pages/Schools.js:383-401 | a shown number is between 1 and the row count, and it fixes both the page and the place |
| Pagination.UniqueDivMod | src/pages/Schools.js:383-401 | a position splits into whole pages and a place in only one way |
| Pagination.PageOfPermutation | src/pages/Licenses.js:495-512 | every row on a page of a rearrangement of the rows is one of the rows |
| Pagination.PageBounds | src/pages/Licenses.js:495-500 | a page past the end is empty; page 0 of a non-empty list is not |
| SchoolsPage.CreateRows | src/pages/Schools.js:108-117 | one row per school, in response order, numbered from 1 and carrying the school's fields |
| SchoolsPage.CreateRowsNumbering | src/pages/Schools.js:108-117 | the row numbers increase strictly from 1 to the number of schools |
| SchoolsPage.Matches | src/pages/Schools.js:239-243 | no contract of its own: the lower-cased name or email includes the lower-cased query; `SchoolsPage.MatchesPrefix` and `SchoolsPage.QueryCaseInsensitive` state its properties |
| SchoolsPage.FilterSchools | src/pages/Schools.js:239-243 | no contract of its own: `filteredRows`; `SchoolsPage.FilterSchoolsExact` and `SchoolsPage.FilterSchoolsSubsequence` state it |
| SchoolsPage.FilterSchoolsExact | src/pages/Schools.js:239-243 | the filter keeps every occurrence of each matching row and no other row |
| SchoolsPage.FilterSchoolsSubsequence | src/pages/Schools.js:239-243 | the filtered rows are a subsequence of the rows |
| SchoolsPage.EmptyQueryKeepsAll | src/pages/Schools.js:239-243 | the empty search shows every row |
| SchoolsPage.QueryCaseInsensitive | src/pages/Schools.js:239-243 | searches that differ only in ASCII letter case select the same rows |
| SchoolsPage.MatchesPrefix | src/pages/Schools.js:239-243 | a row matching a query matches every prefix of it |
| SchoolsPage.LongerQueryNarrows | src/pages/Schools.js:239-243 | typing more characters narrows the result to a subsequence of it |
| SchoolsPage.SchoolsView.constructor | src/pages/Schools.js:35-38 | the page starts with no rows, an empty search, and page 0 of 10 rows |
| SchoolsPage.SchoolsView.ApplyFetch | src/pages/Schools.js:108-118 | the rows become the numbered schools; nothing else changes |
| SchoolsPage.SchoolsView.SetGlobalFilter | src/pages/Schools.js:256-257 | the search text changes; the page index does not |
| SchoolsPage.SchoolsView.ChangePage | src/pages/Schools.js:175-177 | only the page index changes |
| SchoolsPage.SchoolsView.ChangeRowsPerPage | src/pages/Schools.js:214-217 | the page size changes and the page index returns to 0 |
| SchoolsPage.SchoolsView.VisibleRows | src/pages/Schools.js:383-401 | the body is `Pagination.PageEntries` of the filtered rows at the current page, so by that function's contract it is the window starting at `page * rowsPerPage`, with its exact length (at most a page), and entry i is filtered row `page * rowsPerPage + i`, numbered one more than that; each entry is a fetched row that matches the search |
| SchoolsPage.PageOfSearch | src/pages/Schools.js:383-388 | every row on any page of the search result is a fetched row that matches the search |
| SchoolsPage.SchoolsView.PaginationCount | src/pages/Schools.js:431 | the count is at most the number of fetched rows, 0 exactly when no fetched row matches, and a page has content exactly when it starts before the count |
| SchoolsPage.NoMatchIffEmpty | src/pages/Schools.js:239-243 | the search shows nothing exactly when no row matches |
| SchoolsPage.StalePageAfterSearch | src/pages/Schools.js:239-257 | a search that leaves three schools shows an empty page 1 at 10 rows a page |
| LicensesPage.CreateLicenseRows | src/pages/Licenses.js:115-123 | one row per license in response order, numbered from 1, with the defaulted device name and the status at fetch time |
| LicensesPage.FetchedWithoutDevice | src/pages/Licenses.js:115-123 | a license fetched without a device shows "N/A", is never "Active", and is "Not Active" until its expiry |
| LicensesPage.DefaultSortKeepsFetchOrder | src/pages/Licenses.js:68-69 | the initial "asc" sort on the index shows the rows in fetched order |
| LicensesPage.DrawnStatus | src/pages/Licenses.js:204-218 | the status cell, recomputed when drawn, agrees with the stored label at fetch time and is never behind it later |
| LicensesPage.FetchedRepeatedKeyNotReversed | src/pages/Licenses.js:113-124 | fetched rows differ by their index, so two fetched licenses sharing a key make "desc" differ from the reverse of "asc" |
| LicensesPage.NextSort | src/pages/Licenses.js:330-334 | no contract of its own: `handleRequestSort`'s next state; `LicensesPage.NextSortToggles` states it |
| LicensesPage.NextSortToggles | src/pages/Licenses.js:330-334 | a request sorts on the requested column, "desc" exactly when that column was already "asc", so repeating a request flips the direction |
| LicensesPage.FindLicense | src/pages/Licenses.js:145 | `find` gives nothing exactly when no row has the license number, and otherwise the first such row |
| LicensesPage.WithoutLicense | src/pages/Licenses.js:187 | no contract of its own: `rows.filter(row => row.licenseNo !== id)`; `LicensesPage.WithoutLicenseExact` states it |
| LicensesPage.WithoutLicenseExact | src/pages/Licenses.js:187 | the local delete drops every row with the license number and keeps every other row in order |
| LicensesPage.WithoutAbsentLicense | src/pages/Licenses.js:187 | deleting a license number no row has changes nothing |
| LicensesPage.LicensesView.constructor | src/pages/Licenses.js:59-69 | the page starts with no rows, "asc" on the index, page 0 of 10 rows, and the stored role |
| LicensesPage.LicensesView.ApplyFetch | src/pages/Licenses.js:113-124 | the rows become the numbered licenses with their status; nothing else changes |
| LicensesPage.LicensesView.RequestSort | src/pages/Licenses.js:330-334 | the sort state becomes the next one; rows and page do not change |
| LicensesPage.LicensesView.ChangePage | src/pages/Licenses.js:303-305 | only the page index changes |
| LicensesPage.LicensesView.ChangeRowsPerPage | src/pages/Licenses.js:307-310 | the page size changes and the page index returns to 0 |
| LicensesPage.LicensesView.HandleDelete | src/pages/Licenses.js:175-199 | denied exactly for a non-admin, cancelled exactly when an admin declines, deleted exactly when an admin confirms and the request succeeds; only a deletion changes the rows, by dropping that license number |
| LicensesPage.LicensesView.HandleRedo | src/pages/Licenses.js:136-173 | denied exactly for a non-admin, cancelled exactly when an admin declines, failed when the license is not found; renewed exactly when an admin confirms, the license is found and the request succeeds, and then it sends the renewal date, which is later than now and at least a year after the current expiry |
| LicensesPage.LicensesView.VisibleRows | src/pages/Licenses.js:362 | the body is the current page of the stable sort of the rows, at most a page, numbered from `page * rowsPerPage + 1`, each a fetched row |

## Left out

- HTTP requests (axios GET, PUT and DELETE) are not modelled as requests. Their outcomes are boolean parameters. The refetch after a delete or a renewal is the separate `ApplyFetch` call.
- `window.confirm` is not modelled. Its answer is a parameter.
- `LicensesPage.LicensesView.HandleDelete` and `LicensesPage.LicensesView.HandleRedo` are modelled as atomic steps on the current `rows`. In the page they await the request, and `handleDelete` then filters the `rows` its closure captured at render time. So a fetch or a second delete that lands in between can be overwritten, and a deleted row can reappear until the refetch. That interleaving is not modelled.
- Snackbars, the loading flag, the profile menu, navigation and logout are not modelled. They only affect display.
- The action menus, `handleOutsideClick` and the CSS classes are not modelled. They only affect display.
- The "No Licenses!" and "No data" fallback rows are not modelled. They only affect display.
- The add-licenses modal (`handleAddLicenses`), and creating, opening and deleting schools, are not modelled. They are HTTP calls outside the two tables modelled here.
- `toLocaleDateString` and the locale are not modelled. A row carries the display text and the day/month/year that splitting it gives, so the parsing itself and the correspondence between the two are not modelled. Every row is taken to hold text that splits into a valid d/m/y date.
- Malformed expiry texts (NaN dates) are not modelled.
- Years 0 to 99, which `new Date(y, m, d)` maps to 1900 to 1999, are not modelled.
- Time zones and daylight saving are not modelled. Every time is local and a day is 86400000 ms.
- `toISOString` is not modelled. The renewal outcome carries the time value.
- `getStatusLabel` reads the clock itself, and `handleRedo` reads it twice. The model takes one `now` per call.
- `toLowerCase` is not modelled beyond ASCII: there is no Unicode case mapping.
- Strings are sequences of Unicode scalar values (Dafny `char`), not of UTF-16 code units. So string `<`, and with it the sort, can differ from JavaScript for characters outside the Basic Multilingual Plane. For example the model puts "Ａ" (U+FF21) before "😀" (U+1F600), while JavaScript puts "😀" first, because its first code unit 0xD83D is below 0xFF21.
- Array.prototype.sort: the engine's algorithm is replaced by an insertion sort. `LicenseSort.StableSortUnique` shows the result does not depend on the algorithm.
- License and school ids are strings. The server's `status` field is carried but unused, as in the page.
- The page index and page size are natural numbers. MUI `TablePagination`'s own page clamping and its options (10, 25, 50) are not modelled.
- The index column's `sortable: false` flag is not modelled. `RequestSort` accepts any column.
- `LicensesPage.LicensesView.PaginationCount` states nothing of its own: it is the row count.
- The login page, the profile page, App routing, PublicRoute, the API proxy and the "Schools copy" page are not part of this model.
