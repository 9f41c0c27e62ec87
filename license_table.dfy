/**
 * The rows of the licenses table and the comparator the table sorts them
 * with (`descendingComparator` and `getComparator` in the licenses page).
 */
module LicenseTable {
  import opened Text
  import opened Calendar
  import opened LicenseStatus

  /**
   * One row as `createData` builds it. `expiryDate` is the locale text the
   * table shows and sorts on; `expiry` is the day/month/year triple that
   * splitting that text yields, which the status and renewal rules use.
   */
  datatype LicenseRow = LicenseRow(
    index: int,
    licenseNo: string,
    status: Status,
    expiryDate: string,
    expiry: CalendarDate,
    deviceName: string)

  /** The sortable columns, by their `id`. */
  datatype Column = IndexColumn | LicenseNoColumn | StatusColumn | ExpiryDateColumn | DeviceNameColumn

  datatype Order = Asc | Desc

  /** A JavaScript value held in a row field: a number or a string. */
  datatype Cell = Num(n: int) | Text(s: string)

  /** `row[orderBy]`: the index is a number, every other column a string. */
  function Field(row: LicenseRow, col: Column): (c: Cell)
    ensures c.Num? <==> col == IndexColumn
  {
    match col
    case IndexColumn => Num(row.index)
    case LicenseNoColumn => Text(row.licenseNo)
    case StatusColumn => Text(Label(row.status))
    case ExpiryDateColumn => Text(row.expiryDate)
    case DeviceNameColumn => Text(row.deviceName)
  }

  /**
   * JavaScript `<` on two field values: numeric on numbers, lexicographic on
   * strings. A number and a string never meet in one column.
   */
  predicate CellLess(a: Cell, b: Cell)
  {
    match (a, b)
    case (Num(x), Num(y)) => x < y
    case (Text(x), Text(y)) => StrLess(x, y)
    case _ => false
  }

  /** `descendingComparator(a, b, orderBy)`: negative when `a` has the larger key. */
  function DescendingComparator(a: LicenseRow, b: LicenseRow, orderBy: Column): int
  {
    if CellLess(Field(b, orderBy), Field(a, orderBy)) then -1
    else if CellLess(Field(a, orderBy), Field(b, orderBy)) then 1
    else 0
  }

  /** `getComparator(order, orderBy)(a, b)`: the descending comparator, negated for "asc". */
  function Comparator(order: Order, orderBy: Column, a: LicenseRow, b: LicenseRow): int
  {
    if order == Desc then DescendingComparator(a, b, orderBy) else -DescendingComparator(a, b, orderBy)
  }

  /** `a` sorts strictly before `b`: the smaller key first for "asc", the larger first for "desc". */
  predicate KeyBefore(order: Order, orderBy: Column, a: LicenseRow, b: LicenseRow)
  {
    if order == Asc then CellLess(Field(a, orderBy), Field(b, orderBy))
    else CellLess(Field(b, orderBy), Field(a, orderBy))
  }

  /** The field order of one column is a strict total order. */
  lemma CellOrder(col: Column, a: LicenseRow, b: LicenseRow, c: LicenseRow)
    ensures !CellLess(Field(a, col), Field(a, col))
    ensures CellLess(Field(a, col), Field(b, col)) ==> !CellLess(Field(b, col), Field(a, col))
    ensures CellLess(Field(a, col), Field(b, col)) && CellLess(Field(b, col), Field(c, col))
      ==> CellLess(Field(a, col), Field(c, col))
    ensures Field(a, col) == Field(b, col) || CellLess(Field(a, col), Field(b, col)) || CellLess(Field(b, col), Field(a, col))
  {
    match Field(a, col)
    case Num(_) =>
    case Text(x) =>
      var y, z := Field(b, col).s, Field(c, col).s;
      StrLessIrreflexive(x);
      StrLessAsymmetric(x, y);
      StrLessTransitive(x, y, z);
      StrLessTotal(x, y);
  }

  /**
   * The comparator is -1, 0 or 1; negative exactly when `a` sorts before `b`,
   * zero exactly when the two keys are equal, and it flips sign when the
   * arguments are swapped.
   */
  lemma ComparatorSign(order: Order, orderBy: Column, a: LicenseRow, b: LicenseRow)
    ensures Comparator(order, orderBy, a, b) in {-1, 0, 1}
    ensures Comparator(order, orderBy, a, b) < 0 <==> KeyBefore(order, orderBy, a, b)
    ensures Comparator(order, orderBy, a, b) == 0 <==> Field(a, orderBy) == Field(b, orderBy)
    ensures Comparator(order, orderBy, b, a) == -Comparator(order, orderBy, a, b)
  {
    CellOrder(orderBy, a, b, a);
  }

  /** Sorting before is transitive, and equal keys sort alike. */
  lemma KeyBeforeTransitive(order: Order, orderBy: Column, a: LicenseRow, b: LicenseRow, c: LicenseRow)
    ensures KeyBefore(order, orderBy, a, b) && KeyBefore(order, orderBy, b, c) ==> KeyBefore(order, orderBy, a, c)
    ensures Field(a, orderBy) == Field(b, orderBy) ==> (KeyBefore(order, orderBy, a, c) <==> KeyBefore(order, orderBy, b, c))
    ensures Field(b, orderBy) == Field(c, orderBy) ==> (KeyBefore(order, orderBy, a, b) <==> KeyBefore(order, orderBy, a, c))
  {
    CellOrder(orderBy, a, b, c);
    CellOrder(orderBy, c, b, a);
  }

  /** "desc" puts first exactly what "asc" puts last. */
  lemma DescIsAscFlipped(orderBy: Column, a: LicenseRow, b: LicenseRow)
    ensures KeyBefore(Desc, orderBy, a, b) <==> KeyBefore(Asc, orderBy, b, a)
    ensures Comparator(Desc, orderBy, a, b) == Comparator(Asc, orderBy, b, a)
  {
    ComparatorSign(Desc, orderBy, a, b);
  }

  /**
   * The expiry column compares the date texts, not the dates: sorted "asc",
   * a license expiring 15/3/2024 comes before one expiring 2/1/2024.
   */
  lemma ExpiryColumnIsTextual(r1: LicenseRow, r2: LicenseRow)
    requires r1.expiryDate == "15/3/2024" && r1.expiry == Date(2024, 3, 15)
    requires r2.expiryDate == "2/1/2024" && r2.expiry == Date(2024, 1, 2)
    ensures KeyBefore(Asc, ExpiryDateColumn, r1, r2)
    ensures DayNumber(r2.expiry) < DayNumber(r1.expiry)
  {
    assert StrLess("15/3/2024", "2/1/2024");
    DayNumberOrder(r2.expiry, r1.expiry);
  }
}
