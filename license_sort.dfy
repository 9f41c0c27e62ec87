/**
 * `sortRows` of the licenses page: every row is paired with its position,
 * the pairs are sorted in place with the table comparator, ties going to the
 * smaller position, and the rows are read back off the sorted pairs.
 */
module LicenseSort {
  import opened Sequences
  import opened LicenseTable

  /** An element of `stabilizedThis`: a row and its position in the input. */
  type Decorated = (LicenseRow, int)

  /** The comparator handed to `stabilizedThis.sort`. */
  function StableCompare(order: Order, orderBy: Column, x: Decorated, y: Decorated): int
  {
    var c := Comparator(order, orderBy, x.0, y.0);
    if c != 0 then c else x.1 - y.1
  }

  /** Swapping the arguments turns a positive stable comparison negative. */
  lemma StableCompareAntisymmetric(order: Order, orderBy: Column, x: Decorated, y: Decorated)
    ensures StableCompare(order, orderBy, x, y) > 0 ==> StableCompare(order, orderBy, y, x) < 0
  {
    ComparatorSign(order, orderBy, x.0, y.0);
  }

  /** The stable comparison is zero only for two pairs with the same position. */
  lemma StableCompareTies(order: Order, orderBy: Column, x: Decorated, y: Decorated)
    ensures StableCompare(order, orderBy, x, y) == 0 ==> x.1 == y.1
  {
    ComparatorSign(order, orderBy, x.0, y.0);
  }

  /** `s[..n]` is ordered: each element compares at most 0 with the next. */
  predicate OrderedPrefix<T>(s: seq<T>, cmp: (T, T) -> int, n: int)
  {
    forall k :: 0 < k < n && k < |s| ==> cmp(s[k - 1], s[k]) <= 0
  }

  /**
   * `s[..n]` is ordered except between `s[j - 1]` and `s[j]`, and `s[j - 1]`
   * is in order with `s[j + 1]`.
   */
  predicate OrderedBut<T>(s: seq<T>, cmp: (T, T) -> int, n: int, j: int)
  {
    && (forall k :: 0 < k < n && k < |s| && k != j ==> cmp(s[k - 1], s[k]) <= 0)
    && (0 < j && j + 1 < n && j + 1 < |s| ==> cmp(s[j - 1], s[j + 1]) <= 0)
  }

  /** A positive comparison turns negative when its arguments are swapped. */
  ghost predicate Antisymmetric<T(!new)>(cmp: (T, T) -> int)
  {
    forall x, y :: cmp(x, y) > 0 ==> cmp(y, x) < 0
  }

  /**
   * `array.sort(cmp)`, as an insertion sort by adjacent swaps: the elements
   * are rearranged so that each one compares at most 0 with the next. All
   * the comparator must do is turn a positive comparison negative when its
   * arguments are swapped.
   */
  method SortBy<T(!new)>(a: array<T>, cmp: (T, T) -> int)
    requires Antisymmetric(cmp)
    modifies a
    ensures multiset(a[..]) == multiset(old(a[..]))
    ensures forall k :: 0 < k < a.Length ==> cmp(a[k - 1], a[k]) <= 0
  {
    var i := 0;
    while i < a.Length
      invariant 0 <= i <= a.Length
      invariant OrderedPrefix(a[..], cmp, i)
      invariant multiset(a[..]) == multiset(old(a[..]))
    {
      Insert(a, i, cmp);
      i := i + 1;
    }
    assert OrderedPrefix(a[..], cmp, a.Length);
  }

  /**
   * One step of the insertion sort: `a[i]` is swapped down into the ordered
   * prefix `a[..i]`, so that `a[..i + 1]` is ordered.
   */
  method Insert<T(!new)>(a: array<T>, i: int, cmp: (T, T) -> int)
    requires Antisymmetric(cmp)
    requires 0 <= i < a.Length && OrderedPrefix(a[..], cmp, i)
    modifies a
    ensures OrderedPrefix(a[..], cmp, i + 1)
    ensures multiset(a[..]) == multiset(old(a[..]))
  {
    var j := i;
    while j > 0 && cmp(a[j - 1], a[j]) > 0
      invariant 0 <= j <= i
      invariant OrderedBut(a[..], cmp, i + 1, j)
      invariant multiset(a[..]) == multiset(old(a[..]))
    {
      ghost var before := a[..];
      Swap(a, j - 1, j);
      SwapStep(before, a[..], i, j, cmp);
      j := j - 1;
    }
  }

  /** Swapping an out-of-order neighbour pair moves the gap in the order one place down. */
  lemma SwapStep<T(!new)>(before: seq<T>, after: seq<T>, i: int, j: int, cmp: (T, T) -> int)
    requires Antisymmetric(cmp)
    requires 0 < j <= i < |before| && after == before[j - 1 := before[j]][j := before[j - 1]]
    requires OrderedBut(before, cmp, i + 1, j)
    requires cmp(before[j - 1], before[j]) > 0
    ensures OrderedBut(after, cmp, i + 1, j - 1)
  {
    forall k | 0 < k <= i && k != j - 1
      ensures cmp(after[k - 1], after[k]) <= 0
    {
      if k == j {
        assert after[k - 1] == before[j] && after[k] == before[j - 1];
      } else if k == j + 1 {
        assert after[k - 1] == before[j - 1] && after[k] == before[j + 1];
      } else {
        assert after[k - 1] == before[k - 1] && after[k] == before[k];
      }
    }
    assert 1 < j ==> after[j - 2] == before[j - 2] && after[j] == before[j - 1];
  }

  /** Exchanges two elements of the array. */
  method Swap<T>(a: array<T>, i: int, j: int)
    requires 0 <= i < j < a.Length
    modifies a
    ensures a[..] == old(a[..])[i := old(a[j])][j := old(a[i])]
    ensures multiset(a[..]) == multiset(old(a[..]))
  {
    a[i], a[j] := a[j], a[i];
  }

  /**
   * Position `i` of `rows` sorts strictly before position `j`: its row's key
   * comes first, or the keys are equal and `i` is the earlier position.
   */
  predicate Precedes(rows: seq<LicenseRow>, order: Order, orderBy: Column, i: int, j: int)
    requires 0 <= i < |rows| && 0 <= j < |rows|
  {
    KeyBefore(order, orderBy, rows[i], rows[j])
    || (Field(rows[i], orderBy) == Field(rows[j], orderBy) && i < j)
  }

  /**
   * `sorted` is a stable sort of `rows`: it takes its k-th row from position
   * `perm[k]` of `rows`, `perm` is a permutation of the positions, and the
   * positions it lists are in `Precedes` order.
   */
  ghost predicate IsStableSortOf(sorted: seq<LicenseRow>, perm: seq<int>, rows: seq<LicenseRow>, order: Order, orderBy: Column)
  {
    && IsPermutation(perm, |rows|)
    && |sorted| == |rows|
    && (forall k :: 0 <= k < |rows| ==> sorted[k] == rows[perm[k]])
    && (forall k, l :: 0 <= k < l < |rows| ==> Precedes(rows, order, orderBy, perm[k], perm[l]))
  }

  /** `stabilizedThis` before sorting: row `i` paired with `i`. */
  function Decorate(rows: seq<LicenseRow>): (d: seq<Decorated>)
    ensures |d| == |rows| && forall i :: 0 <= i < |rows| ==> d[i] == (rows[i], i)
  {
    seq(|rows|, i requires 0 <= i < |rows| => (rows[i], i))
  }

  /** Every pair of `Decorate(rows)` occurs in it once, its position being its second half. */
  lemma DecorateOnce(rows: seq<LicenseRow>, x: Decorated)
    ensures x in multiset(Decorate(rows)) <==> 0 <= x.1 < |rows| && x.0 == rows[x.1]
    ensures x in multiset(Decorate(rows)) ==> multiset(Decorate(rows))[x] == 1
  {
    var d := Decorate(rows);
    if x in multiset(d) {
      var i := x.1;
      assert 0 <= i < |rows| by {
        assert x in d;
      }
      assert d == d[..i] + [d[i]] + d[i + 1..];
      assert multiset(d) == multiset(d[..i]) + multiset{d[i]} + multiset(d[i + 1..]);
      assert x !in d[..i] && x !in d[i + 1..];
    }
  }

  /** From adjacent pairs in order to every pair in order, on pairs with distinct positions. */
  lemma {:induction false} AdjacentToPairwise(s: seq<Decorated>, order: Order, orderBy: Column, k: int, l: int)
    requires forall m :: 0 < m < |s| ==> StableCompare(order, orderBy, s[m - 1], s[m]) <= 0
    requires forall m, n :: 0 <= m < n < |s| ==> s[m].1 != s[n].1
    requires 0 <= k < l < |s|
    ensures KeyBefore(order, orderBy, s[k].0, s[l].0) || (Field(s[k].0, orderBy) == Field(s[l].0, orderBy) && s[k].1 < s[l].1)
    decreases l - k
  {
    ComparatorSign(order, orderBy, s[l - 1].0, s[l].0);
    if k < l - 1 {
      AdjacentToPairwise(s, order, orderBy, k, l - 1);
      KeyBeforeTransitive(order, orderBy, s[k].0, s[l - 1].0, s[l].0);
    }
  }

  /** The positions of the sorted pairs are distinct: each pair of `Decorate(rows)` occurs once. */
  lemma DistinctPositions(s: seq<Decorated>, rows: seq<LicenseRow>)
    requires multiset(s) == multiset(Decorate(rows))
    ensures forall m, n :: 0 <= m < n < |s| ==> s[m].1 != s[n].1
  {
    forall m, n | 0 <= m < n < |s|
      ensures s[m].1 != s[n].1
    {
      assert s[m] in multiset(s) && s[n] in multiset(s);
      DecorateOnce(rows, s[m]);
      DecorateOnce(rows, s[n]);
      TwoPositions(s, m, n);
    }
  }

  function Row(x: Decorated): LicenseRow { x.0 }

  function Position(x: Decorated): int { x.1 }

  /** Sorted pairs read back as a stable sort of the rows. */
  lemma SortedPairs(s: seq<Decorated>, rows: seq<LicenseRow>, order: Order, orderBy: Column)
    requires multiset(s) == multiset(Decorate(rows))
    requires forall m :: 0 < m < |s| ==> StableCompare(order, orderBy, s[m - 1], s[m]) <= 0
    ensures IsStableSortOf(Map(s, Row), Map(s, Position), rows, order, orderBy)
    ensures multiset(Map(s, Row)) == multiset(rows)
  {
    var perm := Map(s, Position);
    ReadBack(s, rows);
    forall k, l | 0 <= k < l < |rows|
      ensures Precedes(rows, order, orderBy, perm[k], perm[l])
    {
      AdjacentToPairwise(s, order, orderBy, k, l);
    }
  }

  /**
   * Any rearrangement of `Decorate(rows)` reads back as a rearrangement of
   * `rows`: its positions are a permutation, and each row is the one at its
   * position.
   */
  lemma ReadBack(s: seq<Decorated>, rows: seq<LicenseRow>)
    requires multiset(s) == multiset(Decorate(rows))
    ensures |s| == |rows| && IsPermutation(Map(s, Position), |rows|)
    ensures forall k :: 0 <= k < |rows| ==> Map(s, Row)[k] == rows[Map(s, Position)[k]]
    ensures multiset(Map(s, Row)) == multiset(rows)
    ensures forall m, n :: 0 <= m < n < |s| ==> s[m].1 != s[n].1
  {
    var sorted := Map(s, Row);
    var perm := Map(s, Position);
    var n := |rows|;
    assert |s| == n by {
      assert |multiset(s)| == |multiset(Decorate(rows))|;
    }
    forall k | 0 <= k < n
      ensures 0 <= perm[k] < n && sorted[k] == rows[perm[k]]
    {
      assert s[k] in multiset(s);
      DecorateOnce(rows, s[k]);
    }
    DistinctPositions(s, rows);
    forall i | 0 <= i < n
      ensures i in perm
    {
      DecorateOnce(rows, (rows[i], i));
      assert (rows[i], i) in s;
      var k :| 0 <= k < n && s[k] == (rows[i], i);
      assert perm[k] == i;
    }
    MapMultiset(s, Decorate(rows), Row);
    assert Map(Decorate(rows), Row) == rows;
  }

  /**
   * `sortRows(rows, getComparator(order, orderBy))`: a fresh decorated copy is
   * sorted, so `rows` itself is left as it is, and the result is a stable sort
   * of it. `perm` records where each output row came from.
   */
  method SortRows(rows: seq<LicenseRow>, order: Order, orderBy: Column) returns (sorted: seq<LicenseRow>, ghost perm: seq<int>)
    ensures IsStableSortOf(sorted, perm, rows, order, orderBy)
    ensures multiset(sorted) == multiset(rows)
    ensures order == Asc ==> forall k, l :: 0 <= k < l < |sorted| ==> !CellLess(Field(sorted[l], orderBy), Field(sorted[k], orderBy))
    ensures order == Desc ==> forall k, l :: 0 <= k < l < |sorted| ==> !CellLess(Field(sorted[k], orderBy), Field(sorted[l], orderBy))
    ensures forall k, l :: 0 <= k < l < |sorted| && Field(sorted[k], orderBy) == Field(sorted[l], orderBy) ==> perm[k] < perm[l]
  {
    var a := new Decorated[|rows|](i requires 0 <= i < |rows| => (rows[i], i));
    assert a[..] == Decorate(rows);
    var cmp := (x: Decorated, y: Decorated) => StableCompare(order, orderBy, x, y);
    forall x: Decorated, y: Decorated
      ensures cmp(x, y) > 0 ==> cmp(y, x) < 0
    {
      StableCompareAntisymmetric(order, orderBy, x, y);
    }
    SortBy(a, cmp);
    SortedPairs(a[..], rows, order, orderBy);
    sorted := Map(a[..], Row);
    perm := Map(a[..], Position);
    StableSortFacts(sorted, perm, rows, order, orderBy);
  }

  /** What a stable sort means for the keys: ordered in the requested direction, equal keys in input order. */
  lemma StableSortFacts(sorted: seq<LicenseRow>, perm: seq<int>, rows: seq<LicenseRow>, order: Order, orderBy: Column)
    requires IsStableSortOf(sorted, perm, rows, order, orderBy)
    ensures forall k, l :: 0 <= k < l < |sorted| ==> !KeyBefore(order, orderBy, sorted[l], sorted[k])
    ensures order == Asc ==> forall k, l :: 0 <= k < l < |sorted| ==> !CellLess(Field(sorted[l], orderBy), Field(sorted[k], orderBy))
    ensures order == Desc ==> forall k, l :: 0 <= k < l < |sorted| ==> !CellLess(Field(sorted[k], orderBy), Field(sorted[l], orderBy))
    ensures forall k, l :: 0 <= k < l < |sorted| && Field(sorted[k], orderBy) == Field(sorted[l], orderBy) ==> perm[k] < perm[l]
  {
    forall k, l | 0 <= k < l < |sorted|
      ensures !KeyBefore(order, orderBy, sorted[l], sorted[k])
    {
      assert Precedes(rows, order, orderBy, perm[k], perm[l]);
      ComparatorSign(order, orderBy, sorted[k], sorted[l]);
      CellOrder(orderBy, sorted[k], sorted[l], sorted[k]);
    }
  }

  // ---------------------------------------------------------------------
  // The result of a stable sort is unique, whatever algorithm produces it.

  /** `Precedes` is a strict order on positions: never both ways, and never a position before itself. */
  lemma PrecedesAsymmetric(rows: seq<LicenseRow>, order: Order, orderBy: Column, i: int, j: int)
    requires 0 <= i < |rows| && 0 <= j < |rows|
    ensures Precedes(rows, order, orderBy, i, j) ==> !Precedes(rows, order, orderBy, j, i)
  {
    CellOrder(orderBy, rows[i], rows[j], rows[i]);
    CellOrder(orderBy, rows[j], rows[i], rows[j]);
  }

  /** Two different positions are in `Precedes` order one way or the other. */
  lemma PrecedesTotal(rows: seq<LicenseRow>, order: Order, orderBy: Column, i: int, j: int)
    requires 0 <= i < |rows| && 0 <= j < |rows| && i != j
    ensures Precedes(rows, order, orderBy, i, j) || Precedes(rows, order, orderBy, j, i)
  {
    CellOrder(orderBy, rows[i], rows[j], rows[i]);
  }

  /** Positions of `rows` listed in strict `Precedes` order. */
  ghost predicate InPrecedesOrder(rows: seq<LicenseRow>, order: Order, orderBy: Column, p: seq<int>)
  {
    && (forall k :: 0 <= k < |p| ==> 0 <= p[k] < |rows|)
    && (forall k, l :: 0 <= k < l < |p| ==> Precedes(rows, order, orderBy, p[k], p[l]))
  }

  lemma FirstIsMember(q: seq<int>)
    ensures q != [] ==> q[0] in q
  {
  }

  /** Two lists of the same positions, both in `Precedes` order, are the same list. */
  lemma {:induction false} InPrecedesOrderUnique(rows: seq<LicenseRow>, order: Order, orderBy: Column, p: seq<int>, q: seq<int>)
    requires InPrecedesOrder(rows, order, orderBy, p) && InPrecedesOrder(rows, order, orderBy, q)
    requires forall i :: i in p <==> i in q
    ensures p == q
    decreases |p|
  {
    if p == [] {
      FirstIsMember(q);
    } else {
      SameFirst(rows, order, orderBy, p, q);
      forall i
        ensures i in p[1..] <==> i in q[1..]
      {
        TailMember(rows, order, orderBy, p, q, i);
        TailMember(rows, order, orderBy, q, p, i);
      }
      InPrecedesOrderUnique(rows, order, orderBy, p[1..], q[1..]);
      assert p == [p[0]] + p[1..] && q == [q[0]] + q[1..];
    }
  }

  /** Two lists of the same positions in `Precedes` order start with the same position. */
  lemma SameFirst(rows: seq<LicenseRow>, order: Order, orderBy: Column, p: seq<int>, q: seq<int>)
    requires InPrecedesOrder(rows, order, orderBy, p) && InPrecedesOrder(rows, order, orderBy, q)
    requires forall i :: i in p <==> i in q
    requires p != []
    ensures q != [] && p[0] == q[0]
  {
    assert p[0] in q;
    var x, y := p[0], q[0];
    if x != y {
      var l :| 0 <= l < |q| && q[l] == x;
      assert y in p;
      var m :| 0 <= m < |p| && p[m] == y;
      PrecedesAsymmetric(rows, order, orderBy, x, y);
      assert false;
    }
  }

  /** With the first positions equal, a later position of one list is a later position of the other. */
  lemma TailMember(rows: seq<LicenseRow>, order: Order, orderBy: Column, p: seq<int>, q: seq<int>, i: int)
    requires InPrecedesOrder(rows, order, orderBy, p) && InPrecedesOrder(rows, order, orderBy, q)
    requires forall i :: i in p <==> i in q
    requires p != [] && q != [] && p[0] == q[0]
    ensures i in p[1..] ==> i in q[1..]
  {
    if i in p[1..] {
      var k :| 1 <= k < |p| && p[k] == i;
      PrecedesAsymmetric(rows, order, orderBy, p[0], i);
      assert i != p[0] && i in q;
      var l :| 0 <= l < |q| && q[l] == i;
      assert l != 0;
      assert q[1..][l - 1] == i;
    }
  }

  /**
   * A stable sort of `rows` is unique: any two agree on the rows and on where
   * they came from. So insertion sort stands for whatever algorithm
   * `Array.prototype.sort` uses.
   */
  lemma StableSortUnique(s1: seq<LicenseRow>, p1: seq<int>, s2: seq<LicenseRow>, p2: seq<int>,
                         rows: seq<LicenseRow>, order: Order, orderBy: Column)
    requires IsStableSortOf(s1, p1, rows, order, orderBy)
    requires IsStableSortOf(s2, p2, rows, order, orderBy)
    ensures p1 == p2 && s1 == s2
  {
    forall i
      ensures i in p1 <==> i in p2
    {
      if i in p1 {
        var k :| 0 <= k < |p1| && p1[k] == i;
        assert 0 <= i < |rows|;
      }
      if i in p2 {
        var k :| 0 <= k < |p2| && p2[k] == i;
        assert 0 <= i < |rows|;
      }
    }
    InPrecedesOrderUnique(rows, order, orderBy, p1, p2);
  }

  /**
   * Sorting leaves the rows exactly as they are if and only if no row has a
   * key that sorts strictly before the key of a row above it.
   */
  lemma SortedInputUnchanged(sorted: seq<LicenseRow>, perm: seq<int>, rows: seq<LicenseRow>, order: Order, orderBy: Column)
    requires IsStableSortOf(sorted, perm, rows, order, orderBy)
    ensures sorted == rows <==> forall k, l :: 0 <= k < l < |rows| ==> !KeyBefore(order, orderBy, rows[l], rows[k])
  {
    StableSortFacts(sorted, perm, rows, order, orderBy);
    if forall k, l :: 0 <= k < l < |rows| ==> !KeyBefore(order, orderBy, rows[l], rows[k]) {
      IdentityIsStableSort(rows, order, orderBy);
      StableSortUnique(sorted, perm, rows, Identity(|rows|), rows, order, orderBy);
    }
  }

  /** Rows already in order are a stable sort of themselves, each row staying where it is. */
  lemma IdentityIsStableSort(rows: seq<LicenseRow>, order: Order, orderBy: Column)
    requires forall k, l :: 0 <= k < l < |rows| ==> !KeyBefore(order, orderBy, rows[l], rows[k])
    ensures IsStableSortOf(rows, Identity(|rows|), rows, order, orderBy)
  {
    var id := Identity(|rows|);
    IdentityIsPermutation(|rows|);
    forall k, l | 0 <= k < l < |rows|
      ensures Precedes(rows, order, orderBy, id[k], id[l])
    {
      CellOrder(orderBy, rows[k], rows[l], rows[k]);
    }
  }

  /** When every row has the same key, sorting in either direction returns the rows unchanged. */
  lemma EqualKeysKeepOrder(sorted: seq<LicenseRow>, perm: seq<int>, rows: seq<LicenseRow>, order: Order, orderBy: Column)
    requires IsStableSortOf(sorted, perm, rows, order, orderBy)
    requires forall k :: 0 <= k < |rows| ==> Field(rows[k], orderBy) == Field(rows[0], orderBy)
    ensures sorted == rows
  {
    forall k, l | 0 <= k < l < |rows|
      ensures !KeyBefore(order, orderBy, rows[l], rows[k])
    {
      CellOrder(orderBy, rows[l], rows[k], rows[l]);
    }
    SortedInputUnchanged(sorted, perm, rows, order, orderBy);
  }

  /** With pairwise distinct keys, "desc" lists the rows in exactly the reverse of "asc". */
  lemma DistinctKeysReverse(asc: seq<LicenseRow>, ascPerm: seq<int>, desc: seq<LicenseRow>, descPerm: seq<int>,
                            rows: seq<LicenseRow>, orderBy: Column)
    requires IsStableSortOf(asc, ascPerm, rows, Asc, orderBy)
    requires IsStableSortOf(desc, descPerm, rows, Desc, orderBy)
    requires forall k, l :: 0 <= k < l < |rows| ==> Field(rows[k], orderBy) != Field(rows[l], orderBy)
    ensures desc == Reverse(asc)
  {
    var n := |rows|;
    var rp := Reverse(ascPerm);
    ReverseIsPermutation(ascPerm, n);
    forall k, l | 0 <= k < l < n
      ensures Precedes(rows, Desc, orderBy, rp[k], rp[l])
    {
      var i, j := ascPerm[n - 1 - l], ascPerm[n - 1 - k];
      assert Precedes(rows, Asc, orderBy, i, j);
      assert i != j;
      if i < j {
        assert Field(rows[i], orderBy) != Field(rows[j], orderBy);
      } else {
        assert Field(rows[j], orderBy) != Field(rows[i], orderBy);
      }
      DescIsAscFlipped(orderBy, rows[j], rows[i]);
    }
    assert IsStableSortOf(Reverse(asc), rp, rows, Desc, orderBy);
    StableSortUnique(desc, descPerm, Reverse(asc), rp, rows, Desc, orderBy);
  }

  /** Two licenses with the same status keep their order when sorted on the status column. */
  lemma SameStatusKeepsOrder(sorted: seq<LicenseRow>, perm: seq<int>, r1: LicenseRow, r2: LicenseRow, order: Order)
    requires r1.status == r2.status
    requires IsStableSortOf(sorted, perm, [r1, r2], order, StatusColumn)
    ensures sorted == [r1, r2]
  {
    var rows := [r1, r2];
    assert forall k :: 0 <= k < |rows| ==> Field(rows[k], StatusColumn) == Field(rows[0], StatusColumn);
    EqualKeysKeepOrder(sorted, perm, rows, order, StatusColumn);
  }

  /**
   * With a repeated key "desc" is not the reverse of "asc": two different
   * licenses with the same status come out in the same order both ways.
   */
  lemma RepeatedKeyNotReversed(asc: seq<LicenseRow>, ascPerm: seq<int>, desc: seq<LicenseRow>, descPerm: seq<int>,
                               r1: LicenseRow, r2: LicenseRow)
    requires r1 != r2 && r1.status == r2.status
    requires IsStableSortOf(asc, ascPerm, [r1, r2], Asc, StatusColumn)
    requires IsStableSortOf(desc, descPerm, [r1, r2], Desc, StatusColumn)
    ensures desc == asc
    ensures desc != Reverse(asc)
  {
    SameStatusKeepsOrder(asc, ascPerm, r1, r2, Asc);
    SameStatusKeepsOrder(desc, descPerm, r1, r2, Desc);
    assert Reverse(asc)[0] == r2;
  }

  /**
   * In general, a repeated key rules the reversal out: when the rows are
   * pairwise different (a fetched list is, by its numbering) and two of them
   * share a key, "desc" is not the reverse of "asc".
   */
  lemma RepeatedKeyNeverReversed(asc: seq<LicenseRow>, ascPerm: seq<int>, desc: seq<LicenseRow>, descPerm: seq<int>,
                                 rows: seq<LicenseRow>, orderBy: Column, k: int, l: int)
    requires IsStableSortOf(asc, ascPerm, rows, Asc, orderBy)
    requires IsStableSortOf(desc, descPerm, rows, Desc, orderBy)
    requires forall i, j :: 0 <= i < j < |rows| ==> rows[i] != rows[j]
    requires 0 <= k < l < |rows| && Field(rows[k], orderBy) == Field(rows[l], orderBy)
    ensures desc != Reverse(asc)
  {
    var n := |rows|;
    assert k in ascPerm && l in ascPerm && k in descPerm && l in descPerm;
    var ik :| 0 <= ik < n && ascPerm[ik] == k;
    var il :| 0 <= il < n && ascPerm[il] == l;
    var jk :| 0 <= jk < n && descPerm[jk] == k;
    var jl :| 0 <= jl < n && descPerm[jl] == l;
    EqualKeysStayInOrder(asc, ascPerm, rows, Asc, orderBy, k, l, ik, il);
    EqualKeysStayInOrder(desc, descPerm, rows, Desc, orderBy, k, l, jk, jl);
    if desc == Reverse(asc) {
      ReversedPlace(asc, ascPerm, desc, descPerm, rows, orderBy, ik, jk);
      ReversedPlace(asc, ascPerm, desc, descPerm, rows, orderBy, il, jl);
      assert false;
    }
  }

  /** If "desc" were the reverse of "asc", a row at place `i` of one would be at place `n - 1 - i` of the other. */
  lemma ReversedPlace(asc: seq<LicenseRow>, ascPerm: seq<int>, desc: seq<LicenseRow>, descPerm: seq<int>,
                      rows: seq<LicenseRow>, orderBy: Column, i: int, j: int)
    requires IsStableSortOf(asc, ascPerm, rows, Asc, orderBy)
    requires IsStableSortOf(desc, descPerm, rows, Desc, orderBy)
    requires forall i, j :: 0 <= i < j < |rows| ==> rows[i] != rows[j]
    requires desc == Reverse(asc)
    requires 0 <= i < |rows| && 0 <= j < |rows| && ascPerm[i] == descPerm[j]
    ensures j == |rows| - 1 - i
  {
    assert desc[|rows| - 1 - i] == rows[descPerm[j]];
    SamePlace(desc, descPerm, rows, Desc, orderBy, |rows| - 1 - i, j);
  }

  /** In a stable sort two rows with equal keys come out in their original order. */
  lemma EqualKeysStayInOrder(sorted: seq<LicenseRow>, perm: seq<int>, rows: seq<LicenseRow>, order: Order, orderBy: Column,
                             k: int, l: int, ik: int, il: int)
    requires IsStableSortOf(sorted, perm, rows, order, orderBy)
    requires 0 <= k < l < |rows| && Field(rows[k], orderBy) == Field(rows[l], orderBy)
    requires 0 <= ik < |rows| && 0 <= il < |rows| && perm[ik] == k && perm[il] == l
    ensures ik < il
  {
    if il < ik {
      assert Precedes(rows, order, orderBy, perm[il], perm[ik]);
      CellOrder(orderBy, rows[l], rows[k], rows[l]);
      assert false;
    }
  }

  /** Among pairwise different rows, a row of a sort sits at one place only. */
  lemma SamePlace(sorted: seq<LicenseRow>, perm: seq<int>, rows: seq<LicenseRow>, order: Order, orderBy: Column, a: int, b: int)
    requires IsStableSortOf(sorted, perm, rows, order, orderBy)
    requires forall i, j :: 0 <= i < j < |rows| ==> rows[i] != rows[j]
    requires 0 <= a < |rows| && 0 <= b < |rows| && sorted[a] == rows[perm[b]]
    ensures a == b
  {
    assert rows[perm[a]] == rows[perm[b]];
    if a != b {
      assert false;
    }
  }

  /** Sorting no rows or one row returns them unchanged, whatever the column and direction. */
  lemma SortSmallInput(sorted: seq<LicenseRow>, perm: seq<int>, rows: seq<LicenseRow>, order: Order, orderBy: Column)
    requires IsStableSortOf(sorted, perm, rows, order, orderBy)
    requires |rows| <= 1
    ensures sorted == rows
  {
    EqualKeysKeepOrder(sorted, perm, rows, order, orderBy);
  }

  /** Sorting the sorted rows again, in the same order on the same column, changes nothing. */
  lemma SortIdempotent(s1: seq<LicenseRow>, p1: seq<int>, s2: seq<LicenseRow>, p2: seq<int>,
                       rows: seq<LicenseRow>, order: Order, orderBy: Column)
    requires IsStableSortOf(s1, p1, rows, order, orderBy)
    requires IsStableSortOf(s2, p2, s1, order, orderBy)
    ensures s2 == s1
  {
    StableSortFacts(s1, p1, rows, order, orderBy);
    SortedInputUnchanged(s2, p2, s1, order, orderBy);
  }
}
