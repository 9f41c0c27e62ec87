/**
 * The string operations the list views rely on: JavaScript's relational
 * comparison of strings (used by the table sorter), and ASCII
 * `toLowerCase` and `includes` (used by the school search box).
 */
module Text {

  /** JavaScript `a < b` on strings: lexicographic on code units, a proper prefix is smaller. */
  predicate StrLess(a: string, b: string)
    decreases |a|
  {
    if |a| == 0 then |b| > 0
    else if |b| == 0 then false
    else if a[0] != b[0] then a[0] < b[0]
    else StrLess(a[1..], b[1..])
  }

  lemma {:induction false} StrLessIrreflexive(a: string)
    ensures !StrLess(a, a)
    decreases |a|
  {
    if |a| > 0 {
      StrLessIrreflexive(a[1..]);
    }
  }

  lemma {:induction false} StrLessTransitive(a: string, b: string, c: string)
    ensures StrLess(a, b) && StrLess(b, c) ==> StrLess(a, c)
    decreases |a|
  {
    if |a| > 0 && |b| > 0 && |c| > 0 && a[0] == b[0] && b[0] == c[0] {
      StrLessTransitive(a[1..], b[1..], c[1..]);
    }
  }

  /** Two different strings are always ordered one way or the other. */
  lemma {:induction false} StrLessTotal(a: string, b: string)
    ensures a == b || StrLess(a, b) || StrLess(b, a)
    decreases |a|
  {
    if |a| > 0 && |b| > 0 && a[0] == b[0] {
      StrLessTotal(a[1..], b[1..]);
      if a[1..] == b[1..] {
        assert a == [a[0]] + a[1..] && b == [b[0]] + b[1..];
      }
    }
  }

  lemma StrLessAsymmetric(a: string, b: string)
    ensures StrLess(a, b) ==> !StrLess(b, a)
  {
    StrLessTransitive(a, b, a);
    StrLessIrreflexive(a);
  }

  /** ASCII `toLowerCase` of one character. */
  function LowerChar(c: char): char
  {
    if 'A' <= c <= 'Z' then (c as int + 32) as char else c
  }

  predicate IsUpperAscii(c: char)
  {
    'A' <= c <= 'Z'
  }

  /** ASCII `String.prototype.toLowerCase`. */
  function ToLower(s: string): (r: string)
    ensures |r| == |s|
    ensures forall i :: 0 <= i < |s| ==> r[i] == LowerChar(s[i])
    ensures forall i :: 0 <= i < |r| ==> !IsUpperAscii(r[i])
  {
    if s == [] then [] else [LowerChar(s[0])] + ToLower(s[1..])
  }

  lemma ToLowerIdempotent(s: string)
    ensures ToLower(ToLower(s)) == ToLower(s)
  {
  }

  lemma ToLowerAppend(s: string, t: string)
    ensures ToLower(s + t) == ToLower(s) + ToLower(t)
  {
    assert forall i :: 0 <= i < |s + t| ==> ToLower(s + t)[i] == (ToLower(s) + ToLower(t))[i];
  }

  /** Two strings that differ only in the case of ASCII letters. */
  predicate SameIgnoringCase(s: string, t: string)
  {
    |s| == |t| && forall i :: 0 <= i < |s| ==> LowerChar(s[i]) == LowerChar(t[i])
  }

  lemma SameIgnoringCaseLowers(s: string, t: string)
    requires SameIgnoringCase(s, t)
    ensures ToLower(s) == ToLower(t)
  {
    assert forall i :: 0 <= i < |s| ==> ToLower(s)[i] == ToLower(t)[i];
  }

  /** `q` occurs in `s` starting at position `i`. */
  predicate OccursAt(s: string, q: string, i: int)
  {
    0 <= i && i + |q| <= |s| && s[i..i + |q|] == q
  }

  /**
   * ECMAScript StringIndexOf(s, q, from): the first position at or after
   * `from` where `q` occurs in `s`, or -1 when there is none.
   */
  function IndexFrom(s: string, q: string, from: nat): (r: int)
    ensures r == -1 || (from <= r && OccursAt(s, q, r))
    ensures forall j :: from <= j && (r == -1 || j < r) ==> !OccursAt(s, q, j)
    decreases |s| - from
  {
    if from + |q| > |s| then -1
    else if s[from..from + |q|] == q then from
    else IndexFrom(s, q, from + 1)
  }

  /** `String.prototype.indexOf(q)`. */
  function IndexOf(s: string, q: string): int
  {
    IndexFrom(s, q, 0)
  }

  /** `String.prototype.includes(q)`: `q` occurs somewhere in `s`. */
  predicate Includes(s: string, q: string)
  {
    IndexOf(s, q) != -1
  }

  lemma {:induction false} IncludesIff(s: string, q: string)
    ensures Includes(s, q) <==> exists i :: OccursAt(s, q, i)
  {
    var r := IndexOf(s, q);
    if r != -1 {
      assert OccursAt(s, q, r);
    }
  }

  /** Every string includes the empty string. */
  lemma IncludesEmpty(s: string)
    ensures Includes(s, "")
  {
    assert OccursAt(s, "", 0);
  }

  /** A string that includes `q + more` includes `q`. */
  lemma IncludesPrefix(s: string, q: string, more: string)
    requires Includes(s, q + more)
    ensures Includes(s, q)
  {
    var i := IndexOf(s, q + more);
    assert s[i..i + |q + more|] == q + more;
    assert s[i..i + |q|] == (q + more)[..|q|] == q;
    assert OccursAt(s, q, i);
  }
}
