/** `StringComparer.Ordinal` and the sort that `List<T>.Sort` performs, for element types
    whose comparison is a total order. */
module Ordering {
  import Text

  /** The position of a character in UTF-16 code-unit order. A supplementary character
      starts with a high surrogate (U+D800..U+DBFF), so it ranks above U+D7FF and below
      U+E000; among themselves supplementary characters keep code-point order. */
  function CharKey(c: char): nat {
    var n := c as int;
    if n < 0xD800 then n
    else if n < 0x1_0000 then n + 0x10_0000
    else n - 0x1_0000 + 0xD800
  }

  lemma CharKeyInjective(a: char, b: char)
    ensures CharKey(a) == CharKey(b) ==> a == b
  {
  }

  /** `string.CompareOrdinal(a, b) <= 0`: lexicographic order on the per-character keys. */
  predicate OrdinalLessEq(a: string, b: string)
    decreases |a|
  {
    |a| == 0 ||
    (|b| > 0 && (CharKey(a[0]) < CharKey(b[0]) || (a[0] == b[0] && OrdinalLessEq(a[1..], b[1..]))))
  }

  /** `string.CompareOrdinal(a, b) < 0`. */
  predicate OrdinalLess(a: string, b: string) {
    OrdinalLessEq(a, b) && a != b
  }

  lemma {:induction false} OrdinalReflexive(a: string)
    ensures OrdinalLessEq(a, a)
    decreases |a|
  {
    if |a| > 0 {
      OrdinalReflexive(a[1..]);
    }
  }

  lemma {:induction false} OrdinalAntisymmetric(a: string, b: string)
    requires OrdinalLessEq(a, b) && OrdinalLessEq(b, a)
    ensures a == b
    decreases |a|
  {
    if |a| > 0 {
      CharKeyInjective(a[0], b[0]);
      OrdinalAntisymmetric(a[1..], b[1..]);
      assert a == [a[0]] + a[1..] && b == [b[0]] + b[1..];
    }
  }

  lemma {:induction false} OrdinalTransitive(a: string, b: string, c: string)
    requires OrdinalLessEq(a, b) && OrdinalLessEq(b, c)
    ensures OrdinalLessEq(a, c)
    decreases |a|
  {
    if |a| > 0 && a[0] == b[0] && b[0] == c[0] {
      OrdinalTransitive(a[1..], b[1..], c[1..]);
    }
  }

  lemma {:induction false} OrdinalTotal(a: string, b: string)
    ensures OrdinalLessEq(a, b) || OrdinalLessEq(b, a)
    decreases |a|
  {
    if |a| > 0 && |b| > 0 {
      CharKeyInjective(a[0], b[0]);
      if a[0] == b[0] {
        OrdinalTotal(a[1..], b[1..]);
      }
    }
  }

  /** A prefix comes first: "a" < "ab". */
  lemma {:induction false} OrdinalPrefix(a: string, b: string)
    ensures OrdinalLessEq(a, a + b)
    decreases |a|
  {
    if |a| > 0 {
      assert (a + b)[1..] == a[1..] + b;
      OrdinalPrefix(a[1..], b);
    }
  }

  // ----- the reference: UTF-16 code units -----

  /** The UTF-16 code units of one character: itself, or a surrogate pair. */
  function Utf16Char(c: char): (r: seq<int>)
    ensures |r| == 1 || |r| == 2
  {
    var n := c as int;
    if n < 0x1_0000 then [n] else [0xD800 + (n - 0x1_0000) / 0x400, 0xDC00 + (n - 0x1_0000) % 0x400]
  }

  function Utf16(s: string): seq<int> {
    if |s| == 0 then [] else Utf16Char(s[0]) + Utf16(s[1..])
  }

  /** Lexicographic order on code-unit sequences, as `string.CompareOrdinal` defines it. */
  predicate UnitsLessEq(x: seq<int>, y: seq<int>)
    decreases |x|
  {
    |x| == 0 || (|y| > 0 && (x[0] < y[0] || (x[0] == y[0] && UnitsLessEq(x[1..], y[1..]))))
  }

  lemma {:induction false} UnitsCommonPrefix(u: seq<int>, x: seq<int>, y: seq<int>)
    ensures UnitsLessEq(u + x, u + y) == UnitsLessEq(x, y)
    decreases |u|
  {
    if |u| > 0 {
      assert (u + x)[0] == u[0] == (u + y)[0];
      assert (u + x)[1..] == u[1..] + x;
      assert (u + y)[1..] == u[1..] + y;
      UnitsCommonPrefix(u[1..], x, y);
    } else {
      assert u + x == x && u + y == y;
    }
  }

  /** Two different characters are ordered by their first differing code unit, which is
      the order of their keys. */
  lemma CharUnitsDecide(c: char, d: char, x: seq<int>, y: seq<int>)
    requires c != d
    ensures UnitsLessEq(Utf16Char(c) + x, Utf16Char(d) + y) <==> CharKey(c) < CharKey(d)
  {
    var u, v := Utf16Char(c) + x, Utf16Char(d) + y;
    var m, n := c as int, d as int;
    assert u[0] == Utf16Char(c)[0] && v[0] == Utf16Char(d)[0];
    if m >= 0x1_0000 && n >= 0x1_0000 && u[0] == v[0] {
      assert u[1..][0] == Utf16Char(c)[1] && v[1..][0] == Utf16Char(d)[1];
      assert (m - 0x1_0000) % 0x400 != (n - 0x1_0000) % 0x400;
    }
  }

  /** The per-character key order is UTF-16 code-unit order. */
  lemma {:induction false} OrdinalIsCodeUnitOrder(a: string, b: string)
    ensures OrdinalLessEq(a, b) <==> UnitsLessEq(Utf16(a), Utf16(b))
    decreases |a|
  {
    if |a| > 0 && |b| > 0 {
      if a[0] == b[0] {
        OrdinalIsCodeUnitOrder(a[1..], b[1..]);
        UnitsCommonPrefix(Utf16Char(a[0]), Utf16(a[1..]), Utf16(b[1..]));
      } else {
        CharKeyInjective(a[0], b[0]);
        CharUnitsDecide(a[0], b[0], Utf16(a[1..]), Utf16(b[1..]));
      }
    }
  }

  // ----- sorting -----

  ghost predicate TotalOrder<T(!new)>(le: (T, T) -> bool) {
    (forall a, b :: le(a, b) || le(b, a)) &&
    (forall a, b :: le(a, b) && le(b, a) ==> a == b) &&
    (forall a, b, c :: le(a, b) && le(b, c) ==> le(a, c))
  }

  predicate SortedBy<T>(xs: seq<T>, le: (T, T) -> bool) {
    forall i, j :: 0 <= i < j < |xs| ==> le(xs[i], xs[j])
  }

  function InsertSorted<T>(x: T, xs: seq<T>, le: (T, T) -> bool): seq<T> {
    if |xs| == 0 then [x]
    else if le(x, xs[0]) then [x] + xs
    else [xs[0]] + InsertSorted(x, xs[1..], le)
  }

  /** The list after `Sort`: insertion sort, which for a total order gives the one sorted
      permutation (`SortedUnique`), whatever algorithm the library uses. */
  function SortBy<T>(xs: seq<T>, le: (T, T) -> bool): seq<T> {
    if |xs| == 0 then [] else InsertSorted(xs[0], SortBy(xs[1..], le), le)
  }

  lemma {:induction false} InsertSortedCorrect<T(!new)>(x: T, xs: seq<T>, le: (T, T) -> bool)
    requires TotalOrder(le) && SortedBy(xs, le)
    ensures SortedBy(InsertSorted(x, xs, le), le)
    ensures multiset(InsertSorted(x, xs, le)) == multiset(xs) + multiset{x}
    decreases |xs|
  {
    if |xs| == 0 {
    } else if le(x, xs[0]) {
      SortedTail(xs, le);
      forall k | 0 <= k < |xs| ensures le(x, xs[k]) {
        if k > 0 {
          assert xs[k] == xs[1..][k - 1];
        }
      }
      ConsSorted(x, xs, le);
    } else {
      var y, tail := xs[0], xs[1..];
      Text.FirstSplit(xs);
      SortedTail(xs, le);
      InsertSortedCorrect(x, tail, le);
      InsertSortedAbove(y, tail, x, le);
    }
  }

  lemma SortedTail<T>(xs: seq<T>, le: (T, T) -> bool)
    requires |xs| > 0 && SortedBy(xs, le)
    ensures SortedBy(xs[1..], le)
    ensures forall j :: 0 <= j < |xs[1..]| ==> le(xs[0], xs[1..][j])
  {
    forall i, j | 0 <= i < j < |xs[1..]| ensures le(xs[1..][i], xs[1..][j]) {
      assert xs[1..][i] == xs[i + 1] && xs[1..][j] == xs[j + 1];
    }
    forall j | 0 <= j < |xs[1..]| ensures le(xs[0], xs[1..][j]) {
      assert xs[1..][j] == xs[j + 1];
    }
  }

  /** A sorted list stays sorted under a head that is below all of it. */
  lemma ConsSorted<T>(y: T, rest: seq<T>, le: (T, T) -> bool)
    requires SortedBy(rest, le)
    requires forall k :: 0 <= k < |rest| ==> le(y, rest[k])
    ensures SortedBy([y] + rest, le)
  {
    var r := [y] + rest;
    forall i, j | 0 <= i < j < |r| ensures le(r[i], r[j]) {
      assert r[j] == rest[j - 1];
      if i > 0 {
        assert r[i] == rest[i - 1];
      }
    }
  }

  /** The step of `InsertSortedCorrect` when `x` goes after the head `y`. */
  lemma InsertSortedAbove<T(!new)>(y: T, tail: seq<T>, x: T, le: (T, T) -> bool)
    requires TotalOrder(le) && !le(x, y)
    requires forall j :: 0 <= j < |tail| ==> le(y, tail[j])
    requires SortedBy(InsertSorted(x, tail, le), le)
    requires multiset(InsertSorted(x, tail, le)) == multiset(tail) + multiset{x}
    ensures SortedBy([y] + InsertSorted(x, tail, le), le)
    ensures multiset([y] + InsertSorted(x, tail, le)) == multiset([y] + tail) + multiset{x}
  {
    var rest := InsertSorted(x, tail, le);
    forall k | 0 <= k < |rest| ensures le(y, rest[k]) {
      assert rest[k] in multiset(rest);
      if rest[k] != x {
        assert rest[k] in multiset(tail);
        var j :| 0 <= j < |tail| && tail[j] == rest[k];
      }
    }
    ConsSorted(y, rest, le);
    assert multiset([y] + rest) == multiset{y} + multiset(rest);
    assert multiset([y] + tail) == multiset{y} + multiset(tail);
  }

  lemma {:induction false} SortByCorrect<T(!new)>(xs: seq<T>, le: (T, T) -> bool)
    requires TotalOrder(le)
    ensures SortedBy(SortBy(xs, le), le)
    ensures multiset(SortBy(xs, le)) == multiset(xs)
    ensures |SortBy(xs, le)| == |xs|
    decreases |xs|
  {
    if |xs| > 0 {
      SortByCorrect(xs[1..], le);
      InsertSortedCorrect(xs[0], SortBy(xs[1..], le), le);
      assert xs == [xs[0]] + xs[1..];
      assert |multiset(SortBy(xs, le))| == |multiset(xs)|;
    }
  }

  /** Two sorted sequences with the same elements are equal. */
  lemma {:induction false} SortedUnique<T(!new)>(xs: seq<T>, ys: seq<T>, le: (T, T) -> bool)
    requires TotalOrder(le)
    requires SortedBy(xs, le) && SortedBy(ys, le) && multiset(xs) == multiset(ys)
    ensures xs == ys
    decreases |xs|
  {
    if |xs| == 0 {
      assert |multiset(ys)| == 0;
    } else {
      assert |ys| > 0 by {
        assert xs[0] in multiset(ys);
      }
      assert xs[0] == ys[0] by {
        assert xs[0] in multiset(ys);
        var j :| 0 <= j < |ys| && ys[j] == xs[0];
        assert ys[0] in multiset(xs);
        var i :| 0 <= i < |xs| && xs[i] == ys[0];
        assert le(ys[0], ys[j]) || j == 0;
        assert le(xs[0], xs[i]) || i == 0;
      }
      assert multiset(xs) == multiset([xs[0]]) + multiset(xs[1..]) by {
        assert xs == [xs[0]] + xs[1..];
      }
      assert multiset(ys) == multiset([ys[0]]) + multiset(ys[1..]) by {
        assert ys == [ys[0]] + ys[1..];
      }
      assert multiset(xs[1..]) == multiset(xs) - multiset([xs[0]]);
      assert multiset(ys[1..]) == multiset(ys) - multiset([ys[0]]);
      SortedUnique(xs[1..], ys[1..], le);
    }
  }

  /** Sorting a sorted list changes nothing. */
  lemma SortSorted<T(!new)>(xs: seq<T>, le: (T, T) -> bool)
    requires TotalOrder(le) && SortedBy(xs, le)
    ensures SortBy(xs, le) == xs
  {
    SortByCorrect(xs, le);
    SortedUnique(SortBy(xs, le), xs, le);
  }

  lemma SortIdempotent<T(!new)>(xs: seq<T>, le: (T, T) -> bool)
    requires TotalOrder(le)
    ensures SortBy(SortBy(xs, le), le) == SortBy(xs, le)
  {
    SortByCorrect(xs, le);
    SortSorted(SortBy(xs, le), le);
  }

  lemma OrdinalTotalOrder()
    ensures TotalOrder(OrdinalLessEq)
  {
    forall a, b ensures OrdinalLessEq(a, b) || OrdinalLessEq(b, a) {
      OrdinalTotal(a, b);
    }
    forall a, b | OrdinalLessEq(a, b) && OrdinalLessEq(b, a) ensures a == b {
      OrdinalAntisymmetric(a, b);
    }
    forall a, b, c | OrdinalLessEq(a, b) && OrdinalLessEq(b, c) ensures OrdinalLessEq(a, c) {
      OrdinalTransitive(a, b, c);
    }
  }

  /** `List<double>.Sort()` on numbers: the default comparer, ascending. */
  function RealLessEq(x: real, y: real): bool {
    x <= y
  }

  lemma RealTotalOrder()
    ensures TotalOrder(RealLessEq)
  {
  }
}
