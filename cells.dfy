/**
 * The cells of a census table, an order on them, and the two column
 * summaries built on that order: the sorted distinct values of a column and
 * its modes (`Series.mode()`).
 */
module Cells {

  /**
   * One cell of a table: a string, an integer, or a missing value (the
   * library's NaN, written `Missing` here rather than as a float).
   */
  datatype Cell = Str(s: string) | Num(n: int) | Missing

  predicate Distinct<T(==)>(s: seq<T>) {
    forall i, j :: 0 <= i < j < |s| ==> s[i] != s[j]
  }

  /** Python's `<` on strings: lexicographic by code point, a proper prefix first. */
  predicate StrLess(a: string, b: string) {
    if a == [] then b != []
    else if b == [] then false
    else if a[0] != b[0] then a[0] < b[0]
    else StrLess(a[1..], b[1..])
  }

  lemma {:induction false} StrLessIrreflexive(a: string)
    ensures !StrLess(a, a)
  {
    if a != [] {
      StrLessIrreflexive(a[1..]);
    }
  }

  lemma {:induction false} StrLessTransitive(a: string, b: string, c: string)
    requires StrLess(a, b) && StrLess(b, c)
    ensures StrLess(a, c)
  {
    if a != [] && b != [] && c != [] && a[0] == b[0] && b[0] == c[0] {
      StrLessTransitive(a[1..], b[1..], c[1..]);
    }
  }

  lemma {:induction false} StrLessTotal(a: string, b: string)
    requires a != b
    ensures StrLess(a, b) || StrLess(b, a)
  {
    if a != [] && b != [] && a[0] == b[0] {
      assert a == [a[0]] + a[1..] && b == [b[0]] + b[1..];
      StrLessTotal(a[1..], b[1..]);
    }
  }

  /**
   * The order between cells of different kinds: integers, then strings, then
   * missing. The encoder and the binarizer refuse mixed values, and the
   * mode is never taken of a column that mixes kinds, so no fitted or
   * imputed column here ever compares cells of two kinds.
   */
  function Rank(c: Cell): nat {
    match c
    case Num(_) => 0
    case Str(_) => 1
    case Missing => 2
  }

  /** The strict order on cells: integers numerically, strings by code point, as the libraries sort values of one kind. */
  predicate Less(a: Cell, b: Cell) {
    match (a, b)
    case (Num(x), Num(y)) => x < y
    case (Str(s), Str(t)) => StrLess(s, t)
    case _ => Rank(a) < Rank(b)
  }

  lemma LessIrreflexive(a: Cell)
    ensures !Less(a, a)
  {
    if a.Str? {
      StrLessIrreflexive(a.s);
    }
  }

  lemma LessTransitive(a: Cell, b: Cell, c: Cell)
    requires Less(a, b) && Less(b, c)
    ensures Less(a, c)
  {
    if a.Str? && b.Str? && c.Str? {
      StrLessTransitive(a.s, b.s, c.s);
    }
  }

  lemma LessTotal(a: Cell, b: Cell)
    requires a != b
    ensures Less(a, b) || Less(b, a)
  {
    if a.Str? && b.Str? {
      StrLessTotal(a.s, b.s);
    }
  }

  predicate StrictlySorted(s: seq<Cell>) {
    forall i, j :: 0 <= i < j < |s| ==> Less(s[i], s[j])
  }

  lemma SortedIsDistinct(s: seq<Cell>)
    requires StrictlySorted(s)
    ensures Distinct(s)
  {
    forall i, j | 0 <= i < j < |s|
      ensures s[i] != s[j]
    {
      LessIrreflexive(s[i]);
    }
  }

  /** The head of a strictly sorted sequence is below everything after it. */
  lemma SortedHeadLess(s: seq<Cell>)
    requires StrictlySorted(s) && s != []
    ensures forall y :: y in s[1..] ==> Less(s[0], y)
  {
    forall y | y in s[1..]
      ensures Less(s[0], y)
    {
      var j :| 0 <= j < |s[1..]| && s[1..][j] == y;
      assert s[j + 1] == y;
    }
  }

  /** Puts `x` before a strictly sorted `s` whose head it precedes. */
  lemma ConsSorted(x: Cell, s: seq<Cell>)
    requires StrictlySorted(s)
    requires forall y :: y in s ==> Less(x, y)
    ensures StrictlySorted([x] + s)
  {
    var r := [x] + s;
    forall i, j | 0 <= i < j < |r|
      ensures Less(r[i], r[j])
    {
      if i == 0 {
        assert r[j] == s[j - 1] && s[j - 1] in s;
      } else {
        assert r[i] == s[i - 1] && r[j] == s[j - 1];
      }
    }
  }

  /** Inserts `x` into a strictly sorted sequence, keeping it strictly sorted and free of duplicates. */
  function Insert(s: seq<Cell>, x: Cell): (r: seq<Cell>)
    requires StrictlySorted(s)
    ensures StrictlySorted(r)
    ensures forall y :: y in r <==> y in s || y == x
  {
    if s == [] then [x]
    else if x == s[0] then s
    else if Less(x, s[0]) then
      InsertBeforeHead(s, x);
      [x] + s
    else
      LessTotal(x, s[0]);
      SortedHeadLess(s);
      var rest := Insert(s[1..], x);
      ConsSorted(s[0], rest);
      assert forall y :: y in s <==> y == s[0] || y in s[1..] by {
        assert s == [s[0]] + s[1..];
      }
      [s[0]] + rest
  }

  lemma InsertBeforeHead(s: seq<Cell>, x: Cell)
    requires StrictlySorted(s) && s != [] && Less(x, s[0])
    ensures StrictlySorted([x] + s)
  {
    SortedHeadLess(s);
    forall y | y in s
      ensures Less(x, y)
    {
      if y != s[0] {
        assert y in s[1..] by {
          assert s == [s[0]] + s[1..];
        }
        LessTransitive(x, s[0], y);
      }
    }
    ConsSorted(x, s);
  }

  /**
   * The distinct values of `s` in ascending order: how the one-hot encoder
   * and the label binarizer record the categories they see when fitted.
   */
  function SortedDistinct(s: seq<Cell>): (r: seq<Cell>)
    ensures StrictlySorted(r)
    ensures forall y :: y in r <==> y in s
  {
    if s == [] then []
    else
      var init := s[..|s| - 1];
      assert s == init + [s[|s| - 1]];
      Insert(SortedDistinct(init), s[|s| - 1])
  }

  /** The non-missing cells of a column, in order. */
  function Present(col: seq<Cell>): (r: seq<Cell>)
    ensures forall v :: v in r <==> v in col && v != Missing
  {
    if col == [] then []
    else
      assert col == [col[0]] + col[1..];
      (if col[0] == Missing then [] else [col[0]]) + Present(col[1..])
  }

  /** The largest number of occurrences in `col` of any value of `vs`. */
  function MaxCount(col: seq<Cell>, vs: seq<Cell>): (m: nat)
    ensures forall v :: v in vs ==> multiset(col)[v] <= m
    ensures vs != [] ==> exists v :: v in vs && multiset(col)[v] == m
  {
    if vs == [] then 0
    else
      var rest := MaxCount(col, vs[1..]);
      assert forall v :: v in vs <==> v == vs[0] || v in vs[1..] by {
        assert vs == [vs[0]] + vs[1..];
      }
      if multiset(col)[vs[0]] >= rest then multiset(col)[vs[0]] else rest
  }

  /** The values of `vs` that occur exactly `m` times in `col`, in the order of `vs`. */
  function WithCount(col: seq<Cell>, vs: seq<Cell>, m: nat): (r: seq<Cell>)
    ensures forall v :: v in r <==> v in vs && multiset(col)[v] == m
  {
    if vs == [] then []
    else
      var rest := WithCount(col, vs[1..], m);
      assert forall v :: v in vs <==> v == vs[0] || v in vs[1..] by {
        assert vs == [vs[0]] + vs[1..];
      }
      if multiset(col)[vs[0]] == m then [vs[0]] + rest else rest
  }

  /** Keeping only some values of a strictly sorted sequence leaves it strictly sorted. */
  lemma {:induction false} WithCountSorted(col: seq<Cell>, vs: seq<Cell>, m: nat)
    requires StrictlySorted(vs)
    ensures StrictlySorted(WithCount(col, vs, m))
  {
    if vs != [] {
      WithCountSorted(col, vs[1..], m);
      if multiset(col)[vs[0]] == m {
        SortedHeadLess(vs);
        ConsSorted(vs[0], WithCount(col, vs[1..], m));
      }
    }
  }

  /** `v` is a most frequent non-missing value of `col`. */
  ghost predicate IsMode(col: seq<Cell>, v: Cell) {
    && v in col
    && v != Missing
    && forall w :: w in col && w != Missing ==> multiset(col)[w] <= multiset(col)[v]
  }

  /**
   * `col.mode()`: every most frequent non-missing value, in ascending order;
   * empty exactly when the column holds no non-missing value.
   */
  function Modes(col: seq<Cell>): (r: seq<Cell>)
    ensures StrictlySorted(r)
    ensures forall v :: v in r <==> IsMode(col, v)
    ensures r == [] <==> forall v :: v in col ==> v == Missing
  {
    var vs := SortedDistinct(Present(col));
    var m := MaxCount(col, vs);
    var r := WithCount(col, vs, m);
    WithCountSorted(col, vs, m);
    assert forall v :: v in r ==> IsMode(col, v);
    assert forall v :: IsMode(col, v) ==> v in r by {
      forall v | IsMode(col, v)
        ensures v in r
      {
        var w :| w in vs && multiset(col)[w] == m;
        assert multiset(col)[w] <= multiset(col)[v];
      }
    }
    assert (exists v :: v in col && v != Missing) ==> r != [] by {
      if v :| v in col && v != Missing {
        assert v in vs;
        var w :| w in vs && multiset(col)[w] == m;
        assert w in r;
      }
    }
    r
  }

  /**
   * The first mode (`col.mode()[0]`) is a most frequent value and, among
   * the values tied with it, the least.
   */
  lemma FirstModeIsLeast(col: seq<Cell>)
    requires Modes(col) != []
    ensures IsMode(col, Modes(col)[0])
    ensures forall w :: IsMode(col, w) && w != Modes(col)[0] ==> Less(Modes(col)[0], w)
  {
    var r := Modes(col);
    assert r[0] in r;
    forall w | IsMode(col, w) && w != r[0]
      ensures Less(r[0], w)
    {
      assert w in r;
      var j :| 0 <= j < |r| && r[j] == w;
    }
  }
}
