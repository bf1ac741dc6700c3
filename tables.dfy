/** The tabular results the transforms work on: an ordered sequence of rows,
    each a mapping from column name to a scalar, with the column names in
    order beside them. A failed or empty query gives the empty table. */
module Tables {

  /** A scalar cell: a number (held exactly), a string, or a missing value. */
  datatype Cell = Num(value: real) | Str(text: string) | Null

  type Row = map<string, Cell>

  datatype Table = Table(columns: seq<string>, rows: seq<Row>)

  /** `pd.DataFrame()`. */
  function EmptyTable(): Table {
    Table([], [])
  }

  /** pandas `df.empty`: the table has no rows or no columns. The empty table
      is empty, and a table that is not has both a row and a column. */
  predicate IsEmpty(t: Table): (empty: bool)
    ensures t == EmptyTable() ==> empty
    ensures !empty ==> t.rows != [] && t.columns != []
  {
    |t.rows| == 0 || |t.columns| == 0
  }

  /** Every row holds a number in column `c`. */
  predicate NumericIn(rows: seq<Row>, c: string) {
    forall r: Row :: r in rows ==> c in r && r[c].Num?
  }

  predicate NumericColumn(t: Table, c: string) {
    c in t.columns && NumericIn(t.rows, c)
  }

  function Key(r: Row, c: string): real
    requires c in r && r[c].Num?
  {
    r[c].value
  }

  /** `a` may stand before `b` when sorting on `c`. */
  predicate InOrder(a: Row, b: Row, c: string, descending: bool)
    requires c in a && a[c].Num? && c in b && b[c].Num?
  {
    if descending then Key(a, c) >= Key(b, c) else Key(a, c) <= Key(b, c)
  }

  predicate SortedBy(rows: seq<Row>, c: string, descending: bool)
    requires NumericIn(rows, c)
  {
    forall i, j :: 0 <= i < j < |rows| ==> InOrder(rows[i], rows[j], c, descending)
  }

  /** `h` may stand before every row of `rows`. */
  predicate Precedes(h: Row, rows: seq<Row>, c: string, descending: bool)
    requires c in h && h[c].Num? && NumericIn(rows, c)
  {
    forall y :: y in rows ==> InOrder(h, y, c, descending)
  }

  lemma ConsSorted(h: Row, rows: seq<Row>, c: string, descending: bool)
    requires c in h && h[c].Num? && NumericIn(rows, c)
    requires SortedBy(rows, c, descending) && Precedes(h, rows, c, descending)
    ensures NumericIn([h] + rows, c) && SortedBy([h] + rows, c, descending)
  {
    var r := [h] + rows;
    forall i, j | 0 <= i < j < |r| ensures InOrder(r[i], r[j], c, descending) {
      assert r[j] == rows[j - 1];
      if i > 0 {
        assert r[i] == rows[i - 1];
      }
    }
  }

  lemma SortedHeadPrecedes(s: seq<Row>, c: string, descending: bool)
    requires s != [] && NumericIn(s, c) && SortedBy(s, c, descending)
    ensures Precedes(s[0], s[1..], c, descending)
  {
    forall y | y in s[1..] ensures InOrder(s[0], y, c, descending) {
      var j :| 0 <= j < |s[1..]| && s[1..][j] == y;
      assert s[j + 1] == y;
    }
  }

  lemma PrecedesMultiset(h: Row, a: seq<Row>, b: seq<Row>, c: string, descending: bool)
    requires c in h && h[c].Num? && NumericIn(a, c) && NumericIn(b, c)
    requires multiset(a) == multiset(b) && Precedes(h, a, c, descending)
    ensures Precedes(h, b, c, descending)
  {
    forall y | y in b ensures InOrder(h, y, c, descending) {
      assert y in multiset(b);
    }
  }

  /** Place `x` into rows already sorted on `c`. */
  function Insert(x: Row, s: seq<Row>, c: string, descending: bool): (r: seq<Row>)
    requires c in x && x[c].Num? && NumericIn(s, c) && SortedBy(s, c, descending)
    ensures multiset(r) == multiset(s) + multiset{x}
    ensures NumericIn(r, c) && SortedBy(r, c, descending)
  {
    if s == [] then
      [x]
    else if InOrder(x, s[0], c, descending) then
      SortedHeadPrecedes(s, c, descending);
      assert s == [s[0]] + s[1..];
      ConsSorted(x, s, c, descending);
      [x] + s
    else
      assert s == [s[0]] + s[1..];
      var rest := Insert(x, s[1..], c, descending);
      SortedHeadPrecedes(s, c, descending);
      assert Precedes(s[0], s[1..] + [x], c, descending);
      PrecedesMultiset(s[0], s[1..] + [x], rest, c, descending);
      ConsSorted(s[0], rest, c, descending);
      [s[0]] + rest
  }

  /** pandas `sort_values(c, ascending = !descending)`: the rows, rearranged so
      that column `c` is ordered. */
  function SortValues(rows: seq<Row>, c: string, descending: bool): (r: seq<Row>)
    requires NumericIn(rows, c)
    ensures multiset(r) == multiset(rows) && |r| == |rows|
    ensures NumericIn(r, c) && SortedBy(r, c, descending)
  {
    if rows == [] then
      []
    else
      assert rows == [rows[0]] + rows[1..];
      Insert(rows[0], SortValues(rows[1..], c, descending), c, descending)
  }

  /** Every row holds a number of at least zero in column `c`. */
  predicate NonNegativeIn(rows: seq<Row>, c: string) {
    forall r: Row :: r in rows ==> c in r && r[c].Num? && r[c].value >= 0.0
  }

  /** pandas `df[c].sum()` on a numeric column: no rows sum to zero. */
  function SumOf(rows: seq<Row>, c: string): (total: real)
    requires NumericIn(rows, c)
    ensures rows == [] ==> total == 0.0
  {
    if rows == [] then 0.0 else Key(rows[0], c) + SumOf(rows[1..], c)
  }

  /** Values of at least zero have a total of at least zero. */
  lemma {:induction false} SumOfNonNegative(rows: seq<Row>, c: string)
    requires NonNegativeIn(rows, c)
    ensures NumericIn(rows, c) && SumOf(rows, c) >= 0.0
  {
    if rows != [] {
      assert rows[0] in rows;
      assert forall x :: x in rows[1..] ==> x in rows;
      SumOfNonNegative(rows[1..], c);
    }
  }

  /** Among values of at least zero, each value lies between zero and the total. */
  lemma {:induction false} SumOfAtLeastEach(rows: seq<Row>, c: string, i: nat)
    requires NonNegativeIn(rows, c) && i < |rows|
    ensures NumericIn(rows, c) && 0.0 <= Key(rows[i], c) <= SumOf(rows, c)
  {
    SumOfNonNegative(rows, c);
    assert rows[0] in rows && rows[i] in rows;
    assert forall x :: x in rows[1..] ==> x in rows;
    if i == 0 {
      SumOfNonNegative(rows[1..], c);
    } else {
      SumOfAtLeastEach(rows[1..], c, i - 1);
      assert rows[1..][i - 1] == rows[i];
    }
  }

  lemma {:induction false} SumOfAppend(a: seq<Row>, b: seq<Row>, c: string)
    requires NumericIn(a, c) && NumericIn(b, c)
    ensures NumericIn(a + b, c) && SumOf(a + b, c) == SumOf(a, c) + SumOf(b, c)
  {
    if a != [] {
      assert (a + b)[1..] == a[1..] + b;
      SumOfAppend(a[1..], b, c);
    } else {
      assert a + b == b;
    }
  }

  /** Sorting does not change a column's total. */
  lemma {:induction false} SumOfSortValues(rows: seq<Row>, c: string, k: string, descending: bool)
    requires NumericIn(rows, c) && NumericIn(rows, k)
    ensures NumericIn(SortValues(rows, k, descending), c)
    ensures SumOf(SortValues(rows, k, descending), c) == SumOf(rows, c)
  {
    if rows != [] {
      var x, tail := rows[0], rows[1..];
      var sorted := SortValues(tail, k, descending);
      assert SortValues(rows, k, descending) == Insert(x, sorted, k, descending);
      SumOfSortValues(tail, c, k, descending);
      SumOfInsert(x, sorted, c, k, descending);
    }
  }

  lemma SumOfCons(h: Row, rest: seq<Row>, c: string)
    requires c in h && h[c].Num? && NumericIn(rest, c)
    ensures NumericIn([h] + rest, c) && SumOf([h] + rest, c) == Key(h, c) + SumOf(rest, c)
  {
    assert ([h] + rest)[1..] == rest;
  }

  /** Inserting a row on column `k` adds its value to the total of column `c`. */
  lemma {:induction false} SumOfInsert(x: Row, s: seq<Row>, c: string, k: string, descending: bool)
    requires k in x && x[k].Num? && NumericIn(s, k) && SortedBy(s, k, descending)
    requires c in x && x[c].Num? && NumericIn(s, c)
    ensures NumericIn(Insert(x, s, k, descending), c)
    ensures SumOf(Insert(x, s, k, descending), c) == Key(x, c) + SumOf(s, c)
  {
    if s == [] {
      SumOfCons(x, s, c);
    } else if InOrder(x, s[0], k, descending) {
      SumOfCons(x, s, c);
    } else {
      var h, tail := s[0], s[1..];
      var rest := Insert(x, tail, k, descending);
      assert Insert(x, s, k, descending) == [h] + rest;
      SumOfInsert(x, tail, c, k, descending);
      SumOfCons(h, rest, c);
      SumOfCons(h, tail, c);
      assert s == [h] + tail;
    }
  }

  /** The rows satisfying `keep`, in their order: a boolean-mask selection `df[mask]`. */
  function Where(rows: seq<Row>, keep: Row -> bool): (r: seq<Row>)
    ensures forall x :: x in r <==> x in rows && keep(x)
    ensures |r| <= |rows|
  {
    if rows == [] then []
    else
      assert rows == [rows[0]] + rows[1..];
      (if keep(rows[0]) then [rows[0]] else []) + Where(rows[1..], keep)
  }

  lemma MultisetCons(rows: seq<Row>, x: Row, rest: seq<Row>, a: seq<Row>, a0: seq<Row>, b: seq<Row>, b0: seq<Row>)
    requires rows == [x] + rest && a == [x] + a0 && b == b0
    requires multiset(a0) + multiset(b0) == multiset(rest)
    ensures multiset(a) + multiset(b) == multiset(rows) && multiset(b) + multiset(a) == multiset(rows)
  {
  }

  /** Two complementary masks split the rows, and a numeric column's total,
      between them. */
  lemma {:induction false} WherePartition(rows: seq<Row>, keep: Row -> bool, drop: Row -> bool, c: string)
    requires forall x :: x in rows ==> (keep(x) <==> !drop(x))
    requires NumericIn(rows, c)
    ensures multiset(Where(rows, keep)) + multiset(Where(rows, drop)) == multiset(rows)
    ensures NumericIn(Where(rows, keep), c) && NumericIn(Where(rows, drop), c)
    ensures SumOf(Where(rows, keep), c) + SumOf(Where(rows, drop), c) == SumOf(rows, c)
  {
    if rows != [] {
      var x, rest := rows[0], rows[1..];
      assert rows == [x] + rest;
      WherePartition(rest, keep, drop, c);
      var k0, d0 := Where(rest, keep), Where(rest, drop);
      var k, d := Where(rows, keep), Where(rows, drop);
      SumOfCons(x, rest, c);
      if keep(x) {
        assert k == [x] + k0;
        assert d == [] + d0 == d0;
        SumOfCons(x, k0, c);
        MultisetCons(rows, x, rest, k, k0, d, d0);
      } else {
        assert k == [] + k0 == k0;
        assert d == [x] + d0;
        SumOfCons(x, d0, c);
        MultisetCons(rows, x, rest, d, d0, k, k0);
      }
    }
  }


  /** Each row with column `c` removed. */
  function Without(rows: seq<Row>, c: string): (r: seq<Row>)
    ensures |r| == |rows|
    ensures forall i :: 0 <= i < |rows| ==> r[i] == rows[i] - {c}
  {
    if rows == [] then [] else [rows[0] - {c}] + Without(rows[1..], c)
  }

  lemma {:induction false} WithoutInsert(x: Row, s: seq<Row>, k: string, descending: bool, c: string)
    requires k in x && x[k].Num? && NumericIn(s, k) && SortedBy(s, k, descending)
    ensures multiset(Without(Insert(x, s, k, descending), c)) == multiset(Without(s, c)) + multiset{x - {c}}
  {
    if s != [] && !InOrder(x, s[0], k, descending) {
      WithoutInsert(x, s[1..], k, descending, c);
      var rest := Insert(x, s[1..], k, descending);
      assert Insert(x, s, k, descending) == [s[0]] + rest;
      assert Without([s[0]] + rest, c) == [s[0] - {c}] + Without(rest, c);
      assert Without(s, c) == [s[0] - {c}] + Without(s[1..], c);
    } else if s != [] {
      assert Without([x] + s, c) == [x - {c}] + Without(s, c);
    }
  }

  lemma WithoutCons(rows: seq<Row>, c: string)
    requires rows != []
    ensures multiset(Without(rows, c)) == multiset{rows[0] - {c}} + multiset(Without(rows[1..], c))
  {
    assert Without(rows, c) == [rows[0] - {c}] + Without(rows[1..], c);
  }

  /** Sorting rearranges the rows with a column removed in the same way. */
  lemma {:induction false} WithoutSortValues(rows: seq<Row>, k: string, descending: bool, c: string)
    requires NumericIn(rows, k)
    ensures multiset(Without(SortValues(rows, k, descending), c)) == multiset(Without(rows, c))
  {
    if rows != [] {
      var x, tail := rows[0], rows[1..];
      var sorted := SortValues(tail, k, descending);
      assert SortValues(rows, k, descending) == Insert(x, sorted, k, descending);
      WithoutSortValues(tail, k, descending, c);
      WithoutInsert(x, sorted, k, descending, c);
      WithoutCons(rows, c);
    }
  }
}
