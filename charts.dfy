/** The table logic of the chart transforms: what each chart function does to
    its query result before plotting, and the table it hands back to the report.
    Every transform turns an empty result into the empty table. */
module Charts {
  import opened Wrappers
  import opened Text
  import opened Tables

  const PAYMENT_TYPE: string := "payment_type"
  const PAYMENTS_COUNT: string := "payments_count"
  const ORDERS_COUNT: string := "orders_count"
  const PCT: string := "pct"
  const OTHER: string := "Other"
  /** Categories below this share of the total, in percent, are pooled. */
  const SHARE_THRESHOLD: real := 10.0

  const REVENUE: string := "revenue"
  const PRODUCT_CATEGORY: string := "product_category_name"
  const AVG_DELIVERY_DAYS: string := "avg_delivery_days"
  const CUSTOMER_STATE: string := "customer_state"
  const MONTH: string := "month"
  const MA3: string := "ma3"
  const PRICE: string := "price"
  const PRICE_SEGMENT: string := "price_segment"
  const ITEMS_COUNT: string := "items_count"
  const FREIGHT_VALUE: string := "freight_value"
  const SAMPLE_LIMIT: nat := 4000

  // ---------------------------------------------------------------- pie

  function RenameKey(x: Row, from: string, to: string): Row {
    if from in x then (x - {from})[to := x[from]] else x
  }

  /** The pie query may name its count column `orders_count`; it is renamed to
      `payments_count` unless that column already exists. */
  function NormalizeCounts(t: Table): (r: Table)
    ensures PAYMENTS_COUNT in t.columns || ORDERS_COUNT !in t.columns ==> r == t
    ensures ORDERS_COUNT in t.columns && PAYMENTS_COUNT !in t.columns ==>
      && |r.columns| == |t.columns|
      && ORDERS_COUNT !in r.columns && PAYMENTS_COUNT in r.columns
      && (forall i :: 0 <= i < |t.columns| && t.columns[i] != ORDERS_COUNT ==> r.columns[i] == t.columns[i])
      && |r.rows| == |t.rows|
      && (forall i :: 0 <= i < |t.rows| && ORDERS_COUNT in t.rows[i] ==>
            && ORDERS_COUNT !in r.rows[i] && PAYMENTS_COUNT in r.rows[i]
            && r.rows[i][PAYMENTS_COUNT] == t.rows[i][ORDERS_COUNT])
      && (forall i :: 0 <= i < |t.rows| ==>
            r.rows[i] - {ORDERS_COUNT, PAYMENTS_COUNT} == t.rows[i] - {ORDERS_COUNT, PAYMENTS_COUNT})
  {
    if ORDERS_COUNT in t.columns && PAYMENTS_COUNT !in t.columns then
      var columns := seq(|t.columns|, i requires 0 <= i < |t.columns| =>
                           if t.columns[i] == ORDERS_COUNT then PAYMENTS_COUNT else t.columns[i]);
      assert PAYMENTS_COUNT in columns by {
        var k :| 0 <= k < |t.columns| && t.columns[k] == ORDERS_COUNT;
        assert columns[k] == PAYMENTS_COUNT;
      }
      var rows := seq(|t.rows|, i requires 0 <= i < |t.rows| => RenameKey(t.rows[i], ORDERS_COUNT, PAYMENTS_COUNT));
      forall i | 0 <= i < |t.rows|
        ensures rows[i] - {ORDERS_COUNT, PAYMENTS_COUNT} == t.rows[i] - {ORDERS_COUNT, PAYMENTS_COUNT}
      {
        var a, b := rows[i] - {ORDERS_COUNT, PAYMENTS_COUNT}, t.rows[i] - {ORDERS_COUNT, PAYMENTS_COUNT};
        assert a.Keys == b.Keys;
      }
      Table(columns, rows)
    else
      t
  }

  /** A category's share of the total, in percent. */
  function Share(count: real, total: real): real
    requires total > 0.0
  {
    count / total * 100.0
  }

  /** Comparing the share with the threshold is comparing ten times the count
      with the total. */
  lemma ShareBelowThreshold(count: real, total: real)
    requires total > 0.0
    ensures Share(count, total) < SHARE_THRESHOLD <==> 10.0 * count < total
  {
    var q := count / total;
    assert count == q * total;
    assert Share(count, total) == q * 100.0;
    if q * 100.0 < 10.0 {
      assert q < 0.1;
      assert q * total < 0.1 * total;
    } else {
      assert q >= 0.1;
      assert q * total >= 0.1 * total;
    }
  }

  /** A count between zero and the total has a share between 0 and 100 percent. */
  lemma ShareBounded(count: real, total: real)
    requires 0.0 <= count <= total && total > 0.0
    ensures 0.0 <= Share(count, total) <= 100.0
  {
    var q := count / total;
    assert q * total == count;
  }

  /** The rows with their `pct` column set from their count. */
  function ShareRows(rows: seq<Row>, total: real): (r: seq<Row>)
    requires NumericIn(rows, PAYMENTS_COUNT) && total > 0.0
    ensures |r| == |rows|
    ensures forall i :: 0 <= i < |rows| ==>
      r[i] == rows[i][PCT := Num(Share(Key(rows[i], PAYMENTS_COUNT), total))]
    ensures NumericIn(r, PAYMENTS_COUNT) && NumericIn(r, PCT)
  {
    var r := seq(|rows|, i requires 0 <= i < |rows| =>
      assert rows[i] in rows; rows[i][PCT := Num(Share(Key(rows[i], PAYMENTS_COUNT), total))]);
    assert NumericIn(r, PAYMENTS_COUNT) && NumericIn(r, PCT) by {
      forall y: Row | y in r ensures PAYMENTS_COUNT in y && y[PAYMENTS_COUNT].Num? && PCT in y && y[PCT].Num? {
        var i :| 0 <= i < |r| && r[i] == y;
        assert rows[i] in rows;
      }
    }
    r
  }

  /** A category below a tenth of the total exists: the pie then gains the
      "Other" slice, and with it a `payment_type` column. */
  predicate SomeLight(rows: seq<Row>, total: real)
    requires NumericIn(rows, PAYMENTS_COUNT)
  {
    exists i :: 0 <= i < |rows| && 10.0 * Key(rows[i], PAYMENTS_COUNT) < total
  }

  /** The input the pie transform needs once renamed: every row holds a count
      of at least zero (the column is a SQL `COUNT`), the counts have a
      positive total, and the plotted slices have a
      `payment_type` column to label them (the query's own, or the one the
      "Other" slice brings in). */
  predicate PieReady(t: Table) {
    !IsEmpty(t) ==>
      var n := NormalizeCounts(t);
      && NumericColumn(n, PAYMENTS_COUNT) && NonNegativeIn(n.rows, PAYMENTS_COUNT)
      && SumOf(n.rows, PAYMENTS_COUNT) > 0.0
      && (PAYMENT_TYPE in n.columns || SomeLight(n.rows, SumOf(n.rows, PAYMENTS_COUNT)))
  }

  /** chart_pie's returned table: the renamed table with each row's share of
      the count total in a `pct` column (not the bucketed table it plots). */
  function ChartPie(t: Table): (r: Table)
    requires PieReady(t)
    ensures IsEmpty(t) ==> r == EmptyTable()
    ensures !IsEmpty(t) ==>
      var n := NormalizeCounts(t);
      var total := SumOf(n.rows, PAYMENTS_COUNT);
      && r.columns == (if PCT in n.columns then n.columns else n.columns + [PCT])
      && |r.rows| == |n.rows|
      && (forall i :: 0 <= i < |n.rows| ==>
            r.rows[i] == n.rows[i][PCT := Num(Share(Key(n.rows[i], PAYMENTS_COUNT), total))])
      && NumericIn(r.rows, PAYMENTS_COUNT) && NumericIn(r.rows, PCT)
  {
    if IsEmpty(t) then EmptyTable()
    else
      var n := NormalizeCounts(t);
      var total := SumOf(n.rows, PAYMENTS_COUNT);
      Table(if PCT in n.columns then n.columns else n.columns + [PCT], ShareRows(n.rows, total))
  }

  lemma ShareAdd(a: real, b: real, total: real)
    requires total > 0.0
    ensures Share(a, total) + Share(b, total) == Share(a + b, total)
  {
  }

  lemma {:induction false} ShareRowsPct(rows: seq<Row>, total: real)
    requires NumericIn(rows, PAYMENTS_COUNT) && total > 0.0
    ensures SumOf(ShareRows(rows, total), PCT) == Share(SumOf(rows, PAYMENTS_COUNT), total)
  {
    if rows != [] {
      assert rows[0] in rows;
      var r := ShareRows(rows, total);
      var rest := ShareRows(rows[1..], total);
      assert r[1..] == rest;
      ShareRowsPct(rows[1..], total);
      assert Key(r[0], PCT) == Share(Key(rows[0], PAYMENTS_COUNT), total);
      ShareAdd(Key(rows[0], PAYMENTS_COUNT), SumOf(rows[1..], PAYMENTS_COUNT), total);
    }
  }

  lemma {:induction false} ShareRowsCounts(rows: seq<Row>, total: real)
    requires NumericIn(rows, PAYMENTS_COUNT) && total > 0.0
    ensures SumOf(ShareRows(rows, total), PAYMENTS_COUNT) == SumOf(rows, PAYMENTS_COUNT)
  {
    if rows != [] {
      assert rows[0] in rows;
      var r := ShareRows(rows, total);
      assert r[1..] == ShareRows(rows[1..], total);
      ShareRowsCounts(rows[1..], total);
      assert Key(r[0], PAYMENTS_COUNT) == Key(rows[0], PAYMENTS_COUNT);
    }
  }

  /** The shares add up to one hundred percent, and the counts are untouched. */
  lemma PieSharesSum(t: Table)
    requires !IsEmpty(t) && PieReady(t)
    ensures SumOf(ChartPie(t).rows, PCT) == 100.0
    ensures SumOf(ChartPie(t).rows, PAYMENTS_COUNT) == SumOf(NormalizeCounts(t).rows, PAYMENTS_COUNT)
  {
    var n := NormalizeCounts(t);
    var total := SumOf(n.rows, PAYMENTS_COUNT);
    ShareRowsPct(n.rows, total);
    ShareRowsCounts(n.rows, total);
    ShareOfTotal(total);
  }

  lemma ShareOfTotal(total: real)
    requires total > 0.0
    ensures Share(total, total) == 100.0
  {
    assert total / total == 1.0;
  }

  /** No row's share is negative or above one hundred percent. */
  lemma PieSharesBounded(t: Table)
    requires !IsEmpty(t) && PieReady(t)
    ensures var r := ChartPie(t);
      forall i :: 0 <= i < |r.rows| ==>
        PCT in r.rows[i] && r.rows[i][PCT].Num? && 0.0 <= r.rows[i][PCT].value <= 100.0
  {
    var n := NormalizeCounts(t);
    var total := SumOf(n.rows, PAYMENTS_COUNT);
    var r := ChartPie(t);
    forall i | 0 <= i < |r.rows|
      ensures PCT in r.rows[i] && r.rows[i][PCT].Num? && 0.0 <= r.rows[i][PCT].value <= 100.0
    {
      SumOfAtLeastEach(n.rows, PAYMENTS_COUNT, i);
      ShareBounded(Key(n.rows[i], PAYMENTS_COUNT), total);
    }
  }

  function Minor(x: Row): bool {
    PCT in x && x[PCT].Num? && x[PCT].value < SHARE_THRESHOLD
  }

  function Major(x: Row): bool {
    PCT in x && x[PCT].Num? && x[PCT].value >= SHARE_THRESHOLD
  }

  /** The synthetic slice pooling the small categories; concatenation leaves
      its other columns missing. */
  function OtherRow(columns: seq<string>, count: real): (x: Row)
    ensures PAYMENT_TYPE in x && PAYMENTS_COUNT in x
    ensures x[PAYMENT_TYPE] == Str(OTHER) && x[PAYMENTS_COUNT] == Num(count)
    ensures forall c :: c in x && c != PAYMENT_TYPE && c != PAYMENTS_COUNT ==> x[c] == Null
  {
    (map c | c in columns :: Null)[PAYMENT_TYPE := Str(OTHER)][PAYMENTS_COUNT := Num(count)]
  }

  /** The table chart_pie plots: the categories of at least ten percent, plus
      an "Other" slice for the rest when there is any, by count descending. */
  function PieSlices(t: Table): (r: Table)
    requires !IsEmpty(t) && PieReady(t)
    ensures NumericIn(r.rows, PAYMENTS_COUNT) && SortedBy(r.rows, PAYMENTS_COUNT, true)
  {
    var s := ChartPie(t);
    var small := Where(s.rows, Minor);
    var big := Where(s.rows, Major);
    if small == [] then
      Table(s.columns, SortValues(big, PAYMENTS_COUNT, true))
    else
      var rows := big + [OtherRow(s.columns, SumOf(small, PAYMENTS_COUNT))];
      Table(if PAYMENT_TYPE in s.columns then s.columns else s.columns + [PAYMENT_TYPE],
            SortValues(rows, PAYMENTS_COUNT, true))
  }

  /** A row at or above the threshold, said of its count. */
  function Heavy(x: Row, total: real): bool {
    PAYMENTS_COUNT in x && x[PAYMENTS_COUNT].Num? && 10.0 * x[PAYMENTS_COUNT].value >= total
  }

  function Light(x: Row, total: real): bool {
    PAYMENTS_COUNT in x && x[PAYMENTS_COUNT].Num? && 10.0 * x[PAYMENTS_COUNT].value < total
  }

  lemma WhereSame(rows: seq<Row>, p: Row -> bool, q: Row -> bool)
    requires forall x :: x in rows ==> p(x) == q(x)
    ensures Where(rows, p) == Where(rows, q)
  {
  }

  lemma MasksByCountRows(rows: seq<Row>, total: real)
    requires NumericIn(rows, PAYMENTS_COUNT) && total > 0.0
    ensures Where(ShareRows(rows, total), Minor) == Where(ShareRows(rows, total), x => Light(x, total))
    ensures Where(ShareRows(rows, total), Major) == Where(ShareRows(rows, total), x => Heavy(x, total))
  {
    var s := ShareRows(rows, total);
    forall x | x in s ensures Minor(x) == Light(x, total) && Major(x) == Heavy(x, total) {
      var i :| 0 <= i < |s| && s[i] == x;
      assert rows[i] in rows;
      ShareBelowThreshold(Key(rows[i], PAYMENTS_COUNT), total);
    }
    WhereSame(s, Minor, x => Light(x, total));
    WhereSame(s, Major, x => Heavy(x, total));
  }

  /** On the share table, the percentage masks are the count masks. */
  lemma MasksByCount(t: Table)
    requires !IsEmpty(t) && PieReady(t)
    ensures var total := SumOf(NormalizeCounts(t).rows, PAYMENTS_COUNT);
      && Where(ChartPie(t).rows, Minor) == Where(ChartPie(t).rows, x => Light(x, total))
      && Where(ChartPie(t).rows, Major) == Where(ChartPie(t).rows, x => Heavy(x, total))
  {
    var n := NormalizeCounts(t);
    MasksByCountRows(n.rows, SumOf(n.rows, PAYMENTS_COUNT));
  }

  lemma LightExistsRows(rows: seq<Row>, total: real)
    requires NumericIn(rows, PAYMENTS_COUNT) && total > 0.0
    ensures Where(ShareRows(rows, total), Minor) != [] <==> SomeLight(rows, total)
  {
    var s := ShareRows(rows, total);
    var small := Where(s, Minor);
    if small != [] {
      assert small[0] in s;
      var i :| 0 <= i < |s| && s[i] == small[0];
      assert rows[i] in rows;
      ShareBelowThreshold(Key(rows[i], PAYMENTS_COUNT), total);
    }
    if exists i :: 0 <= i < |rows| && 10.0 * Key(rows[i], PAYMENTS_COUNT) < total {
      var i :| 0 <= i < |rows| && 10.0 * Key(rows[i], PAYMENTS_COUNT) < total;
      assert rows[i] in rows;
      ShareBelowThreshold(Key(rows[i], PAYMENTS_COUNT), total);
      assert s[i] in s && Minor(s[i]);
    }
  }

  /** Some category is pooled exactly when some count is below a tenth of the total. */
  lemma LightExists(t: Table)
    requires !IsEmpty(t) && PieReady(t)
    ensures var total := SumOf(NormalizeCounts(t).rows, PAYMENTS_COUNT);
      Where(ChartPie(t).rows, Minor) != [] <==> SomeLight(NormalizeCounts(t).rows, total)
  {
    var n := NormalizeCounts(t);
    LightExistsRows(n.rows, SumOf(n.rows, PAYMENTS_COUNT));
  }

  /** The plotted slices are exactly the categories whose count is at least a
      tenth of the total, plus the "Other" slice holding the sum of the smaller
      counts, present exactly when some category is below a tenth. */
  lemma PieBuckets(t: Table)
    requires !IsEmpty(t) && PieReady(t)
    ensures
      var n := NormalizeCounts(t);
      var total := SumOf(n.rows, PAYMENTS_COUNT);
      var s := ChartPie(t);
      var small := Where(s.rows, x => Light(x, total));
      var other := OtherRow(s.columns, SumOf(small, PAYMENTS_COUNT));
      var anyLight := SomeLight(n.rows, total);
      multiset(PieSlices(t).rows) ==
        multiset(Where(s.rows, x => Heavy(x, total))) + (if anyLight then multiset{other} else multiset{})
  {
    MasksByCount(t);
    LightExists(t);
    var s := ChartPie(t);
    var small := Where(s.rows, Minor);
    if small != [] {
      assert NumericIn(small, PAYMENTS_COUNT) by {
        assert forall x :: x in small ==> x in s.rows;
      }
    }
  }

  /** The slice counts add up to the total of all counts. */
  lemma PieSlicesTotal(t: Table)
    requires !IsEmpty(t) && PieReady(t)
    ensures SumOf(PieSlices(t).rows, PAYMENTS_COUNT) == SumOf(NormalizeCounts(t).rows, PAYMENTS_COUNT)
  {
    var s := ChartPie(t);
    var small := Where(s.rows, Minor);
    var big := Where(s.rows, Major);
    assert forall x :: x in s.rows ==> (Minor(x) <==> !Major(x));
    WherePartition(s.rows, Minor, Major, PAYMENTS_COUNT);
    PieSharesSum(t);
    if small == [] {
      SumOfSortValues(big, PAYMENTS_COUNT, PAYMENTS_COUNT, true);
    } else {
      var other := OtherRow(s.columns, SumOf(small, PAYMENTS_COUNT));
      var rows := big + [other];
      SumOfAppend(big, [other], PAYMENTS_COUNT);
      SumOfSortValues(rows, PAYMENTS_COUNT, PAYMENTS_COUNT, true);
    }
  }

  /** The "Other" slice is never one of the categories, and is never itself
      above or below the threshold: its share is missing. */
  lemma OtherIsSynthetic(t: Table, count: real)
    requires !IsEmpty(t) && PieReady(t)
    ensures OtherRow(ChartPie(t).columns, count) !in ChartPie(t).rows
    ensures !Minor(OtherRow(ChartPie(t).columns, count)) && !Major(OtherRow(ChartPie(t).columns, count))
  {
    var s := ChartPie(t);
    var o := OtherRow(s.columns, count);
    assert PCT in s.columns;
    assert o[PCT] == Null;
  }

  // ---------------------------------------------------------------- bar / hbar

  /** chart_bar: categories by revenue, largest first. The category column
      must exist, since the labels are read from it. */
  function ChartBar(t: Table): (r: Table)
    requires !IsEmpty(t) ==> NumericColumn(t, REVENUE) && PRODUCT_CATEGORY in t.columns
    ensures IsEmpty(t) ==> r == EmptyTable()
    ensures !IsEmpty(t) ==>
      && r.columns == t.columns
      && multiset(r.rows) == multiset(t.rows)
      && NumericIn(r.rows, REVENUE) && SortedBy(r.rows, REVENUE, true)
  {
    if IsEmpty(t) then EmptyTable() else Table(t.columns, SortValues(t.rows, REVENUE, true))
  }

  /** chart_hbar: states by average delivery time, quickest first. The state
      column must exist, since the bars are labelled from it. */
  function ChartHBar(t: Table): (r: Table)
    requires !IsEmpty(t) ==> NumericColumn(t, AVG_DELIVERY_DAYS) && CUSTOMER_STATE in t.columns
    ensures IsEmpty(t) ==> r == EmptyTable()
    ensures !IsEmpty(t) ==>
      && r.columns == t.columns
      && multiset(r.rows) == multiset(t.rows)
      && NumericIn(r.rows, AVG_DELIVERY_DAYS) && SortedBy(r.rows, AVG_DELIVERY_DAYS, false)
  {
    if IsEmpty(t) then EmptyTable() else Table(t.columns, SortValues(t.rows, AVG_DELIVERY_DAYS, false))
  }

  function Underscores(s: string): (r: string)
    ensures |r| == |s|
    ensures forall i :: 0 <= i < |s| ==> r[i] == if s[i] == '_' then ' ' else s[i]
  {
    seq(|s|, i requires 0 <= i < |s| => if s[i] == '_' then ' ' else s[i])
  }

  /** A category name as the bar chart shows it: underscores become spaces,
      then every word is capitalised and the rest of it lower-cased. The length
      is kept. */
  function PrettyLabel(s: string): (r: string)
    ensures |r| == |s|
    ensures forall i :: 0 <= i < |s| && s[i] == '_' ==> r[i] == ' '
    ensures forall i :: 0 <= i < |s| && !IsLetter(s[i]) && s[i] != '_' ==> r[i] == s[i]
    ensures forall i :: 0 <= i < |s| && IsLetter(s[i]) && (i == 0 || !IsLetter(s[i - 1])) ==> r[i] == Upper(s[i])
    ensures forall i :: 0 < i < |s| && IsLetter(s[i]) && IsLetter(s[i - 1]) ==> r[i] == Lower(s[i])
  {
    Title(Underscores(s))
  }

  lemma PrettyLabelExample()
    ensures PrettyLabel("bed_bath_table") == "Bed Bath Table"
  {
    var s := "bed_bath_table";
    var r := PrettyLabel(s);
    assert r[0] == 'B' && r[1] == 'e' && r[2] == 'd' && r[3] == ' ';
    assert r[4] == 'B' && r[5] == 'a' && r[6] == 't' && r[7] == 'h' && r[8] == ' ';
    assert r[9] == 'T' && r[10] == 'a' && r[11] == 'b' && r[12] == 'l' && r[13] == 'e';
  }

  /** The x-axis labels of the bar chart, read from the category column, one
      per row: a missing or non-text category gives a missing label. */
  function BarLabels(t: Table): (r: seq<Cell>)
    requires PRODUCT_CATEGORY in t.columns
    ensures |r| == |t.rows|
    ensures forall i :: 0 <= i < |t.rows| ==>
      r[i] == if PRODUCT_CATEGORY in t.rows[i] && t.rows[i][PRODUCT_CATEGORY].Str?
              then Str(PrettyLabel(t.rows[i][PRODUCT_CATEGORY].text)) else Null
  {
    seq(|t.rows|, i requires 0 <= i < |t.rows| =>
      var x := t.rows[i];
      if PRODUCT_CATEGORY in x && x[PRODUCT_CATEGORY].Str? then Str(PrettyLabel(x[PRODUCT_CATEGORY].text)) else Null)
  }

  // ---------------------------------------------------------------- line

  function Total(xs: seq<real>): real {
    if xs == [] then 0.0 else xs[0] + Total(xs[1..])
  }

  function Mean(xs: seq<real>): real
    requires xs != []
  {
    Total(xs) / |xs| as real
  }

  /** The window of `rolling(3, min_periods=1)` ending at `i`: the value and
      up to two before it. */
  function TrailingWindow(xs: seq<real>, i: nat): (w: seq<real>)
    requires i < |xs|
    ensures w != [] && |w| <= 3 && w[|w| - 1] == xs[i]
  {
    xs[if i >= 2 then i - 2 else 0..i + 1]
  }

  lemma WindowMean(xs: seq<real>, i: nat)
    requires i < |xs|
    ensures Mean(TrailingWindow(xs, i)) ==
      if i == 0 then xs[0]
      else if i == 1 then (xs[0] + xs[1]) / 2.0
      else (xs[i - 2] + xs[i - 1] + xs[i]) / 3.0
  {
    var w := TrailingWindow(xs, i);
    if i == 0 {
      assert w == [xs[0]];
    } else if i == 1 {
      assert w == [xs[0], xs[1]];
      assert Total(w) == xs[0] + Total([xs[1]]);
    } else {
      assert w == [xs[i - 2], xs[i - 1], xs[i]];
      assert Total(w) == xs[i - 2] + Total([xs[i - 1], xs[i]]);
      assert Total([xs[i - 1], xs[i]]) == xs[i - 1] + Total([xs[i]]);
    }
  }

  /** `xs.rolling(3, min_periods=1).mean()`, computed from the last three values. */
  function Rolling3(xs: seq<real>): (r: seq<real>)
    ensures |r| == |xs|
    ensures forall i :: 0 <= i < |xs| ==> r[i] == Mean(TrailingWindow(xs, i))
  {
    var r := seq(|xs|, i requires 0 <= i < |xs| =>
      if i == 0 then xs[0]
      else if i == 1 then (xs[0] + xs[1]) / 2.0
      else (xs[i - 2] + xs[i - 1] + xs[i]) / 3.0);
    assert forall i :: 0 <= i < |xs| ==> r[i] == Mean(TrailingWindow(xs, i)) by {
      forall i | 0 <= i < |xs| ensures r[i] == Mean(TrailingWindow(xs, i)) {
        WindowMean(xs, i);
      }
    }
    r
  }

  lemma Rolling3Example()
    ensures Rolling3([10.0, 20.0, 30.0, 40.0]) == [10.0, 15.0, 20.0, 30.0]
  {
    var r := Rolling3([10.0, 20.0, 30.0, 40.0]);
    assert r[0] == 10.0 && r[1] == 15.0 && r[2] == 20.0 && r[3] == 30.0;
  }

  function Column(rows: seq<Row>, c: string): (r: seq<real>)
    requires NumericIn(rows, c)
    ensures |r| == |rows|
    ensures forall i :: 0 <= i < |rows| ==> r[i] == Key(rows[i], c)
  {
    seq(|rows|, i requires 0 <= i < |rows| => assert rows[i] in rows; Key(rows[i], c))
  }

  function WithAverage(rows: seq<Row>, averages: seq<real>): (r: seq<Row>)
    requires |averages| == |rows|
    ensures |r| == |rows|
    ensures forall i :: 0 <= i < |rows| ==> r[i] == rows[i][MA3 := Num(averages[i])]
  {
    seq(|rows|, i requires 0 <= i < |rows| => rows[i][MA3 := Num(averages[i])])
  }

  lemma WithAverageKeeps(rows: seq<Row>, averages: seq<real>, c: string)
    requires |averages| == |rows| && NumericIn(rows, c) && c != MA3
    ensures NumericIn(WithAverage(rows, averages), c)
    ensures Column(WithAverage(rows, averages), c) == Column(rows, c)
  {
    var r := WithAverage(rows, averages);
    forall x: Row | x in r ensures c in x && x[c].Num? {
      var i :| 0 <= i < |r| && r[i] == x;
      assert rows[i] in rows;
    }
  }

  lemma UpdateThenRemove(m: Row, k: string, v: Cell)
    ensures m[k := v] - {k} == m - {k}
  {
    var a, b := m[k := v] - {k}, m - {k};
    assert a.Keys == b.Keys;
  }

  lemma WithAverageWithout(rows: seq<Row>, averages: seq<real>)
    requires |averages| == |rows|
    ensures Without(WithAverage(rows, averages), MA3) == Without(rows, MA3)
  {
    var a, b := Without(WithAverage(rows, averages), MA3), Without(rows, MA3);
    forall i | 0 <= i < |rows| ensures a[i] == b[i] {
      UpdateThenRemove(rows[i], MA3, Num(averages[i]));
    }
  }

  lemma SortedByKept(a: seq<Row>, b: seq<Row>, c: string, descending: bool)
    requires NumericIn(a, c) && NumericIn(b, c) && SortedBy(a, c, descending)
    requires Column(a, c) == Column(b, c)
    ensures SortedBy(b, c, descending)
  {
    forall i, j | 0 <= i < j < |b| ensures InOrder(b[i], b[j], c, descending) {
      assert Column(a, c)[i] == Column(b, c)[i];
      assert Column(a, c)[j] == Column(b, c)[j];
    }
  }

  lemma SortKeepsNumeric(rows: seq<Row>, k: string, descending: bool, c: string)
    requires NumericIn(rows, k) && NumericIn(rows, c)
    ensures NumericIn(SortValues(rows, k, descending), c)
  {
    assert forall x :: x in SortValues(rows, k, descending) ==> x in multiset(rows);
  }

  /** The moving average of each row is the mean of its window of revenues. */
  lemma AveragesOfRevenue(rows: seq<Row>)
    requires NumericIn(rows, REVENUE)
    ensures NumericIn(WithAverage(rows, Rolling3(Column(rows, REVENUE))), REVENUE)
    ensures var r := WithAverage(rows, Rolling3(Column(rows, REVENUE)));
      forall i :: 0 <= i < |r| ==> MA3 in r[i] && r[i][MA3] == Num(Mean(TrailingWindow(Column(r, REVENUE), i)))
  {
    var averages := Rolling3(Column(rows, REVENUE));
    WithAverageKeeps(rows, averages, REVENUE);
  }

  /** The rows in month order, each with its moving average. */
  function Trend(rows: seq<Row>): (r: seq<Row>)
    requires NumericIn(rows, MONTH) && NumericIn(rows, REVENUE)
    ensures |r| == |rows|
    ensures multiset(Without(r, MA3)) == multiset(Without(rows, MA3))
    ensures NumericIn(r, MONTH) && SortedBy(r, MONTH, false)
    ensures NumericIn(r, REVENUE)
    ensures forall i :: 0 <= i < |r| ==>
      MA3 in r[i] && r[i][MA3] == Num(Mean(TrailingWindow(Column(r, REVENUE), i)))
  {
    var sorted := SortValues(rows, MONTH, false);
    SortKeepsNumeric(rows, MONTH, false, REVENUE);
    var averages := Rolling3(Column(sorted, REVENUE));
    var r := WithAverage(sorted, averages);
    AveragesOfRevenue(sorted);
    WithAverageKeeps(sorted, averages, MONTH);
    SortedByKept(sorted, r, MONTH, false);
    WithAverageWithout(sorted, averages);
    WithoutSortValues(rows, MONTH, false, MA3);
    r
  }

  /** chart_line: the months in order, each with the trailing three-month mean
      of revenue in `ma3`. */
  function ChartLine(t: Table): (r: Table)
    requires !IsEmpty(t) ==> NumericColumn(t, MONTH) && NumericColumn(t, REVENUE)
    ensures IsEmpty(t) ==> r == EmptyTable()
    ensures !IsEmpty(t) ==>
      && r.columns == (if MA3 in t.columns then t.columns else t.columns + [MA3])
      && |r.rows| == |t.rows|
      && multiset(Without(r.rows, MA3)) == multiset(Without(t.rows, MA3))
      && NumericIn(r.rows, MONTH) && SortedBy(r.rows, MONTH, false)
      && NumericIn(r.rows, REVENUE)
      && (forall i :: 0 <= i < |r.rows| ==>
            MA3 in r.rows[i] && r.rows[i][MA3] == Num(Mean(TrailingWindow(Column(r.rows, REVENUE), i))))
  {
    if IsEmpty(t) then EmptyTable()
    else Table(if MA3 in t.columns then t.columns else t.columns + [MA3], Trend(t.rows))
  }

  // ---------------------------------------------------------------- hist

  /** Which chart the distribution query's columns call for. */
  datatype Distribution = PriceHistogram | SegmentBars | NoChart

  /** A `price` column wins; otherwise both segment columns are needed. */
  function Classify(columns: seq<string>): (d: Distribution)
    ensures d == PriceHistogram <==> PRICE in columns
    ensures d == SegmentBars <==> PRICE !in columns && PRICE_SEGMENT in columns && ITEMS_COUNT in columns
    ensures d == NoChart <==> PRICE !in columns && (PRICE_SEGMENT !in columns || ITEMS_COUNT !in columns)
  {
    if PRICE in columns then PriceHistogram
    else if PRICE_SEGMENT in columns && ITEMS_COUNT in columns then SegmentBars
    else NoChart
  }

  /** chart_hist: the price table as it came, or the segments by item count
      descending, or the empty table when neither shape is there. */
  function ChartHist(t: Table): (r: Table)
    requires !IsEmpty(t) && Classify(t.columns) == SegmentBars ==> NumericIn(t.rows, ITEMS_COUNT)
    ensures IsEmpty(t) ==> r == EmptyTable()
    ensures !IsEmpty(t) && PRICE in t.columns ==> r == t
    ensures !IsEmpty(t) && PRICE !in t.columns && PRICE_SEGMENT in t.columns && ITEMS_COUNT in t.columns ==>
      && r.columns == t.columns
      && multiset(r.rows) == multiset(t.rows)
      && NumericIn(r.rows, ITEMS_COUNT) && SortedBy(r.rows, ITEMS_COUNT, true)
    ensures PRICE !in t.columns && (PRICE_SEGMENT !in t.columns || ITEMS_COUNT !in t.columns) ==> r == EmptyTable()
  {
    if IsEmpty(t) then EmptyTable()
    else
      match Classify(t.columns)
      case PriceHistogram => t
      case SegmentBars => Table(t.columns, SortValues(t.rows, ITEMS_COUNT, true))
      case NoChart => EmptyTable()
  }

  /** With no distribution query registered the fallback `SELECT 1 as dummy`
      yields one `dummy` row, which has neither shape. */
  lemma HistFallback()
    ensures ChartHist(Table(["dummy"], [map["dummy" := Num(1.0)]])) == EmptyTable()
  {
    assert PRICE !in ["dummy"] && PRICE_SEGMENT !in ["dummy"];
  }

  // ---------------------------------------------------------------- scatter

  datatype ScatterError = SampleLargerThanPopulation(requested: nat, available: nat)

  function Present(x: Row, c: string): bool {
    c in x && !x[c].Null?
  }

  /** `dropna(subset=["price", "freight_value"])`. */
  function Complete(rows: seq<Row>): (r: seq<Row>)
    ensures |r| <= |rows|
    ensures forall x :: x in r <==> x in rows && Present(x, PRICE) && Present(x, FREIGHT_VALUE)
  {
    Where(rows, x => Present(x, PRICE) && Present(x, FREIGHT_VALUE))
  }

  function Min(a: nat, b: nat): nat {
    if a <= b then a else b
  }

  /** chart_scatter as written: the sample size is taken from the table before
      incomplete rows are dropped, so sampling fails when too few remain. The
      returned table is the whole input. */
  function ChartScatter(t: Table): (r: Result<Table, ScatterError>)
    requires !IsEmpty(t) ==> PRICE in t.columns && FREIGHT_VALUE in t.columns
    ensures IsEmpty(t) ==> r == Ok(EmptyTable())
    ensures !IsEmpty(t) ==> (r.Ok? <==> |Complete(t.rows)| >= Min(SAMPLE_LIMIT, |t.rows|))
    ensures !IsEmpty(t) && r.Ok? ==> r.value == t
  {
    if IsEmpty(t) then Ok(EmptyTable())
    else
      var requested := Min(SAMPLE_LIMIT, |t.rows|);
      var available := |Complete(t.rows)|;
      if available < requested then Err(SampleLargerThanPopulation(requested, available)) else Ok(t)
  }

  /** A table of at most 4000 rows with one incomplete row makes the as-written
      transform fail. */
  lemma ScatterFailsOnIncompleteRow()
    ensures ChartScatter(Table([PRICE, FREIGHT_VALUE],
      [map[PRICE := Num(10.0), FREIGHT_VALUE := Num(2.0)], map[PRICE := Null, FREIGHT_VALUE := Num(3.0)]])).Err?
  {
    var a: Row := map[PRICE := Num(10.0), FREIGHT_VALUE := Num(2.0)];
    var b: Row := map[PRICE := Null, FREIGHT_VALUE := Num(3.0)];
    var keep := x => Present(x, PRICE) && Present(x, FREIGHT_VALUE);
    assert keep(a) && !keep(b);
    assert [a, b][1..] == [b] && [b][1..] == [];
    assert Where([b], keep) == [];
    assert Where([a, b], keep) == [a];
  }

  /** The sample size the transform evidently means: at most 4000 of the rows
      that survive `dropna`. */
  function ScatterSampleSize(t: Table): (n: nat)
    ensures n <= |Complete(t.rows)| && n <= SAMPLE_LIMIT
    ensures n == SAMPLE_LIMIT || n == |Complete(t.rows)|
  {
    Min(SAMPLE_LIMIT, |Complete(t.rows)|)
  }

  /** chart_scatter with the sample drawn from the complete rows: the same
      guard as the sampling step, now with a sample size it always meets, so
      the transform never fails, and it agrees with the as-written transform
      whenever that succeeds. */
  function ChartScatterIntended(t: Table): (r: Result<Table, ScatterError>)
    requires !IsEmpty(t) ==> PRICE in t.columns && FREIGHT_VALUE in t.columns
    ensures r.Ok?
    ensures IsEmpty(t) ==> r.value == EmptyTable()
    ensures !IsEmpty(t) ==> r.value == t
    ensures ChartScatter(t).Ok? ==> ChartScatter(t) == r
  {
    if IsEmpty(t) then Ok(EmptyTable())
    else
      var requested: nat := ScatterSampleSize(t);
      var available: nat := |Complete(t.rows)|;
      if available < requested then Err(SampleLargerThanPopulation(requested, available)) else Ok(t)
  }

  /** With no incomplete rows the as-written transform succeeds. */
  lemma ScatterSucceedsWhenComplete(t: Table)
    requires !IsEmpty(t) && PRICE in t.columns && FREIGHT_VALUE in t.columns
    requires forall x :: x in t.rows ==> Present(x, PRICE) && Present(x, FREIGHT_VALUE)
    ensures ChartScatter(t) == ChartScatterIntended(t)
  {
    WhereAll(t.rows, x => Present(x, PRICE) && Present(x, FREIGHT_VALUE));
  }

  lemma {:induction false} WhereAll(rows: seq<Row>, keep: Row -> bool)
    requires forall x :: x in rows ==> keep(x)
    ensures Where(rows, keep) == rows
  {
    if rows != [] {
      assert rows == [rows[0]] + rows[1..];
      WhereAll(rows[1..], keep);
    }
  }
}
