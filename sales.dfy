/** The sales analysis script (CSV_analysis.py) over its table of sales
    records. The table is an input: reading and writing the CSV file, the
    dates and the random generator are outside the model (the bounds the
    generator guarantees are kept as a predicate on the records). */
module Sales {
  import opened Wrappers

  /** One generated or loaded row before the derived column is added. */
  datatype Record = Record(product: string, category: string, region: string,
                           salesperson: string, month: string,
                           unitsSold: int, pricePerUnit: int)

  /** A row of the data frame, with its derived `Total_Sales` column. */
  datatype Sale = Sale(product: string, category: string, region: string,
                       salesperson: string, month: string,
                       unitsSold: int, pricePerUnit: int, totalSales: int)

  /** Adds the column `Total_Sales = Units_Sold * Price_Per_Unit`. */
  function WithTotals(records: seq<Record>): (sales: seq<Sale>)
    ensures |sales| == |records|
    ensures forall k :: 0 <= k < |sales| ==>
              var s, r := sales[k], records[k];
              && s.totalSales == r.unitsSold * r.pricePerUnit
              && s.unitsSold == r.unitsSold && s.pricePerUnit == r.pricePerUnit
              && s.product == r.product && s.category == r.category
              && s.region == r.region && s.salesperson == r.salesperson
              && s.month == r.month
  {
    seq(|records|, k requires 0 <= k < |records| =>
      var r := records[k];
      Sale(r.product, r.category, r.region, r.salesperson, r.month,
           r.unitsSold, r.pricePerUnit, r.unitsSold * r.pricePerUnit))
  }

  /** A record the sample generator can draw: one of the listed products,
      categories, regions and salespeople, 1 to 19 units (`randint(1, 20)`
      excludes 20) at a price of 50 to 499 (`randint(50, 500)`). */
  predicate IsSampleRecord(r: Record) {
    && r.product in ["Laptop", "Phone", "Tablet", "Watch", "Headphones"]
    && r.category in ["Electronics", "Accessories"]
    && r.region in ["North", "South", "East", "West"]
    && r.salesperson in ["Alice", "Bob", "Carol", "David"]
    && 1 <= r.unitsSold <= 19
    && 50 <= r.pricePerUnit <= 499
  }

  /** What the generator draws: 500 sample records. */
  predicate IsSampleDraw(records: seq<Record>) {
    |records| == 500 && forall k :: 0 <= k < |records| ==> IsSampleRecord(records[k])
  }

  /** `create_sample_data` on the generator's draw: 500 rows, each with the
      generator's unit and price ranges and its total their product. */
  function CreateSampleData(records: seq<Record>): (sales: seq<Sale>)
    requires IsSampleDraw(records)
    ensures |sales| == 500
    ensures forall k :: 0 <= k < |sales| ==>
              && 1 <= sales[k].unitsSold <= 19 && 50 <= sales[k].pricePerUnit <= 499
              && sales[k].totalSales == sales[k].unitsSold * sales[k].pricePerUnit
  {
    WithTotals(records)
  }

  lemma ProductBounds(u: int, p: int)
    requires 1 <= u <= 19 && 50 <= p <= 499
    ensures 50 <= u * p <= 9481
  {
    assert u * p >= 1 * p by {
      assert (u - 1) * p >= 0;
    }
    assert u * p <= 19 * p by {
      assert (19 - u) * p >= 0;
    }
  }

  /** Every generated sale is worth between 50 and 9481 (19 units at 499). */
  lemma SampleTotalsBounded(records: seq<Record>)
    requires IsSampleDraw(records)
    ensures forall k :: 0 <= k < |CreateSampleData(records)| ==>
              50 <= CreateSampleData(records)[k].totalSales <= 9481
  {
    var sales := CreateSampleData(records);
    forall k | 0 <= k < |sales| ensures 50 <= sales[k].totalSales <= 9481 {
      ProductBounds(records[k].unitsSold, records[k].pricePerUnit);
    }
  }

  // ---------------------------------------------------------------------
  // Keys, measures and sums

  /** The columns the script groups by. */
  datatype Dimension = ByCategory | ByRegion | BySalesperson | ByProduct | ByMonth

  function KeyOf(d: Dimension, s: Sale): string {
    match d
    case ByCategory => s.category
    case ByRegion => s.region
    case BySalesperson => s.salesperson
    case ByProduct => s.product
    case ByMonth => s.month
  }

  /** The columns the script sums. */
  datatype Measure = Revenue | Units

  function Value(m: Measure, s: Sale): int {
    match m
    case Revenue => s.totalSales
    case Units => s.unitsSold
  }

  /** `df[col].sum()`. */
  function Total(sales: seq<Sale>, m: Measure): int {
    if sales == [] then 0
    else Total(sales[..|sales| - 1], m) + Value(m, sales[|sales| - 1])
  }

  /** `df[df[col] == key]`: the records with that key, in order. */
  function Where(sales: seq<Sale>, d: Dimension, key: string): seq<Sale> {
    if sales == [] then []
    else
      var last := sales[|sales| - 1];
      Where(sales[..|sales| - 1], d, key) + (if KeyOf(d, last) == key then [last] else [])
  }

  /** The filter keeps exactly the records with the key, and adds none. */
  lemma {:induction false} WhereSpec(sales: seq<Sale>, d: Dimension, key: string)
    ensures |Where(sales, d, key)| <= |sales|
    ensures forall s :: s in Where(sales, d, key) <==> s in sales && KeyOf(d, s) == key
  {
    if sales != [] {
      var init, last := sales[..|sales| - 1], sales[|sales| - 1];
      WhereSpec(init, d, key);
      assert sales == init + [last];
    }
  }

  /** The filter works row by row: it distributes over concatenation, so
      every matching row is kept, in order. */
  lemma {:induction false} WhereAppend(a: seq<Sale>, b: seq<Sale>, d: Dimension, key: string)
    ensures Where(a + b, d, key) == Where(a, d, key) + Where(b, d, key)
    decreases |b|
  {
    if b == [] {
      assert a + b == a;
    } else {
      var init, last := b[..|b| - 1], b[|b| - 1];
      var tail := if KeyOf(d, last) == key then [last] else [];
      assert (a + b)[..|a + b| - 1] == a + init && (a + b)[|a + b| - 1] == last;
      assert Where(a + b, d, key) == Where(a + init, d, key) + tail;
      assert Where(a + init, d, key) == Where(a, d, key) + Where(init, d, key) by {
        WhereAppend(a, init, d, key);
      }
      assert Where(b, d, key) == Where(init, d, key) + tail;
      assert (Where(a, d, key) + Where(init, d, key)) + tail ==
               Where(a, d, key) + (Where(init, d, key) + tail);
    }
  }

  /** Rows that all have the key are all kept. */
  lemma {:induction false} WhereKeepsMatching(sales: seq<Sale>, d: Dimension, key: string)
    requires forall i :: 0 <= i < |sales| ==> KeyOf(d, sales[i]) == key
    ensures Where(sales, d, key) == sales
  {
    if sales != [] {
      var init := sales[..|sales| - 1];
      WhereKeepsMatching(init, d, key);
      assert init + [sales[|sales| - 1]] == sales;
    }
  }

  /** The group sum that `groupby(col)[m].sum()` reports for `key`. */
  function SumBy(sales: seq<Sale>, d: Dimension, key: string, m: Measure): int {
    if sales == [] then 0
    else
      var last := sales[|sales| - 1];
      SumBy(sales[..|sales| - 1], d, key, m) + (if KeyOf(d, last) == key then Value(m, last) else 0)
  }

  /** A group's sum is the total over exactly the records with its key. */
  lemma {:induction false} SumByIsFilteredTotal(sales: seq<Sale>, d: Dimension, key: string, m: Measure)
    ensures SumBy(sales, d, key, m) == Total(Where(sales, d, key), m)
  {
    if sales != [] {
      var init, last := sales[..|sales| - 1], sales[|sales| - 1];
      SumByIsFilteredTotal(init, d, key, m);
      var w := Where(init, d, key);
      assert SumBy(sales, d, key, m) == SumBy(init, d, key, m) + (if KeyOf(d, last) == key then Value(m, last) else 0);
      if KeyOf(d, last) == key {
        var w2 := w + [last];
        assert Where(sales, d, key) == w2;
        assert w2[..|w2| - 1] == w;
        assert Total(w2, m) == Total(w, m) + Value(m, last);
      } else {
        assert w + [] == w;
        assert Where(sales, d, key) == w;
      }
    }
  }

  /** Some record has `key` in column `d`. */
  predicate HasKey(sales: seq<Sale>, d: Dimension, key: string) {
    exists i :: 0 <= i < |sales| && KeyOf(d, sales[i]) == key
  }

  // ---------------------------------------------------------------------
  // Group keys in pandas' order

  /** Python's `<` on strings: lexicographic by code point. */
  predicate StrLess(a: string, b: string) {
    if a == [] then b != []
    else b != [] && (a[0] < b[0] || (a[0] == b[0] && StrLess(a[1..], b[1..])))
  }

  lemma {:induction false} StrLessIrreflexive(a: string)
    ensures !StrLess(a, a)
  {
    if a != [] {
      StrLessIrreflexive(a[1..]);
    }
  }

  lemma {:induction false} StrLessTransitive(a: string, b: string, c: string)
    requires StrLess(a, b) && StrLess(b, c)
    ensures StrLess(a, c)
  {
    if a != [] && a[0] == b[0] && b[0] == c[0] {
      StrLessTransitive(a[1..], b[1..], c[1..]);
    }
  }

  lemma {:induction false} StrLessTotal(a: string, b: string)
    ensures a == b || StrLess(a, b) || StrLess(b, a)
  {
    if a != [] && b != [] && a[0] == b[0] {
      StrLessTotal(a[1..], b[1..]);
      if a[1..] == b[1..] {
        assert a == [a[0]] + a[1..] && b == [b[0]] + b[1..];
      }
    }
  }

  lemma StrLessAsymmetric(a: string, b: string)
    requires StrLess(a, b)
    ensures !StrLess(b, a)
  {
    if StrLess(b, a) {
      StrLessTransitive(a, b, a);
      StrLessIrreflexive(a);
    }
  }

  predicate StrictlySorted(keys: seq<string>) {
    forall i, j :: 0 <= i < j < |keys| ==> StrLess(keys[i], keys[j])
  }

  /** A strictly sorted key list has no key twice. */
  lemma SortedKeysDistinct(keys: seq<string>)
    requires StrictlySorted(keys)
    ensures forall i, j :: 0 <= i < j < |keys| ==> keys[i] != keys[j]
  {
    forall i, j | 0 <= i < j < |keys| ensures keys[i] != keys[j] {
      StrLessIrreflexive(keys[i]);
    }
  }

  /** Adds `k` to a strictly sorted key list at its place, unless present. */
  function InsertKey(keys: seq<string>, k: string): (r: seq<string>)
    requires StrictlySorted(keys)
    ensures StrictlySorted(r)
    ensures forall x :: x in r <==> x in keys || x == k
  {
    if keys == [] then [k]
    else if k == keys[0] then keys
    else if StrLess(k, keys[0]) then
      assert forall j :: 0 < j < |keys| ==> StrLess(k, keys[j]) by {
        forall j | 0 < j < |keys| ensures StrLess(k, keys[j]) {
          StrLessTransitive(k, keys[0], keys[j]);
        }
      }
      [k] + keys
    else
      StrLessTotal(k, keys[0]);
      var rest := InsertKey(keys[1..], k);
      assert forall x :: x in rest ==> StrLess(keys[0], x);
      [keys[0]] + rest
  }

  /** The keys of column `d`, as `groupby` lists them: distinct and sorted. */
  function GroupKeys(sales: seq<Sale>, d: Dimension): (keys: seq<string>)
    ensures StrictlySorted(keys)
  {
    if sales == [] then []
    else InsertKey(GroupKeys(sales[..|sales| - 1], d), KeyOf(d, sales[|sales| - 1]))
  }

  /** The group keys are exactly the keys that occur. */
  lemma {:induction false} GroupKeysSpec(sales: seq<Sale>, d: Dimension)
    ensures forall k :: k in GroupKeys(sales, d) <==> HasKey(sales, d, k)
  {
    if sales != [] {
      var init := sales[..|sales| - 1];
      GroupKeysSpec(init, d);
      forall k ensures k in GroupKeys(sales, d) <==> HasKey(sales, d, k) {
        if HasKey(sales, d, k) {
          var i :| 0 <= i < |sales| && KeyOf(d, sales[i]) == k;
          if i < |sales| - 1 {
            assert init[i] == sales[i];
          }
        }
        if HasKey(init, d, k) {
          var i :| 0 <= i < |init| && KeyOf(d, init[i]) == k;
          assert sales[i] == init[i];
        }
      }
    }
  }

  // ---------------------------------------------------------------------
  // Group tables

  /** One row of a `groupby(col).agg({'Total_Sales': 'sum', 'Units_Sold': 'sum'})`
      table. */
  datatype GroupRow = GroupRow(key: string, totalSales: int, unitsSold: int)

  function Field(m: Measure, g: GroupRow): int {
    match m
    case Revenue => g.totalSales
    case Units => g.unitsSold
  }

  function RowsFor(sales: seq<Sale>, d: Dimension, keys: seq<string>): (rows: seq<GroupRow>)
    ensures |rows| == |keys|
    ensures forall i :: 0 <= i < |keys| ==> rows[i].key == keys[i]
  {
    if keys == [] then []
    else [GroupRow(keys[0], SumBy(sales, d, keys[0], Revenue), SumBy(sales, d, keys[0], Units))]
         + RowsFor(sales, d, keys[1..])
  }

  /** The group table for column `d` (`sales_by_category`, `sales_by_region`,
      and the salesperson and product tables before sorting). */
  function GroupBy(sales: seq<Sale>, d: Dimension): seq<GroupRow> {
    RowsFor(sales, d, GroupKeys(sales, d))
  }

  lemma {:induction false} RowsForAt(sales: seq<Sale>, d: Dimension, keys: seq<string>, i: nat, m: Measure)
    requires i < |keys|
    ensures Field(m, RowsFor(sales, d, keys)[i]) == SumBy(sales, d, keys[i], m)
  {
    if i > 0 {
      RowsForAt(sales, d, keys[1..], i - 1, m);
    }
  }

  /** Each row of a group table holds the sums over exactly the records with
      its key; the rows are in sorted key order, one per key that occurs. */
  lemma GroupBySpec(sales: seq<Sale>, d: Dimension)
    ensures var rows := GroupBy(sales, d);
            && |rows| == |GroupKeys(sales, d)|
            && (forall i, j :: 0 <= i < j < |rows| ==> StrLess(rows[i].key, rows[j].key))
            && (forall k :: (exists i :: 0 <= i < |rows| && rows[i].key == k) <==> HasKey(sales, d, k))
            && (forall i :: 0 <= i < |rows| ==>
                  && rows[i].totalSales == Total(Where(sales, d, rows[i].key), Revenue)
                  && rows[i].unitsSold == Total(Where(sales, d, rows[i].key), Units))
  {
    var keys := GroupKeys(sales, d);
    var rows := GroupBy(sales, d);
    GroupKeysSpec(sales, d);
    forall k ensures (exists i :: 0 <= i < |rows| && rows[i].key == k) <==> HasKey(sales, d, k) {
      if HasKey(sales, d, k) {
        assert k in keys;
        var i :| 0 <= i < |keys| && keys[i] == k;
        assert rows[i].key == k;
      }
      if exists i :: 0 <= i < |rows| && rows[i].key == k {
        var i :| 0 <= i < |rows| && rows[i].key == k;
        assert keys[i] in keys;
      }
    }
    forall i | 0 <= i < |rows|
      ensures rows[i].totalSales == Total(Where(sales, d, rows[i].key), Revenue)
      ensures rows[i].unitsSold == Total(Where(sales, d, rows[i].key), Units)
    {
      RowsForAt(sales, d, keys, i, Revenue);
      RowsForAt(sales, d, keys, i, Units);
      SumByIsFilteredTotal(sales, d, keys[i], Revenue);
      SumByIsFilteredTotal(sales, d, keys[i], Units);
    }
  }

  /** The sum of one column of a group table. */
  function RowsSum(rows: seq<GroupRow>, m: Measure): int {
    if rows == [] then 0 else Field(m, rows[0]) + RowsSum(rows[1..], m)
  }

  /** The group sums over a list of keys. */
  function KeysSum(sales: seq<Sale>, d: Dimension, keys: seq<string>, m: Measure): int {
    if keys == [] then 0 else SumBy(sales, d, keys[0], m) + KeysSum(sales, d, keys[1..], m)
  }

  lemma {:induction false} RowsSumIsKeysSum(sales: seq<Sale>, d: Dimension, keys: seq<string>, m: Measure)
    ensures RowsSum(RowsFor(sales, d, keys), m) == KeysSum(sales, d, keys, m)
  {
    if keys != [] {
      var rows := RowsFor(sales, d, keys);
      assert rows[1..] == RowsFor(sales, d, keys[1..]);
      RowsSumIsKeysSum(sales, d, keys[1..], m);
    }
  }

  predicate Distinct(keys: seq<string>) {
    forall i, j :: 0 <= i < j < |keys| ==> keys[i] != keys[j]
  }

  /** One more record adds its value to the sums over distinct keys exactly
      when its key is one of them. */
  lemma {:induction false} KeysSumSnoc(sales: seq<Sale>, s: Sale, d: Dimension, keys: seq<string>, m: Measure)
    requires Distinct(keys)
    ensures KeysSum(sales + [s], d, keys, m)
            == KeysSum(sales, d, keys, m) + (if KeyOf(d, s) in keys then Value(m, s) else 0)
  {
    if keys != [] {
      assert (sales + [s])[..|sales|] == sales;
      KeysSumSnoc(sales, s, d, keys[1..], m);
      assert KeyOf(d, s) in keys <==> KeyOf(d, s) == keys[0] || KeyOf(d, s) in keys[1..];
    }
  }

  /** Sums over distinct keys covering every record's key add up to the
      column total. */
  lemma {:induction false} KeysSumCovers(sales: seq<Sale>, d: Dimension, keys: seq<string>, m: Measure)
    requires Distinct(keys)
    requires forall i :: 0 <= i < |sales| ==> KeyOf(d, sales[i]) in keys
    ensures KeysSum(sales, d, keys, m) == Total(sales, m)
  {
    if sales == [] {
      KeysSumOfNothing(d, keys, m);
    } else {
      var init, last := sales[..|sales| - 1], sales[|sales| - 1];
      KeysSumCovers(init, d, keys, m);
      assert init + [last] == sales;
      KeysSumSnoc(init, last, d, keys, m);
    }
  }

  lemma {:induction false} KeysSumOfNothing(d: Dimension, keys: seq<string>, m: Measure)
    ensures KeysSum([], d, keys, m) == 0
  {
    if keys != [] {
      KeysSumOfNothing(d, keys[1..], m);
    }
  }

  /** The group sums of any dimension add up to the overall totals: every
      record falls in exactly one group. */
  lemma GroupTotalsAddUp(sales: seq<Sale>, d: Dimension)
    ensures RowsSum(GroupBy(sales, d), Revenue) == Total(sales, Revenue)
    ensures RowsSum(GroupBy(sales, d), Units) == Total(sales, Units)
  {
    var keys := GroupKeys(sales, d);
    SortedKeysDistinct(keys);
    GroupKeysSpec(sales, d);
    forall i | 0 <= i < |sales| ensures KeyOf(d, sales[i]) in keys {
      assert HasKey(sales, d, KeyOf(d, sales[i]));
    }
    RowsSumIsKeysSum(sales, d, keys, Revenue);
    RowsSumIsKeysSum(sales, d, keys, Units);
    KeysSumCovers(sales, d, keys, Revenue);
    KeysSumCovers(sales, d, keys, Units);
  }

  // ---------------------------------------------------------------------
  // Sorting and top-N

  predicate NonIncreasing(rows: seq<GroupRow>) {
    forall i, j :: 0 <= i < j < |rows| ==> rows[i].totalSales >= rows[j].totalSales
  }

  /** Puts `g` into a table sorted by descending `Total_Sales`, after the
      rows with the same value. */
  function InsertDescending(rows: seq<GroupRow>, g: GroupRow): seq<GroupRow> {
    if rows == [] then [g]
    else if g.totalSales > rows[0].totalSales then [g] + rows
    else [rows[0]] + InsertDescending(rows[1..], g)
  }

  /** Inserting adds just `g`. */
  lemma {:induction false} InsertDescendingPerm(rows: seq<GroupRow>, g: GroupRow)
    ensures multiset(InsertDescending(rows, g)) == multiset(rows) + multiset{g}
  {
    if rows != [] && g.totalSales <= rows[0].totalSales {
      InsertDescendingPerm(rows[1..], g);
      assert rows == [rows[0]] + rows[1..];
    }
  }

  /** Inserting into a sorted table keeps it sorted. */
  lemma {:induction false} InsertDescendingSorted(rows: seq<GroupRow>, g: GroupRow)
    requires NonIncreasing(rows)
    ensures NonIncreasing(InsertDescending(rows, g))
  {
    if rows != [] && g.totalSales <= rows[0].totalSales {
      var tail := rows[1..];
      var rest := InsertDescending(tail, g);
      InsertDescendingSorted(tail, g);
      InsertDescendingBounded(tail, g, rows[0].totalSales);
      var r := [rows[0]] + rest;
      assert r == InsertDescending(rows, g);
      forall i, j | 0 <= i < j < |r| ensures r[i].totalSales >= r[j].totalSales {
        assert r[j] == rest[j - 1];
        if i > 0 {
          assert r[i] == rest[i - 1];
        }
      }
    }
  }

  /** Inserting a row no larger than a bound into rows no larger than it
      gives rows no larger than it. */
  lemma {:induction false} InsertDescendingBounded(rows: seq<GroupRow>, g: GroupRow, bound: int)
    requires forall i :: 0 <= i < |rows| ==> rows[i].totalSales <= bound
    requires g.totalSales <= bound
    ensures forall i :: 0 <= i < |InsertDescending(rows, g)| ==> InsertDescending(rows, g)[i].totalSales <= bound
  {
    if rows != [] && g.totalSales <= rows[0].totalSales {
      var rest := InsertDescending(rows[1..], g);
      InsertDescendingBounded(rows[1..], g, bound);
      var r := [rows[0]] + rest;
      forall i | 0 <= i < |r| ensures r[i].totalSales <= bound {
        if i > 0 { assert r[i] == rest[i - 1]; }
      }
    }
  }

  /** No two rows of the table have the same key. */
  predicate DistinctKeys(rows: seq<GroupRow>) {
    forall i, j :: 0 <= i < j < |rows| ==> rows[i].key != rows[j].key
  }

  /** Inserting a row with a new key keeps the keys distinct. */
  lemma {:induction false} InsertDescendingDistinct(rows: seq<GroupRow>, g: GroupRow)
    requires DistinctKeys(rows)
    requires forall i :: 0 <= i < |rows| ==> rows[i].key != g.key
    ensures DistinctKeys(InsertDescending(rows, g))
  {
    if rows != [] {
      var r := InsertDescending(rows, g);
      if g.totalSales > rows[0].totalSales {
        forall i, j | 0 <= i < j < |r| ensures r[i].key != r[j].key {
          assert r[j] == rows[j - 1];
          if i > 0 { assert r[i] == rows[i - 1]; }
        }
      } else {
        var tail := rows[1..];
        var rest := InsertDescending(tail, g);
        assert DistinctKeys(rest) by {
          forall i, j | 0 <= i < j < |tail| ensures tail[i].key != tail[j].key {
            assert tail[i] == rows[i + 1] && tail[j] == rows[j + 1];
          }
          forall i | 0 <= i < |tail| ensures tail[i].key != g.key {
            assert tail[i] == rows[i + 1];
          }
          InsertDescendingDistinct(tail, g);
        }
        assert forall x :: x in rest ==> x.key != rows[0].key by {
          InsertDescendingPerm(tail, g);
          forall x | x in rest ensures x.key != rows[0].key {
            assert x in multiset(rest);
            if x != g {
              assert x in multiset(tail);
              var m :| 0 <= m < |tail| && tail[m] == x;
              assert tail[m] == rows[m + 1];
            }
          }
        }
        assert r == [rows[0]] + rest;
        forall i, j | 0 <= i < j < |r| ensures r[i].key != r[j].key {
          assert r[j] == rest[j - 1] && r[j] in rest;
          if i > 0 { assert r[i] == rest[i - 1]; }
        }
      }
    }
  }

  /** `sort_values('Total_Sales', ascending=False)`. */
  function SortDescending(rows: seq<GroupRow>): seq<GroupRow> {
    if rows == [] then []
    else InsertDescending(SortDescending(rows[..|rows| - 1]), rows[|rows| - 1])
  }

  /** The sorted table is in non-increasing order of `Total_Sales` and holds
      the same rows. */
  lemma {:induction false} SortDescendingSpec(rows: seq<GroupRow>)
    ensures NonIncreasing(SortDescending(rows))
    ensures multiset(SortDescending(rows)) == multiset(rows)
  {
    if rows != [] {
      var init := rows[..|rows| - 1];
      SortDescendingSpec(init);
      InsertDescendingSorted(SortDescending(init), rows[|rows| - 1]);
      InsertDescendingPerm(SortDescending(init), rows[|rows| - 1]);
      assert rows == init + [rows[|rows| - 1]];
    }
  }

  /** Sorting a table with distinct keys keeps them distinct. */
  lemma {:induction false} SortDescendingDistinct(rows: seq<GroupRow>)
    requires DistinctKeys(rows)
    ensures DistinctKeys(SortDescending(rows))
  {
    if rows != [] {
      var init, last := rows[..|rows| - 1], rows[|rows| - 1];
      var sorted := SortDescending(init);
      assert DistinctKeys(sorted) by {
        forall i, j | 0 <= i < j < |init| ensures init[i].key != init[j].key {
          assert init[i] == rows[i] && init[j] == rows[j];
        }
        SortDescendingDistinct(init);
      }
      assert forall i :: 0 <= i < |sorted| ==> sorted[i].key != last.key by {
        SortDescendingSpec(init);
        forall i | 0 <= i < |sorted| ensures sorted[i].key != last.key {
          assert sorted[i] in multiset(init);
          var m :| 0 <= m < |init| && init[m] == sorted[i];
          assert init[m] == rows[m];
        }
      }
      InsertDescendingDistinct(sorted, last);
    }
  }

  /** A group table has one row per key. */
  lemma GroupByDistinct(sales: seq<Sale>, d: Dimension)
    ensures DistinctKeys(GroupBy(sales, d))
  {
    var rows := GroupBy(sales, d);
    GroupBySpec(sales, d);
    forall i, j | 0 <= i < j < |rows| ensures rows[i].key != rows[j].key {
      StrLessIrreflexive(rows[i].key);
    }
  }

  /** A prefix holds some of the rows of the table, each at most as often. */
  lemma PrefixRows(xs: seq<GroupRow>, k: nat)
    requires k <= |xs|
    ensures multiset(xs[..k]) <= multiset(xs)
  {
    assert xs == xs[..k] + xs[k..];
  }

  /** In a table sorted by descending sales, no row outside a prefix sold
      more than a row inside it. */
  lemma PrefixDominates(sorted: seq<GroupRow>, top: seq<GroupRow>)
    requires NonIncreasing(sorted)
    requires |top| <= |sorted| && top == sorted[..|top|]
    ensures forall g, x :: g in sorted && g !in top && x in top ==> g.totalSales <= x.totalSales
  {
    forall g, x | g in sorted && g !in top && x in top ensures g.totalSales <= x.totalSales {
      var j :| 0 <= j < |sorted| && sorted[j] == g;
      var i :| 0 <= i < |top| && top[i] == x;
    }
  }

  /** The sorted table has the length and the rows of the table. */
  lemma SortedRows(rows: seq<GroupRow>)
    ensures |SortDescending(rows)| == |rows|
    ensures forall g :: g in SortDescending(rows) <==> g in rows
  {
    var sorted := SortDescending(rows);
    SortDescendingSpec(rows);
    assert |sorted| == |multiset(sorted)| == |multiset(rows)| == |rows|;
    forall g ensures g in sorted <==> g in rows {
      assert g in sorted <==> g in multiset(sorted);
      assert g in rows <==> g in multiset(rows);
    }
  }

  /** `top_performers`: the salesperson table, best first. */
  function TopPerformers(sales: seq<Sale>): seq<GroupRow> {
    SortDescending(GroupBy(sales, BySalesperson))
  }

  /** The performers table holds exactly the salesperson rows, in
      non-increasing order of sales. */
  lemma TopPerformersSpec(sales: seq<Sale>)
    ensures NonIncreasing(TopPerformers(sales))
    ensures multiset(TopPerformers(sales)) == multiset(GroupBy(sales, BySalesperson))
  {
    SortDescendingSpec(GroupBy(sales, BySalesperson));
  }

  /** `head(n)`: the first `n` rows, or for a negative `n` all but the last
      `-n`. */
  function Head<T>(xs: seq<T>, n: int): (r: seq<T>)
    ensures |r| <= |xs| && r == xs[..|r|]
    ensures n >= 0 ==> |r| == if n <= |xs| then n else |xs|
    ensures n < 0 ==> |r| == if -n <= |xs| then |xs| + n else 0
  {
    if n >= 0 then (if n <= |xs| then xs[..n] else xs)
    else (if -n <= |xs| then xs[..|xs| + n] else [])
  }

  /** `top_products(df, n)`: the product sales table, best first, cut to
      `head(n)`. */
  function TopProducts(sales: seq<Sale>, n: int): seq<GroupRow> {
    Head(SortDescending(GroupBy(sales, ByProduct)), n)
  }

  /** The top products come in non-increasing order; for `n >= 0` there are
      `min(n, number of products)` of them; each is a row of the product
      table; and no product left out sold more than one that is listed. */
  lemma TopProductsSpec(sales: seq<Sale>, n: int)
    ensures var top := TopProducts(sales, n);
            var products := GroupKeys(sales, ByProduct);
            && NonIncreasing(top)
            && (n >= 0 ==> |top| == if n <= |products| then n else |products|)
            && (forall g :: g in top ==> g in GroupBy(sales, ByProduct))
            && (forall g, x :: g in GroupBy(sales, ByProduct) && g !in top && x in top ==>
                  g.totalSales <= x.totalSales)
  {
    var rows := GroupBy(sales, ByProduct);
    var sorted := SortDescending(rows);
    var top := TopProducts(sales, n);
    SortDescendingSpec(rows);
    SortedRows(rows);
    PrefixDominates(sorted, top);
    assert forall g :: g in top ==> g in sorted;
  }

  /** The top products list no product twice, draw on the product table
      without repeating a row, and are all of its rows when `n` reaches the
      number of products. */
  lemma TopProductsRows(sales: seq<Sale>, n: int)
    ensures var top := TopProducts(sales, n);
            && DistinctKeys(top)
            && multiset(top) <= multiset(GroupBy(sales, ByProduct))
            && (n >= |GroupKeys(sales, ByProduct)| ==> multiset(top) == multiset(GroupBy(sales, ByProduct)))
  {
    var rows := GroupBy(sales, ByProduct);
    var sorted := SortDescending(rows);
    var top := TopProducts(sales, n);
    assert |rows| == |GroupKeys(sales, ByProduct)| by {
      GroupBySpec(sales, ByProduct);
    }
    assert |sorted| == |rows| && multiset(sorted) == multiset(rows) by {
      SortedRows(rows);
      SortDescendingSpec(rows);
    }
    assert multiset(top) <= multiset(sorted) by {
      PrefixRows(sorted, |top|);
    }
    assert n >= |rows| ==> top == sorted;
    assert DistinctKeys(sorted) by {
      GroupByDistinct(sales, ByProduct);
      SortDescendingDistinct(rows);
    }
    forall i, j | 0 <= i < j < |top| ensures top[i].key != top[j].key {
      assert top[i] == sorted[i] && top[j] == sorted[j];
    }
  }

  // ---------------------------------------------------------------------
  // Best performers and the summary report

  /** `idxmax` on a group table: the position of the first row with the
      largest `Total_Sales`. */
  function BestIndex(rows: seq<GroupRow>): (b: nat)
    requires rows != []
    ensures b < |rows|
    ensures forall j :: 0 <= j < |rows| ==> rows[j].totalSales <= rows[b].totalSales
    ensures forall j :: 0 <= j < b ==> rows[j].totalSales < rows[b].totalSales
  {
    if |rows| == 1 then 0
    else
      var b := BestIndex(rows[..|rows| - 1]);
      if rows[|rows| - 1].totalSales > rows[b].totalSales then |rows| - 1 else b
  }

  /** `df.groupby(col)['Total_Sales'].sum().idxmax()`, or `None` where
      pandas raises on an empty table. */
  function Best(sales: seq<Sale>, d: Dimension): Option<string> {
    var rows := GroupBy(sales, d);
    if rows == [] then None else Some(rows[BestIndex(rows)].key)
  }

  /** The best key exists exactly when there are records; it has the
      largest group sum, and every key before it in sorted order has a
      smaller one. */
  lemma BestSpec(sales: seq<Sale>, d: Dimension)
    ensures Best(sales, d).None? <==> sales == []
    ensures Best(sales, d).Some? ==>
              var k := Best(sales, d).value;
              && HasKey(sales, d, k)
              && (forall k' :: HasKey(sales, d, k') ==>
                    Total(Where(sales, d, k'), Revenue) <= Total(Where(sales, d, k), Revenue))
              && (forall k' :: HasKey(sales, d, k') && StrLess(k', k) ==>
                    Total(Where(sales, d, k'), Revenue) < Total(Where(sales, d, k), Revenue))
  {
    var rows := GroupBy(sales, d);
    GroupBySpec(sales, d);
    if sales != [] {
      assert HasKey(sales, d, KeyOf(d, sales[0]));
    }
    if rows != [] {
      var b := BestIndex(rows);
      var k := rows[b].key;
      forall k' | HasKey(sales, d, k')
        ensures Total(Where(sales, d, k'), Revenue) <= Total(Where(sales, d, k), Revenue)
        ensures StrLess(k', k) ==> Total(Where(sales, d, k'), Revenue) < Total(Where(sales, d, k), Revenue)
      {
        var j :| 0 <= j < |rows| && rows[j].key == k';
        if StrLess(k', k) {
          if j >= b {
            if j == b {
              StrLessIrreflexive(k);
            } else {
              StrLessAsymmetric(k', k);
            }
          }
        }
      }
    }
  }

  /** The figures `summary_report` prints, without the mean. */
  datatype Summary = Summary(totalRevenue: int, totalUnits: int, transactions: nat,
                             topCategory: Option<string>, topRegion: Option<string>,
                             topSalesperson: Option<string>)

  function SummaryReport(sales: seq<Sale>): Summary {
    Summary(Total(sales, Revenue), Total(sales, Units), |sales|,
            Best(sales, ByCategory), Best(sales, ByRegion), Best(sales, BySalesperson))
  }

  /** The report's totals agree with every group table, it counts one
      transaction per record, and it names a best category, region and
      salesperson exactly when there are records. */
  lemma SummaryReportSpec(sales: seq<Sale>)
    ensures var r := SummaryReport(sales);
            && r.transactions == |sales|
            && (forall d :: r.totalRevenue == RowsSum(GroupBy(sales, d), Revenue))
            && (forall d :: r.totalUnits == RowsSum(GroupBy(sales, d), Units))
            && (r.topCategory.Some? <==> sales != [])
            && (r.topRegion.Some? <==> sales != [])
            && (r.topSalesperson.Some? <==> sales != [])
  {
    forall d ensures Total(sales, Revenue) == RowsSum(GroupBy(sales, d), Revenue)
             ensures Total(sales, Units) == RowsSum(GroupBy(sales, d), Units) {
      GroupTotalsAddUp(sales, d);
    }
    BestSpec(sales, ByCategory);
    BestSpec(sales, ByRegion);
    BestSpec(sales, BySalesperson);
  }

  // ---------------------------------------------------------------------
  // Single product

  /** What `analyze_product` prints: the product's totals, or that there is
      no data for it. */
  datatype ProductReport = NoData | Performance(totalSales: int, unitsSold: int)

  function AnalyzeProduct(sales: seq<Sale>, name: string): ProductReport {
    var rows := Where(sales, ByProduct, name);
    if |rows| > 0 then Performance(Total(rows, Revenue), Total(rows, Units)) else NoData
  }

  /** "No data" exactly when no record is for the product; otherwise the
      figures are those of the product's row in the product table. */
  lemma AnalyzeProductSpec(sales: seq<Sale>, name: string)
    ensures AnalyzeProduct(sales, name) == NoData <==> !HasKey(sales, ByProduct, name)
    ensures AnalyzeProduct(sales, name).Performance? ==>
              exists g :: g in GroupBy(sales, ByProduct) && g.key == name
                && g.totalSales == AnalyzeProduct(sales, name).totalSales
                && g.unitsSold == AnalyzeProduct(sales, name).unitsSold
  {
    var w := Where(sales, ByProduct, name);
    WhereSpec(sales, ByProduct, name);
    if HasKey(sales, ByProduct, name) {
      var i :| 0 <= i < |sales| && KeyOf(ByProduct, sales[i]) == name;
      assert sales[i] in w;
    }
    if |w| > 0 {
      var rows := GroupBy(sales, ByProduct);
      GroupBySpec(sales, ByProduct);
      assert w[0] in sales;
      var i :| 0 <= i < |sales| && sales[i] == w[0];
      assert HasKey(sales, ByProduct, name);
      var j :| 0 <= j < |rows| && rows[j].key == name;
      assert rows[j] in rows;
    }
  }

  /** `monthly_trends`: total sales per month name, in the alphabetical
      order `groupby` gives month names. */
  function MonthlyTrends(sales: seq<Sale>): seq<(string, int)> {
    var rows := GroupBy(sales, ByMonth);
    seq(|rows|, i requires 0 <= i < |rows| => (rows[i].key, rows[i].totalSales))
  }

  /** One entry per month that occurs and for no other month, in strictly
      increasing string order, each with the sales of exactly that month's
      records. */
  lemma MonthlyTrendsSpec(sales: seq<Sale>)
    ensures var t := MonthlyTrends(sales);
            && (forall i, j :: 0 <= i < j < |t| ==> StrLess(t[i].0, t[j].0))
            && (forall i :: 0 <= i < |t| ==> t[i].1 == Total(Where(sales, ByMonth, t[i].0), Revenue))
            && (forall k :: HasKey(sales, ByMonth, k) ==> exists i :: 0 <= i < |t| && t[i].0 == k)
            && (forall i :: 0 <= i < |t| ==> HasKey(sales, ByMonth, t[i].0))
  {
    var rows := GroupBy(sales, ByMonth);
    var t := MonthlyTrends(sales);
    assert |t| == |rows| &&
      forall i :: 0 <= i < |t| ==> t[i].0 == rows[i].key && t[i].1 == rows[i].totalSales;
    assert forall i, j :: 0 <= i < j < |t| ==> StrLess(t[i].0, t[j].0) by {
      GroupBySpec(sales, ByMonth);
    }
    assert forall i :: 0 <= i < |t| ==> t[i].1 == Total(Where(sales, ByMonth, t[i].0), Revenue) by {
      GroupBySpec(sales, ByMonth);
    }
    assert forall k :: HasKey(sales, ByMonth, k) ==> exists i :: 0 <= i < |t| && t[i].0 == k by {
      GroupBySpec(sales, ByMonth);
      forall k | HasKey(sales, ByMonth, k) ensures exists i :: 0 <= i < |t| && t[i].0 == k {
        var i :| 0 <= i < |rows| && rows[i].key == k;
        assert t[i].0 == k;
      }
    }
    assert forall i :: 0 <= i < |t| ==> HasKey(sales, ByMonth, t[i].0) by {
      GroupByKeysOccur(sales, ByMonth);
    }
  }

  /** Every group key is the key of some record. */
  lemma GroupByKeysOccur(sales: seq<Sale>, d: Dimension)
    ensures var rows := GroupBy(sales, d);
            forall i :: 0 <= i < |rows| ==> HasKey(sales, d, rows[i].key)
  {
    var rows := GroupBy(sales, d);
    GroupBySpec(sales, d);
    forall i | 0 <= i < |rows| ensures HasKey(sales, d, rows[i].key) {
      var k := rows[i].key;
      assert exists j :: 0 <= j < |rows| && rows[j].key == k;
    }
  }
}
