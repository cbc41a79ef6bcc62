/** `get_products` end to end: count the rows, resolve the page, fetch the
    window, turn each fetched row into a column-name map, and map every row
    to a product in order. */
module Db {
  import opened Wrappers
  import opened Numbers
  import opened Values
  import opened Models
  import opened Pagination
  import Store

  /** A request fails when the row count is not an `i32` or a row does not
      map to a product; the source aborts on both. */
  datatype FetchError = CountOutOfRange | BadRow(column: string)

  /** The map `statement_to_vec_map` builds for one row: each column name in
      turn is bound to the value at its position, a later duplicate name
      replacing an earlier one. */
  function RowMap(names: seq<string>, values: seq<Value>): (m: map<string, Value>)
    requires |names| == |values|
    ensures m.Keys == set i | 0 <= i < |names| :: names[i]
  {
    if names == [] then map[]
    else
      var n := |names| - 1;
      var m := RowMap(names[..n], values[..n])[names[n] := values[n]];
      assert forall k :: k in m.Keys <==> k in set i | 0 <= i < |names| :: names[i] by {
        forall k ensures k in m.Keys <==> k in set i | 0 <= i < |names| :: names[i] {
          if k in m.Keys && k != names[n] {
            var i :| 0 <= i < n && names[..n][i] == k;
            assert names[i] == k;
          }
          if k in set i | 0 <= i < |names| :: names[i] {
            var i :| 0 <= i < |names| && names[i] == k;
            if i < n {
              assert names[..n][i] == k;
            }
          }
        }
      }
      m
  }

  /** A column whose name does not recur after it holds that column's value
      in the row's map; with distinct names, every column does. */
  lemma {:induction false} RowMapAt(names: seq<string>, values: seq<Value>, i: nat)
    requires |names| == |values| && i < |names|
    requires forall j :: i < j < |names| ==> names[j] != names[i]
    ensures names[i] in RowMap(names, values) && RowMap(names, values)[names[i]] == values[i]
  {
    var n := |names| - 1;
    if i < n {
      RowMapAt(names[..n], values[..n], i);
    }
  }

  /** The maps of all rows, in order. */
  function RowMaps(columns: seq<string>, rows: seq<seq<Value>>): (maps: seq<map<string, Value>>)
    requires forall row :: row in rows ==> |row| == |columns|
  {
    seq(|rows|, k requires 0 <= k < |rows| => RowMap(columns, rows[k]))
  }

  /** `statement_to_vec_map`: one map per row of the cursor, in order. */
  method StatementToVecMap(columns: seq<string>, rows: seq<seq<Value>>) returns (result: seq<map<string, Value>>)
    requires forall row :: row in rows ==> |row| == |columns|
    ensures |result| == |rows|
    ensures forall k :: 0 <= k < |rows| ==> result[k] == RowMap(columns, rows[k])
  {
    result := [];
    var cursor := 0;
    while cursor < |rows|
      invariant 0 <= cursor <= |rows|
      invariant |result| == cursor
      invariant forall k :: 0 <= k < cursor ==> result[k] == RowMap(columns, rows[k])
    {
      var row := rows[cursor];
      var m := map[];
      var i := 0;
      while i < |columns|
        invariant 0 <= i <= |columns|
        invariant m == RowMap(columns[..i], row[..i])
      {
        assert columns[..i + 1][..i] == columns[..i] && row[..i + 1][..i] == row[..i];
        m := m[columns[i] := row[i]];
        i := i + 1;
      }
      assert columns[..i] == columns && row[..i] == row;
      result := result + [m];
      cursor := cursor + 1;
    }
  }

  /** Every row map decodes. */
  predicate AllDecode(maps: seq<map<string, Value>>) {
    forall k :: 0 <= k < |maps| ==> Decode(maps[k]).Some?
  }

  /** The products are the row maps decoded, one for one and in order. */
  predicate DecodedAs(maps: seq<map<string, Value>>, products: seq<Product>) {
    |products| == |maps| && forall k :: 0 <= k < |maps| ==> Decode(maps[k]) == Some(products[k])
  }

  /** `raw_vec_map.drain(..).map(Product::from).collect()`: every row map
      becomes a product, in order; the first row that does not map aborts. */
  method MapProducts(raw: seq<map<string, Value>>) returns (r: Result<seq<Product>, MapError>)
    ensures r.Success? <==> AllDecode(raw)
    ensures r.Success? ==> DecodedAs(raw, r.value)
    ensures r.Failure? ==> exists k :: 0 <= k < |raw| && FailsAt(raw[k], r.error.column)
  {
    var products := [];
    var k := 0;
    while k < |raw|
      invariant 0 <= k <= |raw|
      invariant |products| == k
      invariant forall j :: 0 <= j < k ==> Decode(raw[j]) == Some(products[j])
    {
      var product := ProductFrom(raw[k]);
      if product.Failure? {
        return Failure(product.error);
      }
      products := products + [product.value];
      k := k + 1;
    }
    return Success(products);
  }

  /** The rows of the table a plan's query returns. */
  function PlanRows(plan: Plan, table: seq<seq<Value>>): seq<seq<Value>> {
    match plan
    case NoQuery => []
    case Select(_, _, _, query) => Store.Select(table, query.limit, query.offset)
  }

  /** The rows of the table the issued query returns. */
  function ListedRows(page: Option<Int32>, limit: Option<Int32>, table: seq<seq<Value>>): seq<seq<Value>> {
    PlanRows(Resolve(page, limit, |table|), table)
  }

  /** The fetch half of `get_products`: run the plan's query (none for an
      empty table), build the row maps, map them to products. */
  method FetchProducts(plan: Plan, columns: seq<string>, table: seq<seq<Value>>)
    returns (r: Result<seq<Product>, FetchError>)
    requires forall row :: row in table ==> |row| == |columns|
    ensures r.Failure? ==> r.error.BadRow?
    ensures plan.NoQuery? ==> r == Success([])
    ensures var maps := RowMaps(columns, PlanRows(plan, table));
      && (r.Success? <==> AllDecode(maps))
      && (r.Success? ==> DecodedAs(maps, r.value))
      && (r.Failure? ==> exists k :: 0 <= k < |maps| && FailsAt(maps[k], r.error.column))
  {
    if plan.NoQuery? {
      return Success([]);
    }
    var rows := Store.Select(table, plan.query.limit, plan.query.offset);
    assert rows == PlanRows(plan, table);
    var raw := StatementToVecMap(columns, rows);
    assert raw == RowMaps(columns, rows);
    var products := MapProducts(raw);
    if products.Failure? {
      return Failure(BadRow(products.error.column));
    }
    return Success(products.value);
  }

  /** `get_products` over a products table whose rows hold one value per
      column: count, resolve, fetch, build the row maps, map them. */
  method GetProducts(page: Option<Int32>, limit: Option<Int32>, columns: seq<string>, table: seq<seq<Value>>)
    returns (r: Result<seq<Product>, FetchError>)
    requires forall row :: row in table ==> |row| == |columns|
    ensures r == Failure(CountOutOfRange) <==> |table| > I32_MAX
    ensures |table| == 0 ==> r == Success([])
    ensures var maps := RowMaps(columns, ListedRows(page, limit, table));
      && (r.Success? <==> |table| <= I32_MAX && AllDecode(maps))
      && (r.Success? ==> DecodedAs(maps, r.value))
      && (r.Failure? && r.error.BadRow? ==> exists k :: 0 <= k < |maps| && FailsAt(maps[k], r.error.column))
  {
    if |table| > I32_MAX {
      return Failure(CountOutOfRange);
    }
    r := FetchProducts(Resolve(page, limit, |table|), columns, table);
  }

  /** `get_products` with the intended pagination: the same steps, with the
      page clamped to the number of pages and the query taking one page.
      On a table with rows, a successful request returns between 1 and l
      products, those of the rows after the earlier pages. */
  method GetProductsIntended(page: Option<Int32>, limit: Option<Int32>, columns: seq<string>, table: seq<seq<Value>>)
    returns (r: Result<seq<Product>, FetchError>)
    requires forall row :: row in table ==> |row| == |columns|
    ensures r == Failure(CountOutOfRange) <==> |table| > I32_MAX
    ensures |table| == 0 ==> r == Success([])
    ensures var maps := RowMaps(columns, IntendedRows(page, limit, table));
      && (r.Success? <==> |table| <= I32_MAX && AllDecode(maps))
      && (r.Success? ==> DecodedAs(maps, r.value))
      && (r.Failure? && r.error.BadRow? ==> exists k :: 0 <= k < |maps| && FailsAt(maps[k], r.error.column))
    ensures r.Success? && |table| > 0 ==> 1 <= |r.value| <= ResolveIntended(page, limit, |table|).limit
  {
    if |table| > I32_MAX {
      return Failure(CountOutOfRange);
    }
    if |table| > 0 {
      IntendedPageRows(page, limit, table);
    }
    r := FetchProducts(ResolveIntended(page, limit, |table|), columns, table);
  }

  /** Products of a page number and a page size, as linear facts. */
  lemma PageProducts(p: int, l: int)
    requires p >= 0 && l >= 1
    ensures (p - 1) * l + l == p * l
    ensures p * l >= 0 && (p >= 1 ==> (p - 1) * l >= 0)
    ensures p * l > l <==> p >= 2
    ensures p == 0 ==> p * l == 0
  {
    if p >= 2 {
      MulMonotone(2, p, l);
    } else if p == 1 {
    }
  }

  /** The rows a page holds as the code computes them: page p of size l
      skips (p - 1) * l rows and takes up to p * l further rows, so beyond
      page 1 it holds more than l rows unless it reaches the end of the
      table; page 0 holds none. */
  lemma ListedRowsAsWritten(page: Option<Int32>, limit: Option<Int32>, table: seq<seq<Value>>)
    requires |table| > 0
    ensures var plan := Resolve(page, limit, |table|);
      var rows := ListedRows(page, limit, table);
      var (p, l, take, skip) := (plan.page, plan.limit, plan.query.limit, plan.query.offset);
      && take == p * l && skip == (p - 1) * l
      && (p == 0 ==> rows == [])
      && (p >= 1 ==> 0 <= skip <= |table| && 0 <= take && rows == table[skip .. Min(|table|, skip + take)])
      && (p >= 1 ==> (|rows| > l <==> p >= 2 && |table| > take))
  {
    var plan := Resolve(page, limit, |table|);
    var (p, l, count) := (plan.page, plan.limit, |table|);
    var (take, skip) := (plan.query.limit, plan.query.offset);
    PageClamp(page, limit, count);
    PageProducts(p, l);
    if p >= 1 {
      assert skip <= count;
      Store.SelectWindow(table, take, skip);
    }
  }

  /** Page 1 is the first l rows (or all of them when fewer). */
  lemma FirstPageRows(limit: Option<Int32>, table: seq<seq<Value>>)
    requires |table| > 0
    ensures var l := Resolve(Some(1), limit, |table|).limit;
      ListedRows(Some(1), limit, table) == if |table| < l then [] else table[..l]
  {
  }

  /** With rows in the table but fewer than one full page, every request for
      a page of 1 or more (the default request included) lists nothing: the
      page is clamped to 0 and the query has LIMIT 0. */
  lemma SmallTableListsNothing(page: Option<Int32>, limit: Option<Int32>, table: seq<seq<Value>>)
    requires 0 < |table| < Resolve(page, limit, |table|).limit
    requires Requested(page, limit).0 >= 1
    ensures ListedRows(page, limit, table) == []
  {
    PageClamp(page, limit, |table|);
  }

  /** On a table of 100 rows, page 2 of size 10 lists rows 11 to 30: twenty
      rows where ten were asked for. */
  lemma SecondPageOverfetches(table: seq<seq<Value>>)
    requires |table| == 100
    ensures ListedRows(Some(2), Some(10), table) == table[10..30]
    ensures |ListedRows(Some(2), Some(10), table)| == 20
  {
    assert Resolve(Some(2), Some(10), 100).query == Query(20, 10);
  }

  /** The concrete cases on a table of 100 rows: page 1 gives the first 10
      rows, a limit of 1 one row, page -1000 the first page, a limit of 999
      the default of 10, and page 999999 the last full page, rows 91 to 100. */
  lemma HundredRowScenarios(table: seq<seq<Value>>)
    requires |table| == 100
    ensures ListedRows(Some(1), None, table) == table[..10]
    ensures ListedRows(Some(1), Some(1), table) == table[..1]
    ensures ListedRows(Some(-1000), None, table) == table[..10]
    ensures Resolve(None, Some(999), 100).limit == 10
    ensures Resolve(Some(999999), Some(10), 100).page == 10
    ensures ListedRows(Some(999999), Some(10), table) == table[90..]
  {
    assert Resolve(Some(999999), Some(10), 100).query == Query(100, 90);
  }

  /** The rows of the intended page: the earlier pages skipped, one page taken. */
  function IntendedRows(page: Option<Int32>, limit: Option<Int32>, table: seq<seq<Value>>): seq<seq<Value>> {
    PlanRows(ResolveIntended(page, limit, |table|), table)
  }

  /** An intended page is never empty when the table is not, holds at most l
      rows, and holds exactly the rows after the earlier pages:
      min(l, rows remaining). */
  lemma IntendedPageRows(page: Option<Int32>, limit: Option<Int32>, table: seq<seq<Value>>)
    requires |table| > 0
    ensures var plan := ResolveIntended(page, limit, |table|);
      var rows := IntendedRows(page, limit, table);
      var (l, skip) := (plan.limit, plan.query.offset);
      && skip == (plan.page - 1) * l
      && 0 <= skip < |table|
      && rows == table[skip .. Min(|table|, skip + l)]
      && 1 <= |rows| == Min(l, |table| - skip) <= l
  {
    var plan := ResolveIntended(page, limit, |table|);
    var (l, skip) := (plan.limit, plan.query.offset);
    assert 0 <= skip < |table| && l >= 1;
    Store.SelectPage(table, l, skip);
    assert IntendedRows(page, limit, table) == Store.Select(table, l, skip);
  }

  /** Row i lies on page i / l + 1, which is one of the pages. */
  lemma PageOfRow(i: nat, count: nat, l: int)
    requires i < count && l >= 1
    ensures 1 <= i / l + 1 <= PageCount(count, l)
    ensures (i / l) * l + i % l == i && 0 <= i % l < l
  {
    var n := PageCount(count, l);
    if i / l >= n {
      MulMonotone(n, i / l, l);
    }
  }

  /** Every row is on some intended page: row i is at position i % l of
      page i / l + 1. */
  lemma IntendedEveryRowReachable(table: seq<seq<Value>>, i: nat, l: Int32)
    requires i < |table| <= I32_MAX && 1 <= l <= MAX_LIMIT
    ensures var page := i / l + 1;
      && page <= I32_MAX
      && |IntendedRows(Some(page), Some(l), table)| > i % l
      && IntendedRows(Some(page), Some(l), table)[i % l] == table[i]
  {
    var (q, r) := (i / l, i % l);
    PageOfRow(i, |table|, l);
    var page := q + 1;
    var plan := ResolveIntended(Some(page), Some(l), |table|);
    assert plan.limit == l;
    assert plan.page == page;
    assert plan.query.offset == q * l;
    IntendedPageRows(Some(page), Some(l), table);
  }
}
