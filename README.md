# Product listing of rust-api, modelled in Dafny

rust-api is a small actix-web service that lists the rows of a SQLite
`products` table, one page at a time, as JSON. This project models its core:

- **Pagination.** `get_products` resolves the requested page and limit and
  builds the `LIMIT … OFFSET …` query. It fills in defaults for missing
  parameters, returns nothing for an empty table, clamps the limit to
  (0, 50] and clamps the page against `floor(count / limit)`.
- **Row maps.** `statement_to_vec_map` turns each fetched row into a
  column-name map.
- **Text conversion.** `value_into_string` renders every SQLite value as text.
- **The product record.** This covers `Product`, its `Default`, and
  `Product::from`, which fills the record from a row map by parsing each
  column's text with Rust's `str::parse` for the field's type.

The modules are:

- `Wrappers`: `Option` and `Result`.
- `Numbers`: Rust's integer and `f32` parsers, and integer `to_string`.
- `Values`: the SQLite value type and `value_into_string`.
- `Models`: the product record, its default, and the row-to-product mapping. That mapping is a loop proved against a per-field decoding of the row.
- `Pagination`: page and limit resolution, both as written and as intended.
- `Store`: the rows SQLite returns for `LIMIT n OFFSET k`.
- `Db`: `statement_to_vec_map` and `get_products` end to end.

A `panic` from `unwrap()` becomes a `Failure` result.

HashMap iteration order is unspecified, so `Models.ProductFrom` takes the
keys in an arbitrary order (`:|`). Its contract shows that every order gives
the same product.

The code disagrees with the window its names and the usual page convention
imply: page p of size l skips the `(page - 1) * limit` rows of the earlier
pages and takes `limit`. The code binds `(p - 1) * l` to a variable named
`limit` and `p * l` to one named `offset`. It then formats
`LIMIT {offset} OFFSET {limit}`, so it takes `p * l` rows after skipping
`(p - 1) * l`. `Db.GetProducts` follows the code.
`Db.GetProductsIntended` follows the conventional window (see Findings).

## Model

| member | source | states |
|---|---|---|
| Numbers.ParseInteger | src/models.rs:50 | a parsed integer lies in the target type's range; empty text is rejected |
| Numbers.ParseIntegerRejects | src/models.rs:60-61 | `str::parse` rejects a non-digit after the first character, a first character that is neither a digit nor an allowed sign, and a lone sign |
| Numbers.ParseU32 | src/models.rs:60-61 | a `u32` parse yields a value in [0, 4294967295] and rejects every text starting with '-' |
| Numbers.ParseI32 | src/models.rs:50 | an `i32` parse yields a value in [-2147483648, 2147483647] |
| Numbers.IntToDecimal | src/db.rs:99 | an integer's text starts with '-' exactly when it is negative, is otherwise all digits, and has no leading zero |
| Numbers.NatToDigits | src/db.rs:99 | the canonical digits of a natural number: at least one, all digits, a single digit exactly below 10, and a leading '0' only for 0 itself |
| Numbers.DigitsValueOfNatToDigits | src/db.rs:99 | the digits `to_string` writes for a natural number read back as that number |
| Numbers.ParseIntegerOfDecimal | src/models.rs:50 | parsing an integer's own text gives it back exactly when it is in the target range, and fails otherwise |
| Numbers.ParseI32OfDecimal | src/models.rs:50 | an integer's text parses as an `i32` exactly when it is in the `i32` range |
| Numbers.ParseU32OfDecimal | src/models.rs:60-61 | an integer's text parses as a `u32` exactly when it is in [0, 4294967295] |
| Numbers.ParseF32 | src/models.rs:56 | empty text is not a float |
| Numbers.ParseF32NonFinite | src/models.rs:56 | "inf", "-inf" and "NaN", the texts Rust prints for non-finite floats, parse as those values |
| Numbers.ParseF32OfDecimal | src/models.rs:56 | an integer's text parses as a float of the same value |
| Numbers.DecimalLiteralOfDigits | src/models.rs:56 | a run of digits is a decimal literal whose value is the digits' value, with exponent 0 |
| Values.ValueIntoString | src/db.rs:94-103 | integers become their decimal text, floats their display text, and strings stay as they are; blobs and nulls become "" |
| Values.IntegerTextParsesBack | src/db.rs:99 | an integer column's text parses back to it as an `i64`, and as a narrower type exactly when it is in range |
| Models.ColumnOf | src/models.rs:49-62 | a key names the column whose name it equals, and names no column when it equals none |
| Models.ColumnOfName | src/models.rs:49-62 | each column's own name selects that column |
| Models.Default | src/models.rs:23-40 | `Product::default()` has id, cost and both review counts 0 and every text field empty |
| Models.SetField | src/models.rs:50-61 | the matched field takes the converted value (the text for a text column, the parsed id, cost or count for a numeric one), and every other field is unchanged |
| Models.ApplyEntry | src/models.rs:48-63 | an unknown key leaves the product unchanged; only a numeric column can fail, and it fails with its own key |
| Models.EntryStep | src/models.rs:48-64 | one loop iteration either extends the decoded prefix of the map by one entry or fails at a key where the whole row fails |
| Models.ProductFrom | src/models.rs:46-67 | `Product::from` succeeds exactly when the row decodes, and then returns the decoded product whatever the iteration order; a failure names a key whose value does not convert |
| Models.DecodeFailsIff | src/models.rs:50-61 | a row fails to map exactly when some recognised numeric column's value does not parse |
| Models.DecodeExtend | src/models.rs:48-63 | adding an entry under a new key changes the decoded product exactly as one loop iteration does |
| Models.DecodeSet | src/models.rs:50-61 | changing only column c to v sets that one field, or fails when v does not convert |
| Models.DecodeSetText | src/models.rs:51-59 | changing a text column sets that text field only |
| Models.DecodeSetNumber | src/models.rs:50-61 | changing a numeric column sets that field only, or fails when the value does not parse |
| Models.DecodedParts | src/models.rs:48-64 | each field of a decoded row is the converted value of its column, or the default when the column is absent |
| Models.DecodeOf | src/models.rs:48-64 | a row whose every column gives the matching field of p decodes to p |
| Models.UnknownKeysYieldDefault | src/models.rs:23-40 | a row with no recognised key, the empty row included, gives exactly `Product::default()`: zeros and empty strings |
| Models.UnknownKeyIgnored | src/models.rs:62 | an entry under an unrecognised key does not change the product |
| Models.TextFieldsFromColumns | src/models.rs:51-59 | a text field is its column's value verbatim for text, empty for a blob or null, and empty when the column is absent |
| Models.IdFromColumn | src/models.rs:50 | an integer id in the `i32` range is stored as it is; an id out of range, a blob or a null fails the row; text is parsed as an `i32` |
| Models.CountFromColumn | src/models.rs:60-61 | a review count in [0, 4294967295] is stored as it is; a negative or too large count, a blob, a null or non-numeric text fails the row |
| Models.RoundTrip | src/models.rs:46-67 | the row a product would be stored as maps back to that product, with cost left at its default |
| Models.DecodeCells | src/models.rs:46-67 | a row holding each column of a product's row decodes to that product with the default cost |
| Models.NumericCells | src/models.rs:50-61 | integer cells holding a product's id and counts give those fields back, and an absent cost gives 0 |
| Models.LookupToRow | src/models.rs:48-64 | every column of a product's row holds that product's field |
| Pagination.Requested | src/db.rs:26-31 | a missing page becomes 1 and a missing limit 10; a supplied value is taken as it is |
| Pagination.EffectiveLimit | src/db.rs:45-49 | the limit always lies in [1, 50]: a request in range is kept, and anything else becomes 10 |
| Pagination.LastPage | src/db.rs:51 | last_page counts the full pages only, and is 0 exactly when the table holds fewer rows than one page |
| Pagination.EffectivePage | src/db.rs:52-58 | a page of 0 or less becomes 1; any other page becomes the lesser of the request and last_page |
| Pagination.IssuedQuery | src/db.rs:60-62 | the issued query has LIMIT p*l and OFFSET (p-1)*l |
| Pagination.Resolve | src/db.rs:26-62 | no query is issued exactly when the table is empty; otherwise the limit is in range, last_page is count / limit, and the query is as issued |
| Pagination.MissingParametersDefault | src/db.rs:26-31 | a missing page acts as page 1 and a missing limit as limit 10; given values are used as they are |
| Pagination.PageClamp | src/db.rs:51-58 | with at least one full page, the page lies in [1, last_page] and its rows fit in the table; with none, a request of 1 or more becomes page 0 |
| Pagination.QueryFitsI32 | src/db.rs:60 | the two `i32` products of the source cannot overflow when the count is an `i32` |
| Pagination.IssuedQueryMatchesIntentOnlyOnFirstPage | src/db.rs:60-62 | the issued query equals the intended LIMIT l OFFSET (p-1)*l exactly on page 1; beyond it the LIMIT exceeds l, and on page 0 it is 0 |
| Pagination.PageCount | src/db.rs:51 | the number of pages, counting a final partial page, is the least n with count <= n * l |
| Pagination.ResolveIntended | src/db.rs:51-62 | intended resolution: the page lies in [1, number of pages], the window starts inside the table, and the query takes exactly l rows after the earlier pages |
| Store.Select | src/db.rs:62 | LIMIT/OFFSET returns a contiguous run of rows after the skipped ones, at most `limit` of them (or all the rest when the limit is negative) |
| Store.SelectWindow | src/db.rs:62 | a window starting inside the table holds the rows up to the end of the limit or of the table, whichever comes first |
| Store.SelectPage | src/db.rs:62 | a window of positive size starting inside the table holds between 1 and `limit` rows, namely min(limit, rows remaining) |
| Db.RowMap | src/db.rs:81-86 | a row's map has exactly the column names as keys |
| Db.RowMapAt | src/db.rs:83-86 | a column whose name does not recur later holds that column's value in the row's map |
| Db.StatementToVecMap | src/db.rs:75-92 | one map per fetched row, in order, each binding every column name to the value at its position |
| Db.MapProducts | src/db.rs:67-70 | every row map becomes a product, in order; the whole mapping fails exactly when some row does not decode, and then at a bad key of some row |
| Db.FetchProducts | src/db.rs:62-70 | the fetched products are the plan's rows decoded, in order; there are none when no query is issued |
| Db.GetProducts | src/db.rs:22-73 | the listing fails exactly when the count is not an `i32` or some listed row does not map; an empty table lists nothing; otherwise the products are the listed rows decoded, in order |
| Db.GetProductsIntended | src/db.rs:22-73 | with the intended window, a non-empty table gives between 1 and l products, those of the rows after the earlier pages |
| Db.ListedRowsAsWritten | src/db.rs:51-62 | page p lists the rows after (p-1)*l, up to p*l of them, so it holds more than l rows from page 2 on unless the table ends first; page 0 lists none |
| Db.FirstPageRows | src/db.rs:60-62 | page 1 lists the first l rows, and lists none when the table holds fewer than l rows |
| Db.SmallTableListsNothing | src/db.rs:51-58 | a table holding fewer rows than one page lists nothing for any page of 1 or more, the default page included |
| Db.SecondPageOverfetches | src/db.rs:60-62 | on 100 rows, page 2 of size 10 lists rows 11 to 30, i.e. 20 rows |
| Db.HundredRowScenarios | src/db.rs:26-62 | on 100 rows: page 1 gives the first 10 rows; a limit of 1 gives one row; page -1000 gives page 1; a limit of 999 becomes 10; page 999999 gives the last 10 rows |
| Db.IntendedPageRows | src/db.rs:60-62 | an intended page of a non-empty table is the run of rows after the earlier pages, with 1 to l rows |
| Db.PageOfRow | src/db.rs:51 | row i lies on page i / l + 1, which is one of the pages |
| Db.IntendedEveryRowReachable | src/db.rs:51-62 | with the intended window, every row of the table appears on some page, at position i % l of page i / l + 1 |

## Left out

- Connections: `create_pool` and the r2d2 connection pool are not modelled.
- The `COUNT(*)` query is modelled as the length of the table. A count that does not fit an `i32` gives `CountOutOfRange`, as the source's `parse::<i32>().unwrap()` panics there. A count that is absent or malformed cannot arise from SQLite and is not modelled.
- Errors from `prepare`, `column_names` and `cursor.next()` are not modelled; the statement always runs.
- The table's rows are given in SQLite's scan order as a sequence. The model takes that order as given.
- The HTTP layer is not modelled: `src/main.rs` (routing, server start) and `src/api.rs` (the handler and JSON rendering).
- Concurrency between requests is not modelled.
- The floor in `last_page` is modelled as integer division. For the non-negative `i32` operands here, the `f64` division and `floor` give the same result.
- Numbers.ParseF32: rounding to the nearest `f32` is not modelled. The model keeps the exact decimal value as a mantissa and a power of ten, so "1.0" and "1" stay distinct representations of 1. Overflow to infinity on huge exponents is not modelled either.
- Numbers.ParseF32: recent Rust versions also accept "infinity" and case variants of "inf" and "NaN". The model accepts only the spellings "inf" and "NaN", with an optional sign.
- Values.ValueIntoString: a `Float` value is modelled as the text its `Display` writes. The binary `f64` and the formatting algorithm are not modelled.
- Db.StatementToVecMap: the HashMap is a Dafny map. A repeated column name keeps the last value, as `insert` does.
- Db.GetProducts: `drain(..)` emptying the vector in place is modelled on sequence values. The drained vector is not used afterwards.
- Panics from `unwrap()` are modelled as `Failure` results. The process-level effect of a panic is not modelled.
- The SQLite semantics of `LIMIT` and `OFFSET` are an assumption, stated as `Store.Select`. A negative offset skips nothing and a negative limit means no limit.

## Findings

| source | as written | input that shows it | evidently intended | confidence | as-written member | corrected member |
|---|---|---|---|---|---|---|
| src/db.rs:60-62 | `(p - 1) * l` is bound to `limit` and `p * l` to `offset`; the query then says `LIMIT {offset} OFFSET {limit}`, which takes p*l rows after skipping (p-1)*l | 100 rows, page 2, limit 10: rows 11 to 30 (20 rows) are listed | skip (p-1)*l rows and take l (`LIMIT l OFFSET (p-1)*l`) | high, not executed | Db.SecondPageOverfetches | Db.IntendedPageRows |
| src/db.rs:51-58 | `last_page` is `floor(count / l)`, and a page of 1 or more is clamped to it | 5 rows, default page 1 and limit 10: last_page is 0, the page becomes 0, and the query is `LIMIT 0 OFFSET -10`, which lists nothing | the page count is `ceil(count / l)`, so every row lies on some page in [1, pages] | high, not executed | Db.SmallTableListsNothing | Db.IntendedEveryRowReachable |
