/** The pagination resolution of `get_products`: defaults for missing query
    parameters, the short-circuit on an empty table, the clamping of limit
    and page, and the LIMIT/OFFSET pair of the issued query. */
module Pagination {
  import opened Wrappers
  import opened Numbers

  const DEFAULT_PAGE: int := 1
  const DEFAULT_LIMIT: int := 10
  const MAX_LIMIT: int := 50

  function Min(a: int, b: int): int {
    if a <= b then a else b
  }

  function Max(a: int, b: int): int {
    if a >= b then a else b
  }

  /** The page and limit asked for, with the defaults filled in. */
  function Requested(page: Option<Int32>, limit: Option<Int32>): (r: (int, int))
    ensures r.0 == if page.Some? then page.value as int else DEFAULT_PAGE
    ensures r.1 == if limit.Some? then limit.value as int else DEFAULT_LIMIT
  {
    match (page, limit)
    case (Some(p), Some(l)) => (p, l)
    case (Some(p), None) => (p, DEFAULT_LIMIT)
    case (None, Some(l)) => (DEFAULT_PAGE, l)
    case (None, None) => (DEFAULT_PAGE, DEFAULT_LIMIT)
  }

  /** A limit outside (0, 50] is silently replaced by the default. */
  function EffectiveLimit(requested: int): (l: int)
    ensures 1 <= l <= MAX_LIMIT
    ensures 1 <= requested <= MAX_LIMIT ==> l == requested
    ensures requested <= 0 || requested > MAX_LIMIT ==> l == DEFAULT_LIMIT
  {
    if requested > MAX_LIMIT || requested <= 0 then DEFAULT_LIMIT else requested
  }

  /** `floor(count / l)`: the number of full pages, not the number of pages. */
  function LastPage(count: nat, l: int): (last: nat)
    requires l >= 1
    ensures last * l <= count < (last + 1) * l
    ensures last == 0 <==> count < l
  {
    count / l
  }

  /** A page of 0 or less becomes the first page; a page past the last full
      page becomes the last full page (0 when there is none). */
  function EffectivePage(requested: int, lastPage: nat): (p: nat)
    ensures requested <= 0 ==> p == DEFAULT_PAGE
    ensures requested >= 1 ==> p == Min(requested, lastPage)
  {
    if requested <= 0 then DEFAULT_PAGE
    else if requested > lastPage then lastPage
    else requested
  }

  /** The values written into `LIMIT {} OFFSET {}` of the issued query. */
  datatype Query = Query(limit: int, offset: int)

  /** The query for page p of size l. The source binds `(p - 1) * l` to a
      variable named `limit` and `p * l` to one named `offset`, then formats
      them as `LIMIT {offset} OFFSET {limit}`: the query takes p * l rows
      after skipping (p - 1) * l. */
  function IssuedQuery(p: int, l: int): (q: Query)
    ensures q.limit == p * l && q.offset == (p - 1) * l
  {
    var (limit, offset) := ((p - 1) * l, p * l);
    Query(offset, limit)
  }

  /** What the resolution decides: no query at all, or the effective page
      and limit, the last page they were clamped against, and the query. */
  datatype Plan =
    | NoQuery
    | Select(page: nat, limit: int, lastPage: nat, query: Query)

  /** The resolution in `get_products`, as written. */
  function Resolve(page: Option<Int32>, limit: Option<Int32>, count: nat): (plan: Plan)
    ensures plan.NoQuery? <==> count == 0
    ensures plan.Select? ==> 1 <= plan.limit <= MAX_LIMIT && plan.lastPage == count / plan.limit
    ensures plan.Select? ==> plan.query == IssuedQuery(plan.page, plan.limit)
  {
    var (p, l) := Requested(page, limit);
    if count == 0 then NoQuery
    else
      var l := EffectiveLimit(l);
      var lastPage := LastPage(count, l);
      var p := EffectivePage(p, lastPage);
      Select(p, l, lastPage, IssuedQuery(p, l))
  }

  /** A missing page behaves as page 1 and a missing limit as limit 10;
      supplied values are used as given. */
  lemma MissingParametersDefault(page: Option<Int32>, limit: Option<Int32>, count: nat)
    ensures Resolve(None, limit, count) == Resolve(Some(DEFAULT_PAGE), limit, count)
    ensures Resolve(page, None, count) == Resolve(page, Some(DEFAULT_LIMIT), count)
    ensures page.Some? ==> Requested(page, limit).0 == page.value
    ensures limit.Some? ==> Requested(page, limit).1 == limit.value
  {
  }

  /** The effective page: the first page for a request of 0 or less, even
      when there is no full page; otherwise at most the last full page. When
      the table holds at least one full page the page lies in
      [1, lastPage] and the pages up to it fit in the table; when it does not,
      a request of 1 or more becomes page 0. */
  lemma PageClamp(page: Option<Int32>, limit: Option<Int32>, count: nat)
    requires count > 0
    ensures var plan := Resolve(page, limit, count);
      var requested := Requested(page, limit).0;
      && (requested <= 0 ==> plan.page == 1)
      && (requested >= 1 ==> plan.page == Min(requested, plan.lastPage))
      && (count >= plan.limit ==> 1 <= plan.page <= plan.lastPage && plan.page * plan.limit <= count)
      && (count < plan.limit && requested >= 1 ==> plan.page == 0)
  {
    var plan := Resolve(page, limit, count);
    if count >= plan.limit {
      MulMonotone(plan.page, plan.lastPage, plan.limit);
    }
  }

  lemma MulMonotone(a: nat, b: nat, c: nat)
    requires a <= b
    ensures a * c <= b * c
  {
  }

  /** Both products computed on the `i32`s of the source stay within the
      `i32` range: the LIMIT value is at most max(count, l) and the OFFSET
      value at least -l. */
  lemma QueryFitsI32(page: Option<Int32>, limit: Option<Int32>, count: nat)
    requires 0 < count <= I32_MAX
    ensures var plan := Resolve(page, limit, count);
      && 0 <= plan.query.limit <= Max(count, plan.limit)
      && -plan.limit <= plan.query.offset < plan.query.limit
      && I32_MIN <= plan.query.offset && plan.query.limit <= I32_MAX
  {
    var plan := Resolve(page, limit, count);
    PageClamp(page, limit, count);
    if count < plan.limit {
      assert plan.page <= 1;
    }
  }

  /** The intended window skips (p - 1) * l rows and takes l. The issued
      query agrees with it only on page 1: beyond it the LIMIT exceeds l, and
      on page 0 the LIMIT is 0. */
  lemma IssuedQueryMatchesIntentOnlyOnFirstPage(p: nat, l: int)
    requires l >= 1
    ensures IssuedQuery(p, l) == Query(l, (p - 1) * l) <==> p == 1
    ensures p >= 2 ==> IssuedQuery(p, l).limit > l
    ensures p == 0 ==> IssuedQuery(p, l).limit == 0
  {
    if p >= 2 {
      MulMonotone(2, p, l);
    }
  }

  /** `ceil(count / l)`: the number of pages, the last possibly partial. */
  function PageCount(count: nat, l: int): (n: nat)
    requires l >= 1
    ensures count > 0 ==> n >= 1 && (n - 1) * l < count <= n * l
    ensures count == 0 ==> n == 0
  {
    (count + l - 1) / l
  }

  /** The resolution with the evident intent: the page lies in
      [1, number of pages] whenever there are rows, and the query skips the
      earlier pages and takes one page of rows. */
  function ResolveIntended(page: Option<Int32>, limit: Option<Int32>, count: nat): (plan: Plan)
    ensures plan.NoQuery? <==> count == 0
    ensures plan.Select? ==> 1 <= plan.limit <= MAX_LIMIT
    ensures plan.Select? ==> 1 <= plan.page <= plan.lastPage
    ensures plan.Select? ==> (plan.page - 1) * plan.limit < count <= plan.lastPage * plan.limit
    ensures plan.Select? ==> plan.query == Query(plan.limit, (plan.page - 1) * plan.limit)
    ensures plan.Select? ==> 0 <= plan.query.offset < count
  {
    var (p, l) := Requested(page, limit);
    if count == 0 then NoQuery
    else
      var l := EffectiveLimit(l);
      var pages := PageCount(count, l);
      var p := if p <= 0 then DEFAULT_PAGE else Min(p, pages);
      MulMonotone(p - 1, pages - 1, l);
      MulMonotone(0, p - 1, l);
      Select(p, l, pages, Query(l, (p - 1) * l))
  }
}
