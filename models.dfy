/** The product record, its all-default value, and the conversion of one
    fetched row (column name to value) into a product. */
module Models {
  import opened Wrappers
  import opened Numbers
  import opened Values

  datatype Product = Product(
    id: Int32,
    uid: string,
    category: string,
    subCategory: string,
    name: string,
    origin: string,
    cost: Float32,
    description: string,
    color: string,
    size: string,
    reviewCount: Uint32,
    reviewStars: Uint32)

  /** `Product::default()`: zero numbers, empty strings. */
  function Default(): (p: Product)
    ensures p.id == 0 && p.cost == Finite(0, 0) && p.reviewCount == 0 && p.reviewStars == 0
    ensures forall c: Column :: c.IsText() ==> TextField(p, c) == ""
  {
    Product(0, "", "", "", "", "", Finite(0, 0), "", "", "", 0, 0)
  }

  /** The columns the mapper recognises, one per field. */
  datatype Column =
    | Id | Uid | Category | SubCategory | Name | Origin
    | Cost | Description | Color | Size | ReviewCount | ReviewStars
  {
    predicate IsText() {
      !(Id? || Cost? || ReviewCount? || ReviewStars?)
    }
  }

  /** The key under which a column appears in a row. */
  function ColumnName(c: Column): string {
    match c
    case Id => "id"
    case Uid => "uid"
    case Category => "category"
    case SubCategory => "sub_category"
    case Name => "name"
    case Origin => "origin"
    case Cost => "cost"
    case Description => "description"
    case Color => "color"
    case Size => "size"
    case ReviewCount => "review_count"
    case ReviewStars => "review_stars"
  }

  /** Every recognised column, in declaration order. */
  const ALL_COLUMNS: seq<Column> :=
    [Id, Uid, Category, SubCategory, Name, Origin, Cost, Description, Color, Size, ReviewCount, ReviewStars]

  lemma AllColumnsListed(c: Column)
    ensures c in ALL_COLUMNS
  {
  }

  /** Distinct columns have distinct names. */
  lemma ColumnNameInjective(a: Column, b: Column)
    ensures ColumnName(a) == ColumnName(b) ==> a == b
  {
  }

  /** The first column among cols named key, if any. */
  function FindColumn(key: string, cols: seq<Column>): (r: Option<Column>)
    ensures r.Some? ==> ColumnName(r.value) == key
    ensures r.None? ==> forall c :: c in cols ==> ColumnName(c) != key
  {
    if cols == [] then None
    else if ColumnName(cols[0]) == key then Some(cols[0])
    else FindColumn(key, cols[1..])
  }

  /** The column a key names, if any: the string match of `Product::from`. */
  function ColumnOf(key: string): (r: Option<Column>)
    ensures r.Some? ==> ColumnName(r.value) == key
    ensures r.None? ==> forall c: Column :: ColumnName(c) != key
  {
    var r := FindColumn(key, ALL_COLUMNS);
    if r.None? then
      assert forall c: Column :: ColumnName(c) != key by {
        forall c: Column ensures ColumnName(c) != key {
          AllColumnsListed(c);
        }
      }
      r
    else r
  }

  lemma ColumnOfName(c: Column)
    ensures ColumnOf(ColumnName(c)) == Some(c)
  {
    ColumnNameInjective(ColumnOf(ColumnName(c)).value, c);
  }

  /** A numeric column whose text does not parse: the `unwrap()` that would
      abort the request. */
  datatype MapError = BadNumber(column: string)

  /** The text field that a text column fills. */
  function TextField(p: Product, c: Column): string
    requires c.IsText()
  {
    match c
    case Uid => p.uid
    case Category => p.category
    case SubCategory => p.subCategory
    case Name => p.name
    case Origin => p.origin
    case Description => p.description
    case Color => p.color
    case Size => p.size
  }

  /** The per-type conversions: the value's text, parsed as the field's type. */
  function IdOf(v: Value): Option<int> {
    ParseI32(ValueIntoString(v))
  }

  function CostOf(v: Value): Option<Float32> {
    ParseF32(ValueIntoString(v))
  }

  function CountOf(v: Value): Option<int> {
    ParseU32(ValueIntoString(v))
  }

  /** Whether a value converts to the type of the column's field. */
  predicate Converts(c: Column, v: Value) {
    match c
    case Id => IdOf(v).Some?
    case Cost => CostOf(v).Some?
    case ReviewCount => CountOf(v).Some?
    case ReviewStars => CountOf(v).Some?
    case _ => true
  }

  /** The field of column c set from v. */
  function SetField(p: Product, c: Column, v: Value): (r: Product)
    requires Converts(c, v)
    ensures c.IsText() ==> TextField(r, c) == ValueIntoString(v)
    ensures forall d: Column :: d.IsText() && d != c ==> TextField(r, d) == TextField(p, d)
    ensures c != Id ==> r.id == p.id
    ensures c != Cost ==> r.cost == p.cost
    ensures c != ReviewCount ==> r.reviewCount == p.reviewCount
    ensures c != ReviewStars ==> r.reviewStars == p.reviewStars
    ensures c == Id ==> r.id == IdOf(v).value
    ensures c == Cost ==> r.cost == CostOf(v).value
    ensures c == ReviewCount ==> r.reviewCount == CountOf(v).value
    ensures c == ReviewStars ==> r.reviewStars == CountOf(v).value
  {
    var text := ValueIntoString(v);
    match c
    case Id => p.(id := IdOf(v).value)
    case Uid => p.(uid := text)
    case Category => p.(category := text)
    case SubCategory => p.(subCategory := text)
    case Name => p.(name := text)
    case Origin => p.(origin := text)
    case Cost => p.(cost := CostOf(v).value)
    case Description => p.(description := text)
    case Color => p.(color := text)
    case Size => p.(size := text)
    case ReviewCount => p.(reviewCount := CountOf(v).value)
    case ReviewStars => p.(reviewStars := CountOf(v).value)
  }

  /** One iteration of the loop in `Product::from`: the field the key names
      takes the converted value; an unknown key leaves the product as it is. */
  function ApplyEntry(p: Product, key: string, v: Value): (r: Result<Product, MapError>)
    ensures ColumnOf(key).None? ==> r == Success(p)
    ensures r.Failure? ==> ColumnOf(key).Some? && !ColumnOf(key).value.IsText() && r.error == BadNumber(key)
  {
    match ColumnOf(key)
    case None => Success(p)
    case Some(c) => if Converts(c, v) then Success(SetField(p, c, v)) else Failure(BadNumber(key))
  }

  /** The key names a column, is present, and its value does not convert. */
  predicate FailsAt(m: map<string, Value>, key: string) {
    key in m && ColumnOf(key).Some? && !Converts(ColumnOf(key).value, m[key])
  }

  /** The value a row holds for a column, if the column is present. */
  function Lookup(m: map<string, Value>, c: Column): Option<Value> {
    if ColumnName(c) in m then Some(m[ColumnName(c)]) else None
  }

  /** A field as its column gives it: the default when the column is
      absent, None when its value does not convert. */
  function IdField(o: Option<Value>): Option<int> {
    match o
    case None => Some(0)
    case Some(v) => IdOf(v)
  }

  function CostField(o: Option<Value>): Option<Float32> {
    match o
    case None => Some(Finite(0, 0))
    case Some(v) => CostOf(v)
  }

  function CountField(o: Option<Value>): Option<int> {
    match o
    case None => Some(0)
    case Some(v) => CountOf(v)
  }

  function TextOf(o: Option<Value>): string {
    match o
    case None => ""
    case Some(v) => ValueIntoString(v)
  }

  function IdColumn(m: map<string, Value>): Option<int> {
    IdField(Lookup(m, Id))
  }

  function CostColumn(m: map<string, Value>): Option<Float32> {
    CostField(Lookup(m, Cost))
  }

  function CountColumn(m: map<string, Value>, c: Column): Option<int> {
    CountField(Lookup(m, c))
  }

  function TextColumn(m: map<string, Value>, c: Column): string {
    TextOf(Lookup(m, c))
  }

  /** The product a row describes, bound field by field to its column:
      a present column gives the converted value, an absent one the default.
      None when some numeric column does not convert. This is the
      reference the loop of `Product::from` is proved against. */
  function Decode(m: map<string, Value>): (r: Option<Product>)
  {
    var id := IdColumn(m);
    var cost := CostColumn(m);
    var reviewCount := CountColumn(m, ReviewCount);
    var reviewStars := CountColumn(m, ReviewStars);
    if id.None? || cost.None? || reviewCount.None? || reviewStars.None? then None
    else
      Some(Product(
        id.value,
        TextColumn(m, Uid),
        TextColumn(m, Category),
        TextColumn(m, SubCategory),
        TextColumn(m, Name),
        TextColumn(m, Origin),
        cost.value,
        TextColumn(m, Description),
        TextColumn(m, Color),
        TextColumn(m, Size),
        reviewCount.value,
        reviewStars.value))
  }

  /** A row fails to decode exactly when some recognised numeric column in
      it fails to convert. */
  lemma DecodeFailsIff(m: map<string, Value>)
    ensures Decode(m).None? <==> exists key :: FailsAt(m, key)
  {
    if Decode(m).None? {
      var c := if IdColumn(m).None? then Id
               else if CostColumn(m).None? then Cost
               else if CountColumn(m, ReviewCount).None? then ReviewCount
               else ReviewStars;
      ColumnOfName(c);
      assert FailsAt(m, ColumnName(c));
    } else {
      forall key | FailsAt(m, key)
        ensures false
      {
        ColumnOfName(ColumnOf(key).value);
      }
    }
  }

  function Restrict(m: map<string, Value>, keys: set<string>): (r: map<string, Value>)
    ensures r.Keys == m.Keys * keys
    ensures forall k :: k in r ==> r[k] == m[k]
  {
    map k | k in m && k in keys :: m[k]
  }

  /** Adding an entry under a new key to a decodable row changes the decoded
      product exactly as one iteration of the loop does. */
  lemma DecodeExtend(m: map<string, Value>, key: string, v: Value)
    requires key !in m && Decode(m).Some?
    ensures ApplyEntry(Decode(m).value, key, v)
         == if Decode(m[key := v]).Some? then Success(Decode(m[key := v]).value) else Failure(BadNumber(key))
  {
    var m' := m[key := v];
    match ColumnOf(key)
    case None =>
      forall d ensures Lookup(m', d) == Lookup(m, d) {
      }
      assert Decode(m') == Decode(m);
    case Some(c) =>
      forall d ensures Lookup(m', d) == if d == c then Some(v) else Lookup(m, d) {
        ColumnOfName(d);
      }
      DecodeSet(m, m', c, v);
  }

  /** Decoding a row that differs from a decodable one only in column c,
      which now holds v, sets that one field (or fails if v does not convert). */
  lemma DecodeSet(m: map<string, Value>, m': map<string, Value>, c: Column, v: Value)
    requires Decode(m).Some?
    requires forall d :: Lookup(m', d) == if d == c then Some(v) else Lookup(m, d)
    ensures Decode(m') == if Converts(c, v) then Some(SetField(Decode(m).value, c, v)) else None
  {
    if c.IsText() {
      DecodeSetText(m, m', c, v);
    } else {
      DecodeSetNumber(m, m', c, v);
    }
  }

  lemma DecodeSetText(m: map<string, Value>, m': map<string, Value>, c: Column, v: Value)
    requires Decode(m).Some? && c.IsText()
    requires forall d :: Lookup(m', d) == if d == c then Some(v) else Lookup(m, d)
    ensures Decode(m') == Some(SetField(Decode(m).value, c, v))
  {
    var r := SetField(Decode(m).value, c, v);
    DecodedParts(m);
    assert Lookup(m', Id) == Lookup(m, Id);
    assert Lookup(m', Cost) == Lookup(m, Cost);
    assert Lookup(m', ReviewCount) == Lookup(m, ReviewCount);
    assert Lookup(m', ReviewStars) == Lookup(m, ReviewStars);
    forall d: Column | d.IsText() ensures TextColumn(m', d) == TextField(r, d) {
      assert Lookup(m', d) == if d == c then Some(v) else Lookup(m, d);
    }
    DecodeOf(m', r);
  }

  lemma DecodeSetNumber(m: map<string, Value>, m': map<string, Value>, c: Column, v: Value)
    requires Decode(m).Some? && !c.IsText()
    requires forall d :: Lookup(m', d) == if d == c then Some(v) else Lookup(m, d)
    ensures Decode(m') == if Converts(c, v) then Some(SetField(Decode(m).value, c, v)) else None
  {
    DecodedParts(m);
    assert Lookup(m', c) == Some(v);
    if Converts(c, v) {
      var r := SetField(Decode(m).value, c, v);
      forall d: Column | d.IsText() ensures TextColumn(m', d) == TextField(r, d) {
        assert Lookup(m', d) == Lookup(m, d);
      }
      assert Lookup(m', Id) == if c == Id then Some(v) else Lookup(m, Id);
      assert Lookup(m', Cost) == if c == Cost then Some(v) else Lookup(m, Cost);
      assert Lookup(m', ReviewCount) == if c == ReviewCount then Some(v) else Lookup(m, ReviewCount);
      assert Lookup(m', ReviewStars) == if c == ReviewStars then Some(v) else Lookup(m, ReviewStars);
      DecodeOf(m', r);
    }
  }

  /** The fields of a decoded row, each as its column gives it. */
  lemma DecodedParts(m: map<string, Value>)
    requires Decode(m).Some?
    ensures IdColumn(m) == Some(Decode(m).value.id as int)
    ensures CostColumn(m) == Some(Decode(m).value.cost)
    ensures CountColumn(m, ReviewCount) == Some(Decode(m).value.reviewCount as int)
    ensures CountColumn(m, ReviewStars) == Some(Decode(m).value.reviewStars as int)
    ensures forall d: Column :: d.IsText() ==> TextField(Decode(m).value, d) == TextColumn(m, d)
  {
  }

  /** A row whose every column gives the matching field of p decodes to p. */
  lemma DecodeOf(m: map<string, Value>, p: Product)
    requires IdColumn(m) == Some(p.id as int) && CostColumn(m) == Some(p.cost)
    requires CountColumn(m, ReviewCount) == Some(p.reviewCount as int)
    requires CountColumn(m, ReviewStars) == Some(p.reviewStars as int)
    requires forall d: Column :: d.IsText() ==> TextColumn(m, d) == TextField(p, d)
    ensures Decode(m) == Some(p)
  {
    assert TextColumn(m, Uid) == TextField(p, Uid);
    assert TextColumn(m, Category) == TextField(p, Category);
    assert TextColumn(m, SubCategory) == TextField(p, SubCategory);
    assert TextColumn(m, Name) == TextField(p, Name);
    assert TextColumn(m, Origin) == TextField(p, Origin);
    assert TextColumn(m, Description) == TextField(p, Description);
    assert TextColumn(m, Color) == TextField(p, Color);
    assert TextColumn(m, Size) == TextField(p, Size);
  }

  /** One iteration of the loop, on the entries already consumed: applying
      the next entry either decodes one more entry of the row or fails at a
      key where the whole row fails. */
  lemma EntryStep(m: map<string, Value>, pending: set<string>, key: string, product: Product)
    requires key in pending && pending <= m.Keys
    requires Decode(Restrict(m, m.Keys - pending)) == Some(product)
    ensures ApplyEntry(product, key, m[key]).Success? ==>
      Decode(Restrict(m, m.Keys - (pending - {key}))) == Some(ApplyEntry(product, key, m[key]).value)
    ensures ApplyEntry(product, key, m[key]).Failure? ==>
      ApplyEntry(product, key, m[key]).error == BadNumber(key) && FailsAt(m, key) && Decode(m).None?
  {
    var done := Restrict(m, m.Keys - pending);
    DecodeExtend(done, key, m[key]);
    assert done[key := m[key]] == Restrict(m, m.Keys - (pending - {key}));
    if ApplyEntry(product, key, m[key]).Failure? {
      assert FailsAt(m, key);
      DecodeFailsIff(m);
    }
  }

  /** `Product::from`: start from the default and, for each entry of the map
      in whatever order the map yields them, fill the field the key names.
      The first numeric column that does not convert aborts the mapping.
      Since any order may be chosen, the verified contract shows the result
      does not depend on the iteration order. */
  method ProductFrom(m: map<string, Value>) returns (r: Result<Product, MapError>)
    ensures r.Success? <==> Decode(m).Some?
    ensures r.Success? ==> r.value == Decode(m).value
    ensures r.Failure? ==> FailsAt(m, r.error.column)
  {
    var product := Default();
    var pending := m.Keys;
    assert Restrict(m, m.Keys - pending) == map[];
    while pending != {}
      invariant pending <= m.Keys
      invariant Decode(Restrict(m, m.Keys - pending)) == Some(product)
      decreases pending
    {
      var key :| key in pending;
      EntryStep(m, pending, key, product);
      var next := ApplyEntry(product, key, m[key]);
      if next.Failure? {
        return Failure(BadNumber(key));
      }
      product := next.value;
      pending := pending - {key};
    }
    assert Restrict(m, m.Keys) == m;
    return Success(product);
  }

  /** A row with no recognised column (the empty row included) gives exactly
      the default product: id, counts 0, cost 0.0, every text field empty. */
  lemma UnknownKeysYieldDefault(m: map<string, Value>)
    requires forall key :: key in m ==> ColumnOf(key).None?
    ensures Decode(m) == Some(Default())
    ensures Default().id == 0 && Default().cost == Finite(0, 0)
    ensures Default().reviewCount == 0 && Default().reviewStars == 0
    ensures forall c: Column :: c.IsText() ==> TextField(Default(), c) == ""
  {
    forall c ensures Lookup(m, c) == None {
      ColumnOfName(c);
    }
  }

  /** An entry under an unrecognised key changes nothing. */
  lemma UnknownKeyIgnored(m: map<string, Value>, key: string, v: Value)
    requires ColumnOf(key).None?
    ensures Decode(m[key := v]) == Decode(m)
  {
    forall c ensures Lookup(m[key := v], c) == Lookup(m, c) {
    }
  }

  /** Each text field is its column's text, verbatim for a text value and
      empty for a blob or null, and stays empty when the column is absent. */
  lemma TextFieldsFromColumns(m: map<string, Value>, c: Column)
    requires Decode(m).Some? && c.IsText()
    ensures ColumnName(c) !in m ==> TextField(Decode(m).value, c) == ""
    ensures ColumnName(c) in m ==> TextField(Decode(m).value, c) == ValueIntoString(m[ColumnName(c)])
    ensures ColumnName(c) in m && m[ColumnName(c)].Text? ==> TextField(Decode(m).value, c) == m[ColumnName(c)].s
    ensures ColumnName(c) in m && (m[ColumnName(c)].Null? || m[ColumnName(c)].Binary?) ==> TextField(Decode(m).value, c) == ""
  {
  }

  /** The id column: an integer in the `i32` range is stored as it is; an
      integer outside it, a blob or a null (whose text is empty) fails the
      row; text is parsed as an `i32`. */
  lemma IdFromColumn(m: map<string, Value>)
    requires "id" in m
    ensures m["id"].Integer? && I32_MIN <= m["id"].n <= I32_MAX && Decode(m).Some? ==> Decode(m).value.id == m["id"].n
    ensures m["id"].Integer? && !(I32_MIN <= m["id"].n <= I32_MAX) ==> Decode(m).None?
    ensures m["id"].Null? || m["id"].Binary? ==> Decode(m).None?
    ensures m["id"].Text? && ParseI32(m["id"].s).None? ==> Decode(m).None?
    ensures m["id"].Text? && Decode(m).Some? ==> ParseI32(m["id"].s) == Some(Decode(m).value.id as int)
  {
    assert Lookup(m, Id) == Some(m["id"]);
    if m["id"].Integer? {
      ParseI32OfDecimal(m["id"].n);
    }
  }

  /** The review columns hold `u32`s: a negative or too large integer, a
      blob, a null or non-numeric text fails the row; an integer in range is
      stored as it is. */
  lemma CountFromColumn(m: map<string, Value>, c: Column)
    requires c == ReviewCount || c == ReviewStars
    requires ColumnName(c) in m
    ensures var v := m[ColumnName(c)];
      && (v.Integer? && 0 <= v.n <= U32_MAX && Decode(m).Some? ==>
            (if c == ReviewCount then Decode(m).value.reviewCount else Decode(m).value.reviewStars) == v.n)
      && (v.Integer? && !(0 <= v.n <= U32_MAX) ==> Decode(m).None?)
      && (v.Null? || v.Binary? ==> Decode(m).None?)
      && (v.Text? && ParseU32(v.s).None? ==> Decode(m).None?)
  {
    var v := m[ColumnName(c)];
    assert Lookup(m, c) == Some(v);
    if v.Integer? {
      ParseU32OfDecimal(v.n);
    }
  }

  /** The row a product would be stored as, with integers as `Integer` and
      strings as `String` values; the float cost column is left out. */
  function ToRow(p: Product): map<string, Value> {
    map[
      "id" := Integer(p.id),
      "uid" := Text(p.uid),
      "category" := Text(p.category),
      "sub_category" := Text(p.subCategory),
      "name" := Text(p.name),
      "origin" := Text(p.origin),
      "description" := Text(p.description),
      "color" := Text(p.color),
      "size" := Text(p.size),
      "review_count" := Integer(p.reviewCount),
      "review_stars" := Integer(p.reviewStars)]
  }

  /** The value a product's row holds for a column. */
  function Cell(p: Product, c: Column): Option<Value> {
    match c
    case Id => Some(Integer(p.id))
    case Cost => None
    case ReviewCount => Some(Integer(p.reviewCount))
    case ReviewStars => Some(Integer(p.reviewStars))
    case _ => Some(Text(TextField(p, c)))
  }

  lemma LookupToRow(p: Product, c: Column)
    ensures Lookup(ToRow(p), c) == Cell(p, c)
  {
    match c
    case Id =>
    case Uid =>
    case Category =>
    case SubCategory =>
    case Name =>
    case Origin =>
    case Cost =>
    case Description =>
    case Color =>
    case Size =>
    case ReviewCount =>
    case ReviewStars =>
  }

  /** A row holding, in each column, what a product's row holds decodes to
      that product with the default cost. */
  lemma DecodeCells(m: map<string, Value>, p: Product)
    requires forall c :: Lookup(m, c) == Cell(p, c)
    ensures Decode(m) == Some(p.(cost := Finite(0, 0)))
  {
    var q := p.(cost := Finite(0, 0));
    NumericCells(m, p);
    forall d: Column | d.IsText() ensures TextColumn(m, d) == TextField(q, d) {
      TextCell(m, p, d);
    }
    DecodeOf(m, q);
  }

  lemma TextCell(m: map<string, Value>, p: Product, c: Column)
    requires c.IsText() && Lookup(m, c) == Cell(p, c)
    ensures TextColumn(m, c) == TextField(p, c)
  {
  }

  lemma NumericCells(m: map<string, Value>, p: Product)
    requires forall c :: Lookup(m, c) == Cell(p, c)
    ensures IdColumn(m) == Some(p.id as int) && CostColumn(m) == Some(Finite(0, 0))
    ensures CountColumn(m, ReviewCount) == Some(p.reviewCount as int)
    ensures CountColumn(m, ReviewStars) == Some(p.reviewStars as int)
  {
    assert Lookup(m, Id) == Some(Integer(p.id));
    assert Lookup(m, Cost) == None;
    assert Lookup(m, ReviewCount) == Some(Integer(p.reviewCount));
    assert Lookup(m, ReviewStars) == Some(Integer(p.reviewStars));
    ParseI32OfDecimal(p.id);
    ParseU32OfDecimal(p.reviewCount);
    ParseU32OfDecimal(p.reviewStars);
  }

  /** Mapping a product's own row back gives the product again, on every
      field but the cost, which keeps its default. */
  lemma RoundTrip(p: Product)
    ensures Decode(ToRow(p)) == Some(p.(cost := Finite(0, 0)))
  {
    forall c ensures Lookup(ToRow(p), c) == Cell(p, c) {
      LookupToRow(p, c);
    }
    DecodeCells(ToRow(p), p);
  }
}
