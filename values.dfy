/** The store's dynamically typed column value and the one shared rule that
    turns any value into text before a field is filled from it. */
module Values {
  import opened Wrappers
  import opened Numbers

  /** A column value as the SQLite driver hands it over. A float is kept as
      the text its `Display` implementation renders; its binary value is not
      modelled. */
  datatype Value =
    | Binary(bytes: seq<bv8>)
    | Float(display: string)
    | Integer(n: Int64)
    | Text(s: string)
    | Null

  /** `value_into_string`: floats and integers render as their decimal text,
      text is passed through, anything else becomes the empty string. */
  function ValueIntoString(v: Value): (s: string)
    ensures v.Text? ==> s == v.s
    ensures v.Binary? || v.Null? ==> s == ""
    ensures v.Integer? ==> s == IntToDecimal(v.n)
    ensures v.Float? ==> s == v.display
  {
    match v
    case Float(display) => display
    case Integer(n) => IntToDecimal(n)
    case Text(s) => s
    case _ => ""
  }

  /** An integer's text parses back to it as an `i64`, and as any narrower
      integer type exactly when it is in that type's range. */
  lemma IntegerTextParsesBack(n: Int64, signed: bool, lo: int, hi: int)
    requires signed || n >= 0
    ensures ParseInteger(ValueIntoString(Integer(n)), true, I64_MIN, I64_MAX) == Some(n as int)
    ensures ParseInteger(ValueIntoString(Integer(n)), signed, lo, hi) == if lo <= n <= hi then Some(n as int) else None
  {
    ParseIntegerOfDecimal(n, true, I64_MIN, I64_MAX);
    ParseIntegerOfDecimal(n, signed, lo, hi);
  }
}
