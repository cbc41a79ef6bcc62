/** Decimal text for integers and Rust's `str::parse` for the numeric field
    types the row mapper uses (`i32`, `u32`, `f32`). */
module Numbers {
  import opened Wrappers

  const I32_MIN: int := -0x8000_0000
  const I32_MAX: int := 0x7fff_ffff
  const U32_MAX: int := 0xffff_ffff
  const I64_MIN: int := -0x8000_0000_0000_0000
  const I64_MAX: int := 0x7fff_ffff_ffff_ffff

  type Int32 = x: int | I32_MIN <= x <= I32_MAX
  type Uint32 = x: int | 0 <= x <= U32_MAX
  type Int64 = x: int | I64_MIN <= x <= I64_MAX

  predicate IsDigit(c: char) {
    '0' <= c <= '9'
  }

  predicate AllDigits(s: string) {
    forall i :: 0 <= i < |s| ==> IsDigit(s[i])
  }

  function DigitChar(d: nat): (c: char)
    requires d < 10
    ensures IsDigit(c) && c as int - '0' as int == d
  {
    ('0' as int + d) as char
  }

  /** The decimal digits of n, most significant first, with no leading zero. */
  function NatToDigits(n: nat): (s: string)
    ensures |s| >= 1 && AllDigits(s)
    ensures n < 10 <==> |s| == 1
    ensures s[0] == '0' <==> n == 0
    decreases n
  {
    if n < 10 then [DigitChar(n)] else NatToDigits(n / 10) + [DigitChar(n % 10)]
  }

  /** The value of a string of decimal digits (leading zeros allowed). */
  function DigitsValue(s: string): nat
    requires AllDigits(s)
  {
    if s == [] then 0 else 10 * DigitsValue(s[..|s| - 1]) + (s[|s| - 1] as int - '0' as int)
  }

  lemma {:induction false} DigitsValueOfNatToDigits(n: nat)
    ensures DigitsValue(NatToDigits(n)) == n
    decreases n
  {
    if n >= 10 {
      var s := NatToDigits(n / 10);
      DigitsValueOfNatToDigits(n / 10);
      assert (s + [DigitChar(n % 10)])[..|s|] == s;
    }
  }

  /** Rust's `to_string` of an integer: a '-' for negatives, then the digits
      of the magnitude. */
  function IntToDecimal(n: int): (s: string)
    ensures |s| >= 1
    ensures s[0] == '-' <==> n < 0
    ensures n >= 0 ==> AllDigits(s)
    ensures n < 0 ==> |s| >= 2 && AllDigits(s[1..])
    ensures n > 0 ==> s[0] != '0'
    ensures n < 0 ==> s[1] != '0'
  {
    if n < 0 then "-" + NatToDigits(-n) else NatToDigits(n)
  }

  /** `str::parse` for a Rust integer type whose range is [lo, hi]: an
      optional '+' (or, for a signed type, '-') followed by at least one
      decimal digit, and a value in range. Anything else is an error. */
  function ParseInteger(s: string, signed: bool, lo: int, hi: int): (r: Option<int>)
    ensures r.Some? ==> lo <= r.value <= hi
    ensures s == [] ==> r.None?
  {
    if s == [] then None
    else
      var negative := signed && s[0] == '-';
      var digits := if s[0] == '+' || negative then s[1..] else s;
      if digits == [] || !AllDigits(digits) then None
      else
        var magnitude: int := DigitsValue(digits);
        var n := if negative then -magnitude else magnitude;
        if lo <= n <= hi then Some(n) else None
  }

  /** Text with a character other than a digit after its first, or whose
      first character is neither a digit nor an accepted sign, is rejected;
      so is a sign alone. */
  lemma ParseIntegerRejects(s: string, signed: bool, lo: int, hi: int)
    ensures (exists i :: 0 < i < |s| && !IsDigit(s[i])) ==> ParseInteger(s, signed, lo, hi).None?
    ensures |s| >= 1 && !IsDigit(s[0]) && s[0] != '+' && (s[0] != '-' || !signed) ==> ParseInteger(s, signed, lo, hi).None?
    ensures s == "+" || s == "-" ==> ParseInteger(s, signed, lo, hi).None?
  {
    if exists i :: 0 < i < |s| && !IsDigit(s[i]) {
      var i :| 0 < i < |s| && !IsDigit(s[i]);
      var digits := if s[0] == '+' || (signed && s[0] == '-') then s[1..] else s;
      assert digits[i - (|s| - |digits|)] == s[i];
    }
  }

  /** `str::parse::<i32>()` */
  function ParseI32(s: string): (r: Option<int>)
    ensures r.Some? ==> I32_MIN <= r.value <= I32_MAX
  {
    ParseInteger(s, true, I32_MIN, I32_MAX)
  }

  /** `str::parse::<u32>()`; a leading '-' is always an error for unsigned types. */
  function ParseU32(s: string): (r: Option<int>)
    ensures r.Some? ==> 0 <= r.value <= U32_MAX
    ensures |s| >= 1 && s[0] == '-' ==> r.None?
  {
    ParseInteger(s, false, 0, U32_MAX)
  }

  /** Parsing the decimal text of any integer gives it back exactly when it
      lies in the target range. */
  lemma ParseIntegerOfDecimal(n: int, signed: bool, lo: int, hi: int)
    requires signed || n >= 0
    ensures ParseInteger(IntToDecimal(n), signed, lo, hi) == if lo <= n <= hi then Some(n) else None
  {
    var s := IntToDecimal(n);
    if n < 0 {
      DigitsValueOfNatToDigits(-n);
      assert s[1..] == NatToDigits(-n);
    } else {
      DigitsValueOfNatToDigits(n);
      assert s[0] != '+';
    }
  }

  lemma ParseI32OfDecimal(n: int)
    ensures ParseI32(IntToDecimal(n)) == if I32_MIN <= n <= I32_MAX then Some(n) else None
  {
    ParseIntegerOfDecimal(n, true, I32_MIN, I32_MAX);
  }

  lemma ParseU32OfDecimal(n: int)
    ensures ParseU32(IntToDecimal(n)) == if 0 <= n <= U32_MAX then Some(n) else None
  {
    if n >= 0 {
      ParseIntegerOfDecimal(n, false, 0, U32_MAX);
    }
  }

  /** An `f32` as far as this model tracks it: a finite value is kept as the
      exact decimal mantissa * 10^exponent its text spells (rounding to the
      nearest `f32` is not modelled, and "1.0" and "1" stay distinct
      representations), together with the two non-finite cases Rust's parser
      admits. */
  datatype Float32 = Finite(mantissa: int, exponent: int) | Infinite(negative: bool) | NaN

  /** The position of the first character equal to a or b, or |s| when none is. */
  function FirstIndexOf(s: string, a: char, b: char): (i: nat)
    ensures i <= |s|
    ensures i < |s| ==> s[i] == a || s[i] == b
  {
    if s == [] then 0
    else if s[0] == a || s[0] == b then 0
    else 1 + FirstIndexOf(s[1..], a, b)
  }

  /** An optional sign and at least one digit, with no range limit (the
      exponent of a float literal). */
  function SignedDigits(s: string): (r: Option<int>)
    ensures s == [] ==> r.None?
  {
    if s == [] then None
    else
      var digits := if s[0] == '+' || s[0] == '-' then s[1..] else s;
      if digits == [] || !AllDigits(digits) then None
      else if s[0] == '-' then Some(0 - DigitsValue(digits)) else Some(DigitsValue(digits))
  }

  lemma {:induction false} FirstIndexOfDigits(s: string, a: char, b: char)
    requires AllDigits(s) && !IsDigit(a) && !IsDigit(b)
    ensures FirstIndexOf(s, a, b) == |s|
  {
    if s != [] {
      FirstIndexOfDigits(s[1..], a, b);
    }
  }

  lemma DecimalLiteralOfDigits(s: string)
    requires AllDigits(s) && |s| >= 1
    ensures DecimalLiteral(s) == Some((DigitsValue(s), 0))
  {
    FirstIndexOfDigits(s, 'e', 'E');
    FirstIndexOfDigits(s, '.', '.');
    assert s[..|s|] == s;
    assert s + [] == s;
  }

  /** The value, as digits and a power of ten, of an unsigned decimal
      literal: digits with an optional '.' (at least one digit on some side
      of it) and an optional exponent `e`/`E`, sign, digits. None when the
      text has any other shape. */
  function DecimalLiteral(s: string): (r: Option<(nat, int)>)
    ensures s == [] ==> r.None?
  {
    var e := FirstIndexOf(s, 'e', 'E');
    var mantissa := s[..e];
    var exponent := if e < |s| then SignedDigits(s[e + 1..]) else Some(0);
    var dot := FirstIndexOf(mantissa, '.', '.');
    var whole := mantissa[..dot];
    var fraction := if dot < |mantissa| then mantissa[dot + 1..] else [];
    if exponent.None? || !AllDigits(whole) || !AllDigits(fraction) || |whole| + |fraction| == 0 then None
    else Some((DigitsValue(whole + fraction), exponent.value - |fraction|))
  }

  /** `str::parse::<f32>()`: an optional sign, then "inf", "NaN" or a decimal
      literal. */
  function ParseF32(s: string): (r: Option<Float32>)
    ensures s == [] ==> r.None?
  {
    if s == [] then None
    else
      var negative := s[0] == '-';
      var body := if s[0] == '+' || negative then s[1..] else s;
      // a decimal literal starts with a digit or '.', and any other text is
      // one of the two words or rejected
      if |body| >= 1 && (IsDigit(body[0]) || body[0] == '.') then
        match DecimalLiteral(body)
        case None => None
        case Some((digits, exponent)) => Some(Finite(if negative then 0 - digits else digits, exponent))
      else if body == "inf" then Some(Infinite(negative))
      else if body == "NaN" then Some(NaN)
      else None
  }

  /** The non-finite spellings, as Rust's `Display` writes them for an `f64`. */
  lemma ParseF32NonFinite()
    ensures ParseF32("inf") == Some(Infinite(false))
    ensures ParseF32("-inf") == Some(Infinite(true))
    ensures ParseF32("NaN") == Some(NaN)
  {
    assert "-inf"[1..] == "inf";
  }

  /** Text starting with a digit parses as the decimal literal it is. */
  lemma ParseF32Unsigned(s: string)
    requires |s| >= 1 && IsDigit(s[0])
    ensures DecimalLiteral(s).Some? ==> ParseF32(s) == Some(Finite(DecimalLiteral(s).value.0, DecimalLiteral(s).value.1))
    ensures DecimalLiteral(s).None? ==> ParseF32(s).None?
  {
  }

  /** A '-' and then a digit: the negated decimal literal. */
  lemma ParseF32Negative(s: string)
    requires |s| >= 2 && s[0] == '-' && IsDigit(s[1])
    ensures DecimalLiteral(s[1..]).Some? ==> ParseF32(s) == Some(Finite(0 - DecimalLiteral(s[1..]).value.0, DecimalLiteral(s[1..]).value.1))
    ensures DecimalLiteral(s[1..]).None? ==> ParseF32(s).None?
  {
    assert s[1..][0] == s[1];
  }

  /** The decimal text of an integer parses as a float of the same value. */
  lemma ParseF32OfDecimal(n: int)
    ensures ParseF32(IntToDecimal(n)) == Some(Finite(n, 0))
  {
    if n < 0 {
      ParseF32OfNegative(n);
    } else {
      DigitsValueOfNatToDigits(n);
      DecimalLiteralOfDigits(NatToDigits(n));
      ParseF32Unsigned(NatToDigits(n));
    }
  }

  lemma ParseF32OfNegative(n: int)
    requires n < 0
    ensures ParseF32(IntToDecimal(n)) == Some(Finite(n, 0))
  {
    NegativeDecimalDigits(n);
    ParseF32OfNegativeDigits(IntToDecimal(n), n);
  }

  lemma ParseF32OfNegativeDigits(s: string, n: int)
    requires n < 0 && |s| >= 2 && s[0] == '-' && s[1..] == NatToDigits(-n)
    ensures ParseF32(s) == Some(Finite(n, 0))
  {
    DigitsValueOfNatToDigits(-n);
    ParseF32OfMinusDigits(s);
  }

  /** After its '-', a negative number's text holds the digits of its magnitude. */
  lemma NegativeDecimalDigits(n: int)
    requires n < 0
    ensures IntToDecimal(n)[1..] == NatToDigits(-n)
  {
  }

  /** A '-' followed by digits parses as the negated value of the digits. */
  lemma ParseF32OfMinusDigits(s: string)
    requires |s| >= 2 && s[0] == '-' && AllDigits(s[1..])
    ensures ParseF32(s) == Some(Finite(0 - DigitsValue(s[1..]), 0))
  {
    DecimalLiteralOfDigits(s[1..]);
    assert IsDigit(s[1..][0]);
    ParseF32Negative(s);
  }
}
