/** The two number parsers the source relies on, stated over exact
    numbers: `str::parse::<f32>()` (its decimal grammar, with the value
    kept as a `real`, so the rounding to the nearest f32 is not modelled)
    and `u8::from_str_radix`. */
module Numbers {
  import opened Wrappers

  /** `char::to_digit(radix)` for radix 2..36. */
  function DigitValue(c: char, radix: nat): Option<nat>
    requires 2 <= radix <= 36
  {
    var d: int :=
      if '0' <= c <= '9' then c as int - '0' as int
      else if 'a' <= c <= 'z' then c as int - 'a' as int + 10
      else if 'A' <= c <= 'Z' then c as int - 'A' as int + 10
      else 99;
    if 0 <= d < radix then Some(d) else None
  }

  predicate AllDigits(s: string, radix: nat)
    requires 2 <= radix <= 36
  {
    forall i :: 0 <= i < |s| ==> DigitValue(s[i], radix).Some?
  }

  /** The number written by a digit string, most significant digit
      first. */
  function DigitsValue(s: string, radix: nat): nat
    requires 2 <= radix <= 36
    requires AllDigits(s, radix)
  {
    if |s| == 0 then 0
    else DigitsValue(s[..|s| - 1], radix) * radix + DigitValue(s[|s| - 1], radix).value
  }

  /** `u8::from_str_radix(s, radix)`: an optional `+`, then one or more
      digits of the radix; the value must fit in a byte. A lone sign, an
      empty string, any other character or an overflow is an error. */
  function ParseByte(s: string, radix: nat): (r: Option<nat>)
    requires 2 <= radix <= 36
    ensures r.Some? ==> r.value < 256
    ensures r.Some? ==> |s| > 0 && s != "+"
  {
    if |s| == 0 || s == "+" || s == "-" then None
    else
      var digits := if s[0] == '+' then s[1..] else s;
      if AllDigits(digits, radix) && DigitsValue(digits, radix) < 256
      then Some(DigitsValue(digits, radix))
      else None
  }

  const HexDigits := "0123456789abcdef"

  /** Two lower-case hexadecimal digits for a byte, high nibble first. */
  function HexByte(b: nat): (s: string)
    requires b < 256
    ensures |s| == 2
  {
    [HexDigits[b / 16], HexDigits[b % 16]]
  }

  lemma {:induction false} HexDigitValue(k: nat)
    requires k < 16
    ensures DigitValue(HexDigits[k], 16) == Some(k)
  {
  }

  /** Every byte printed as two hex digits parses back to itself. */
  lemma {:induction false} ParseHexByte(b: nat)
    requires b < 256
    ensures ParseByte(HexByte(b), 16) == Some(b)
  {
    var s := HexByte(b);
    HexDigitValue(b / 16);
    HexDigitValue(b % 16);
    assert AllDigits(s, 16);
    assert s[..1][..0] == "";
    assert DigitsValue(s[..1], 16) == b / 16;
    assert s[..|s| - 1] == s[..1];
  }

  /** Index of the first character of `s` that is in `cs`, or `|s|`. */
  function IndexOfAny(s: string, cs: set<char>): (i: nat)
    ensures i <= |s|
    ensures forall k :: 0 <= k < i ==> s[k] !in cs
    ensures i < |s| ==> s[i] in cs
  {
    if |s| == 0 then 0
    else if s[0] in cs then 0
    else 1 + IndexOfAny(s[1..], cs)
  }

  function Pow10(e: int): (r: real)
    ensures r > 0.0
    decreases if e < 0 then -e else e
  {
    if e == 0 then 1.0
    else if e > 0 then 10.0 * Pow10(e - 1)
    else Pow10(e + 1) / 10.0
  }

  /** An optionally signed decimal integer with at least one digit: the
      exponent of a float literal. */
  function ParseExponent(s: string): Option<int>
  {
    var neg := |s| > 0 && s[0] == '-';
    var digits := if |s| > 0 && (s[0] == '+' || s[0] == '-') then s[1..] else s;
    if |digits| > 0 && AllDigits(digits, 10) then
      Some(if neg then -(DigitsValue(digits, 10) as int) else DigitsValue(digits, 10) as int)
    else None
  }

  /** The mantissa of a float literal: `Digit* ('.' Digit*)?` with at
      least one digit on either side of the point. */
  function ParseMantissa(m: string): Option<real>
  {
    var d := IndexOfAny(m, {'.'});
    var whole := m[..d];
    var fraction := if d < |m| then m[d + 1..] else "";
    if AllDigits(whole, 10) && AllDigits(fraction, 10) && |whole| + |fraction| > 0 then
      Some(DigitsValue(whole, 10) as real + DigitsValue(fraction, 10) as real / Pow10(|fraction|))
    else None
  }

  /** An unsigned float literal: a mantissa, then optionally `e` or `E`
      and an exponent. */
  function ParseUnsignedDecimal(s: string): Option<real>
  {
    var e := IndexOfAny(s, {'e', 'E'});
    if e == |s| then ParseMantissa(s)
    else
      match (ParseMantissa(s[..e]), ParseExponent(s[e + 1..]))
      case (Some(m), Some(x)) => Some(m * Pow10(x))
      case _ => None
  }

  /** Some character of `s` is a decimal digit. */
  predicate HasDigit(s: string) {
    exists i :: 0 <= i < |s| && '0' <= s[i] <= '9'
  }

  /** `str::parse::<f32>()` over exact numbers: an optional sign followed
      by an unsigned literal. The `inf`, `infinity` and `nan` spellings
      have no `real` value and are not accepted here. Every accepted
      string holds a digit, and a plain digit string is read as the
      integer it writes. */
  function ParseF32(s: string): (r: Option<real>)
    ensures r.Some? ==> HasDigit(s)
    ensures |s| > 0 && AllDigits(s, 10) ==> r == Some(DigitsValue(s, 10) as real)
  {
    if |s| > 0 && (s[0] == '+' || s[0] == '-') then
      SignedHasDigit(s);
      assert DigitValue(s[0], 10).None?;
      match ParseUnsignedDecimal(s[1..])
      case Some(v) => Some(if s[0] == '-' then -v else v)
      case None => None
    else
      UnsignedHasDigit(s);
      if |s| > 0 && AllDigits(s, 10) then
        ParseDigitString(s);
        ParseUnsignedDecimal(s)
      else ParseUnsignedDecimal(s)
  }

  /** A digit after a leading sign is a digit of the whole string. */
  lemma {:induction false} SignedHasDigit(s: string)
    requires |s| > 0
    ensures ParseUnsignedDecimal(s[1..]).Some? ==> HasDigit(s)
  {
    UnsignedHasDigit(s[1..]);
    if ParseUnsignedDecimal(s[1..]).Some? {
      var i :| 0 <= i < |s[1..]| && '0' <= s[1..][i] <= '9';
      assert s[i + 1] == s[1..][i];
    }
  }

  /** The decimal digits of a natural number, most significant first. */
  function DecimalString(n: nat): (s: string)
    ensures |s| > 0
    ensures forall i :: 0 <= i < |s| ==> '0' <= s[i] <= '9'
  {
    if n < 10 then [HexDigits[n]]
    else DecimalString(n / 10) + [HexDigits[n % 10]]
  }

  lemma {:induction false} DecimalStringValue(n: nat)
    ensures AllDigits(DecimalString(n), 10)
    ensures DigitsValue(DecimalString(n), 10) == n
    decreases n
  {
    var s := DecimalString(n);
    if n < 10 {
      assert s[..0] == "";
    } else {
      DecimalStringValue(n / 10);
      assert s[..|s| - 1] == DecimalString(n / 10);
    }
  }

  lemma {:induction false} IndexOfAbsent(s: string, cs: set<char>)
    requires forall k :: 0 <= k < |s| ==> s[k] !in cs
    ensures IndexOfAny(s, cs) == |s|
  {
  }

  lemma {:induction false} DecimalDigitRange(c: char)
    requires DigitValue(c, 10).Some?
    ensures '0' <= c <= '9'
  {
  }

  /** A digit string holds no decimal point and no exponent marker. */
  lemma {:induction false} NoPointOrExponent(s: string)
    requires AllDigits(s, 10)
    ensures IndexOfAny(s, {'e', 'E'}) == |s| && IndexOfAny(s, {'.'}) == |s|
  {
    forall k | 0 <= k < |s| ensures s[k] != 'e' && s[k] != 'E' && s[k] != '.' {
      DecimalDigitRange(s[k]);
    }
    IndexOfAbsent(s, {'e', 'E'});
    IndexOfAbsent(s, {'.'});
  }

  lemma {:induction false} MantissaOfDigits(s: string)
    requires |s| > 0 && AllDigits(s, 10)
    requires IndexOfAny(s, {'.'}) == |s|
    ensures ParseMantissa(s) == Some(DigitsValue(s, 10) as real)
  {
    assert s[..|s|] == s;
    assert ParseMantissa(s).value == DigitsValue(s, 10) as real + DigitsValue("", 10) as real / Pow10(0);
  }

  /** A plain digit string is read as the integer it writes. */
  lemma {:induction false} ParseDigitString(s: string)
    requires |s| > 0 && AllDigits(s, 10)
    ensures ParseUnsignedDecimal(s) == Some(DigitsValue(s, 10) as real)
  {
    NoPointOrExponent(s);
    MantissaOfDigits(s);
  }

  /** An accepted mantissa holds a digit before or after its point. */
  lemma {:induction false} MantissaHasDigit(m: string)
    ensures ParseMantissa(m).Some? ==> HasDigit(m)
  {
    var d := IndexOfAny(m, {'.'});
    var whole := m[..d];
    var fraction := if d < |m| then m[d + 1..] else "";
    if ParseMantissa(m).Some? {
      if |whole| > 0 {
        DecimalDigitRange(whole[0]);
        assert m[0] == whole[0];
      } else {
        DecimalDigitRange(fraction[0]);
        assert m[d + 1] == fraction[0];
      }
    }
  }

  /** An accepted unsigned literal holds a digit in its mantissa. */
  lemma {:induction false} UnsignedHasDigit(s: string)
    ensures ParseUnsignedDecimal(s).Some? ==> HasDigit(s)
  {
    var e := IndexOfAny(s, {'e', 'E'});
    if ParseUnsignedDecimal(s).Some? {
      if e == |s| {
        MantissaHasDigit(s);
      } else {
        MantissaHasDigit(s[..e]);
        var i :| 0 <= i < |s[..e]| && '0' <= s[..e][i] <= '9';
        assert s[i] == s[..e][i];
      }
    }
  }

  /** Decimal digits are base-16 digits too, and read in base 16 they
      write the same number when there is one digit and a larger one
      when there are more. */
  lemma {:induction false} DecimalStringInHex(n: nat)
    ensures AllDigits(DecimalString(n), 16)
    ensures n < 10 ==> DigitsValue(DecimalString(n), 16) == n
    ensures n >= 10 ==> DigitsValue(DecimalString(n), 16) > n
    decreases n
  {
    var s := DecimalString(n);
    if n < 10 {
      HexDigitValue(n);
      assert s[..0] == "";
    } else {
      DecimalStringInHex(n / 10);
      HexDigitValue(n % 10);
      assert s[..|s| - 1] == DecimalString(n / 10);
      assert forall i :: 0 <= i < |s| - 1 ==> s[i] == s[..|s| - 1][i];
    }
  }

  /** A byte written in decimal and read back in base 16 is itself
      exactly when it is a single digit; 255 reads as 0x255, which is no
      byte. */
  lemma {:induction false} DecimalByteInHex(b: nat)
    requires b < 256
    ensures b < 10 <==> ParseByte(DecimalString(b), 16) == Some(b)
    ensures b == 255 ==> ParseByte(DecimalString(b), 16).None?
  {
    DecimalStringInHex(b);
  }

  lemma {:induction false} ParseDecimalByte(b: nat)
    requires b < 256
    ensures ParseByte(DecimalString(b), 10) == Some(b)
  {
    DecimalStringValue(b);
  }

  /** A natural number printed in decimal parses back to itself. */
  lemma {:induction false} ParseDecimalString(n: nat)
    ensures ParseF32(DecimalString(n)) == Some(n as real)
  {
    var s := DecimalString(n);
    DecimalStringValue(n);
    ParseDigitString(s);
  }

  /** The first index holding a character of `cs` is found. */
  lemma {:induction false} IndexOfFirst(s: string, cs: set<char>, i: nat)
    requires i < |s| && s[i] in cs
    requires forall k :: 0 <= k < i ==> s[k] !in cs
    ensures IndexOfAny(s, cs) == i
  {
  }

  /** The value of the decimal `a.b`: the whole part plus the digits
      after the point scaled down by their count. */
  function PointedValue(a: string, b: string): real
    requires AllDigits(a, 10) && AllDigits(b, 10)
  {
    DigitsValue(a, 10) as real + DigitsValue(b, 10) as real / Pow10(|b|)
  }

  /** Digits, a point, digits: the mantissa splits at the point. */
  lemma {:induction false} MantissaPointed(a: string, b: string)
    requires AllDigits(a, 10) && AllDigits(b, 10) && |a| > 0
    ensures ParseMantissa(a + "." + b) == Some(PointedValue(a, b))
  {
    var s := a + "." + b;
    NoPointOrExponent(a);
    assert forall k :: 0 <= k < |a| ==> s[k] == a[k];
    IndexOfFirst(s, {'.'}, |a|);
    assert s[..|a|] == a;
    assert s[|a| + 1..] == b;
  }

  /** Digits around one point hold no exponent marker. */
  lemma {:induction false} PointedHasNoExponent(a: string, b: string)
    requires AllDigits(a, 10) && AllDigits(b, 10)
    ensures IndexOfAny(a + "." + b, {'e', 'E'}) == |a + "." + b|
  {
    var s := a + "." + b;
    NoPointOrExponent(a);
    NoPointOrExponent(b);
    forall k | 0 <= k < |s| ensures s[k] !in {'e', 'E'} {
      if k < |a| {
        assert s[k] == a[k];
      } else if k > |a| {
        assert s[k] == b[k - |a| - 1];
      }
    }
    IndexOfAbsent(s, {'e', 'E'});
  }

  /** A decimal fraction written as digits, a point and digits parses to
      the whole part plus the fraction digits scaled down by their
      count. */
  lemma {:induction false} ParsePointed(a: string, b: string)
    requires AllDigits(a, 10) && AllDigits(b, 10) && |a| > 0
    ensures ParseF32(a + "." + b) == Some(PointedValue(a, b))
  {
    var s := a + "." + b;
    assert s[0] == a[0];
    DecimalDigitRange(a[0]);
    UnsignedIsUnsigned(s);
    PointedHasNoExponent(a, b);
    NoExponentIsMantissa(s);
    MantissaPointed(a, b);
  }

  /** Text that does not start with a sign is read without one. */
  lemma {:induction false} UnsignedIsUnsigned(s: string)
    requires |s| > 0 && s[0] != '+' && s[0] != '-'
    ensures ParseF32(s) == ParseUnsignedDecimal(s)
  {
  }

  /** Text without an exponent marker is read as a bare mantissa. */
  lemma {:induction false} NoExponentIsMantissa(s: string)
    requires IndexOfAny(s, {'e', 'E'}) == |s|
    ensures ParseUnsignedDecimal(s) == ParseMantissa(s)
  {
  }

  /** One decimal digit reads as its value. */
  lemma {:induction false} SingleDigit(d: nat)
    requires d < 10
    ensures AllDigits([HexDigits[d]], 10) && DigitsValue([HexDigits[d]], 10) == d
  {
    var s := [HexDigits[d]];
    HexDigitValue(d);
    assert s[..0] == "";
  }

  /** A leading minus sign negates the parsed value and changes nothing
      else. */
  lemma {:induction false} ParseNegated(t: string)
    requires |t| == 0 || (t[0] != '+' && t[0] != '-')
    ensures ParseF32("-" + t) ==
      match ParseF32(t)
      case Some(v) => Some(-v)
      case None => None
  {
    MinusReadsUnsigned(t);
    if |t| > 0 {
      UnsignedIsUnsigned(t);
    }
  }

  lemma {:induction false} MinusReadsUnsigned(t: string)
    ensures ParseF32("-" + t) ==
      match ParseUnsignedDecimal(t)
      case Some(v) => Some(-v)
      case None => None
  {
    assert ("-" + t)[1..] == t;
  }
}
