/**
 * `JsonDecoder::parseNumber` (src/jsondecoder.cpp), which classifies a number
 * token, and the library conversions it calls (`strtol` in base 16, `atol`).
 * `Digits` and `DecimalText` are a reference notation for integers, the
 * partner against which the conversions are proved.
 */
module Numbers {
  import opened Ascii
  import opened Json
  import opened Failures

  const PLUS: int := '+' as int

  /**
   * The value of `c` as a digit of a base up to 36, or -1 when it is none:
   * only letters and digits have one, digits below ten, letters from ten
   * up in either case.
   */
  function DigitValue(c: int): (d: int)
    ensures -1 <= d < 36
    ensures d >= 0 <==> IsAlnum(c)
    ensures IsDigit(c) <==> 0 <= d < 10
  {
    if IsDigit(c) then c - '0' as int
    else if 'a' as int <= c <= 'z' as int then c - 'a' as int + 10
    else if 'A' as int <= c <= 'Z' as int then c - 'A' as int + 10
    else -1
  }

  /** A digit of `base`: in base 10 exactly the decimal digits, in base 16 the hexadecimal ones. */
  predicate IsDigitOf(c: int, base: nat)
    ensures IsDigitOf(c, base) ==> IsAlnum(c)
    ensures base == 10 ==> (IsDigitOf(c, base) <==> IsDigit(c))
    ensures base == 16 ==> (IsDigitOf(c, base) <==>
              IsDigit(c) || 'a' as int <= c <= 'f' as int || 'A' as int <= c <= 'F' as int)
  {
    0 <= DigitValue(c) < base
  }

  /** The digit loop of `strtol`: `acc` extended by the longest prefix of `s` made of digits of `base`. */
  function Accumulate(s: Text, base: nat, acc: int): (r: int)
    ensures acc >= 0 ==> r >= acc
    ensures s != [] && !IsDigitOf(s[0], base) ==> r == acc
    decreases |s|
  {
    if s != [] && IsDigitOf(s[0], base) then
      MulAtLeast(acc, base);
      Accumulate(s[1..], base, acc * base + DigitValue(s[0]))
    else acc
  }

  lemma {:induction false} MulAtLeast(acc: int, base: nat)
    ensures acc >= 0 && base >= 1 ==> acc * base >= acc
  {
    if acc >= 0 && base >= 1 {
      assert acc * base == acc + acc * (base - 1);
    }
  }

  /** Whether `u` starts with the `0x` or `0X` that `strtol` allows in base 16. */
  predicate HasHexPrefix(u: Text)
  {
    |u| >= 2 && u[0] == '0' as int && (u[1] == 'x' as int || u[1] == 'X' as int)
  }

  /**
   * The magnitude `strtol` reads after the sign: in base 16 an optional
   * `0x` or `0X` and then the digits. When no digit follows the prefix the
   * subject sequence is the `0` alone, whose value is again 0.
   */
  function Magnitude(u: Text, base: nat): (r: int)
    ensures r >= 0
    ensures base == 16 && HasHexPrefix(u) ==> r == Accumulate(u[2..], base, 0)
    ensures !(base == 16 && HasHexPrefix(u)) ==> r == Accumulate(u, base, 0)
  {
    if base == 16 && HasHexPrefix(u) then Accumulate(u[2..], base, 0) else Accumulate(u, base, 0)
  }

  /**
   * `strtol(s, NULL, base)`, and `atol(s)` for base 10, over mathematical
   * integers: leading whitespace is skipped, then an optional sign, then the
   * value of the longest digit prefix, 0 when there is none. The result is
   * negative only after a `-`, and never positive after one.
   */
  function StrToL(s: Text, base: nat): (r: int)
    ensures r < 0 ==> TrimLeft(s) != [] && TrimLeft(s)[0] == MINUS
    ensures r > 0 ==> !(TrimLeft(s) != [] && TrimLeft(s)[0] == MINUS)
    ensures TrimLeft(s) == [] ==> r == 0
  {
    var u := TrimLeft(s);
    if u != [] && u[0] == MINUS then -Magnitude(u[1..], base)
    else if u != [] && u[0] == PLUS then Magnitude(u[1..], base)
    else Magnitude(u, base)
  }

  /** The `0x`/`0X` test of `parseNumber`, which implies the first-character test before it. */
  predicate IsHexToken(t: Text)
    ensures IsHexToken(t) ==> HasHexPrefix(t) && |t| > 2 && IsDigit(t[0])
  {
    |t| > 2 && t[0] == '0' as int && (t[1] == 'x' as int || t[1] == 'X' as int)
  }

  /** The `find` of `.`, `e` or `E` in `parseNumber`: some position holds one of them. */
  predicate IsFloatToken(t: Text)
    ensures IsFloatToken(t) <==>
              exists j :: 0 <= j < |t| && (t[j] == DOT || t[j] == 'e' as int || t[j] == 'E' as int)
  {
    DOT in t || 'e' as int in t || 'E' as int in t
  }

  /**
   * `parseNumber`: the trimmed token must be non-empty ("empty value") and
   * start with a digit or `-`; `0x`/`0X` followed by at least one more
   * character is read in base 16 before any look for `.`, `e` or `E`, which
   * make the token a double; anything else goes through `atol`.
   */
  function ParseNumber(s: Text): (r: Result<JsonValue>)
    ensures r.Ok? ==> r.value.Integer? || r.value.Double?
    ensures r.Fail? <==> Trim(s) == [] || (!IsDigit(Trim(s)[0]) && Trim(s)[0] != MINUS)
  {
    var t := Trim(s);
    if |t| == 0 then Fail(JsonException(EmptyValue))
    else if !IsDigit(t[0]) && t[0] != MINUS then Fail(JsonException(NotDigitOrMinus))
    else if IsHexToken(t) then Ok(Integer(StrToL(t[2..], 16)))
    else if IsFloatToken(t) then Ok(Double(t))
    else Ok(Integer(StrToL(t, 10)))
  }

  // ---------------------------------------------------------------------
  // Reference notation for integers
  // ---------------------------------------------------------------------

  function DigitChar(d: nat): (c: int)
    requires d < 16
    ensures DigitValue(c) == d
  {
    if d < 10 then '0' as int + d else 'a' as int + (d - 10)
  }

  /** `n` written in `base`, most significant digit first, lower-case letters. */
  function Digits(n: nat, base: nat): (t: Text)
    requires 2 <= base <= 16
    ensures t != [] && forall j :: 0 <= j < |t| ==> IsDigitOf(t[j], base)
    decreases n
  {
    if n < base then [DigitChar(n)] else Digits(n / base, base) + [DigitChar(n % base)]
  }

  /** `n` in decimal, with a leading `-` when negative. */
  function DecimalText(n: int): Text
  {
    if n < 0 then [MINUS] + Digits(-n, 10) else Digits(n, 10)
  }

  lemma {:induction false} AccumulateConcat(x: Text, y: Text, base: nat, acc: int)
    requires forall j :: 0 <= j < |x| ==> IsDigitOf(x[j], base)
    ensures Accumulate(x + y, base, acc) == Accumulate(y, base, Accumulate(x, base, acc))
    decreases |x|
  {
    if x != [] {
      assert (x + y)[0] == x[0];
      assert (x + y)[1..] == x[1..] + y;
      AccumulateConcat(x[1..], y, base, acc * base + DigitValue(x[0]));
    } else {
      assert x + y == y;
    }
  }

  lemma {:induction false} AccumulateOne(c: int, base: nat, acc: int)
    requires IsDigitOf(c, base)
    ensures Accumulate([c], base, acc) == acc * base + DigitValue(c)
  {
    assert [c][1..] == [];
  }

  lemma {:induction false} DivLess(n: nat, base: nat)
    requires 2 <= base <= n
    ensures n / base < n
  {
    var q := n / base;
    assert q * base <= n;
    assert q * base >= q * 2 by { assert base >= 2; }
  }

  lemma {:induction false} DivMod(n: nat, base: nat)
    requires base > 0
    ensures (n / base) * base + n % base == n
  {
  }

  /** Reading the digits of `n` back gives `n`. */
  lemma {:induction false} AccumulateDigits(n: nat, base: nat)
    requires 2 <= base <= 16
    ensures Accumulate(Digits(n, base), base, 0) == n
    decreases n
  {
    if n < base {
      AccumulateOne(DigitChar(n), base, 0);
    } else {
      var q, m := n / base, n % base;
      DivLess(n, base);
      var d := DigitChar(m);
      assert Digits(n, base) == Digits(q, base) + [d];
      calc {
        Accumulate(Digits(n, base), base, 0);
        Accumulate(Digits(q, base) + [d], base, 0);
        { AccumulateConcat(Digits(q, base), [d], base, 0); }
        Accumulate([d], base, Accumulate(Digits(q, base), base, 0));
        { AccumulateDigits(q, base); }
        Accumulate([d], base, q);
        { AccumulateOne(d, base, q); }
        q * base + m;
        { DivMod(n, base); }
        n;
      }
    }
  }

  /** `atol` inverts the decimal notation, sign included. */
  lemma {:induction false} StrToLDecimal(n: int)
    ensures StrToL(DecimalText(n), 10) == n
  {
    if n < 0 {
      AccumulateDigits(-n, 10);
      assert ([MINUS] + Digits(-n, 10))[1..] == Digits(-n, 10);
    } else {
      AccumulateDigits(n, 10);
    }
  }

  lemma {:induction false} NoSpaceAppend(a: Text, b: Text)
    requires NoSpace(a) && NoSpace(b)
    ensures NoSpace(a + b)
  {
  }

  /** A digit string has no sign and no whitespace, and `strtol` reads it back. */
  lemma {:induction false} StrToLDigits(n: nat, base: nat)
    requires 2 <= base <= 16
    ensures NoSpace(Digits(n, base)) && StrToL(Digits(n, base), base) == n
  {
    var d := Digits(n, base);
    assert IsDigitOf(d[0], base);
    assert d[0] != MINUS && d[0] != PLUS;
    AccumulateDigits(n, base);
  }

  /** Decimal text is a plain token: digits and possibly a leading `-`, never hex, never a double. */
  lemma {:induction false} DecimalTextShape(n: int)
    ensures var t := DecimalText(n);
            NoSpace(t) && t != [] && (IsDigit(t[0]) || t[0] == MINUS) && !IsHexToken(t) && !IsFloatToken(t)
  {
    var t := DecimalText(n);
    assert forall j :: 0 <= j < |t| ==> IsDigit(t[j]) || t[j] == MINUS;
    assert |t| > 1 ==> IsDigit(t[1]);
  }

  /** Every integer written in decimal is classified and converted back to itself. */
  lemma {:induction false} ParseDecimalRoundTrip(n: int)
    ensures ParseNumber(DecimalText(n)) == Ok(Integer(n))
  {
    DecimalTextShape(n);
    ParseDecimalToken(DecimalText(n));
    StrToLDecimal(n);
  }

  /** The hexadecimal extension: `0x` followed by the base-16 digits of `n` gives `n`. */
  lemma {:induction false} ParseHexRoundTrip(n: nat)
    ensures ParseNumber(Chars("0x") + Digits(n, 16)) == Ok(Integer(n))
  {
    var d := Digits(n, 16);
    var t := Chars("0x") + d;
    assert Chars("0x") == ['0' as int, 'x' as int];
    StrToLDigits(n, 16);
    NoSpaceAppend(Chars("0x"), d);
    assert t[2..] == d;
    ParseHexToken(t);
  }

  /** A token without whitespace that starts with `0x` or `0X` is read in base 16 from its third character. */
  lemma {:induction false} ParseHexToken(t: Text)
    requires NoSpace(t) && IsHexToken(t)
    ensures ParseNumber(t) == Ok(Integer(StrToL(t[2..], 16)))
  {
  }

  /** Any other token starting with a digit or `-` and holding `.`, `e` or `E` is a double. */
  lemma {:induction false} ParseFloatToken(t: Text)
    requires NoSpace(t) && t != [] && (IsDigit(t[0]) || t[0] == MINUS)
    requires !IsHexToken(t) && IsFloatToken(t)
    ensures ParseNumber(t) == Ok(Double(t))
  {
    assert Trim(t) == t;
  }

  /** The remaining tokens starting with a digit or `-` go through `atol`. */
  lemma {:induction false} ParseDecimalToken(t: Text)
    requires NoSpace(t) && t != [] && (IsDigit(t[0]) || t[0] == MINUS)
    requires !IsHexToken(t) && !IsFloatToken(t)
    ensures ParseNumber(t) == Ok(Integer(StrToL(t, 10)))
  {
    assert Trim(t) == t;
  }

  /** `1e5` in base 16 is 485. */
  lemma {:induction false} Hex485(u: Text)
    requires u == ['1' as int, 'e' as int, '5' as int]
    ensures StrToL(u, 16) == 485
  {
    assert Digits(1, 16) == ['1' as int];
    assert Digits(30, 16) == Digits(1, 16) + [DigitChar(14)];
    assert Digits(485, 16) == Digits(30, 16) + [DigitChar(5)];
    assert Digits(485, 16) == u;
    AccumulateDigits(485, 16);
  }

  /** `e` is a hexadecimal digit, and the base-16 test runs first: `0x1e5` is 485, not a double. */
  lemma {:induction false} HexBeforeFloat()
    ensures ParseNumber(Chars("0x1e5")) == Ok(Integer(485))
  {
    var t := Chars("0x1e5");
    assert t == ['0' as int, 'x' as int, '1' as int, 'e' as int, '5' as int];
    HexBeforeFloatToken(t);
  }

  lemma {:induction false} HexBeforeFloatToken(t: Text)
    requires t == ['0' as int, 'x' as int, '1' as int, 'e' as int, '5' as int]
    ensures ParseNumber(t) == Ok(Integer(485))
  {
    assert t[2..] == ['1' as int, 'e' as int, '5' as int];
    Hex485(t[2..]);
    assert NoSpace(t);
    ParseHexToken(t);
  }

  /** `strtol` in base 16 skips a `0x` of its own: `0x1` is 1. */
  lemma {:induction false} StrtolSkipsPrefix(u: Text)
    requires u == ['0' as int, 'x' as int, '1' as int]
    ensures StrToL(u, 16) == 1
  {
    assert TrimLeft(u) == u && HasHexPrefix(u);
    assert u[2..] == ['1' as int];
    AccumulateOne('1' as int, 16, 0);
  }

  /**
   * The prefix is then accepted twice: `0x0x1` passes the test of
   * `parseNumber`, and `strtol` reads `0x1` as 1.
   */
  lemma {:induction false} HexPrefixTwice()
    ensures ParseNumber(Chars("0x0x1")) == Ok(Integer(1))
  {
    var t := Chars("0x0x1");
    assert t == ['0' as int, 'x' as int, '0' as int, 'x' as int, '1' as int];
    HexPrefixTwiceToken(t);
  }

  lemma {:induction false} HexPrefixTwiceToken(t: Text)
    requires t == ['0' as int, 'x' as int, '0' as int, 'x' as int, '1' as int]
    ensures ParseNumber(t) == Ok(Integer(1))
  {
    assert NoSpace(t) && IsHexToken(t);
    ParseHexToken(t);
    assert t[2..] == ['0' as int, 'x' as int, '1' as int];
    StrtolSkipsPrefix(t[2..]);
  }

  /** `atol` stops at the `x` of `-0x1A`, after the digit 0. */
  lemma {:induction false} AtolStopsAtX(u: Text)
    requires u == ['-' as int, '0' as int, 'x' as int, '1' as int, 'A' as int]
    ensures StrToL(u, 10) == 0
  {
    assert TrimLeft(u) == u;
    assert u[1..] == ['0' as int, 'x' as int, '1' as int, 'A' as int];
    DecimalZeroBeforeX(u[1..]);
  }

  lemma {:induction false} DecimalZeroBeforeX(a: Text)
    requires a == ['0' as int, 'x' as int, '1' as int, 'A' as int]
    ensures Magnitude(a, 10) == 0
  {
    assert a[1..][0] == 'x' as int;
    assert Accumulate(a[1..], 10, 0) == 0;
    assert Accumulate(a, 10, 0) == Accumulate(a[1..], 10, 0);
  }

  /** A minus sign defeats the hexadecimal test: `-0x1A` goes through `atol` and is 0. */
  lemma {:induction false} NegativeHexIsDecimal()
    ensures ParseNumber(Chars("-0x1A")) == Ok(Integer(0))
  {
    var t := Chars("-0x1A");
    assert t == ['-' as int, '0' as int, 'x' as int, '1' as int, 'A' as int];
    NegativeHexToken(t);
  }

  lemma {:induction false} NegativeHexToken(t: Text)
    requires t == ['-' as int, '0' as int, 'x' as int, '1' as int, 'A' as int]
    ensures ParseNumber(t) == Ok(Integer(0))
  {
    AtolStopsAtX(t);
    assert NoSpace(t) by { assert forall j :: 0 <= j < |t| ==> !IsSpace(t[j]); }
    assert !IsFloatToken(t) by { assert DOT !in t && 'e' as int !in t && 'E' as int !in t; }
    ParseDecimalToken(t);
  }

  /** A `.` makes a double, whose token is kept unconverted. */
  lemma {:induction false} FractionIsDouble()
    ensures ParseNumber(Chars("1.5")) == Ok(Double(Chars("1.5")))
  {
    var t := Chars("1.5");
    assert t == ['1' as int, '.' as int, '5' as int];
    assert t[1] == DOT && NoSpace(t);
    ParseFloatToken(t);
  }

  /** So does an upper-case exponent. */
  lemma {:induction false} ExponentIsDouble()
    ensures ParseNumber(Chars("2E3")) == Ok(Double(Chars("2E3")))
  {
    var t := Chars("2E3");
    assert t == ['2' as int, 'E' as int, '3' as int];
    assert t[1] == 'E' as int && NoSpace(t);
    ParseFloatToken(t);
  }

  /** A token without whitespace that starts with neither a digit nor `-` is rejected. */
  lemma {:induction false} ParseBadStart(t: Text)
    requires NoSpace(t) && t != [] && !IsDigit(t[0]) && t[0] != MINUS
    ensures ParseNumber(t) == Fail(JsonException(NotDigitOrMinus))
  {
    assert Trim(t) == t;
  }

  /** An empty token and one starting with anything but a digit or `-` are rejected. */
  lemma {:induction false} BadTokens()
    ensures ParseNumber([]) == Fail(JsonException(EmptyValue))
    ensures ParseNumber(Chars(".5")) == Fail(JsonException(NotDigitOrMinus))
    ensures ParseNumber(Chars("+1")) == Fail(JsonException(NotDigitOrMinus))
  {
    var t, u := Chars(".5"), Chars("+1");
    assert t == ['.' as int, '5' as int] && u == ['+' as int, '1' as int];
    ParseBadStart(t);
    ParseBadStart(u);
    assert |Trim([])| <= 0;
  }
}
