/**
 * The numbers of the format: recognising numeric text as `isNaN` does,
 * reading it as `Number.parseInt` / `Number.parseFloat` do, and printing
 * a number back as JavaScript's number-to-string does. Only plain decimal
 * text is recognised (no exponent, hexadecimal or `Infinity`), and a float
 * is kept as the exact decimal it was written as, so rounding to double
 * precision is not modelled.
 */
module Numbers {
  import opened Wrappers
  import opened Strings

  function DigitValue(c: char): nat
    requires IsDigit(c)
  {
    c as int - '0' as int
  }

  function DigitChar(d: nat): (c: char)
    requires d < 10
    ensures IsDigit(c) && DigitValue(c) == d
  {
    ('0' as int + d) as char
  }

  /** The value of a string of decimal digits; the empty string reads as 0. */
  function DigitsValue(ds: string): nat
    requires AllDigits(ds)
  {
    if ds == [] then 0 else 10 * DigitsValue(ds[..|ds| - 1]) + DigitValue(ds[|ds| - 1])
  }

  /** The decimal digits of `n`, without leading zeros. */
  function NatToString(n: nat): (r: string)
    ensures |r| >= 1 && AllDigits(r)
    ensures DigitsValue(r) == n
    ensures r[0] == '0' ==> r == "0"
  {
    if n < 10 then [DigitChar(n)]
    else
      var r := NatToString(n / 10) + [DigitChar(n % 10)];
      assert r[..|r| - 1] == NatToString(n / 10);
      r
  }

  /**
   * `Number.isSafeInteger`: the integers a JavaScript number holds exactly,
   * whose text has no exponent and reads back as the same number.
   */
  predicate IsSafeInteger(i: int) {
    -9007199254740991 <= i <= 9007199254740991
  }

  /** JavaScript's text of an integer: an optional minus sign and the digits. */
  function IntToString(i: int): (r: string)
    ensures |r| >= 1
  {
    if i < 0 then "-" + NatToString(-i) else NatToString(i)
  }

  /**
   * A plain decimal literal taken apart: an optional minus sign, the
   * integer digits and, after an optional point, the fraction digits.
   */
  datatype Literal = Literal(negative: bool, intDigits: string, hasPoint: bool, fracDigits: string)

  /** There is at least one digit, and fraction digits only after a point. */
  predicate WellFormed(l: Literal) {
    && AllDigits(l.intDigits) && AllDigits(l.fracDigits)
    && |l.intDigits| + |l.fracDigits| >= 1
    && (!l.hasPoint ==> l.fracDigits == "")
  }

  /** The text of a literal after its sign. */
  function Unsigned(l: Literal): string {
    l.intDigits + (if l.hasPoint then "." + l.fracDigits else "")
  }

  function LiteralText(l: Literal): string {
    (if l.negative then "-" else "") + Unsigned(l)
  }

  /** Reads `-?D*(.D*)?` with at least one digit; None for any other text. */
  function ScanLiteral(t: string): (r: Option<Literal>)
    ensures r.Some? ==> WellFormed(r.value) && LiteralText(r.value) == t
  {
    if |t| > 0 && t[0] == '-' then
      assert t == "-" + t[1..];
      ScanUnsigned(true, t[1..])
    else
      assert t == "" + t;
      ScanUnsigned(false, t)
  }

  /** Reads `D*(.D*)?` with at least one digit as a literal of the given sign. */
  function ScanUnsigned(negative: bool, u: string): (r: Option<Literal>)
    ensures r.Some? ==> WellFormed(r.value) && r.value.negative == negative && Unsigned(r.value) == u
  {
    var d := Span(u, 0, Digits);
    SpanRun(u, 0, Digits);
    if d == |u| then
      if d > 0 then Some(Literal(negative, u, false, "")) else None
    else if u[d] == '.' && AllDigits(u[d + 1..]) && |u| > 1 then
      assert u == u[..d] + "." + u[d + 1..];
      Some(Literal(negative, u[..d], true, u[d + 1..]))
    else None
  }

  /** Every well-formed literal is read back as itself: the converse of `ScanLiteral`'s contract. */
  lemma ScanLiteralComplete(l: Literal)
    requires WellFormed(l)
    ensures ScanLiteral(LiteralText(l)) == Some(l)
  {
    var t := LiteralText(l);
    var u := Unsigned(l);
    if l.negative {
      assert t[0] == '-' && t[1..] == u;
    } else {
      assert t == u;
      if |u| > 0 {
        if |l.intDigits| > 0 { assert u[0] == l.intDigits[0]; } else { assert u[0] == '.'; }
      }
    }
    ScanUnsignedComplete(l);
  }

  lemma ScanUnsignedComplete(l: Literal)
    requires WellFormed(l)
    ensures ScanUnsigned(l.negative, Unsigned(l)) == Some(l)
  {
    var u := Unsigned(l);
    var d := |l.intDigits|;
    assert u[..d] == l.intDigits;
    SpanOfDigits(u, l.intDigits);
    if l.hasPoint {
      assert u[d] == '.';
      assert u[d + 1..] == l.fracDigits;
    }
  }

  lemma SpanOfDigits(u: string, ds: string)
    requires AllDigits(ds) && StartsWith(u, ds)
    requires |u| > |ds| ==> !IsDigit(u[|ds|])
    ensures Span(u, 0, Digits) == |ds|
  {
    SpanRun(u, 0, Digits);
  }

  /**
   * `!isNaN(text)` on the texts this model reads: `Number` trims
   * whitespace, reads blank text as 0 and otherwise needs a decimal literal.
   */
  predicate IsNumericText(text: string) {
    var t := Trim(text);
    t == "" || ScanLiteral(t).Some?
  }

  /** Text that starts with none of a digit, a sign or a point, and has no surrounding whitespace, is not numeric. */
  lemma NotNumericText(t: string)
    requires |t| > 0 && !IsWhitespace(t[0]) && !IsWhitespace(t[|t| - 1])
    requires !IsDigit(t[0]) && t[0] != '-' && t[0] != '.'
    ensures !IsNumericText(t)
  {
    TrimOf("", t, "");
    assert "" + t + "" == t;
    assert Span(t, 0, Digits) == 0;
  }

  /** `Number.parseInt(text)` on numeric text; None stands for NaN. */
  function ParseIntText(text: string): (r: Option<int>)
    ensures r.Some? ==> IsNumericText(text)
  {
    match ScanLiteral(Trim(text))
    case Some(l) =>
      if |l.intDigits| > 0 then
        var v: int := DigitsValue(l.intDigits);
        Some(if l.negative then -v else v)
      else None
    case None => None
  }

  /** An exact decimal `mantissa / 10^scale`, the model of a JavaScript float. */
  datatype Decimal = Decimal(mantissa: int, scale: nat)

  /** `x` with `n` zeros written after it, that is `x * 10^n`. */
  function Shift(x: int, n: nat): int {
    if n == 0 then x else 10 * Shift(x, n - 1)
  }

  /** The same number with no trailing zero in the mantissa behind the point. */
  function Normalize(d: Decimal): (r: Decimal)
    ensures r.scale <= d.scale
    ensures r.scale == 0 || r.mantissa % 10 != 0
    ensures Shift(r.mantissa, d.scale - r.scale) == d.mantissa
    decreases d.scale
  {
    if d.scale > 0 && d.mantissa % 10 == 0 then
      var r := Normalize(Decimal(d.mantissa / 10, d.scale - 1));
      assert Shift(r.mantissa, d.scale - r.scale) == 10 * Shift(r.mantissa, d.scale - 1 - r.scale);
      r
    else d
  }

  predicate IsNormal(d: Decimal) {
    d.scale == 0 || d.mantissa % 10 != 0
  }

  /** `Number.parseFloat(text)` on numeric text; None stands for NaN. */
  function ParseFloatText(text: string): (r: Option<Decimal>)
    ensures r.Some? ==> IsNormal(r.value) && IsNumericText(text)
  {
    match ScanLiteral(Trim(text))
    case Some(l) => Some(LiteralDecimal(l))
    case None => None
  }

  /** The number `intDigits.fracDigits` a literal denotes, with its sign, in normal form. */
  function LiteralDecimal(l: Literal): (r: Decimal)
    requires WellFormed(l)
    ensures IsNormal(r) && r.scale <= |l.fracDigits|
    ensures var v := Shift(DigitsValue(l.intDigits), |l.fracDigits|) + DigitsValue(l.fracDigits);
      Shift(r.mantissa, |l.fracDigits| - r.scale) == (if l.negative then -v else v)
  {
    var m: int := DigitsValue(l.intDigits + l.fracDigits);
    DigitsValueAppend(l.intDigits, l.fracDigits);
    Normalize(Decimal(if l.negative then -m else m, |l.fracDigits|))
  }

  /** `n` written with at least `width` digits, zeros in front. */
  function PadDigits(n: nat, width: nat): (r: string)
    ensures AllDigits(r) && DigitsValue(r) == n
    ensures |r| == if |NatToString(n)| >= width then |NatToString(n)| else width
    decreases width
  {
    var s := NatToString(n);
    if |s| >= width then s
    else
      var r := "0" + PadDigits(n, width - 1);
      LeadingZero(PadDigits(n, width - 1));
      r
  }

  lemma {:induction false} LeadingZero(ds: string)
    requires AllDigits(ds)
    ensures AllDigits("0" + ds) && DigitsValue("0" + ds) == DigitsValue(ds)
    decreases |ds|
  {
    if ds != [] {
      var z := "0" + ds;
      assert z[..|z| - 1] == "0" + ds[..|ds| - 1];
      LeadingZero(ds[..|ds| - 1]);
    }
  }

  /**
   * JavaScript's text of the number `d`: the shortest decimal, with no
   * point when it is whole and a leading `0` before the point when it is
   * below one.
   */
  function DecimalToString(d: Decimal): (r: string)
    ensures ParseFloatText(r) == Some(Normalize(d))
    ensures '.' in r <==> !IsWholeDecimal(d)
  {
    var l := DecimalLiteral(d);
    DecimalLiteralReadsBack(d, l);
    LiteralPoint(l);
    LiteralText(l)
  }

  /**
   * The literal `DecimalToString` writes, taken apart: the sign and digits
   * of the normal form, a point before its last `scale` digits when there
   * are any, and at least one digit before the point.
   */
  function DecimalLiteral(d: Decimal): (l: Literal)
    ensures WellFormed(l) && |l.intDigits| >= 1
    ensures l.negative == (Normalize(d).mantissa < 0)
    ensures l.hasPoint == !IsWholeDecimal(d) && |l.fracDigits| == Normalize(d).scale
    ensures DigitsValue(l.intDigits + l.fracDigits) == if Normalize(d).mantissa < 0 then -Normalize(d).mantissa else Normalize(d).mantissa
  {
    var n := Normalize(d);
    var m: nat := if n.mantissa < 0 then -n.mantissa else n.mantissa;
    var digits := PadDigits(m, n.scale + 1);
    var point := |digits| - n.scale;
    SplitDigits(digits, point);
    Literal(n.mantissa < 0, digits[..point], n.scale > 0, digits[point..])
  }

  /** `value % 1 === 0` for a float. */
  predicate IsWholeDecimal(d: Decimal) {
    Normalize(d).scale == 0
  }

  /** JavaScript reads back the text it prints for an integer. */
  lemma IntToStringRoundTrip(i: int)
    ensures IsNumericText(IntToString(i)) && '.' !in IntToString(i)
    ensures ParseIntText(IntToString(i)) == Some(i)
  {
    var t := IntToString(i);
    var digits := NatToString(if i < 0 then -i else i);
    var l := Literal(i < 0, digits, false, "");
    assert LiteralText(l) == t;
    ScanLiteralComplete(l);
    IntTextTrimmed(i);
    IntTextHasNoPoint(i);
    ParseIntOfLiteral(t, l);
  }

  lemma ParseIntOfLiteral(t: string, l: Literal)
    requires Trim(t) == t && ScanLiteral(t) == Some(l) && |l.intDigits| > 0
    ensures ParseIntText(t) == Some(if l.negative then -(DigitsValue(l.intDigits) as int) else DigitsValue(l.intDigits))
  {
  }

  lemma IntTextTrimmed(i: int)
    ensures Trim(IntToString(i)) == IntToString(i)
  {
    var t := IntToString(i);
    var digits := NatToString(if i < 0 then -i else i);
    assert !IsWhitespace(t[0]) by {
      if i < 0 { assert t[0] == '-'; } else { assert t[0] == digits[0]; }
    }
    assert !IsWhitespace(t[|t| - 1]) by {
      assert t[|t| - 1] == digits[|digits| - 1];
    }
    TrimOf("", t, "");
    assert "" + t + "" == t;
  }

  lemma IntTextHasNoPoint(i: int)
    ensures '.' !in IntToString(i)
  {
    var t := IntToString(i);
    var digits := NatToString(if i < 0 then -i else i);
    forall j | 0 <= j < |t| ensures t[j] != '.' {
      if i < 0 && j == 0 {
        assert t[j] == '-';
      } else if i < 0 {
        assert t[j] == digits[j - 1];
      } else {
        assert t[j] == digits[j];
      }
    }
  }
  /** Whitespace around a literal's text trims off to exactly that text. */
  lemma LiteralTrims(front: string, l: Literal, back: string)
    requires WellFormed(l) && AllWhitespace(front) && AllWhitespace(back)
    ensures Trim(front + LiteralText(l) + back) == LiteralText(l)
  {
    var t := LiteralText(l);
    var u := Unsigned(l);
    assert |u| > 0 && !IsWhitespace(u[0]) && !IsWhitespace(u[|u| - 1]) by {
      if |l.intDigits| > 0 { assert u[0] == l.intDigits[0]; } else { assert u[0] == '.'; }
      if l.hasPoint {
        if |l.fracDigits| > 0 { assert u[|u| - 1] == l.fracDigits[|l.fracDigits| - 1]; } else { assert u[|u| - 1] == '.'; }
      } else {
        assert u[|u| - 1] == l.intDigits[|l.intDigits| - 1];
      }
    }
    assert t[0] == '-' || t[0] == u[0];
    assert t[|t| - 1] == u[|u| - 1];
    TrimOf(front, t, back);
  }

  /** The digits of `a` then `b` are worth `a` shifted by `|b|` places, plus `b`. */
  lemma {:induction false} DigitsValueAppend(a: string, b: string)
    requires AllDigits(a) && AllDigits(b)
    ensures AllDigits(a + b) && DigitsValue(a + b) == Shift(DigitsValue(a), |b|) + DigitsValue(b)
    decreases |b|
  {
    if b == [] {
      assert a + b == a;
    } else {
      var ab := a + b;
      var b' := b[..|b| - 1];
      assert ab[..|ab| - 1] == a + b';
      assert ab[|ab| - 1] == b[|b| - 1];
      DigitsValueAppend(a, b');
      assert Shift(DigitsValue(a), |b|) == 10 * Shift(DigitsValue(a), |b'|);
    }
  }

  /**
   * `parseInt` on a literal with whitespace around it: the integer digits
   * with the literal's sign, and NaN when there are none (`.5`). Every
   * numeric text but blank text has this form, by `ScanLiteral`.
   */
  lemma ParseIntLiteral(front: string, l: Literal, back: string)
    requires WellFormed(l) && AllWhitespace(front) && AllWhitespace(back)
    ensures ParseIntText(front + LiteralText(l) + back) ==
      if l.intDigits == "" then None
      else Some(if l.negative then -(DigitsValue(l.intDigits) as int) else DigitsValue(l.intDigits))
  {
    LiteralTrims(front, l, back);
    ScanLiteralComplete(l);
    ParseIntOfScan(front + LiteralText(l) + back, l);
  }

  lemma ParseIntOfScan(text: string, l: Literal)
    requires ScanLiteral(Trim(text)) == Some(l)
    ensures ParseIntText(text) ==
      if l.intDigits == "" then None
      else Some(if l.negative then -(DigitsValue(l.intDigits) as int) else DigitsValue(l.intDigits))
  { }

  /** `parseFloat` on a literal with whitespace around it: the number the literal denotes. */
  lemma ParseFloatLiteral(front: string, l: Literal, back: string)
    requires WellFormed(l) && AllWhitespace(front) && AllWhitespace(back)
    ensures ParseFloatText(front + LiteralText(l) + back) == Some(LiteralDecimal(l))
  {
    LiteralTrims(front, l, back);
    ScanLiteralComplete(l);
  }

  /**
   * `parseFloat` gives a number exactly for numeric text that is not blank:
   * `isNaN` takes blank text for 0, but `parseFloat` reads NaN from it.
   */
  lemma ParseFloatDefined(text: string)
    ensures ParseFloatText(text).Some? <==> IsNumericText(text) && Trim(text) != ""
  {
    ScanLiteralNotBlank(Trim(text));
  }

  /**
   * `parseInt` gives a number exactly for numeric text that is not blank
   * and has a digit before its point (`.5` is numeric, but `parseInt`
   * reads NaN from it).
   */
  lemma ParseIntDefined(text: string)
    ensures ParseIntText(text).Some? <==>
      && IsNumericText(text) && Trim(text) != ""
      && ScanLiteral(Trim(text)).value.intDigits != ""
  {
    ScanLiteralNotBlank(Trim(text));
  }

  /** Blank text is no literal. */
  lemma ScanLiteralNotBlank(t: string)
    ensures ScanLiteral(t).Some? ==> t != ""
  {
    if ScanLiteral(t).Some? {
      var l := ScanLiteral(t).value;
      assert |Unsigned(l)| >= 1;
    }
  }

  /** A number already in normal form is its own normal form. */
  lemma NormalizeNormal(d: Decimal)
    requires IsNormal(d)
    ensures Normalize(d) == d
  {
  }

  /** The literal written for a float reads back as the same number, in normal form. */
  lemma DecimalLiteralReadsBack(d: Decimal, l: Literal)
    requires l == DecimalLiteral(d)
    ensures ParseFloatText(LiteralText(l)) == Some(Normalize(d))
  {
    var n := Normalize(d);
    ParseFloatOfLiteral(l);
    LiteralDecimalOf(l, n);
    NormalizeNormal(n);
  }

  lemma SplitDigits(digits: string, point: nat)
    requires AllDigits(digits) && point <= |digits|
    ensures AllDigits(digits[..point]) && AllDigits(digits[point..])
    ensures digits[..point] + digits[point..] == digits
  {
  }

  lemma ParseFloatOfLiteral(l: Literal)
    requires WellFormed(l)
    ensures ParseFloatText(LiteralText(l)) == Some(LiteralDecimal(l))
  {
    assert "" + LiteralText(l) + "" == LiteralText(l);
    ParseFloatLiteral("", l, "");
  }

  lemma LiteralDecimalOf(l: Literal, x: Decimal)
    requires WellFormed(l) && x.scale == |l.fracDigits|
    requires x.mantissa == var v: int := DigitsValue(l.intDigits + l.fracDigits); if l.negative then -v else v
    ensures LiteralDecimal(l) == Normalize(x)
  {
  }

  /** A whole float printed with `.0` added, as the serializer writes it, reads back as the same number. */
  lemma WholeDecimalRoundTrip(d: Decimal)
    requires IsWholeDecimal(d)
    ensures ParseFloatText(DecimalToString(d) + ".0") == Some(Normalize(d))
  {
    var l := DecimalLiteral(d);
    ParseFloatOfLiteral(l);
    PointZero(l);
  }

  /** A literal without a point, with `.0` added, denotes the same number. */
  lemma PointZero(l: Literal)
    requires WellFormed(l) && !l.hasPoint
    ensures ParseFloatText(LiteralText(l) + ".0") == Some(LiteralDecimal(l))
  {
    var l' := Literal(l.negative, l.intDigits, true, "0");
    PointZeroText(l);
    ParseFloatOfLiteral(l');
    PointZeroValue(l);
  }

  lemma PointZeroText(l: Literal)
    requires WellFormed(l) && !l.hasPoint
    ensures LiteralText(l) + ".0" == LiteralText(Literal(l.negative, l.intDigits, true, "0"))
  {
    assert Unsigned(l) == l.intDigits;
    ConcatAssoc(if l.negative then "-" else "", l.intDigits, ".0");
  }

  lemma PointZeroValue(l: Literal)
    requires WellFormed(l) && !l.hasPoint
    ensures WellFormed(Literal(l.negative, l.intDigits, true, "0"))
    ensures LiteralDecimal(Literal(l.negative, l.intDigits, true, "0")) == LiteralDecimal(l)
  {
    var l' := Literal(l.negative, l.intDigits, true, "0");
    var v: int := DigitsValue(l.intDigits);
    var m := if l.negative then -v else v;
    DigitsValueAppend(l.intDigits, "0");
    assert l.intDigits + l.fracDigits == l.intDigits;
    LiteralDecimalOf(l', Decimal(10 * m, 1));
    LiteralDecimalOf(l, Decimal(m, 0));
    NormalizeTenth(m);
  }

  /** A well-formed literal's text has a point exactly when the literal has one. */
  lemma LiteralPoint(l: Literal)
    requires WellFormed(l)
    ensures '.' in LiteralText(l) <==> l.hasPoint
  {
    var sign := if l.negative then "-" else "";
    var t := LiteralText(l);
    if l.hasPoint {
      assert t == sign + (l.intDigits + ("." + l.fracDigits));
      assert t[|sign| + |l.intDigits|] == '.';
    } else {
      assert t == sign + l.intDigits;
      forall j | 0 <= j < |t| ensures t[j] != '.' {
        if j >= |sign| {
          assert t[j] == l.intDigits[j - |sign|];
        }
      }
    }
  }

  lemma NormalizeTenth(x: int)
    ensures Normalize(Decimal(10 * x, 1)) == Decimal(x, 0)
  {
    assert (10 * x) / 10 == x;
  }
}
