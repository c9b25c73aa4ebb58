/** Numerals: all that the number rule takes, and among them those of section 6 of RFC 8259. */
module JsonNumerals {
  import opened Bytes
  import opened JsonValue
  import opened JsonLex

  // ---------------------------------------------------------------- written numerals

  /** A sign is empty, plus or minus. */
  predicate IsSign(s: seq<byte>) {
    s in {[], [PLUS], [MINUS]}
  }

  datatype Exponent = Exponent(upper: bool, sign: seq<byte>, digits: seq<byte>)

  datatype Numeral = Numeral(sign: seq<byte>, whole: seq<byte>, fraction: Option<seq<byte>>, exponent: Option<Exponent>)

  predicate IsRun(ds: seq<byte>) {
    ds != [] && AllDigits(ds)
  }

  predicate IsExponent(e: Exponent) {
    IsSign(e.sign) && IsRun(e.digits)
  }

  /** Digits before the point or behind it; without a point, before it. */
  predicate IsNumeral(n: Numeral) {
    && IsSign(n.sign) && AllDigits(n.whole)
    && (match n.fraction case None => n.whole != [] case Some(f) => AllDigits(f) && (n.whole != [] || f != []))
    && (n.exponent.Some? ==> IsExponent(n.exponent.value))
  }

  /** `number` of section 6 of RFC 8259: no plus in front, no leading zeros, digits on both sides of a point. */
  predicate IsStandard(n: Numeral) {
    && IsNumeral(n) && n.sign != [PLUS] && n.whole != [] && (|n.whole| > 1 ==> n.whole[0] != ZERO)
    && n.fraction != Some([])
  }

  function FractionText(f: Option<seq<byte>>): seq<byte> {
    if f.Some? then [DOT] + f.value else []
  }

  function ExponentText(e: Option<Exponent>): seq<byte> {
    if e.Some? then [if e.value.upper then 69 else 101] + (e.value.sign + e.value.digits) else []
  }

  function NumeralText(n: Numeral): seq<byte> {
    n.sign + (n.whole + (FractionText(n.fraction) + ExponentText(n.exponent)))
  }

  // ---------------------------------------------------------------- their numbers

  predicate IsInteger(n: Numeral) {
    n.fraction.None? && n.exponent.None?
  }

  function IntegerOf(n: Numeral): int
    requires IsNumeral(n)
  {
    var m: int := DigitsValue(n.whole);
    if n.sign == [MINUS] then -m else m
  }

  /** `r` times the `e`-th power of ten. */
  function Shift(r: real, e: int): real {
    if e >= 0 then r * Pow10(e) as real else r / Pow10(-e) as real
  }

  function FractionOf(f: Option<seq<byte>>): real
    requires f.Some? ==> AllDigits(f.value)
  {
    if f.Some? then DigitsValue(f.value) as real / Pow10(|f.value|) as real else 0.0
  }

  function ExponentOf(e: Option<Exponent>): int
    requires e.Some? ==> IsExponent(e.value)
  {
    if e.None? then 0
    else
      var k: int := DigitsValue(e.value.digits);
      if e.value.sign == [MINUS] then -k else k
  }

  function Mantissa(n: Numeral): real
    requires IsNumeral(n)
  {
    Signed(n.sign == [MINUS], DigitsValue(n.whole) as real + FractionOf(n.fraction))
  }

  function RealOf(n: Numeral): real
    requires IsNumeral(n)
  {
    Shift(Mantissa(n), ExponentOf(n.exponent))
  }

  /** An integer has to fit int64, or uint64 if it has no sign. */
  predicate NumeralFits(n: Numeral)
    requires IsNumeral(n)
  {
    IsInteger(n) ==> -TWO63 <= IntegerOf(n) < if n.sign == [] then TWO64 else TWO63
  }

  /** For the numerals of the standard, that is one range. */
  lemma StandardFits(n: Numeral)
    requires IsStandard(n)
    ensures NumeralFits(n) <==> (IsInteger(n) ==> -TWO63 <= IntegerOf(n) < TWO64)
  {
    hide DigitsValue;
  }

  function NumeralValue(n: Numeral): Value
    requires IsNumeral(n) && NumeralFits(n)
  {
    if !IsInteger(n) then Real(RealOf(n))
    else if IntegerOf(n) < TWO63 then Int(IntegerOf(n), false)
    else FromUint64(IntegerOf(n))
  }

  // ---------------------------------------------------------------- they are taken

  /** What may follow a numeral without becoming part of it: no digit, and behind a fraction no exponent mark. */
  predicate IsMunch(n: Numeral, rest: seq<byte>) {
    !StartsWithDigit(rest) && (n.fraction.Some? && n.exponent.None? ==> !StartsExponent(rest))
  }

  lemma EndsNumberIsMunch(n: Numeral, rest: seq<byte>)
    requires EndsNumber(rest)
    ensures IsMunch(n, rest)
  {
  }

  lemma ScaleIsShift(r: real, e: int)
    ensures Scale(r, e) == Shift(r, e)
  {
    if e >= 0 {
      ScaleUp(r, e);
    } else {
      ScaleDown(r, -e);
      Quotient(Scale(r, e), Pow10(-e) as real, r);
    }
  }

  lemma Quotient(q: real, d: real, r: real)
    requires q * d == r && d > 0.0
    ensures q == r / d
  {
  }

  lemma RunLexes(ds: seq<byte>, rest: seq<byte>)
    requires AllDigits(ds) && !StartsWithDigit(rest)
    ensures DigitRun(ds + rest) == |ds| && (ds + rest)[..|ds|] == ds && (ds + rest)[|ds|..] == rest
  {
    DigitRunOf(ds, rest);
    SliceOver(ds, rest);
    hide DigitRun;
  }

  predicate StartsWithSign(s: seq<byte>) {
    s != [] && (s[0] == PLUS || s[0] == MINUS)
  }

  lemma SignLexes(sign: seq<byte>, after: seq<byte>)
    requires IsSign(sign) && !StartsWithSign(after)
    ensures var s := sign + after; s[SignLength(s)..] == after && Negative(s) == (sign == [MINUS])
  {
    var s := sign + after;
    SliceOver(sign, after);
    if sign == [] {
      assert s == after;
    } else {
      assert s[0] == sign[0];
    }
  }

  lemma ExponentLexes(e: Exponent, rest: seq<byte>)
    requires IsExponent(e) && !StartsWithDigit(rest)
    ensures ExponentDigits(e.sign + (e.digits + rest)) == Some((ExponentOf(Some(e)), rest))
  {
    assert (e.digits + rest)[0] == e.digits[0];
    SignLexes(e.sign, e.digits + rest);
    RunLexes(e.digits, rest);
    hide DigitRun, DigitsValue, SignLength, Negative;
  }

  /** From behind the `e`. */
  lemma ExponentPartLexes(r: real, e: Exponent, rest: seq<byte>)
    requires IsExponent(e) && !StartsWithDigit(rest)
    ensures var t := ExponentText(Some(e)) + rest;
            && StartsExponent(t) && !StartsWithDigit(t) && t[0] != DOT
            && ExponentPart(r, t[1..]) == Some((Shift(r, ExponentOf(Some(e))), rest))
  {
    var t := ExponentText(Some(e)) + rest;
    assert t[1..] == e.sign + (e.digits + rest);
    ExponentLexes(e, rest);
    ScaleIsShift(r, ExponentOf(Some(e)));
    hide Scale, Shift, ExponentDigits, ExponentOf;
  }

  lemma FractionScales(fraction: seq<byte>, f: int)
    requires AllDigits(fraction) && f == |fraction|
    ensures Scale(DigitsValue(fraction) as real, -f) == FractionOf(Some(fraction))
  {
    ScaleIsShift(DigitsValue(fraction) as real, -f);
    if f == 0 {
      ByOne(DigitsValue(fraction) as real);
    }
    hide Scale, DigitsValue, Pow10;
  }

  lemma ByOne(r: real)
    ensures Pow10(0) == 1 && r * 1.0 == r / 1.0 == r
  {
  }

  lemma NoExponent(n: Numeral)
    requires IsNumeral(n) && n.exponent.None?
    ensures RealOf(n) == Mantissa(n)
  {
    ByOne(Mantissa(n));
    hide Pow10, Mantissa;
  }

  /** What stands behind the digits before the point. */
  function Behind(n: Numeral, rest: seq<byte>): seq<byte> {
    FractionText(n.fraction) + (ExponentText(n.exponent) + rest)
  }

  lemma PointLexes(n: Numeral, rest: seq<byte>)
    requires IsNumeral(n) && n.fraction.Some? && IsMunch(n, rest)
    ensures PointPart(n.sign == [MINUS], n.whole, n.fraction.value + (ExponentText(n.exponent) + rest))
         == Some((RealOf(n), rest))
  {
    hide Scale, Shift, ExponentPart, DigitRun, DigitsValue, FractionOf, ExponentOf;
    var fraction, after := n.fraction.value, ExponentText(n.exponent) + rest;
    if n.exponent.Some? {
      ExponentPartLexes(Mantissa(n), n.exponent.value, rest);
    } else {
      assert after == rest;
      NoExponent(n);
    }
    RunLexes(fraction, after);
    FractionScales(fraction, |fraction|);
  }

  lemma PointBehind(n: Numeral, rest: seq<byte>)
    requires n.fraction.Some?
    ensures var b := Behind(n, rest);
            b != [] && b[0] == DOT && b[1..] == n.fraction.value + (ExponentText(n.exponent) + rest)
  {
    Assoc([DOT], n.fraction.value, ExponentText(n.exponent) + rest);
    hide ExponentText;
  }

  /** Everything but a plain integer is a strict real. */
  lemma UnsignedRealLexes(n: Numeral, rest: seq<byte>)
    requires IsNumeral(n) && !IsInteger(n) && IsMunch(n, rest)
    ensures UnsignedReal(n.sign == [MINUS], n.whole + Behind(n, rest)) == Some((RealOf(n), rest))
  {
    hide Scale, Shift, ExponentPart, PointPart, DigitRun, DigitsValue, ExponentText, RealOf, Mantissa;
    var b := Behind(n, rest);
    if n.fraction.Some? {
      PointBehind(n, rest);
      PointLexes(n, rest);
      RunLexes(n.whole, b);
    } else {
      assert b == ExponentText(n.exponent) + rest;
      PlainMantissa(n);
      ExponentPartLexes(Mantissa(n), n.exponent.value, rest);
      RealIsShifted(n);
      RunLexes(n.whole, b);
    }
  }

  lemma RealIsShifted(n: Numeral)
    requires IsNumeral(n)
    ensures RealOf(n) == Shift(Mantissa(n), ExponentOf(n.exponent))
  {
  }

  lemma PlainMantissa(n: Numeral)
    requires IsNumeral(n) && n.fraction.None?
    ensures Mantissa(n) == Signed(n.sign == [MINUS], DigitsValue(n.whole) as real)
  {
  }

  /** A plain integer is none. */
  lemma NoReal(neg: bool, whole: seq<byte>, rest: seq<byte>)
    requires AllDigits(whole) && EndsNumber(rest)
    ensures UnsignedReal(neg, whole + rest).None?
  {
    RunLexes(whole, rest);
    hide DigitRun, DigitsValue;
  }

  lemma IntegerLexes(sign: seq<byte>, whole: seq<byte>, rest: seq<byte>)
    requires IsSign(sign) && IsRun(whole) && !StartsWithDigit(rest)
    ensures var m: int := DigitsValue(whole);
            var i := if sign == [MINUS] then -m else m;
            var s := sign + (whole + rest);
            && Int64(s) == (if -TWO63 <= i < TWO63 then Some((i, rest)) else None)
            && Uint64(s) == (if sign == [] && m < TWO64 then Some((m, rest)) else None)
  {
    hide DigitsValue, DigitRun, SignLength, Negative;
    assert (whole + rest)[0] == whole[0];
    SignLexes(sign, whole + rest);
    RunLexes(whole, rest);
    UnsignedLexes(sign, whole, rest);
    hide Uint64;
  }

  lemma UnsignedLexes(sign: seq<byte>, whole: seq<byte>, rest: seq<byte>)
    requires IsSign(sign) && IsRun(whole) && !StartsWithDigit(rest)
    ensures Uint64(sign + (whole + rest))
         == if sign == [] && DigitsValue(whole) < TWO64 then Some((DigitsValue(whole), rest)) else None
  {
    hide DigitsValue, DigitRun;
    var s := sign + (whole + rest);
    if sign == [] {
      RunLexes(whole, rest);
      assert s == whole + rest;
    } else {
      assert s[0] == sign[0];
      NoRun(s);
    }
  }

  lemma NoRun(s: seq<byte>)
    requires !StartsWithDigit(s)
    ensures DigitRun(s) == 0
  {
  }

  lemma NumeralSplits(n: Numeral, rest: seq<byte>)
    requires IsNumeral(n)
    ensures NumeralText(n) + rest == n.sign + (n.whole + Behind(n, rest))
    ensures !StartsWithSign(n.whole + Behind(n, rest))
    ensures IsInteger(n) ==> Behind(n, rest) == rest
  {
    var f, e := FractionText(n.fraction), ExponentText(n.exponent);
    assert n.whole != [] ==> (n.whole + Behind(n, rest))[0] == n.whole[0];
    if n.whole == [] {
      PointBehind(n, rest);
      assert n.whole + Behind(n, rest) == Behind(n, rest);
    }
    Assoc(f, e, rest);
    Assoc(n.whole, f + e, rest);
    Assoc(n.sign, n.whole + (f + e), rest);
    assert [] + rest == rest;
  }

  /** A numeral with a point or an exponent is read as the number it denotes. */
  lemma RealLexes(n: Numeral, rest: seq<byte>)
    requires IsNumeral(n) && !IsInteger(n) && IsMunch(n, rest)
    ensures Number(NumeralText(n) + rest) == Some((Real(RealOf(n)), rest))
  {
    hide UnsignedReal, RealOf, NumeralText, Behind, IsMunch;
    NumeralSplits(n, rest);
    SignLexes(n.sign, n.whole + Behind(n, rest));
    hide SignLength, Negative;
    UnsignedRealLexes(n, rest);
    RealComesFirst(NumeralText(n) + rest);
  }

  /** A numeral is read as the number it denotes, exactly when it fits. */
  lemma NumeralLexes(n: Numeral, rest: seq<byte>)
    requires IsNumeral(n) && EndsNumber(rest)
    ensures Number(NumeralText(n) + rest) == if NumeralFits(n) then Some((NumeralValue(n), rest)) else None
  {
    EndsNumberIsMunch(n, rest);
    if IsInteger(n) {
      hide UnsignedReal, Int64, Uint64, DigitsValue, NumeralText, Behind;
      NumeralSplits(n, rest);
      SignLexes(n.sign, n.whole + rest);
      hide SignLength, Negative;
      NoReal(n.sign == [MINUS], n.whole, rest);
      IntegerLexes(n.sign, n.whole, rest);
    } else {
      RealLexes(n, rest);
    }
  }

  /** Whatever else follows it, it is the beginning of some number. */
  lemma NumeralIsAccepted(n: Numeral, rest: seq<byte>)
    requires IsNumeral(n) && NumeralFits(n) && IsMunch(n, rest)
    ensures Number(NumeralText(n) + rest).Some?
  {
    if IsInteger(n) {
      hide StrictReal, Int64, Uint64, DigitsValue, NumeralText, Behind;
      NumeralSplits(n, rest);
      IntegerLexes(n.sign, n.whole, rest);
    } else {
      RealLexes(n, rest);
    }
  }

  // ---------------------------------------------------------------- nothing else is

  function SignOf(s: seq<byte>): (sign: seq<byte>)
    ensures IsSign(sign) && s == sign + s[SignLength(s)..] && (Negative(s) <==> sign == [MINUS])
  {
    assert [] + s == s;
    if StartsWithSign(s) then assert s == [s[0]] + s[1..]; [s[0]] else []
  }

  lemma RunSplits(s: seq<byte>)
    ensures AllDigits(s[..DigitRun(s)]) && s == s[..DigitRun(s)] + s[DigitRun(s)..]
    ensures !StartsWithDigit(s[DigitRun(s)..])
    ensures DigitRun(s) == 0 <==> s[..DigitRun(s)] == []
  {
    hide DigitRun;
  }

  lemma ExponentDigitsIsText(t: seq<byte>) returns (digits: seq<byte>)
    requires ExponentDigits(t).Some?
    ensures IsRun(digits) && t == SignOf(t) + (digits + ExponentDigits(t).value.1)
    ensures !StartsWithDigit(ExponentDigits(t).value.1)
  {
    hide DigitRun, DigitsValue, SignOf, SignLength, Negative;
    var a := t[SignLength(t)..];
    RunSplits(a);
    digits := a[..DigitRun(a)];
  }

  /** An exponent, from its mark on. */
  lemma ExponentIsText(s: seq<byte>) returns (e: Exponent)
    requires StartsExponent(s) && ExponentDigits(s[1..]).Some?
    ensures IsExponent(e) && s == ExponentText(Some(e)) + ExponentDigits(s[1..]).value.1
    ensures !StartsWithDigit(ExponentDigits(s[1..]).value.1)
  {
    hide ExponentDigits, SignOf;
    var digits := ExponentDigitsIsText(s[1..]);
    e := Exponent(s[0] == 69, SignOf(s[1..]), digits);
    Assoc4([s[0]], e.sign, digits, ExponentDigits(s[1..]).value.1);
    assert s == [s[0]] + s[1..];
    Assoc([s[0]], e.sign, digits);
  }

  lemma PointIsText(sign: seq<byte>, whole: seq<byte>, s: seq<byte>) returns (n: Numeral)
    requires IsSign(sign) && AllDigits(whole) && PointPart(sign == [MINUS], whole, s).Some?
    ensures n.sign == sign && n.whole == whole && n.fraction.Some? && IsNumeral(n)
    ensures var rest := PointPart(sign == [MINUS], whole, s).value.1;
            IsMunch(n, rest) && [DOT] + s == Behind(n, rest)
  {
    var f := DigitRun(s);
    RunSplits(s);
    hide DigitRun, DigitsValue, Scale, ExponentDigits, ExponentText;
    var b := s[f..];
    if StartsExponent(b) {
      var e := ExponentIsText(b);
      n := Numeral(sign, whole, Some(s[..f]), Some(e));
    } else {
      n := Numeral(sign, whole, Some(s[..f]), None);
      NoExponentText(b);
    }
    Assoc([DOT], s[..f], b);
  }

  lemma NoExponentText(rest: seq<byte>)
    ensures ExponentText(None) + rest == rest
    ensures FractionText(None) + rest == rest
  {
  }

  /** Behind the sign, for a number with a point or an exponent. */
  lemma UnsignedIsText(sign: seq<byte>, a: seq<byte>) returns (n: Numeral)
    requires IsSign(sign) && UnsignedReal(sign == [MINUS], a).Some?
    ensures n.sign == sign && IsNumeral(n) && !IsInteger(n)
    ensures var rest := UnsignedReal(sign == [MINUS], a).value.1;
            IsMunch(n, rest) && a == n.whole + Behind(n, rest)
  {
    var k := DigitRun(a);
    RunSplits(a);
    hide DigitRun, DigitsValue, Scale, ExponentDigits, ExponentText, PointPart;
    var b := a[k..];
    if b != [] && b[0] == DOT {
      n := PointIsText(sign, a[..k], b[1..]);
      assert [DOT] + b[1..] == b;
    } else {
      var e := ExponentIsText(b);
      n := Numeral(sign, a[..k], None, Some(e));
      NoExponentText(b);
    }
  }

  lemma StrictRealIsText(s: seq<byte>) returns (n: Numeral)
    requires StrictReal(s).Some?
    ensures IsNumeral(n) && !IsInteger(n) && IsMunch(n, StrictReal(s).value.1)
    ensures s == NumeralText(n) + StrictReal(s).value.1
  {
    var sign := SignOf(s);
    hide UnsignedReal, NumeralText, Behind, IsMunch;
    n := UnsignedIsText(sign, s[SignLength(s)..]);
    NumeralSplits(n, StrictReal(s).value.1);
  }

  lemma IntegerIsText(s: seq<byte>) returns (n: Numeral)
    requires StrictReal(s).None? && Number(s).Some?
    ensures IsNumeral(n) && IsInteger(n) && IsMunch(n, Number(s).value.1)
    ensures s == NumeralText(n) + Number(s).value.1
    ensures NumeralFits(n) && NumeralValue(n) == Number(s).value.0
  {
    hide StrictReal, DigitRun, DigitsValue;
    var sign, a := SignOf(s), s[SignLength(s)..];
    n := Numeral(sign, a[..DigitRun(a)], None, None);
    RunSplits(a);
    var rest := a[DigitRun(a)..];
    NoInteger(s);
    IntegerLexes(sign, n.whole, rest);
    NumeralSplits(n, rest);
    hide Int64, Uint64, SignOf, SignLength, NumeralText, Behind;
  }

  /** Without digits there is no integer. */
  lemma NoInteger(s: seq<byte>)
    ensures Int64(s).Some? || Uint64(s).Some? ==> DigitRun(s[SignLength(s)..]) > 0
  {
    if !StartsWithSign(s) {
      assert s[0..] == s;
    }
  }

  /** What the number rule takes is a numeral that fits, read as the number it denotes. */
  lemma NumberIsText(s: seq<byte>) returns (n: Numeral)
    requires Number(s).Some?
    ensures IsNumeral(n) && NumeralFits(n) && IsMunch(n, Number(s).value.1)
    ensures s == NumeralText(n) + Number(s).value.1
    ensures NumeralValue(n) == Number(s).value.0
  {
    if StrictReal(s).Some? {
      n := StrictRealIsText(s);
      RealLexes(n, StrictReal(s).value.1);
      RealComesFirst(s);
    } else {
      n := IntegerIsText(s);
    }
    hide StrictReal, Int64, Uint64, NumeralText, RealOf, IsMunch, IsNumeral;
  }

  /** The number rule matches exactly where a numeral that fits begins, taken as far as it goes. */
  lemma NumberAcceptsIff(s: seq<byte>)
    ensures Number(s).Some?
       <==> exists n, rest :: IsNumeral(n) && NumeralFits(n) && IsMunch(n, rest) && s == NumeralText(n) + rest
  {
    hide Number, NumeralText, NumeralFits, IsMunch, IsNumeral;
    if Number(s).Some? {
      var n := NumberIsText(s);
    }
    if n, rest :| IsNumeral(n) && NumeralFits(n) && IsMunch(n, rest) && s == NumeralText(n) + rest {
      NumeralIsAccepted(n, rest);
    }
  }
}
