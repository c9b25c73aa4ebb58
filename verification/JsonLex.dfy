/** The lexemes of the JSON grammar: string literals and numbers, with the skipper switched off inside. */
module JsonLex {
  import opened Bytes
  import opened JsonValue
  import opened JsonEscape
  import opened JsonWriter

  // ---------------------------------------------------------------- strings

  /** How far `*(lex_escape_ch_p - '"')` gets: each step takes a character that is neither a quotation
      mark nor a backslash, or a backslash with its follower. */
  function BodyLength(s: seq<byte>): (n: nat)
    ensures n <= |s|
    decreases |s|
  {
    if s == [] || s[0] == QUOTE then 0
    else if s[0] != BACKSLASH then 1 + BodyLength(s[1..])
    else if |s| >= 2 then 2 + BodyLength(s[2..])
    else 0
  }

  /** The `confix_p` rule: the length of the literal at the front of `s`, quotation marks included. */
  function LexString(s: seq<byte>): (n: Option<nat>)
    ensures n.Some? ==> 2 <= n.value <= |s|
  {
    if s == [] || s[0] != QUOTE then None
    else
      var n := BodyLength(s[1..]);
      if 1 + n < |s| && s[1 + n] == QUOTE then Some(n + 2) else None
  }

  /** What `get_str` makes of a literal. */
  function GetStr(literal: seq<byte>): seq<byte>
    requires |literal| >= 2
  {
    Unescape(literal[1..|literal| - 1])
  }

  lemma {:induction false} BodyLengthOfEscaped(s: seq<byte>, printable: set<byte>, rest: seq<byte>)
    ensures BodyLength(Escape(s, printable) + [QUOTE] + rest) == |Escape(s, printable)|
  {
    if s == [] {
      assert Escape(s, printable) + [QUOTE] + rest == [QUOTE] + rest;
    } else {
      var e, r := EscapeByte(s[0], printable), Escape(s[1..], printable);
      var tail := r + [QUOTE] + rest;
      assert Escape(s, printable) + [QUOTE] + rest == e + tail;
      BodyLengthOfEscapeByte(s[0], printable, tail);
      BodyLengthOfEscaped(s[1..], printable, rest);
    }
  }

  lemma BodyLengthOfEscapeByte(c: byte, printable: set<byte>, tail: seq<byte>)
    ensures BodyLength(EscapeByte(c, printable) + tail) == |EscapeByte(c, printable)| + BodyLength(tail)
  {
    var e := EscapeByte(c, printable);
    if ShortEscape(c).Some? {
      assert (e + tail)[2..] == tail;
    } else if c in printable {
      assert (e + tail)[1..] == tail;
    } else {
      BodyLengthPlain(e[2..], tail);
      assert (e + tail)[2..] == e[2..] + tail;
    }
  }

  lemma BodyLengthPlain(p: seq<byte>, tail: seq<byte>)
    requires forall k :: 0 <= k < |p| ==> p[k] != BACKSLASH && p[k] != QUOTE
    ensures BodyLength(p + tail) == |p| + BodyLength(tail)
  {
    if p == [] {
      assert p + tail == tail;
    } else {
      assert (p + tail)[1..] == p[1..] + tail;
      BodyLengthPlain(p[1..], tail);
    }
  }

  /** The string rule on a printed string takes exactly that literal, whatever follows, and gives the string back. */
  lemma StringLexesBack(s: seq<byte>, st: Style, rest: seq<byte>)
    ensures LexString(StrText(s, st) + rest) == Some(|StrText(s, st)|)
    ensures GetStr(StrText(s, st)) == s
  {
    var body := Escape(s, st.printable);
    BodyLengthOfEscaped(s, st.printable, rest);
    assert (StrText(s, st) + rest)[1..] == body + [QUOTE] + rest;
    assert StrText(s, st)[1..|StrText(s, st)| - 1] == body;
    EscapeRoundTrip(s, st.printable);
  }

  // ---------------------------------------------------------------- numbers

  function SignLength(s: seq<byte>): (n: nat)
    ensures n <= |s|
  {
    if s != [] && (s[0] == MINUS || s[0] == PLUS) then 1 else 0
  }

  predicate Negative(s: seq<byte>) {
    s != [] && s[0] == MINUS
  }

  /** `r * 10^e`. */
  function Scale(r: real, e: int): real
    decreases if e < 0 then -e else e
  {
    if e == 0 then r else if e > 0 then Scale(r, e - 1) * 10.0 else Scale(r, e + 1) / 10.0
  }

  /** The exponent part after an `e`: sign and digits, or no match. */
  function ExponentDigits(s: seq<byte>): (r: Option<(int, seq<byte>)>)
    ensures r.Some? ==> |r.value.1| < |s|
  {
    var a := s[SignLength(s)..];
    var k := DigitRun(a);
    if k == 0 then None
    else
      var n: int := DigitsValue(a[..k]);
      Some((if Negative(s) then -n else n, a[k..]))
  }

  predicate StartsExponent(s: seq<byte>) {
    s != [] && (s[0] == 101 || s[0] == 69)
  }

  function Signed(neg: bool, r: real): real {
    if neg then -r else r
  }

  /** After the `e`: the exponent has to be there. */
  function ExponentPart(r: real, s: seq<byte>): (m: Option<(real, seq<byte>)>)
    ensures m.Some? ==> |m.value.1| < |s|
  {
    match ExponentDigits(s)
    case None => None
    case Some(e) => Some((Scale(r, e.0), e.1))
  }

  /** After the point: digits on one side of it at least, then an exponent if there is one. */
  function PointPart(neg: bool, whole: seq<byte>, s: seq<byte>): (m: Option<(real, seq<byte>)>)
    requires AllDigits(whole)
    ensures m.Some? ==> |m.value.1| <= |s|
  {
    var f: int := DigitRun(s);
    if whole == [] && f == 0 then None
    else
      var r := Signed(neg, DigitsValue(whole) as real + Scale(DigitsValue(s[..f]) as real, -f));
      if StartsExponent(s[f..]) then ExponentPart(r, s[f..][1..]) else Some((r, s[f..]))
  }

  /** Without a point, digits and an exponent are required. */
  function UnsignedReal(neg: bool, a: seq<byte>): (m: Option<(real, seq<byte>)>)
    ensures m.Some? ==> |m.value.1| < |a|
  {
    var k := DigitRun(a);
    var b := a[k..];
    if b != [] && b[0] == DOT then PointPart(neg, a[..k], b[1..])
    else if k == 0 || !StartsExponent(b) then None
    else ExponentPart(Signed(neg, DigitsValue(a[..k]) as real), b[1..])
  }

  /** `strict_real_p`: a decimal point or an exponent is required; a digit on one side of the point suffices. */
  function StrictReal(s: seq<byte>): (m: Option<(real, seq<byte>)>)
    ensures m.Some? ==> |m.value.1| < |s|
  {
    UnsignedReal(Negative(s), s[SignLength(s)..])
  }

  function MagnitudeInt64(neg: bool, a: seq<byte>): (r: Option<(int64, seq<byte>)>)
    ensures r.Some? ==> |r.value.1| < |a|
  {
    var k := DigitRun(a);
    if k == 0 then None
    else
      var m: int := DigitsValue(a[..k]);
      var n := if neg then -m else m;
      if -TWO63 <= n < TWO63 then Some((n, a[k..])) else None
  }

  /** `int64_p`: optional sign and digits; a numeral that does not fit does not match. */
  function Int64(s: seq<byte>): (r: Option<(int64, seq<byte>)>)
    ensures r.Some? ==> |r.value.1| < |s|
  {
    MagnitudeInt64(Negative(s), s[SignLength(s)..])
  }

  /** `uint64_p`: digits only. */
  function Uint64(s: seq<byte>): (r: Option<(uint64, seq<byte>)>)
    ensures r.Some? ==> |r.value.1| < |s|
  {
    var k := DigitRun(s);
    if k == 0 then None
    else
      var n := DigitsValue(s[..k]);
      if n < TWO64 then Some((n, s[k..])) else None
  }

  /** The number rule: real, then int64, then uint64. */
  function Number(s: seq<byte>): (r: Option<(Value, seq<byte>)>)
    ensures r.Some? ==> |r.value.1| < |s|
    ensures r.Some? ==> r.value.0.Real? || r.value.0.Int?
  {
    match StrictReal(s)
    case Some(r) => Some((Real(r.0), r.1))
    case None =>
      match Int64(s)
      case Some(r) => Some((Int(r.0, false), r.1))
      case None =>
        match Uint64(s)
        case Some(r) => Some((FromUint64(r.0), r.1))
        case None => None
  }

  /** What may follow a printed number without becoming part of it. */
  predicate EndsNumber(rest: seq<byte>) {
    rest == [] || (!IsDigit(rest[0]) && rest[0] != DOT && rest[0] != 101 && rest[0] != 69)
  }

  /** An integer comes back with its 64 stored bits; the uint64 flag survives from 2^63 on. */
  function NormInt(stored: int64, isUint64: bool): Value {
    Int(stored, isUint64 && stored < 0)
  }

  lemma DigitsLexBack(n: nat, rest: seq<byte>)
    requires !StartsWithDigit(rest)
    ensures DigitRun(Digits(n) + rest) == |Digits(n)|
    ensures DigitsValue((Digits(n) + rest)[..|Digits(n)|]) == n
    ensures (Digits(n) + rest)[|Digits(n)|..] == rest
  {
    DigitRunOf(Digits(n), rest);
    DigitsRoundTrip(n);
    SliceOver(Digits(n), rest);
  }

  function Sign(neg: bool): seq<byte> {
    if neg then [MINUS] else []
  }

  lemma SignSplitsOff(neg: bool, n: nat, after: seq<byte>)
    ensures var s := Sign(neg) + Digits(n) + after;
            s[SignLength(s)..] == Digits(n) + after && Negative(s) == neg
  {
    var a := Digits(n) + after;
    assert a[0] == Digits(n)[0];
    if neg {
      assert [MINUS] + Digits(n) + after == [MINUS] + a;
    } else {
      assert [] + Digits(n) + after == a;
    }
  }

  lemma IntegersAreNotStrictReals(neg: bool, n: nat, rest: seq<byte>)
    requires EndsNumber(rest)
    ensures StrictReal(Sign(neg) + Digits(n) + rest).None?
  {
    SignSplitsOff(neg, n, rest);
    NoPointNoReal(neg, n, rest);
  }

  lemma NoPointNoReal(neg: bool, n: nat, rest: seq<byte>)
    requires EndsNumber(rest)
    ensures UnsignedReal(neg, Digits(n) + rest).None?
  {
    DigitsLexBack(n, rest);
  }

  function Magnitude(i: int): nat {
    if i < 0 then -i else i
  }

  lemma MagnitudeLexesBack(neg: bool, n: nat, rest: seq<byte>)
    requires EndsNumber(rest)
    ensures var i := if neg then 0 - n else n;
            MagnitudeInt64(neg, Digits(n) + rest) == if -TWO63 <= i < TWO63 then Some((i, rest)) else None
  {
    DigitsLexBack(n, rest);
  }

  lemma Int64LexesBack(i: int, rest: seq<byte>)
    requires EndsNumber(rest)
    ensures Int64(Decimal(i) + rest) == if -TWO63 <= i < TWO63 then Some((i, rest)) else None
  {
    SignSplitsOff(i < 0, Magnitude(i), rest);
    MagnitudeLexesBack(i < 0, Magnitude(i), rest);
    assert Decimal(i) == Sign(i < 0) + Digits(Magnitude(i));
  }

  lemma Uint64LexesBack(u: uint64, rest: seq<byte>)
    requires EndsNumber(rest)
    ensures Uint64(Digits(u) + rest) == Some((u, rest))
  {
    DigitsLexBack(u, rest);
  }

  /** Integer fidelity: from 2^63 on a uint64 takes the third alternative, below that the second. */
  lemma IntLexesBack(stored: int64, isUint64: bool, rest: seq<byte>)
    requires EndsNumber(rest)
    ensures Number(IntText(stored, isUint64) + rest) == Some((NormInt(stored, isUint64), rest))
  {
    CastsAreInverse(ToUint64(stored), stored);
    hide StrictReal, Int64, Uint64, Digits;
    if isUint64 {
      var u := ToUint64(stored);
      IntegersAreNotStrictReals(false, u, rest);
      assert Sign(false) + Digits(u) + rest == Digits(u) + rest;
      Uint64LexesBack(u, rest);
      Int64LexesBack(u, rest);
    } else {
      var n := Magnitude(stored);
      IntegersAreNotStrictReals(stored < 0, n, rest);
      assert Decimal(stored) == Sign(stored < 0) + Digits(n);
      Int64LexesBack(stored, rest);
    }
  }

  /** The multiple of 10^-8 that is printed for a real. */
  function OnGrid(r: real): real {
    var n := Units(Abs(r)) as real / 100000000.0;
    if r < 0.0 then -n else n
  }

  function GridPoint(k: int): real {
    k as real / 100000000.0
  }

  ghost predicate IsOnGrid(r: real) {
    exists k :: r == GridPoint(k)
  }

  lemma GridIsKept(r: real)
    ensures IsOnGrid(r) <==> OnGrid(r) == r
  {
    if IsOnGrid(r) {
      var k :| r == GridPoint(k);
      var n: int := if k < 0 then -k else k;
      assert Abs(r) * 100000000.0 == n as real;
      assert Units(Abs(r)) == n;
    }
    if OnGrid(r) == r {
      var n: int := Units(Abs(r));
      assert r == GridPoint(if r < 0.0 then -n else n);
    }
  }

  /** What is printed is a nearest multiple of 10^-8. */
  lemma GridIsNearest(r: real)
    ensures IsOnGrid(OnGrid(r))
    ensures forall k :: Distance(r, OnGrid(r)) <= Distance(r, GridPoint(k))
  {
    var n: int := Units(Abs(r));
    assert OnGrid(r) == GridPoint(if r < 0.0 then -n else n);
    forall k ensures Distance(r, OnGrid(r)) <= Distance(r, GridPoint(k)) {
      var x := Abs(r) * 100000000.0;
      assert n as real <= x + 0.5 < n as real + 1.0;
      var j: int := if r < 0.0 then -k else k;
      assert j as real <= n as real - 1.0 || j == n || j as real >= n as real + 1.0;
      assert Distance(r, GridPoint(k)) == Distance(x, j as real) / 100000000.0;
      assert Distance(r, OnGrid(r)) == Distance(x, n as real) / 100000000.0;
    }
  }

  /** Whatever is closer than half a unit to a grid point is printed as that point. So the text of a decimal with 8
      places is the same for the decimal and for any other number that stands for it, such as a nearby double. */
  lemma NearGridPrintsGrid(r: real, k: int)
    requires Distance(r, GridPoint(k)) < 0.000000005
    ensures OnGrid(r) == GridPoint(k)
  {
    var x := Abs(r) * 100000000.0;
    var j: int := if r < 0.0 then -k else k;
    assert Distance(r, GridPoint(k)) == Distance(x, j as real) / 100000000.0;
    assert Distance(x, j as real) < 0.5;
    assert j >= 0;
    assert Units(Abs(r)) == j;
  }

  /** So a decimal's stand-in comes back: with `nearest` the rounding to the numbers there are, printing the number
      that stands for a decimal and reading the text again gives that number. */
  lemma StandInSurvives(nearest: real -> real, k: int)
    requires Distance(nearest(GridPoint(k)), GridPoint(k)) < 0.000000005
    ensures nearest(OnGrid(nearest(GridPoint(k)))) == nearest(GridPoint(k))
  {
    NearGridPrintsGrid(nearest(GridPoint(k)), k);
  }

  function Distance(x: real, y: real): real {
    if x < y then y - x else x - y
  }

  lemma ScaleByTenth(n: nat)
    ensures Scale(n as real, -8) == n as real / 100000000.0
  {
    var x := n as real;
    assert Scale(x, -1) == Scale(x, 0) / 10.0;
    assert Scale(x, -2) == Scale(x, -1) / 10.0;
    assert Scale(x, -3) == Scale(x, -2) / 10.0;
    assert Scale(x, -4) == Scale(x, -3) / 10.0;
    assert Scale(x, -5) == Scale(x, -4) / 10.0;
    assert Scale(x, -6) == Scale(x, -5) / 10.0;
    assert Scale(x, -7) == Scale(x, -6) / 10.0;
    assert Scale(x, -8) == Scale(x, -7) / 10.0;
  }

  lemma Pow10Of8()
    ensures Pow10(8) == 100000000
  {
    assert Pow10(4) == 10000;
  }

  lemma RealLexesBack(r: real, rest: seq<byte>)
    requires EndsNumber(rest)
    ensures Number(RealText(r) + rest) == Some((Real(OnGrid(r)), rest))
  {
    hide StrictReal, Digits, Padded, Units, RealText;
    RealTextSplits(r, rest);
    StrictRealLexesBack(r < 0.0, Units(Abs(r)), rest);
    RealComesFirst(RealText(r) + rest);
  }

  lemma RealTextSplits(r: real, rest: seq<byte>)
    ensures var n := Units(Abs(r));
            RealText(r) + rest == Sign(r < 0.0) + Digits(n / 100000000) + ([DOT] + (Padded(n % 100000000, 8) + rest))
  {
    var n := Units(Abs(r));
    Assoc4(Sign(r < 0.0) + Digits(n / 100000000), [DOT], Padded(n % 100000000, 8), rest);
  }

  lemma RealComesFirst(s: seq<byte>)
    requires StrictReal(s).Some?
    ensures Number(s) == Some((Real(StrictReal(s).value.0), StrictReal(s).value.1))
  {
  }

  lemma StrictRealLexesBack(neg: bool, n: nat, rest: seq<byte>)
    requires EndsNumber(rest)
    ensures StrictReal(Sign(neg) + Digits(n / 100000000) + ([DOT] + (Padded(n % 100000000, 8) + rest)))
         == Some((Signed(neg, n as real / 100000000.0), rest))
  {
    SignSplitsOff(neg, n / 100000000, [DOT] + (Padded(n % 100000000, 8) + rest));
    PointLexesBack(neg, n, rest);
  }

  lemma PointLexesBack(neg: bool, n: nat, rest: seq<byte>)
    requires EndsNumber(rest)
    ensures UnsignedReal(neg, Digits(n / 100000000) + ([DOT] + (Padded(n % 100000000, 8) + rest)))
         == Some((Signed(neg, n as real / 100000000.0), rest))
  {
    hide Digits, DigitsValue, DigitRun, Padded, Scale, ExponentPart;
    var fraction := Padded(n % 100000000, 8) + rest;
    var after := [DOT] + fraction;
    DigitsLexBack(n / 100000000, after);
    assert after[1..] == fraction;
    FractionLexesBack(n % 100000000, rest);
    UnitsSplit(n, n / 100000000, n % 100000000);
  }

  lemma UnitsSplit(n: nat, q: nat, r: nat)
    requires n == 100000000 * q + r
    ensures n as real / 100000000.0 == q as real + r as real / 100000000.0
  {
  }

  lemma FractionLexesBack(n: nat, rest: seq<byte>)
    requires n < 100000000 && EndsNumber(rest)
    ensures var b := Padded(n, 8) + rest;
            && DigitRun(b) == 8
            && Scale(DigitsValue(b[..8]) as real, -8) == n as real / 100000000.0
            && b[8..] == rest
  {
    Pow10Of8();
    PaddedRoundTrip(n, 8);
    DigitRunOf(Padded(n, 8), rest);
    SliceOver(Padded(n, 8), rest);
    ScaleByTenth(n);
  }

  // ---------------------------------------------------------------- exponents

  lemma TenTimes(x: real, p: nat)
    ensures x * (10 * p) as real == x * p as real * 10.0
  {
    assert (10 * p) as real == p as real * 10.0;
  }

  /** `Scale` multiplies by a power of ten, or divides by one. */
  lemma {:induction false} ScaleUp(r: real, e: nat)
    ensures Scale(r, e) == r * Pow10(e) as real
  {
    if e > 0 {
      ScaleUp(r, e - 1);
      TenTimes(r, Pow10(e - 1));
    }
  }

  lemma {:induction false} ScaleDown(r: real, e: int)
    requires e >= 0
    ensures Scale(r, -e) * Pow10(e) as real == r
    decreases e
  {
    if e > 0 {
      ScaleDown(r, e - 1);
      assert Scale(r, -e) * 10.0 == Scale(r, -(e - 1));
      TenTimes(Scale(r, -e), Pow10(e - 1));
      Commute(Scale(r, -e), Pow10(e - 1) as real);
    }
  }

  lemma Commute(x: real, p: real)
    ensures x * p * 10.0 == x * 10.0 * p
  {
  }

  /** A numeral with an exponent and no point, as other writers print it: sign, digits, `e`, exponent. */
  lemma ExponentLexesBack(neg: bool, n: nat, upper: bool, e: int, rest: seq<byte>)
    requires EndsNumber(rest)
    ensures var mark: byte := if upper then 69 else 101;
            Number(Sign(neg) + Digits(n) + ([mark] + (Decimal(e) + rest)))
                == Some((Real(Scale(Signed(neg, n as real), e)), rest))
  {
    var mark: byte := if upper then 69 else 101;
    var tail := [mark] + (Decimal(e) + rest);
    hide Digits, DigitsValue, DigitRun, Scale, UnsignedReal;
    SignSplitsOff(neg, n, tail);
    UnsignedExponentLexesBack(neg, n, mark, e, rest);
    RealComesFirst(Sign(neg) + Digits(n) + tail);
  }

  lemma UnsignedExponentLexesBack(neg: bool, n: nat, mark: byte, e: int, rest: seq<byte>)
    requires EndsNumber(rest) && (mark == 101 || mark == 69)
    ensures UnsignedReal(neg, Digits(n) + ([mark] + (Decimal(e) + rest)))
        == Some((Scale(Signed(neg, n as real), e), rest))
  {
    hide Digits, DigitsValue, DigitRun, Scale, Decimal;
    var tail := [mark] + (Decimal(e) + rest);
    DigitsNonEmpty(n);
    DigitsLexBack(n, tail);
    assert tail[1..] == Decimal(e) + rest;
    ExponentDigitsLexBack(e, rest);
  }

  lemma DigitsNonEmpty(n: nat)
    ensures |Digits(n)| > 0
  {
  }

  lemma ExponentDigitsLexBack(e: int, rest: seq<byte>)
    requires EndsNumber(rest)
    ensures ExponentDigits(Decimal(e) + rest) == Some((e, rest))
  {
    SignSplitsOff(e < 0, Magnitude(e), rest);
    DigitsLexBack(Magnitude(e), rest);
    assert Decimal(e) == Sign(e < 0) + Digits(Magnitude(e));
  }
}
