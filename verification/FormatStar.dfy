/** Specifications with `*`: read twice, once to be discovered and once with the values. */
module FormatStar {
  import opened Bytes
  import opened FormatSpec

  // ---------------------------------------------------------------- what each stage depends on

  lemma ConversionParts(p: Setting, c: byte, precisionSet: bool)
    ensures Conversion(p, c, precisionSet).out == Conversion(Setting(p.out, NO_EXTRA), c, precisionSet).out
    ensures Conversion(p, c, precisionSet).extra
         == if c == 115 && precisionSet then p.extra.(truncate := true) else p.extra
    ensures Conversion(p, c, precisionSet).out.precision == p.out.precision
  {
  }

  /** The last stage by itself. */
  lemma FinishKeeps(w: Stage, q: Stage)
    ensures var a := FinishSpec(w, q);
            && a.p.out.precision == q.p.out.precision
            && a.conversion == At(q.rest[LengthRun(q.rest)..], 0) && a.error == ConversionError(a.conversion)
            && a.p.extra == if a.conversion == 115 && q.given then q.p.extra.(truncate := true) else q.p.extra
  {
    hide Conversion;
    ConversionParts(q.p, At(q.rest[LengthRun(q.rest)..], 0), q.given);
  }

  lemma FinishEnds(w: Stage, q: Stage, w': Stage, q': Stage)
    requires q.rest == q'.rest
    ensures FinishSpec(w, q).end == FinishSpec(w', q').end
  {
    hide Conversion;
  }

  lemma FinishOut(w: Stage, q: Stage, w': Stage, q': Stage)
    requires w.given == w'.given && q.given == q'.given && q.rest == q'.rest && q.p.out == q'.p.out
    ensures FinishSpec(w, q).p.out == FinishSpec(w', q').p.out
  {
    hide Conversion;
    var c := At(q.rest[LengthRun(q.rest)..], 0);
    ConversionParts(q.p, c, q.given);
    ConversionParts(q'.p, c, q.given);
  }

  /** It keeps the precision, and treats stream state and extra flags apart. */
  lemma FinishParts(w: Stage, q: Stage, w': Stage, q': Stage)
    requires w.given == w'.given && q.given == q'.given && q.rest == q'.rest
    ensures var a, b := FinishSpec(w, q), FinishSpec(w', q');
            && a.end == b.end && a.error == b.error && a.conversion == b.conversion
            && (q.p.extra == q'.p.extra ==> a.p.extra == b.p.extra)
            && (q.p.out == q'.p.out ==> a.p.out == b.p.out)
            && (q.p.extra == q'.p.extra.(varWidth := true) ==> a.p.extra == b.p.extra.(varWidth := true))
            && (q.p.extra == q'.p.extra.(varPrecision := true) ==> a.p.extra == b.p.extra.(varPrecision := true))
    ensures FinishSpec(w, q).p.out.precision == q.p.out.precision
    ensures FinishSpec(w, q).p.extra.varWidth == q.p.extra.varWidth
    ensures FinishSpec(w, q).p.extra.varPrecision == q.p.extra.varPrecision
  {
    hide FinishSpec, LengthRun, ConversionError;
    FinishKeeps(w, q);
    FinishKeeps(w', q');
    FinishEnds(w, q, w', q');
    if q.p.out == q'.p.out {
      FinishOut(w, q, w', q');
    }
  }

  lemma WidthParts(p: Setting, p': Setting, s: seq<byte>, w: int, w': int)
    ensures var x, y := Width(p, s, w), Width(p', s, w');
            && x.rest == y.rest && x.given == y.given
            && (p.extra == p'.extra ==> x.p.extra == y.p.extra)
            && (p == p' && (w == w' || !x.p.extra.varWidth) ==> x == y)
    ensures Width(p, s, w).p.extra.varPrecision == p.extra.varPrecision
  {
  }

  lemma PrecisionParts(p: Setting, p': Setting, s: seq<byte>, v: int, v': int)
    ensures var x, y := Precision(p, s, v), Precision(p', s, v');
            && x.rest == y.rest && x.given == y.given
            && (p.extra == p'.extra ==> x.p.extra == y.p.extra)
            && (p == p' && (v == v' || !x.p.extra.varPrecision) ==> x == y)
    ensures Precision(p, s, v).p.extra.varWidth == p.extra.varWidth
  {
  }

  // ---------------------------------------------------------------- discovery and re-parse

  /** Where a specification ends, what it asks for and whether it is refused do not depend on the stream or
      on the values for its stars: the discovery parse and the re-parse agree. */
  lemma ReparseAgrees(s: seq<byte>, out: StreamState, w: int, v: int, out': StreamState, w': int, v': int)
    ensures var a, b := ParseSpec(out, s, w, v), ParseSpec(out', s, w', v');
            && a.end == b.end && a.error == b.error && a.conversion == b.conversion
            && (a.error.None? ==> a.p.extra == b.p.extra)
  {
    if At(s, 0) == PERCENT {
      var t := s[1..];
      var fs := t[..FlagRun(t)];
      FlagsBySet(out, fs);
      FlagsBySet(out', fs);
      StagesAgree(ApplyFlags(Reset(out), fs), ApplyFlags(Reset(out'), fs), t[FlagRun(t)..], w, v, w', v');
    }
  }

  lemma StagesAgree(p: Setting, p': Setting, s: seq<byte>, w: int, v: int, w': int, v': int)
    requires p.extra == p'.extra
    ensures var a, b := AfterFlags(p, s, w, v), AfterFlags(p', s, w', v');
            && a.end == b.end && a.error == b.error && a.conversion == b.conversion && a.p.extra == b.p.extra
  {
    hide Width, Precision, FinishSpec;
    WidthParts(p, p', s, w, w');
    var x, y := Width(p, s, w), Width(p', s, w');
    PrecisionParts(x.p, y.p, x.rest, v, v');
    FinishParts(x, Precision(x.p, x.rest, v), y, Precision(y.p, y.rest, v'));
  }

  /** A value for a star that is not there is not looked at, and of the stream before only `other` matters. */
  lemma UnusedValues(s: seq<byte>, out: StreamState, w: int, v: int, out': StreamState, w': int, v': int)
    requires out.flags.other == out'.flags.other
    requires var e := ParseSpec(out, s, w, v).p.extra; (e.varWidth ==> w == w') && (e.varPrecision ==> v == v')
    ensures ParseSpec(out, s, w, v).error.None? ==> ParseSpec(out, s, w, v) == ParseSpec(out', s, w', v')
  {
    if At(s, 0) == PERCENT {
      assert Reset(out) == Reset(out');
      var t := s[1..];
      var fs := t[..FlagRun(t)];
      FlagsBySet(out, fs);
      StagesIgnore(ApplyFlags(Reset(out), fs), t[FlagRun(t)..], w, v, w', v');
    }
  }

  lemma StagesIgnore(p: Setting, s: seq<byte>, w: int, v: int, w': int, v': int)
    requires !p.extra.varWidth && !p.extra.varPrecision
    requires var e := AfterFlags(p, s, w, v).p.extra; (e.varWidth ==> w == w') && (e.varPrecision ==> v == v')
    ensures AfterFlags(p, s, w, v) == AfterFlags(p, s, w', v')
  {
    hide Width, Precision, FinishSpec;
    WidthParts(p, p, s, w, w');
    var x, y := Width(p, s, w), Width(p, s, w');
    PrecisionParts(x.p, x.p, x.rest, v, v');
    var q := Precision(x.p, x.rest, v);
    FinishParts(x, q, x, q);
    assert q.p.extra.varWidth == x.p.extra.varWidth;
  }

  // ---------------------------------------------------------------- stars and digits

  lemma FlagsSplitOff(out: StreamState, fs: seq<byte>, t: seq<byte>, w: int, v: int)
    requires AllFlags(fs) && !IsFlag(At(t, 0))
    ensures ParseSpec(out, [PERCENT] + fs + t, w, v) == AfterFlags(ApplyFlags(Reset(out), fs), t, w, v)
  {
    var s := [PERCENT] + fs + t;
    assert s[1..] == fs + t;
    SliceOver(fs, t);
    assert t == [] || (fs + t)[|fs|] == t[0];
    FlagRunStops(fs + t, |fs|);
  }

  lemma DigitsAreRead(n: nat, tail: seq<byte>)
    requires !IsDigit(At(tail, 0))
    ensures var s := Digits(n) + tail;
            && DigitRun(s) == |Digits(n)| && DigitsValue(s[..DigitRun(s)]) == n && s[DigitRun(s)..] == tail
            && s[0] == Digits(n)[0]
  {
    DigitRunOf(Digits(n), tail);
    DigitsRoundTrip(n);
    SliceOver(Digits(n), tail);
  }

  /** `"%" flags "*" tail` with the value `w` and `"%" flags w tail` with the digits in place leave the same
      stream state, for every nonzero `w`; a negative one writes its '-' flag. What follows
      must not prolong the width. */
  lemma StarWidthIsInline(out: StreamState, fs: seq<byte>, tail: seq<byte>, w: int, other: int, v: int)
    requires AllFlags(fs) && w != 0 && !IsDigit(At(tail, 0)) && At(tail, 0) != STAR
    ensures var star, inline := ParseSpec(out, [PERCENT] + fs + ([STAR] + tail), w, v),
                                ParseSpec(out, [PERCENT] + fs + (Decimal(w) + tail), other, v);
            && star.p.out == inline.p.out && star.end == inline.end
            && star.error == inline.error && star.conversion == inline.conversion
            && star.p.extra == inline.p.extra.(varWidth := true)
  {
    hide AfterFlags, ApplyFlag, ApplyFlags, ParseSpec;
    var n: nat := if w < 0 then -w else w;
    var p := ApplyFlags(Reset(out), fs);
    FlagsSplitOff(out, fs, [STAR] + tail, w, v);
    InlineSplitsOff(out, fs, n, w < 0, tail, other, v);
    WidthsMeet(p, if w < 0 then ApplyFlag(p, MINUS) else p, n, tail, w, other, v);
  }

  lemma InlineSplitsOff(out: StreamState, fs: seq<byte>, n: nat, neg: bool, tail: seq<byte>, w: int, v: int)
    requires AllFlags(fs) && n > 0
    ensures var p := ApplyFlags(Reset(out), fs);
            ParseSpec(out, [PERCENT] + fs + ((if neg then [MINUS] + Digits(n) else Digits(n)) + tail), w, v)
            == AfterFlags(if neg then ApplyFlag(p, MINUS) else p, Digits(n) + tail, w, v)
  {
    hide AfterFlags, ApplyFlag, ParseSpec, ApplyFlags;
    var p := ApplyFlags(Reset(out), fs);
    assert (Digits(n) + tail)[0] == Digits(n)[0];
    if neg {
      assert [PERCENT] + fs + (([MINUS] + Digits(n)) + tail) == [PERCENT] + (fs + [MINUS]) + (Digits(n) + tail);
      FlagsSplitOff(out, fs + [MINUS], Digits(n) + tail, w, v);
      ApplyFlagsConcat(Reset(out), fs, [MINUS]);
      ApplyOne(p, MINUS);
    } else {
      FlagsSplitOff(out, fs, Digits(n) + tail, w, v);
    }
  }

  lemma ApplyOne(p: Setting, c: byte)
    ensures ApplyFlags(p, [c]) == ApplyFlag(p, c)
  {
    assert [c][1..] == [];
  }

  lemma WidthsMeet(p: Setting, p': Setting, n: nat, tail: seq<byte>, w: int, other: int, v: int)
    requires !IsDigit(At(tail, 0)) && At(tail, 0) != STAR
    requires n == (if w < 0 then -w else w) && p' == (if w < 0 then ApplyFlag(p, MINUS) else p)
    ensures var star, inline := AfterFlags(p, [STAR] + tail, w, v), AfterFlags(p', Digits(n) + tail, other, v);
            && star.p.out == inline.p.out && star.end == inline.end
            && star.error == inline.error && star.conversion == inline.conversion
            && star.p.extra == inline.p.extra.(varWidth := true)
  {
    hide FinishSpec, Precision;
    var x, y := Width(p, [STAR] + tail, w), Width(p', Digits(n) + tail, other);
    StarIsRead(p, tail, w);
    DigitsAreRead(n, tail);
    assert WidthDigits(p', Digits(n) + tail) == Stage(p'.(out := p'.out.(width := n)), tail, true);
    assert y == Stage(p'.(out := p'.out.(width := n)), tail, true);
    PrecisionAfter(x.p, y.p, tail, v);
    FinishParts(x, Precision(x.p, tail, v), y, Precision(y.p, tail, v));
  }

  lemma StarIsRead(p: Setting, tail: seq<byte>, w: int)
    ensures Width(p, [STAR] + tail, w) == Stage(StarWidth(p, w), tail, true)
  {
    assert ([STAR] + tail)[1..] == tail;
    assert DigitRun([STAR] + tail) == 0;
  }

  lemma PrecisionAfter(p: Setting, p': Setting, s: seq<byte>, v: int)
    requires p.out == p'.out && p.extra == p'.extra.(varWidth := true)
    ensures var x, y := Precision(p, s, v), Precision(p', s, v);
            x.rest == y.rest && x.given == y.given && x.p.out == y.p.out && x.p.extra == y.p.extra.(varWidth := true)
  {
  }

  /** A zero written in place is the '0' flag. */
  lemma ZeroSplitsOff(out: StreamState, fs: seq<byte>, tail: seq<byte>, w: int, v: int)
    requires AllFlags(fs) && !IsFlag(At(tail, 0))
    ensures ParseSpec(out, [PERCENT] + fs + (Decimal(0) + tail), w, v)
         == AfterFlags(ApplyFlag(ApplyFlags(Reset(out), fs), ZERO), tail, w, v)
  {
    assert Decimal(0) == [ZERO];
    assert [PERCENT] + fs + ([ZERO] + tail) == [PERCENT] + (fs + [ZERO]) + tail;
    FlagsSplitOff(out, fs + [ZERO], tail, w, v);
    ApplyFlagsConcat(Reset(out), fs, [ZERO]);
    ApplyOne(ApplyFlags(Reset(out), fs), ZERO);
    hide AfterFlags, ApplyFlag, ParseSpec, ApplyFlags;
  }

  lemma NoWidth(p: Setting, s: seq<byte>, w: int)
    requires !IsDigit(At(s, 0)) && At(s, 0) != STAR
    ensures Width(p, s, w) == Stage(p, s, false)
  {
  }

  /** What stands behind the precision at the front of `tail`, and behind the length modifiers there. */
  function BehindPrecision(tail: seq<byte>): seq<byte> {
    if At(tail, 0) != DOT then tail
    else if At(tail, 1) == STAR then tail[2..]
    else if At(tail, 1) == MINUS then tail[2..][DigitRun(tail[2..])..]
    else tail[1..][DigitRun(tail[1..])..]
  }

  function ConversionIn(tail: seq<byte>): byte {
    var rest := BehindPrecision(tail);
    At(rest[LengthRun(rest)..], 0)
  }

  /** The precision at the front of `tail`, `v` being the value for a star. */
  function PrecisionIn(tail: seq<byte>, v: int): int
    requires At(tail, 0) == DOT
  {
    if At(tail, 1) == STAR then v
    else if At(tail, 1) == MINUS then 0
    else DigitsValue(tail[1..][..DigitRun(tail[1..])])
  }

  lemma PrecisionIsIn(p: Setting, tail: seq<byte>, v: int)
    ensures var q := Precision(p, tail, v);
            && q.rest == BehindPrecision(tail) && q.given == (At(tail, 0) == DOT)
            && (q.given ==> q.p.out.precision == PrecisionIn(tail, v))
  {
    hide DigitRun, DigitsValue;
  }

  /** A star width of zero against the '0' in place: after the same flags, the one leaves a width that counts as
      given, the other a flag. The stream states are the same exactly when the flag changes nothing ('-' or '0' is
      there already), and the precision of an integer is not taken for the width that is not there (or is zero, and
      the zero fill it brings is there already). */
  lemma StarZeroIsInlineIff(out: StreamState, fs: seq<byte>, tail: seq<byte>, other: int, v: int)
    requires AllFlags(fs) && !IsDigit(At(tail, 0)) && At(tail, 0) != STAR && !IsFlag(At(tail, 0))
    ensures var star, inline := ParseSpec(out, [PERCENT] + fs + ([STAR] + tail), 0, v),
                                ParseSpec(out, [PERCENT] + fs + (Decimal(0) + tail), other, v);
            && (star.p.out == inline.p.out <==>
                  && (MINUS in fs || ZERO in fs)
                  && (At(tail, 0) == DOT && IsIntConversion(ConversionIn(tail)) ==>
                        PrecisionIn(tail, v) == 0 && MINUS !in fs))
            && star.end == inline.end && star.error == inline.error && star.conversion == inline.conversion
            && star.p.extra == inline.p.extra.(varWidth := true)
  {
    var p := ApplyFlags(Reset(out), fs);
    FlagsSplitOff(out, fs, [STAR] + tail, 0, v);
    ZeroSplitsOff(out, fs, tail, other, v);
    FlagsBySet(out, fs);
    StarIsRead(p, tail, 0);
    NoWidth(ApplyFlag(p, ZERO), tail, other);
    hide ParseSpec, ApplyFlags, Width, Decimal, ConversionIn, PrecisionIn;
    ZerosMeet(p, tail, v);
  }

  /** From behind the width. */
  lemma ZerosMeet(p: Setting, tail: seq<byte>, v: int)
    requires p.out.width == 0
    requires p.out.flags.adjust == Left ==> p.out.fill == SPACE
    requires p.out.fill == ZERO <==> p.out.flags.adjust == Internal
    ensures var p0 := ApplyFlag(p, ZERO);
            var star := FinishSpec(Stage(StarWidth(p, 0), tail, true), Precision(StarWidth(p, 0), tail, v));
            var inline := FinishSpec(Stage(p0, tail, false), Precision(p0, tail, v));
            && (star.p.out == inline.p.out <==>
                  && p.out.flags.adjust in {Left, Internal}
                  && (At(tail, 0) == DOT && IsIntConversion(ConversionIn(tail)) ==>
                        PrecisionIn(tail, v) == 0 && p.out.flags.adjust != Left))
            && star.end == inline.end && star.error == inline.error && star.conversion == inline.conversion
            && star.p.extra == inline.p.extra.(varWidth := true)
  {
    var p0 := ApplyFlag(p, ZERO);
    var q, q0 := Precision(StarWidth(p, 0), tail, v), Precision(p0, tail, v);
    PrecisionsAgree(StarWidth(p, 0), p0, tail, v);
    PrecisionIsIn(StarWidth(p, 0), tail, v);
    FinishZeros(Stage(StarWidth(p, 0), tail, true), q, Stage(p0, tail, false), q0);
    hide Precision, FinishSpec, BehindPrecision, PrecisionIn, IsIntConversion;
  }

  /** Two settings that differ in fill and adjustment at most, and in the note of the star. */
  predicate SameButPadding(p: Setting, p': Setting) {
    && p'.out == p.out.(fill := p'.out.fill, flags := p.out.flags.(adjust := p'.out.flags.adjust))
    && p.extra == p'.extra.(varWidth := true)
  }

  lemma PrecisionsAgree(p: Setting, p': Setting, tail: seq<byte>, v: int)
    requires SameButPadding(p, p')
    ensures var q, q' := Precision(p, tail, v), Precision(p', tail, v);
            && q.rest == q'.rest && q.given == q'.given == (At(tail, 0) == DOT) && SameButPadding(q.p, q'.p)
            && q.p.out.fill == p.out.fill && q.p.out.flags == p.out.flags && q.p.out.width == p.out.width
            && q'.p.out.fill == p'.out.fill && q'.p.out.flags == p'.out.flags
  {
  }

  lemma ConversionKeepsPadding(p: Setting, c: byte, given: bool)
    ensures var x := Conversion(p, c, given);
            && x.out.fill == p.out.fill && x.out.flags.adjust == p.out.flags.adjust
            && x.out.width == p.out.width && x.out.precision == p.out.precision
  {
  }

  /** The number format after a conversion character. */
  lemma ConversionFormat(p: Setting, c: byte, given: bool)
    ensures var f, g := p.out.flags, Conversion(p, c, given).out.flags;
            && g.numberBase == (if c in {117, 100, 105, 69, 101, 71, 103} then Dec
                                else if c == 111 then Oct else if c in {88, 120, 112} then Hex else f.numberBase)
            && g.floatField == (if c in {69, 101} then Scientific else if c in {70, 102} then Fixed
                                else if c in {71, 103} then General else f.floatField)
  {
  }

  /** The single flags that it may set. */
  lemma ConversionSwitches(p: Setting, c: byte, given: bool)
    ensures var f, g := p.out.flags, Conversion(p, c, given).out.flags;
            g.uppercase == (f.uppercase || c in {88, 69, 70, 71}) && g.boolalpha == (f.boolalpha || c == 115)
  {
  }

  /** The single flags that it leaves alone. */
  lemma ConversionLeaves(p: Setting, c: byte, given: bool)
    ensures var f, g := p.out.flags, Conversion(p, c, given).out.flags;
            g.showbase == f.showbase && g.showpoint == f.showpoint
  {
  }

  lemma ConversionLeavesToo(p: Setting, c: byte, given: bool)
    ensures var f, g := p.out.flags, Conversion(p, c, given).out.flags;
            g.showpos == f.showpos && g.other == f.other
  {
  }

  lemma ConversionsAgree(p: Setting, p': Setting, c: byte, given: bool)
    requires SameButPadding(p, p')
    ensures SameButPadding(Conversion(p, c, given), Conversion(p', c, given))
  {
    hide Conversion;
    ConversionKeepsPadding(p, c, given);
    ConversionKeepsPadding(p', c, given);
    ConversionFormat(p, c, given);
    ConversionFormat(p', c, given);
    ConversionSwitches(p, c, given);
    ConversionSwitches(p', c, given);
    ConversionLeaves(p, c, given);
    ConversionLeaves(p', c, given);
    ConversionLeavesToo(p, c, given);
    ConversionLeavesToo(p', c, given);
    ConversionParts(p, c, given);
    ConversionParts(p', c, given);
  }

  lemma FinishZeros(w: Stage, q: Stage, w': Stage, q': Stage)
    requires w.given && !w'.given
    requires q.rest == q'.rest && q.given == q'.given && SameButPadding(q.p, q'.p) && q.p.out.width == 0
    requires q'.p.out.fill == (if q.p.out.flags.adjust == Left then SPACE else ZERO)
    requires q'.p.out.flags.adjust == (if q.p.out.flags.adjust == Left then Left else Internal)
    requires q.p.out.flags.adjust == Left ==> q.p.out.fill == SPACE
    requires q.p.out.fill == ZERO <==> q.p.out.flags.adjust == Internal
    ensures var star, inline := FinishSpec(w, q), FinishSpec(w', q');
            && (star.p.out == inline.p.out <==>
                  && q.p.out.flags.adjust in {Left, Internal}
                  && (q.given && IsIntConversion(At(q.rest[LengthRun(q.rest)..], 0)) ==>
                        q.p.out.precision == 0 && q.p.out.flags.adjust != Left))
            && star.end == inline.end && star.error == inline.error && star.conversion == inline.conversion
            && star.p.extra == inline.p.extra.(varWidth := true)
  {
    var c := At(q.rest[LengthRun(q.rest)..], 0);
    ConversionKeepsPadding(q.p, c, q.given);
    ConversionKeepsPadding(q'.p, c, q.given);
    ConversionsAgree(q.p, q'.p, c, q.given);
    hide Conversion;
  }

  /** So `%*d` with a zero is not `%0d`. */
  lemma StarZeroIsNotInline(out: StreamState, other: int)
    ensures ParseSpec(out, [PERCENT] + [] + ([STAR] + [100]), 0, 0).p.out
         != ParseSpec(out, [PERCENT] + [] + (Decimal(0) + [100]), other, 0).p.out
  {
    StarZeroIsInlineIff(out, [], [100], other, 0);
  }

  /** What may stand between the flags and the point: a width in digits, a star, or both. */
  function WidthText(width: nat, star: bool): seq<byte> {
    (if width == 0 then [] else Digits(width)) + (if star then [STAR] else [])
  }

  /** The same for a precision, written in place after flags and any width: the stream state is the
      same exactly when the value is not negative. (In place, a negative precision counts as zero.) */
  lemma StarPrecisionIsInlineIff(out: StreamState, fs: seq<byte>, width: nat, starred: bool, tail: seq<byte>, w: int,
      v: int, other: int)
    requires AllFlags(fs) && !IsDigit(At(tail, 0))
    ensures var ds := WidthText(width, starred);
            var star, inline := ParseSpec(out, [PERCENT] + fs + (ds + ([DOT, STAR] + tail)), w, v),
                                ParseSpec(out, [PERCENT] + fs + (ds + ([DOT] + Decimal(v) + tail)), w, other);
            && (star.p.out == inline.p.out <==> v >= 0)
            && star.end == inline.end && star.error == inline.error && star.conversion == inline.conversion
            && star.p.extra == inline.p.extra.(varPrecision := true)
  {
    var ds := WidthText(width, starred);
    var p := ApplyFlags(Reset(out), fs);
    var a, b := [DOT, STAR] + tail, [DOT] + Decimal(v) + tail;
    WidthTextStarts(width, starred, a);
    WidthTextStarts(width, starred, b);
    FlagsSplitOff(out, fs, ds + a, w, v);
    FlagsSplitOff(out, fs, ds + b, w, other);
    SameWidth(p, width, starred, a, b, w);
    var x := Width(p, ds + a, w);
    PrecisionsMeet(x.p, tail, v, other);
    hide FinishSpec, Precision, Width, WidthText, ApplyFlags, ParseSpec, Decimal;
    FinishPrecisions(x, Precision(x.p, a, v), Width(p, ds + b, w), Precision(x.p, b, other));
  }

  lemma WidthTextStarts(width: nat, starred: bool, a: seq<byte>)
    requires At(a, 0) == DOT
    ensures !IsFlag(At(WidthText(width, starred) + a, 0))
  {
    var ds := WidthText(width, starred);
    assert ds == [] ==> ds + a == a;
    assert ds != [] ==> (ds + a)[0] == if width > 0 then Digits(width)[0] else STAR;
  }

  /** Both at once: the digits of a nonzero width and of a precision in place leave the stream state of the two
      stars exactly when the precision is not negative. */
  lemma StarsAreInlineIff(out: StreamState, fs: seq<byte>, tail: seq<byte>, w: int, v: int, other: int, other': int)
    requires AllFlags(fs) && w != 0 && !IsDigit(At(tail, 0))
    ensures var star, inline := ParseSpec(out, [PERCENT] + fs + ([STAR] + ([DOT, STAR] + tail)), w, v),
                                ParseSpec(out, [PERCENT] + fs + (Decimal(w) + ([DOT] + Decimal(v) + tail)),
                                          other, other');
            && (star.p.out == inline.p.out <==> v >= 0)
            && star.end == inline.end && star.error == inline.error && star.conversion == inline.conversion
            && star.p.extra == inline.p.extra.(varWidth := true, varPrecision := true)
  {
    var n: nat := if w < 0 then -w else w;
    var sign := if w < 0 then [MINUS] else [];
    StarWidthIsInline(out, fs, [DOT, STAR] + tail, w, other, v);
    StarPrecisionIsInlineIff(out, fs + sign, n, false, tail, other, v, other');
    assert Decimal(w) == sign + WidthText(n, false) by {
      assert Digits(n) + [] == Digits(n) && [] + Digits(n) == Digits(n);
    }
    hide ParseSpec, Decimal, WidthText;
    Regroup(fs, sign, WidthText(n, false), [DOT, STAR] + tail);
    Regroup(fs, sign, WidthText(n, false), [DOT] + Decimal(v) + tail);
  }

  lemma Regroup(fs: seq<byte>, sign: seq<byte>, ds: seq<byte>, a: seq<byte>)
    ensures [PERCENT] + fs + ((sign + ds) + a) == [PERCENT] + (fs + sign) + (ds + a)
  {
  }

  lemma SameWidth(p: Setting, width: nat, starred: bool, a: seq<byte>, b: seq<byte>, w: int)
    requires At(a, 0) == At(b, 0) == DOT
    ensures var x, y := Width(p, WidthText(width, starred) + a, w), Width(p, WidthText(width, starred) + b, w);
            x.rest == a && y.rest == b && x.p == y.p && x.given == y.given
  {
    WidthBeforePoint(p, width, starred, a, w);
    WidthBeforePoint(p, width, starred, b, w);
    hide Width, WidthText;
  }

  lemma WidthBeforePoint(p: Setting, width: nat, starred: bool, a: seq<byte>, w: int)
    requires At(a, 0) == DOT
    ensures var q := if width == 0 then p else p.(out := p.out.(width := width));
            Width(p, WidthText(width, starred) + a, w)
            == Stage(if starred then StarWidth(q, w) else q, a, width > 0 || starred)
  {
    hide StarWidth, WidthDigits, Digits;
    if starred {
      WidthDigitsBefore(p, width, [STAR] + a);
      Assoc(if width == 0 then [] else Digits(width), [STAR], a);
      assert ([STAR] + a)[1..] == a;
    } else {
      WidthDigitsBefore(p, width, a);
      assert WidthText(width, starred) == if width == 0 then [] else Digits(width);
    }
  }

  lemma WidthDigitsBefore(p: Setting, width: nat, rest: seq<byte>)
    requires !IsDigit(At(rest, 0))
    ensures WidthDigits(p, (if width == 0 then [] else Digits(width)) + rest)
         == if width == 0 then Stage(p, rest, false) else Stage(p.(out := p.out.(width := width)), rest, true)
  {
    if width > 0 {
      DigitsAreRead(width, rest);
      hide Digits, DigitsValue, DigitRun;
    } else {
      assert [] + rest == rest;
    }
  }

  lemma FinishPrecisions(w: Stage, q: Stage, w': Stage, r: Stage)
    requires w.given == w'.given && q.given == r.given && q.rest == r.rest
    requires q.p.out == r.p.out || q.p.out.precision != r.p.out.precision
    requires q.p.extra == r.p.extra.(varPrecision := true)
    ensures var a, b := FinishSpec(w, q), FinishSpec(w', r);
            && (a.p.out == b.p.out <==> q.p.out == r.p.out)
            && a.end == b.end && a.error == b.error && a.conversion == b.conversion
            && a.p.extra == b.p.extra.(varPrecision := true)
  {
    FinishParts(w, q, w', r);
    FinishParts(w', r, w, q);
    hide FinishSpec;
  }

  lemma PrecisionsMeet(p: Setting, tail: seq<byte>, v: int, other: int)
    requires !IsDigit(At(tail, 0))
    ensures var x, y := Precision(p, [DOT, STAR] + tail, v), Precision(p, [DOT] + Decimal(v) + tail, other);
            && x.rest == y.rest == tail && x.given && y.given
            && x.p.out == p.out.(precision := v)
            && y.p.out == p.out.(precision := if v < 0 then 0 else v)
            && x.p.extra == p.extra.(varPrecision := true) && y.p.extra == p.extra
  {
    var n: nat := if v < 0 then -v else v;
    DigitsAreRead(n, tail);
    assert ([DOT, STAR] + tail)[2..] == tail;
    if v < 0 {
      assert [DOT] + ([MINUS] + Digits(n)) + tail == [DOT, MINUS] + (Digits(n) + tail);
      NegativePrecision(p, Digits(n) + tail, other);
    } else {
      Assoc([DOT], Digits(n), tail);
      DigitPrecision(p, Digits(n) + tail, other);
    }
  }

  lemma NegativePrecision(p: Setting, ds: seq<byte>, v: int)
    ensures Precision(p, [DOT, MINUS] + ds, v) == Stage(p.(out := p.out.(precision := 0)), ds[DigitRun(ds)..], true)
  {
    assert ([DOT, MINUS] + ds)[2..] == ds;
  }

  lemma DigitPrecision(p: Setting, ds: seq<byte>, v: int)
    requires StartsWithDigit(ds)
    ensures Precision(p, [DOT] + ds, v)
         == Stage(p.(out := p.out.(precision := DigitsValue(ds[..DigitRun(ds)]))), ds[DigitRun(ds)..], true)
  {
    assert ([DOT] + ds)[1..] == ds;
    assert At([DOT] + ds, 1) == ds[0];
  }
}
