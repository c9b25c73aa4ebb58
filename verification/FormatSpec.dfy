/** One conversion specification: the flags, width, precision and conversion character of a
    format string, and the stream state they leave. */
module FormatSpec {
  import opened Bytes

  datatype Adjust = NoAdjust | Left | Right | Internal
  datatype NumberBase = NoBase | Dec | Oct | Hex
  datatype FloatField = General | Fixed | Scientific

  /** The format flags of a stream; `other` stands for those that a specification leaves alone. */
  datatype Flags = Flags(adjust: Adjust, numberBase: NumberBase, floatField: FloatField,
                         showbase: bool, boolalpha: bool, showpoint: bool, showpos: bool, uppercase: bool, other: int)

  datatype StreamState = StreamState(width: int, precision: int, fill: byte, flags: Flags)

  /** What the stream state cannot express. */
  datatype Extra = Extra(truncate: bool, spacePad: bool, varWidth: bool, varPrecision: bool)

  const NO_EXTRA: Extra := Extra(false, false, false, false)

  datatype FormatError = NotEnoughSpecs | TooManySpecs | Unsupported | Unterminated | NotConvertible

  /** Stream state and extra flags, as they are filled in while a specification is read. */
  datatype Setting = Setting(out: StreamState, extra: Extra)

  class OStream {
    var text: seq<byte>
    var state: StreamState

    constructor (state: StreamState)
      ensures this.text == [] && this.state == state
    {
      this.text := [];
      this.state := state;
    }
  }

  // ---------------------------------------------------------------- flags

  predicate IsFlag(c: byte) {
    c == HASH || c == ZERO || c == MINUS || c == SPACE || c == PLUS
  }

  predicate AllFlags(fs: seq<byte>) {
    forall i :: 0 <= i < |fs| ==> IsFlag(fs[i])
  }

  /** The state a specification starts from. */
  function Reset(out: StreamState): Setting {
    Setting(StreamState(0, 6, SPACE,
                        Flags(NoAdjust, NoBase, General, false, false, false, false, false, out.flags.other)), NO_EXTRA)
  }

  /** One flag character, in the context of the flags before it. */
  function ApplyFlag(p: Setting, c: byte): Setting {
    var f := p.out.flags;
    if c == HASH then p.(out := p.out.(flags := f.(showpoint := true, showbase := true)))
    else if c == ZERO then
      if f.adjust == Left then p else p.(out := p.out.(fill := ZERO, flags := f.(adjust := Internal)))
    else if c == MINUS then p.(out := p.out.(fill := SPACE, flags := f.(adjust := Left)))
    else if c == SPACE then
      if f.showpos then p else p.(extra := p.extra.(spacePad := true))
    else if c == PLUS then Setting(p.out.(flags := f.(showpos := true)), p.extra.(spacePad := false))
    else p
  }

  function ApplyFlags(p: Setting, fs: seq<byte>): Setting
    decreases fs
  {
    if fs == [] then p else ApplyFlags(ApplyFlag(p, fs[0]), fs[1..])
  }

  function FlagRun(s: seq<byte>): (n: nat)
    ensures n <= |s|
    ensures AllFlags(s[..n]) && !IsFlag(At(s, n))
  {
    if s != [] && IsFlag(s[0]) then 1 + FlagRun(s[1..]) else 0
  }

  /** The state as a function of which flags occur: '-' overrides '0', '+' overrides space. */
  function SettingOf(out: StreamState, hash: bool, zero: bool, minus: bool, space: bool, plus: bool): Setting {
    Setting(StreamState(0, 6, if zero && !minus then ZERO else SPACE,
                        Flags(if minus then Left else if zero then Internal else NoAdjust, NoBase, General,
                              hash, false, hash, plus, false, out.flags.other)),
            Extra(false, space && !plus, false, false))
  }

  function SettingOfFlags(out: StreamState, fs: seq<byte>): Setting {
    SettingOf(out, HASH in fs, ZERO in fs, MINUS in fs, SPACE in fs, PLUS in fs)
  }

  lemma {:induction false} FlagsBySet(out: StreamState, fs: seq<byte>)
    requires AllFlags(fs)
    ensures ApplyFlags(Reset(out), fs) == SettingOfFlags(out, fs)
  {
    if fs != [] {
      var init, last := fs[..|fs| - 1], fs[|fs| - 1];
      assert fs == init + [last];
      FlagsBySet(out, init);
      ApplyFlagsConcat(Reset(out), init, [last]);
      assert forall c :: c in fs <==> c in init || c == last;
    }
  }

  lemma {:induction false} ApplyFlagsConcat(p: Setting, a: seq<byte>, b: seq<byte>)
    ensures ApplyFlags(p, a + b) == ApplyFlags(ApplyFlags(p, a), b)
    decreases a
  {
    if a == [] {
      assert a + b == b;
    } else {
      assert (a + b)[1..] == a[1..] + b;
      ApplyFlagsConcat(ApplyFlag(p, a[0]), a[1..], b);
    }
  }

  /** Order and repetition of flags do not matter. */
  lemma FlagsAreOrderFree(out: StreamState, fs: seq<byte>, gs: seq<byte>)
    requires AllFlags(fs) && AllFlags(gs)
    requires forall c :: c in fs <==> c in gs
    ensures ApplyFlags(Reset(out), fs) == ApplyFlags(Reset(out), gs)
  {
    FlagsBySet(out, fs);
    FlagsBySet(out, gs);
  }

  // ---------------------------------------------------------------- width, precision, length, conversion

  /** A stage of the reading: the setting so far, what is left, and whether this stage set its field. */
  datatype Stage = Stage(p: Setting, rest: seq<byte>, given: bool)

  function WidthDigits(p: Setting, s: seq<byte>): Stage {
    var k := DigitRun(s);
    if k > 0 then Stage(p.(out := p.out.(width := DigitsValue(s[..k]))), s[k..], true) else Stage(p, s, false)
  }

  /** A '*' width; negative values are the '-' flag. */
  function StarWidth(p: Setting, w: int): Setting {
    var out := if w < 0 then p.out.(width := -w, fill := SPACE, flags := p.out.flags.(adjust := Left))
               else p.out.(width := w);
    Setting(out, p.extra.(varWidth := true))
  }

  function Width(p: Setting, s: seq<byte>, w: int): Stage {
    var d := WidthDigits(p, s);
    if At(d.rest, 0) == STAR then Stage(StarWidth(d.p, w), d.rest[1..], true) else d
  }

  function Precision(p: Setting, s: seq<byte>, v: int): Stage {
    if At(s, 0) != DOT then Stage(p, s, false)
    else if At(s, 1) == STAR then
      Stage(Setting(p.out.(precision := v), p.extra.(varPrecision := true)), s[2..], true)
    else if At(s, 1) == MINUS then
      Stage(p.(out := p.out.(precision := 0)), s[2..][DigitRun(s[2..])..], true)
    else
      var k := DigitRun(s[1..]);
      Stage(p.(out := p.out.(precision := DigitsValue(s[1..][..k]))), s[1..][k..], true)
  }

  /** l h L j z t */
  predicate IsLength(c: byte) {
    c == 108 || c == 104 || c == 76 || c == 106 || c == 122 || c == 116
  }

  function LengthRun(s: seq<byte>): (n: nat)
    ensures n <= |s|
    ensures !IsLength(At(s, n))
    ensures forall i :: 0 <= i < n ==> IsLength(s[i])
  {
    if s != [] && IsLength(s[0]) then 1 + LengthRun(s[1..]) else 0
  }

  predicate IsIntConversion(c: byte) {
    // u d i o X x p
    c == 117 || c == 100 || c == 105 || c == 111 || c == 88 || c == 120 || c == 112
  }

  /** What the conversion character sets. */
  function Conversion(p: Setting, c: byte, precisionSet: bool): Setting {
    var f := p.out.flags;
    var g := if c == 88 || c == 69 || c == 70 || c == 71 then f.(uppercase := true) else f;   // X E F G
    if c == 117 || c == 100 || c == 105 then p.(out := p.out.(flags := g.(numberBase := Dec)))
    else if c == 111 then p.(out := p.out.(flags := g.(numberBase := Oct)))
    else if c == 88 || c == 120 || c == 112 then p.(out := p.out.(flags := g.(numberBase := Hex)))
    else if c == 69 || c == 101 then p.(out := p.out.(flags := g.(floatField := Scientific, numberBase := Dec)))
    else if c == 70 || c == 102 then p.(out := p.out.(flags := g.(floatField := Fixed)))
    else if c == 71 || c == 103 then p.(out := p.out.(flags := g.(numberBase := Dec, floatField := General)))
    else if c == 115 then   // s
      Setting(p.out.(flags := g.(boolalpha := true)), p.extra.(truncate := p.extra.truncate || precisionSet))
    else p
  }

  /** %a, %A and %n are refused, and so is the end of the string. */
  function ConversionError(c: byte): Option<FormatError> {
    if c == 97 || c == 65 || c == 110 then Some(Unsupported) else if c == NUL then Some(Unterminated) else None
  }

  /** A precision on an integer without a width is a zero-filled width. */
  function IntegerPrecision(p: Setting, c: byte, precisionSet: bool, widthSet: bool): Setting {
    if IsIntConversion(c) && precisionSet && !widthSet then
      p.(out := p.out.(width := p.out.precision, fill := ZERO, flags := p.out.flags.(adjust := Internal)))
    else p
  }

  /** The whole specification. On an error the setting is the one reached so far. */
  datatype Spec = Spec(p: Setting, end: seq<byte>, conversion: byte, error: Option<FormatError>)

  function FinishSpec(w: Stage, q: Stage): (r: Spec)
    ensures r.error.None? ==> |r.end| < |q.rest|
  {
    var rest := q.rest[LengthRun(q.rest)..];
    var c := At(rest, 0);
    var p := Conversion(q.p, c, q.given);
    if ConversionError(c).Some? then Spec(p, rest, c, ConversionError(c))
    else Spec(IntegerPrecision(p, c, q.given, w.given), rest[1..], c, None)
  }

  function AfterFlags(p: Setting, s: seq<byte>, w: int, v: int): (r: Spec)
    ensures r.error.None? ==> |r.end| < |s|
  {
    var wide := Width(p, s, w);
    FinishSpec(wide, Precision(wide.p, wide.rest, v))
  }

  function ParseSpec(out: StreamState, s: seq<byte>, w: int, v: int): (r: Spec)
    ensures r.error.None? ==> |r.end| < |s|
  {
    if At(s, 0) != PERCENT then Spec(Setting(out, NO_EXTRA), s, NUL, Some(NotEnoughSpecs))
    else
      var t := s[1..];
      AfterFlags(ApplyFlags(Reset(out), t[..FlagRun(t)]), t[FlagRun(t)..], w, v)
  }

  // ---------------------------------------------------------------- the pointer-advancing parser

  /** Digits at position `c`; returns the position behind them. */
  method ParseIntAndAdvance(s: seq<byte>, c: nat) returns (i: nat, c': nat)
    requires c <= |s|
    ensures c' == c + DigitRun(s[c..]) && i == DigitsValue(s[c..][..DigitRun(s[c..])])
  {
    i, c' := 0, c;
    ghost var t := s[c..];
    assert t[..0] == [];
    while IsDigit(At(s, c'))
      invariant c <= c' <= |s|
      invariant AllDigits(t[..c' - c]) && i == DigitsValue(t[..c' - c])
      decreases |s| - c'
    {
      assert t[..c' + 1 - c][..c' - c] == t[..c' - c];
      i := 10 * i + (At(s, c') as int - 48);
      c' := c' + 1;
    }
    RunStops(t, c' - c);
  }

  lemma RunStops(t: seq<byte>, k: nat)
    requires k <= |t| && AllDigits(t[..k]) && !IsDigit(At(t, k))
    ensures DigitRun(t) == k
  {
    assert t == t[..k] + t[k..];
    DigitRunOf(t[..k], t[k..]);
  }

  lemma FlagRunStops(t: seq<byte>, k: nat)
    requires k <= |t| && AllFlags(t[..k]) && !IsFlag(At(t, k))
    ensures FlagRun(t) == k
  {
    if k > 0 {
      assert t[0] == t[..k][0] && t[1..][..k - 1] == t[..k][1..];
      FlagRunStops(t[1..], k - 1);
    }
  }

  lemma LengthRunStops(t: seq<byte>, k: nat)
    requires k <= |t| && (forall i :: 0 <= i < k ==> IsLength(t[i])) && !IsLength(At(t, k))
    ensures LengthRun(t) == k
  {
    if k > 0 {
      LengthRunStops(t[1..], k - 1);
    }
  }

  method ParseFlags(out: OStream, s: seq<byte>) returns (spacePad: bool, c: nat)
    requires s != [] && s[0] == PERCENT
    modifies out`state
    ensures c == 1 + FlagRun(s[1..]) <= |s|
    ensures Setting(out.state, NO_EXTRA.(spacePad := spacePad))
         == ApplyFlags(Reset(old(out.state)), s[1..][..FlagRun(s[1..])])
  {
    ghost var start, t := out.state, s[1..];
    out.state := Reset(out.state).out;
    spacePad, c := false, 1;
    while IsFlag(At(s, c))
      invariant 1 <= c <= |s|
      invariant AllFlags(t[..c - 1])
      invariant Setting(out.state, NO_EXTRA.(spacePad := spacePad)) == ApplyFlags(Reset(start), t[..c - 1])
      decreases |s| - c
    {
      var f := s[c];
      ApplyFlagsConcat(Reset(start), t[..c - 1], [f]);
      assert t[..c] == t[..c - 1] + [f];
      if f == HASH {
        out.state := out.state.(flags := out.state.flags.(showpoint := true, showbase := true));
      } else if f == ZERO {
        if out.state.flags.adjust != Left {
          out.state := out.state.(fill := ZERO, flags := out.state.flags.(adjust := Internal));
        }
      } else if f == MINUS {
        out.state := out.state.(fill := SPACE, flags := out.state.flags.(adjust := Left));
      } else if f == SPACE {
        if !out.state.flags.showpos {
          spacePad := true;
        }
      } else {
        out.state := out.state.(flags := out.state.flags.(showpos := true));
        spacePad := false;
      }
      c := c + 1;
    }
    FlagRunStops(t, c - 1);
  }

  lemma WidthDigitsAt(p: Setting, s: seq<byte>, c: nat)
    requires c <= |s|
    ensures var d, k := WidthDigits(p, s[c..]), DigitRun(s[c..]);
            if IsDigit(At(s, c)) then
              && c + k <= |s| && d.given && d.rest == s[c + k..]
              && d.p == p.(out := p.out.(width := DigitsValue(s[c..][..k])))
            else d == Stage(p, s[c..], false)
  {
    hide DigitsValue;
    assert At(s[c..], 0) == At(s, c);
    RunIsSlice(s, c);
  }

  method ParseWidth(out: OStream, extra: Extra, s: seq<byte>, c: nat, w: int)
    returns (extra': Extra, c': nat, widthSet: bool)
    requires c <= |s|
    modifies out`state
    ensures c' <= |s|
    ensures Stage(Setting(out.state, extra'), s[c'..], widthSet) == Width(Setting(old(out.state), extra), s[c..], w)
  {
    hide DigitRun, DigitsValue, WidthDigits;
    ghost var p0 := Setting(out.state, extra);
    WidthDigitsAt(p0, s, c);
    extra', c', widthSet := extra, c, false;
    if IsDigit(At(s, c)) {
      widthSet := true;
      var width;
      width, c' := ParseIntAndAdvance(s, c);
      out.state := out.state.(width := width);
    }
    assert Stage(Setting(out.state, extra'), s[c'..], widthSet) == WidthDigits(p0, s[c..]);
    assert At(s[c'..], 0) == At(s, c');
    if At(s, c') == STAR {
      widthSet := true;
      var variableWidth := w;
      if variableWidth < 0 {
        out.state := out.state.(fill := SPACE, flags := out.state.flags.(adjust := Left));
        variableWidth := -variableWidth;
      }
      out.state := out.state.(width := variableWidth);
      extra' := extra'.(varWidth := true);
      c' := c' + 1;
    }
  }

  lemma PrecisionCases(p: Setting, s: seq<byte>, c: nat, v: int)
    requires c < |s| && s[c] == DOT
    ensures var q := Precision(p, s[c..], v);
            var next := At(s, c + 1);
            && q.given
            && (next == STAR ==>
                  c + 2 <= |s| && q.rest == s[c + 2..]
                  && q.p == Setting(p.out.(precision := v), p.extra.(varPrecision := true)))
            && (next == MINUS ==>
                  c + 2 <= |s| && q.p == p.(out := p.out.(precision := 0))
                  && q.rest == s[c + 2..][DigitRun(s[c + 2..])..])
            && (next != STAR && next != MINUS ==>
                  var t := s[c + 1..];
                  q.p == p.(out := p.out.(precision := DigitsValue(t[..DigitRun(t)]))) && q.rest == t[DigitRun(t)..])
  {
    hide DigitRun, DigitsValue;
    assert At(s[c..], 0) == DOT && At(s[c..], 1) == At(s, c + 1);
    assert s[c..][1..] == s[c + 1..];
    if c + 2 <= |s| {
      assert s[c..][2..] == s[c + 2..];
    }
  }

  lemma NoDigits(s: seq<byte>)
    requires !IsDigit(At(s, 0))
    ensures DigitRun(s) == 0 && DigitsValue(s[..0]) == 0 && s[0..] == s
  {
  }

  lemma RunIsSlice(s: seq<byte>, c: nat)
    requires c <= |s|
    ensures c + DigitRun(s[c..]) <= |s| && s[c..][DigitRun(s[c..])..] == s[c + DigitRun(s[c..])..]
  {
    hide DigitRun;
  }

  lemma NoPrecision(p: Setting, s: seq<byte>, c: nat, v: int)
    requires c <= |s| && At(s, c) != DOT
    ensures Precision(p, s[c..], v) == Stage(p, s[c..], false)
  {
    assert At(s[c..], 0) == At(s, c);
  }

  method ParsePrecision(out: OStream, extra: Extra, s: seq<byte>, c: nat, v: int)
    returns (extra': Extra, c': nat, precisionSet: bool)
    requires c <= |s|
    modifies out`state
    ensures c' <= |s|
    ensures Stage(Setting(out.state, extra'), s[c'..], precisionSet)
        == Precision(Setting(old(out.state), extra), s[c..], v)
  {
    hide DigitRun, DigitsValue, Precision;
    extra', c', precisionSet := extra, c, false;
    if At(s, c) != DOT {
      NoPrecision(Setting(out.state, extra), s, c, v);
    } else {
      PrecisionCases(Setting(out.state, extra), s, c, v);
      c' := c + 1;
      var precision := 0;
      if At(s, c') == STAR {
        c' := c' + 1;
        extra' := extra'.(varPrecision := true);
        precision := v;
      } else if IsDigit(At(s, c')) {
        RunIsSlice(s, c');
        precision, c' := ParseIntAndAdvance(s, c');
      } else if At(s, c') == MINUS {
        c' := c' + 1;
        RunIsSlice(s, c');
        var _, after := ParseIntAndAdvance(s, c');
        c' := after;
      } else {
        assert At(s[c'..], 0) == At(s, c');
        NoDigits(s[c'..]);
      }
      out.state := out.state.(precision := precision);
      precisionSet := true;
    }
  }

  method SkipLength(s: seq<byte>, c: nat) returns (c': nat)
    requires c <= |s|
    ensures c' == c + LengthRun(s[c..])
  {
    c' := c;
    while IsLength(At(s, c'))
      invariant c <= c' <= |s|
      invariant forall i :: 0 <= i < c' - c ==> IsLength(s[c..][i])
      decreases |s| - c'
    {
      c' := c' + 1;
    }
    LengthRunStops(s[c..], c' - c);
  }

  /** The stages one after the other. On an error the stream is left as far as it was set. */
  method StreamStateFromFormat(out: OStream, s: seq<byte>, w: int, v: int)
    returns (extra: Extra, end: seq<byte>, conversion: byte, error: Option<FormatError>)
    modifies out`state
    ensures var r := ParseSpec(old(out.state), s, w, v);
            && error == r.error && out.state == r.p.out
            && (error.None? ==> extra == r.p.extra && end == r.end && conversion == r.conversion)
  {
    hide Width, Precision, Conversion, FlagRun, LengthRun, ApplyFlags;
    if At(s, 0) != PERCENT {
      return NO_EXTRA, s, NUL, Some(NotEnoughSpecs);
    }
    var spacePad, c := ParseFlags(out, s);
    assert s[1..][FlagRun(s[1..])..] == s[c..];
    var widthSet, precisionSet;
    extra, c, widthSet := ParseWidth(out, NO_EXTRA.(spacePad := spacePad), s, c, w);
    extra, c, precisionSet := ParsePrecision(out, extra, s, c, v);
    var d := SkipLength(s, c);
    assert s[c..][LengthRun(s[c..])..] == s[d..];
    conversion := At(s, d);
    assert conversion == At(s[d..], 0);
    extra, error := SetConversion(out, extra, conversion, precisionSet);
    end := s[d..];
    if error.None? {
      if IsIntConversion(conversion) && precisionSet && !widthSet {
        out.state := out.state.(width := out.state.precision, fill := ZERO,
            flags := out.state.flags.(adjust := Internal));
      }
      end := s[d + 1..];
    }
  }

  method SetConversion(out: OStream, extra: Extra, c: byte, precisionSet: bool)
      returns (extra': Extra, error: Option<FormatError>)
    modifies out`state
    ensures Setting(out.state, extra') == Conversion(Setting(old(out.state), extra), c, precisionSet)
    ensures error == ConversionError(c)
  {
    extra', error := extra, None;
    if c == 117 || c == 100 || c == 105 {
      out.state := out.state.(flags := out.state.flags.(numberBase := Dec));
    } else if c == 111 {
      out.state := out.state.(flags := out.state.flags.(numberBase := Oct));
    } else if c == 88 || c == 120 || c == 112 {
      if c == 88 {
        out.state := out.state.(flags := out.state.flags.(uppercase := true));
      }
      out.state := out.state.(flags := out.state.flags.(numberBase := Hex));
    } else if c == 69 || c == 101 {
      if c == 69 {
        out.state := out.state.(flags := out.state.flags.(uppercase := true));
      }
      out.state := out.state.(flags := out.state.flags.(floatField := Scientific, numberBase := Dec));
    } else if c == 70 || c == 102 {
      if c == 70 {
        out.state := out.state.(flags := out.state.flags.(uppercase := true));
      }
      out.state := out.state.(flags := out.state.flags.(floatField := Fixed));
    } else if c == 71 || c == 103 {
      if c == 71 {
        out.state := out.state.(flags := out.state.flags.(uppercase := true));
      }
      out.state := out.state.(flags := out.state.flags.(numberBase := Dec, floatField := General));
    } else if c == 97 || c == 65 || c == 110 {
      error := Some(Unsupported);
    } else if c == 115 {
      if precisionSet {
        extra' := extra'.(truncate := true);
      }
      out.state := out.state.(flags := out.state.flags.(boolalpha := true));
    } else if c == NUL {
      error := Some(Unterminated);
    }
  }
}
