/** What a conversion specification means, with its numbers in place: the stream state by the characters that it is
    written with, and the text that strings are printed as. */
module FormatMeaning {
  import opened Bytes
  import opened FormatSpec
  import opened FormatStar

  // ---------------------------------------------------------------- how a specification is written

  /** A precision: none, a point and digits (or none), or a point, a minus sign and digits. */
  datatype Places = NoPlaces | Places(digits: seq<byte>) | NegativePlaces(digits: seq<byte>)

  function PlacesText(p: Places): seq<byte> {
    match p
    case NoPlaces => []
    case Places(ds) => Ascii(".") + ds
    case NegativePlaces(ds) => Ascii(".-") + ds
  }

  function PlacesValue(p: Places): nat
    requires p.Places? ==> AllDigits(p.digits)
  {
    match p
    case NoPlaces => 6
    case Places(ds) => DigitsValue(ds)
    case NegativePlaces(_) => 0
  }

  /** Flags, width, precision, length modifiers, conversion character. */
  datatype Written = Written(flags: seq<byte>, width: nat, places: Places, length: seq<byte>, conversion: byte)

  predicate AreOf(s: seq<byte>, characters: string) {
    forall i :: 0 <= i < |s| ==> s[i] in Ascii(characters)
  }

  /** Every part is made of its characters, and the conversion is not one of any part's. */
  predicate IsWritten(w: Written) {
    && AreOf(w.flags, "#0- +") && AreOf(w.length, "lhLjzt")
    && (!w.places.NoPlaces? ==> AllDigits(w.places.digits))
    && w.conversion !in Ascii("#0- +123456789*.lhLjzt")
  }

  function WrittenText(w: Written): seq<byte> {
    Ascii("%") + w.flags + ((if w.width == 0 then [] else Digits(w.width))
      + (PlacesText(w.places) + (w.length + [w.conversion])))
  }

  predicate Has(fs: seq<byte>, flag: char)
    requires flag as int < 256
  {
    flag as int as byte in fs
  }

  // ---------------------------------------------------------------- characters

  lemma Marks()
    ensures Ascii("%") == [PERCENT] && Ascii(".") == [DOT] && Ascii(".-") == [DOT, MINUS]
    ensures Ascii(" ") == [SPACE] && Ascii("#") == [HASH] && Ascii("0") == [ZERO] && Ascii("-") == [MINUS]
    ensures Ascii("+") == [PLUS]
  {
  }

  lemma FlagCharacters(c: byte)
    ensures IsFlag(c) <==> c in Ascii("#0- +")
  {
    assert Ascii("#0- +") == [35, 48, 45, 32, 43];
  }

  lemma LengthCharacters(c: byte)
    ensures IsLength(c) <==> c in Ascii("lhLjzt")
  {
    assert Ascii("lhLjzt") == [108, 104, 76, 106, 122, 116];
  }

  lemma PartCharacters(c: byte)
    ensures c !in Ascii("#0- +123456789*.lhLjzt") ==>
              !IsFlag(c) && !IsDigit(c) && c != STAR && c != DOT && !IsLength(c)
  {
    assert Ascii("#0- +123456789*.lhLjzt")
        == [35, 48, 45, 32, 43, 49, 50, 51, 52, 53, 54, 55, 56, 57, 42, 46, 108, 104, 76, 106, 122, 116];
  }

  lemma BaseCharacters(c: byte)
    ensures c in Ascii("udieEgG") <==> c in {117, 100, 105, 69, 101, 71, 103}
    ensures c in Ascii("o") <==> c == 111
    ensures c in Ascii("Xxp") <==> c in {88, 120, 112}
    ensures c in Ascii("udioXxp") <==> IsIntConversion(c)
  {
    assert Ascii("udieEgG") == [117, 100, 105, 101, 69, 103, 71];
    assert Ascii("o") == [111] && Ascii("Xxp") == [88, 120, 112];
    assert Ascii("udioXxp") == [117, 100, 105, 111, 88, 120, 112];
  }

  lemma FloatCharacters(c: byte)
    ensures c in Ascii("eE") <==> c in {69, 101}
    ensures c in Ascii("fF") <==> c in {70, 102}
    ensures c in Ascii("XEFG") <==> c in {88, 69, 70, 71}
    ensures c in Ascii("s") <==> c == 115
    ensures c in Ascii("aAn") <==> c == 97 || c == 65 || c == 110
  {
    assert Ascii("eE") == [101, 69] && Ascii("fF") == [102, 70] && Ascii("XEFG") == [88, 69, 70, 71];
    assert Ascii("s") == [115] && Ascii("aAn") == [97, 65, 110];
  }

  // ---------------------------------------------------------------- how it is read

  lemma LengthsSplitOff(ls: seq<byte>, c: byte, tail: seq<byte>)
    requires AreOf(ls, "lhLjzt") && !IsLength(c)
    ensures var t := ls + [c] + tail; LengthRun(t) == |ls| && t[|ls|..] == [c] + tail
  {
    var t := ls + [c] + tail;
    forall i | 0 <= i < |ls| ensures IsLength(t[i]) {
      LengthCharacters(ls[i]);
    }
    assert t[|ls|] == c;
    LengthRunStops(t, |ls|);
  }

  lemma PlacesAreRead(p: Setting, places: Places, rest: seq<byte>, v: int)
    requires !places.NoPlaces? ==> AllDigits(places.digits)
    requires rest != [] && !IsDigit(rest[0]) && rest[0] != DOT && rest[0] != STAR && rest[0] != MINUS
    ensures Precision(p, PlacesText(places) + rest, v)
         == Stage(if places.NoPlaces? then p else p.(out := p.out.(precision := PlacesValue(places))), rest,
                  !places.NoPlaces?)
  {
    Marks();
    hide DigitsValue, DigitRun, Ascii;
    match places {
      case NoPlaces => assert [] + rest == rest;
      case Places(ds) =>
        var s := [DOT] + ds + rest;
        assert s[1..] == ds + rest;
        DigitRunOf(ds, rest);
        SliceOver(ds, rest);
        assert At(s, 1) == if ds == [] then rest[0] else ds[0];
      case NegativePlaces(ds) =>
        var s := [DOT, MINUS] + ds + rest;
        assert s[2..] == ds + rest;
        DigitRunOf(ds, rest);
        SliceOver(ds, rest);
    }
  }

  lemma WidthIsRead(p: Setting, width: nat, rest: seq<byte>, w: int)
    requires !IsDigit(At(rest, 0)) && At(rest, 0) != STAR
    ensures Width(p, (if width == 0 then [] else Digits(width)) + rest, w)
         == if width == 0 then Stage(p, rest, false) else Stage(p.(out := p.out.(width := width)), rest, true)
  {
    WidthDigitsBefore(p, width, rest);
    hide WidthDigits, Digits;
  }

  /** The parts after each other, up to the last stage. */
  lemma PartsAreRead(out: StreamState, x: Written, tail: seq<byte>, w: int, v: int)
    requires IsWritten(x)
    ensures var p := SettingOfFlags(out, x.flags);
            var y := if x.width == 0 then p else p.(out := p.out.(width := x.width));
            var z := if x.places.NoPlaces? then y else y.(out := y.out.(precision := PlacesValue(x.places)));
            var rest := x.length + [x.conversion] + tail;
            ParseSpec(out, WrittenText(x) + tail, w, v)
            == FinishSpec(Stage(y, PlacesText(x.places) + rest, x.width > 0), Stage(z, rest, !x.places.NoPlaces?))
  {
    hide ParseSpec, FinishSpec, Width, Precision, ApplyFlags, SettingOfFlags, PlacesValue, Digits, Ascii;
    var rest := x.length + [x.conversion] + tail;
    var behind := PlacesText(x.places) + rest;
    var t := (if x.width == 0 then [] else Digits(x.width)) + behind;
    WrittenSplits(x, tail);
    RestStarts(x, tail);
    forall i | 0 <= i < |x.flags| ensures IsFlag(x.flags[i]) {
      FlagCharacters(x.flags[i]);
    }
    FlagsBySet(out, x.flags);
    FlagsSplitOff(out, x.flags, t, w, v);
    WidthIsRead(SettingOfFlags(out, x.flags), x.width, behind, w);
    var y := Width(SettingOfFlags(out, x.flags), t, w);
    PlacesAreRead(y.p, x.places, rest, v);
  }

  lemma WrittenSplits(x: Written, tail: seq<byte>)
    ensures var rest := x.length + [x.conversion] + tail;
            WrittenText(x) + tail
            == [PERCENT] + x.flags
               + ((if x.width == 0 then [] else Digits(x.width)) + (PlacesText(x.places) + rest))
  {
    Marks();
    hide Ascii, Digits, PlacesText;
    var ds, ps := if x.width == 0 then [] else Digits(x.width), PlacesText(x.places);
    assert ds + (ps + (x.length + [x.conversion])) + tail == ds + (ps + (x.length + [x.conversion] + tail));
  }

  lemma RestStarts(x: Written, tail: seq<byte>)
    requires IsWritten(x)
    ensures var rest := x.length + [x.conversion] + tail;
            var behind := PlacesText(x.places) + rest;
            && rest != [] && !IsDigit(rest[0]) && rest[0] != DOT && rest[0] != STAR && rest[0] != MINUS
            && !IsDigit(At(behind, 0)) && At(behind, 0) != STAR
            && !IsFlag(At((if x.width == 0 then [] else Digits(x.width)) + behind, 0))
  {
    var rest := x.length + [x.conversion] + tail;
    PartCharacters(x.conversion);
    if x.length != [] {
      LengthCharacters(x.length[0]);
    }
    assert rest[0] == if x.length == [] then x.conversion else x.length[0];
    Marks();
    hide Ascii;
    var behind := PlacesText(x.places) + rest;
    assert At(behind, 0) == if x.places.NoPlaces? then rest[0] else DOT;
    assert At((if x.width == 0 then [] else Digits(x.width)) + behind, 0)
        == if x.width == 0 then At(behind, 0) else Digits(x.width)[0];
  }

  // ---------------------------------------------------------------- what it means

  /** The base of integers and the notation of reals. */
  function BaseOf(c: byte): NumberBase {
    if c in Ascii("udieEgG") then Dec else if c in Ascii("o") then Oct else if c in Ascii("Xxp") then Hex else NoBase
  }

  function NotationOf(c: byte): FloatField {
    if c in Ascii("eE") then Scientific else if c in Ascii("fF") then Fixed else General
  }

  /** A precision on an integer without a width. */
  predicate FillsWithZeros(x: Written) {
    x.conversion in Ascii("udioXxp") && !x.places.NoPlaces? && x.width == 0
  }

  function AdjustOf(x: Written): Adjust {
    if FillsWithZeros(x) then Internal
    else if Has(x.flags, '-') then Left
    else if Has(x.flags, '0') then Internal
    else NoAdjust
  }

  function FillOf(x: Written): byte {
    if FillsWithZeros(x) || (Has(x.flags, '0') && !Has(x.flags, '-')) then '0' as int as byte else ' ' as int as byte
  }

  /** The stream state of a specification by its characters. */
  function Meaning(x: Written, other: int): StreamState
    requires IsWritten(x)
  {
    StreamState(
      if FillsWithZeros(x) then PlacesValue(x.places) else x.width,
      PlacesValue(x.places),
      FillOf(x),
      Flags(AdjustOf(x), BaseOf(x.conversion), NotationOf(x.conversion),
            Has(x.flags, '#'), x.conversion in Ascii("s"), Has(x.flags, '#'), Has(x.flags, '+'),
            x.conversion in Ascii("XEFG"), other))
  }

  function ExtraMeaning(x: Written): Extra {
    Extra(x.conversion in Ascii("s") && !x.places.NoPlaces?, Has(x.flags, ' ') && !Has(x.flags, '+'), false, false)
  }

  /** Every specification without stars, whatever follows it, the stream before and the values for stars: it is
      refused for %a, %A, %n and a NUL, and otherwise it leaves what it means and stops behind its conversion. */
  lemma SpecificationMeans(out: StreamState, x: Written, tail: seq<byte>, w: int, v: int)
    requires IsWritten(x)
    ensures var r := ParseSpec(out, WrittenText(x) + tail, w, v);
            && r.conversion == x.conversion
            && r.error == (if x.conversion in Ascii("aAn") then Some(Unsupported)
                           else if x.conversion == 0 then Some(Unterminated) else None)
            && r.p == Setting(Meaning(x, out.flags.other), ExtraMeaning(x))
            && (r.error.None? ==> r.end == tail)
  {
    var p := SettingOfFlags(out, x.flags);
    var y := if x.width == 0 then p else p.(out := p.out.(width := x.width));
    var z := if x.places.NoPlaces? then y else y.(out := y.out.(precision := PlacesValue(x.places)));
    var rest := x.length + [x.conversion] + tail;
    PartsAreRead(out, x, tail, w, v);
    PartCharacters(x.conversion);
    LengthsSplitOff(x.length, x.conversion, tail);
    FloatCharacters(x.conversion);
    FinishMeans(out, x, y, z);
    assert ([x.conversion] + tail)[1..] == tail && rest[|x.length|..][0] == x.conversion;
    hide ParseSpec, Conversion, IntegerPrecision, SettingOfFlags, Meaning, ExtraMeaning, Ascii, PlacesText, PlacesValue;
    hide WrittenText, LengthRun;
  }

  /** The last stage. */
  lemma FinishMeans(out: StreamState, x: Written, y: Setting, z: Setting)
    requires IsWritten(x)
    requires var p := SettingOfFlags(out, x.flags);
             && y == (if x.width == 0 then p else p.(out := p.out.(width := x.width)))
             && z == if x.places.NoPlaces? then y else y.(out := y.out.(precision := PlacesValue(x.places)))
    ensures var given := !x.places.NoPlaces?;
            IntegerPrecision(Conversion(z, x.conversion, given), x.conversion, given, x.width > 0)
            == Setting(Meaning(x, out.flags.other), ExtraMeaning(x))
    ensures !IsIntConversion(x.conversion) ==>
              Conversion(z, x.conversion, !x.places.NoPlaces?)
              == Setting(Meaning(x, out.flags.other), ExtraMeaning(x))
  {
    var c, given := x.conversion, !x.places.NoPlaces?;
    BaseCharacters(c);
    FloatCharacters(c);
    hide Ascii, Conversion, DigitsValue;
    ConversionKeepsPadding(z, c, given);
    ConversionFormat(z, c, given);
    ConversionSwitches(z, c, given);
    ConversionLeaves(z, c, given);
    ConversionLeavesToo(z, c, given);
    ConversionParts(z, c, given);
  }
}
