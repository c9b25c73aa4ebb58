/** Strings through `%s`: justification, truncation, and the plus signs that the space flag takes away. */
module FormatStrings {
  import opened Bytes
  import opened FormatSpec
  import opened Format
  import opened FormatRefinement
  import opened FormatMeaning

  /** `t` in a field of some width. */
  function Justified(t: seq<byte>, width: int, left: bool, fill: byte): (r: seq<byte>)
    ensures |t| <= |r| && |r| >= width && (width <= |t| ==> r == t)
  {
    var n: nat := if width > |t| then width - |t| else 0;
    if left then t + seq(n, _ => fill) else seq(n, _ => fill) + t
  }

  lemma {:induction false} RepeatIs(c: byte, n: nat)
    ensures Repeat(c, n) == seq(n, _ => c)
  {
    if n > 0 {
      RepeatIs(c, n - 1);
    }
  }

  /** Printing a string justifies it, and uses the width up. */
  lemma PutStringJustifies(t: seq<byte>, out: StreamState)
    ensures PutString(t, out) == Put(Justified(t, out.width, out.flags.adjust == Left, out.fill), out.(width := 0))
  {
    if out.width > |t| {
      RepeatIs(out.fill, out.width - |t|);
    }
    assert [] + t == t && t + [] == t;
    hide Repeat;
  }

  /** The field of a specification. */
  function FieldOf(x: Written, t: seq<byte>): seq<byte>
    requires IsWritten(x)
  {
    Justified(t, x.width, Has(x.flags, '-'), FillOf(x))
  }

  /** At most as many characters as the precision says. */
  function Cut(x: Written, t: seq<byte>): (r: seq<byte>)
    requires IsWritten(x)
    ensures r <= t
  {
    if !x.places.NoPlaces? && |t| > PlacesValue(x.places) then t[..PlacesValue(x.places)] else t
  }

  /** One specification and one value, as the interpreter prints it. */
  lemma OneValue<T>(pr: Printer<T>, x: Written, value: T, out: StreamState, text: seq<byte>)
    requires IsWritten(x) && x.conversion !in Ascii("aAn") && x.conversion != 0 && x.conversion != PERCENT
    ensures Interpret(pr, WrittenText(x), [value], out, text)
         == Outcome(text + Render(pr, value, Meaning(x, out.flags.other), ExtraMeaning(x), x.conversion).text, None)
  {
    var s := WrittenText(x);
    SpecificationMeans(out, x, [], 0, 0);
    assert s + [] == s;
    StartsSpec(x);
    hide WrittenText, Meaning, ExtraMeaning, ParseSpec, Render, Ascii, IsWritten, Literal, Interpret;
    var m := StartMachine(text, out, s);
    InterpretPlain(pr, m, [value]);
    var d := ParseSpec(out, s, 0, 0);
    var e := Emit(pr, Discovered(m), value, d.end, d.conversion);
    NothingLeft(pr, e.out, e.text);
    assert [value][1..] == [] && text + [] == text;
  }

  lemma NothingLeft<T>(pr: Printer<T>, out: StreamState, text: seq<byte>)
    ensures Interpret(pr, [], [], out, text) == Outcome(text, None)
  {
    assert text + [] == text;
  }

  lemma StartsSpec(x: Written)
    requires IsWritten(x) && x.conversion != PERCENT
    ensures Literal(WrittenText(x)) == ([], WrittenText(x)) && At(WrittenText(x), 0) == PERCENT
  {
    var s := WrittenText(x);
    WrittenSplits(x, []);
    RestStarts(x, []);
    assert s + [] == s;
    NoPercent(x);
    hide WrittenText, PlacesText, Ascii;
  }

  lemma NoPercent(x: Written)
    requires IsWritten(x) && x.conversion != PERCENT
    ensures var rest := x.length + [x.conversion] + [];
            At(x.flags + ((if x.width == 0 then [] else Digits(x.width)) + (PlacesText(x.places) + rest)), 0) != PERCENT
  {
  }

  // ---------------------------------------------------------------- what is shown

  /** With the space flag, and no plus flag, plus signs are shown as spaces. */
  function Shown(x: Written, t: seq<byte>): (r: seq<byte>)
    requires IsWritten(x)
    ensures |r| == |t|
    ensures forall i :: 0 <= i < |t| ==>
              r[i] == if Has(x.flags, ' ') && !Has(x.flags, '+') && t[i] as int == '+' as int then ' ' as int as byte
                      else t[i]
  {
    if Has(x.flags, ' ') && !Has(x.flags, '+') then PlusToSpace(t) else t
  }

  /** A value that prints itself as a string: `out << t`. */
  ghost predicate IsString<T>(pr: Printer<T>, value: T, t: seq<byte>) {
    forall out: StreamState, c: byte :: pr.put(value, out, c) == PutString(t, out)
  }

  predicate IsStringSpec(x: Written) {
    IsWritten(x) && x.conversion as int == 's' as int
  }

  lemma ShownInField(t: seq<byte>, width: int, left: bool, fill: byte)
    requires fill != PLUS
    ensures PlusToSpace(Justified(t, width, left, fill)) == Justified(PlusToSpace(t), width, left, fill)
  {
  }

  lemma JustifiedTwice(t: seq<byte>, width: int, left: bool, fill: byte)
    ensures Justified(Justified(t, width, left, fill), width, left, fill) == Justified(t, width, left, fill)
  {
  }

  /** What a string is put into before and after the temporary stream. */
  function Signs(spacePad: bool, t: seq<byte>): (r: seq<byte>)
    ensures |r| == |t|
  {
    if spacePad then PlusToSpace(t) else t
  }

  lemma RenderUncut<T>(pr: Printer<T>, value: T, t: seq<byte>, st: StreamState, e: Extra, c: byte)
    requires IsString(pr, value, t) && !e.truncate && st.fill != PLUS
    ensures Render(pr, value, st, e, c).text
         == Justified(Signs(e.spacePad, t), st.width, st.flags.adjust == Left, st.fill)
  {
    var left, tmp := st.flags.adjust == Left, st.(flags := st.flags.(showpos := true));
    PutStringJustifies(t, st);
    PutStringJustifies(t, tmp);
    ShownInField(t, st.width, left, st.fill);
    PutStringJustifies(Signs(e.spacePad, Justified(t, st.width, left, st.fill)), st);
    JustifiedTwice(Signs(e.spacePad, t), st.width, left, st.fill);
    assert pr.put(value, st, c) == PutString(t, st) && pr.put(value, tmp, c) == PutString(t, tmp);
    hide PutString, Justified, PlusToSpace;
  }

  lemma RenderCutC<T>(pr: Printer<T>, value: T, t: seq<byte>, st: StreamState, e: Extra, c: byte)
    requires pr.cString(value) == Some(t) && e.truncate && st.precision >= 0
    ensures Render(pr, value, st, e, c).text
         == Justified(Signs(e.spacePad, Prefix(t, st.precision)), st.width, st.flags.adjust == Left, st.fill)
  {
    PutStringJustifies(Signs(e.spacePad, Prefix(t, st.precision)), st);
    hide PutString, Justified, PlusToSpace;
  }

  lemma RenderCut<T>(pr: Printer<T>, value: T, t: seq<byte>, st: StreamState, e: Extra, c: byte)
    requires IsString(pr, value, t) && pr.cString(value).None? && e.truncate && st.precision >= 0 && st.fill != PLUS
    ensures Render(pr, value, st, e, c).text
         == Prefix(Justified(Signs(e.spacePad, t), st.width, st.flags.adjust == Left, st.fill), st.precision)
  {
    var left, tmp := st.flags.adjust == Left, if e.spacePad then st.(flags := st.flags.(showpos := true)) else st;
    PutStringJustifies(t, tmp);
    ShownInField(t, st.width, left, st.fill);
    PutStringJustifies(Signs(e.spacePad, Justified(t, st.width, left, st.fill)), st);
    JustifiedTwice(Signs(e.spacePad, t), st.width, left, st.fill);
    assert pr.put(value, tmp, c) == PutString(t, tmp);
    hide PutString, Justified, PlusToSpace;
  }

  /** The stream state of a string's specification. */
  lemma StringMeaning(x: Written, other: int)
    requires IsStringSpec(x)
    ensures var st, e := Meaning(x, other), ExtraMeaning(x);
            && st.width == x.width && st.precision == PlacesValue(x.places) && st.fill == FillOf(x) && st.fill != PLUS
            && (st.flags.adjust == Left <==> Has(x.flags, '-'))
            && e.truncate == !x.places.NoPlaces? && e.spacePad == (Has(x.flags, ' ') && !Has(x.flags, '+'))
    ensures x.conversion !in Ascii("aAn") && x.conversion != 0 && x.conversion != PERCENT
  {
    FloatCharacters(x.conversion);
    BaseCharacters(x.conversion);
    hide Ascii, PlacesValue;
  }

  lemma ShownIs(x: Written, t: seq<byte>)
    requires IsWritten(x)
    ensures Shown(x, t) == Signs(Has(x.flags, ' ') && !Has(x.flags, '+'), t)
  {
  }

  /** A C string is cut to its precision, then justified in its field. */
  lemma CStringPrints<T>(pr: Printer<T>, x: Written, value: T, t: seq<byte>, out: StreamState, text: seq<byte>)
    requires IsStringSpec(x) && IsString(pr, value, t) && pr.cString(value) == Some(t)
    ensures Interpret(pr, WrittenText(x), [value], out, text)
         == Outcome(text + FieldOf(x, Shown(x, Cut(x, t))), None)
  {
    var st, e := Meaning(x, out.flags.other), ExtraMeaning(x);
    StringMeaning(x, out.flags.other);
    hide Meaning, ExtraMeaning, Render, Interpret, WrittenText, Justified, IsString, Signs, Shown;
    hide FillOf, PlacesValue, Ascii;
    OneValue(pr, x, value, out, text);
    ShownIs(x, Cut(x, t));
    if e.truncate {
      RenderCutC(pr, value, t, st, e, x.conversion);
    } else {
      RenderUncut(pr, value, t, st, e, x.conversion);
    }
  }

  /** Any other string is justified first, and then cut. */
  lemma StringPrints<T>(pr: Printer<T>, x: Written, value: T, t: seq<byte>, out: StreamState, text: seq<byte>)
    requires IsStringSpec(x) && IsString(pr, value, t) && pr.cString(value).None?
    ensures Interpret(pr, WrittenText(x), [value], out, text)
         == Outcome(text + Cut(x, FieldOf(x, Shown(x, t))), None)
  {
    var st, e := Meaning(x, out.flags.other), ExtraMeaning(x);
    StringMeaning(x, out.flags.other);
    hide Meaning, ExtraMeaning, Render, Interpret, WrittenText, Justified, IsString, Signs, Shown;
    hide FillOf, PlacesValue, Ascii;
    OneValue(pr, x, value, out, text);
    ShownIs(x, t);
    if e.truncate {
      RenderCut(pr, value, t, st, e, x.conversion);
    } else {
      RenderUncut(pr, value, t, st, e, x.conversion);
    }
  }

  /** So a string that is no C string comes out as it should, cut and then justified, exactly when the width is not
      above the precision. */
  lemma StringCutsRightIff<T>(pr: Printer<T>, x: Written, value: T, t: seq<byte>, out: StreamState, text: seq<byte>)
    requires IsStringSpec(x) && IsString(pr, value, t) && pr.cString(value).None?
    ensures Interpret(pr, WrittenText(x), [value], out, text) == Outcome(text + FieldOf(x, Shown(x, Cut(x, t))), None)
       <==> (x.places.NoPlaces? || x.width <= PlacesValue(x.places))
  {
    StringPrints(pr, x, value, t, out, text);
    ShownCut(x, t);
    hide Interpret, WrittenText, IsString, Shown, IsWritten, FillOf, PlacesValue;
    var a, b := Cut(x, FieldOf(x, Shown(x, t))), FieldOf(x, Shown(x, Cut(x, t)));
    assert (text + a)[|text|..] == a && (text + b)[|text|..] == b;
  }

  lemma ShownCut(x: Written, t: seq<byte>)
    requires IsWritten(x)
    ensures Shown(x, Cut(x, t)) == Cut(x, Shown(x, t))
  {
    hide PlacesValue;
  }

  /** In any conversion the space flag shows plus signs as spaces, of a value that fills its field. */
  lemma SpaceFlagPrints<T>(pr: Printer<T>, x: Written, value: T, out: StreamState, text: seq<byte>)
    requires IsWritten(x) && x.conversion !in Ascii("aAn") && x.conversion != 0 && x.conversion != PERCENT
    requires Has(x.flags, ' ') && !Has(x.flags, '+') && !ExtraMeaning(x).truncate
    requires var m := Meaning(x, out.flags.other);
             |pr.put(value, m.(flags := m.flags.(showpos := true)), x.conversion).text| >= m.width
    ensures var m := Meaning(x, out.flags.other);
            var plain := pr.put(value, m.(flags := m.flags.(showpos := true)), x.conversion).text;
            Interpret(pr, WrittenText(x), [value], out, text) == Outcome(text + Shown(x, plain), None)
  {
    OneValue(pr, x, value, out, text);
    var m := Meaning(x, out.flags.other);
    var plain := pr.put(value, m.(flags := m.flags.(showpos := true)), x.conversion).text;
    PutStringJustifies(PlusToSpace(plain), m);
    hide Interpret, WrittenText, Meaning, PutString, Justified, PlusToSpace, Ascii;
  }
}
