/** What the generator prints is a text of RFC 8259. */
module JsonRfcWriter {
  import opened Bytes
  import opened JsonValue
  import opened JsonEscape
  import opened JsonWriter
  import opened JsonLex
  import opened JsonNumerals
  import opened JsonTexts

  function IntNumeral(stored: int64, isUint64: bool): Numeral {
    Numeral(Sign(stored < 0 && !isUint64), Digits(if isUint64 then ToUint64(stored) else Magnitude(stored)), None, None)
  }

  function RealNumeral(r: real): Numeral {
    var n := Units(Abs(r));
    Numeral(Sign(r < 0.0), Digits(n / 100000000), Some(Padded(n % 100000000, 8)), None)
  }

  /** The line end and the indentation in front of an item or a closing bracket. */
  function Margin(st: Style, level: nat): seq<byte> {
    NewLine(st) + Indent(st, level)
  }

  /** The printed text, taken apart. */
  function Written(v: Value, st: Style, level: nat): Syntax
    decreases v
  {
    match v
    case Null => NullWord
    case Bool(b) => if b then TrueWord else FalseWord
    case Int(i, u) => Numeric(IntNumeral(i, u))
    case Real(r) => Numeric(RealNumeral(r))
    case Str(s) => Quoted(Escape(s, st.printable))
    case Arr(es) => Array(Margin(st, level), WrittenItems(es, st, level))
    case Obj(ms) => Object(Margin(st, level), WrittenPairs(ms, st, level))
  }

  function WrittenItems(es: seq<Value>, st: Style, level: nat): (items: seq<Item>)
    ensures |items| == |es|
    decreases es
  {
    if es == [] then []
    else
      [Item(Margin(st, level + 1), Written(es[0], st, level + 1), if |es| == 1 then Margin(st, level) else [])]
      + WrittenItems(es[1..], st, level)
  }

  function WrittenPairs(ms: seq<Member>, st: Style, level: nat): (pairs: seq<Pair>)
    ensures |pairs| == |ms|
    decreases ms
  {
    if ms == [] then []
    else
      [Pair(Margin(st, level + 1), Escape(ms[0].name, st.printable), Space(st),
            Item(Space(st), Written(ms[0].value, st, level + 1), if |ms| == 1 then Margin(st, level) else []))]
      + WrittenPairs(ms[1..], st, level)
  }

  // ---------------------------------------------------------------- it is in the grammar

  lemma {:induction false} IndentIsWhite(st: Style, level: nat)
    ensures IsWhite(Indent(st, level))
  {
    if st.pretty && level > 0 {
      IndentIsWhite(st, level - 1);
    }
  }

  lemma MarginIsWhite(st: Style, level: nat)
    ensures IsWhite(Margin(st, level)) && IsWhite(Space(st)) && IsWhite([])
  {
    IndentIsWhite(st, level);
    assert forall i :: 0 <= i < |NewLine(st)| ==> NewLine(st)[i] == LF;
  }

  lemma {:induction false} WrittenIsStandard(v: Value, st: Style, level: nat)
    requires NoRawControls(st.printable)
    ensures Standard(Written(v, st, level))
    decreases v, 0
  {
    match v {
      case Str(s) => EscapedIsRfcString(s, st.printable);
      case Arr(es) =>
        MarginIsWhite(st, level);
        ItemsAreStandard(es, st, level);
      case Obj(ms) =>
        MarginIsWhite(st, level);
        PairsAreStandard(ms, st, level);
      case _ => DigitsAreWhole(v);
    }
  }

  lemma DigitsAreWhole(v: Value)
    ensures v.Int? ==> IsStandard(IntNumeral(v.stored, v.isUint64))
    ensures v.Real? ==> IsStandard(RealNumeral(v.r))
  {
  }

  predicate StandardItems(items: seq<Item>) {
    forall i :: 0 <= i < |items| ==> WhiteSpaced(items[i]) && Standard(items[i].value)
  }

  predicate StandardPairs(pairs: seq<Pair>) {
    forall i :: 0 <= i < |pairs| ==> WhiteNamed(pairs[i]) && Standard(pairs[i].item.value)
  }

  lemma {:induction false} ItemsAreStandard(es: seq<Value>, st: Style, level: nat)
    requires NoRawControls(st.printable)
    ensures StandardItems(WrittenItems(es, st, level))
    decreases es, 0
  {
    if es != [] {
      MarginIsWhite(st, level);
      MarginIsWhite(st, level + 1);
      WrittenIsStandard(es[0], st, level + 1);
      ItemsAreStandard(es[1..], st, level);
      hide Margin, Written, IsWhite, Standard;
    }
  }

  lemma {:induction false} PairsAreStandard(ms: seq<Member>, st: Style, level: nat)
    requires NoRawControls(st.printable)
    ensures StandardPairs(WrittenPairs(ms, st, level))
    decreases ms, 0
  {
    hide Margin, Written, IsWhite, Standard, Escape, RfcChars, Space;
    if ms != [] {
      MarginIsWhite(st, level);
      MarginIsWhite(st, level + 1);
      EscapedIsRfcString(ms[0].name, st.printable);
      WrittenIsStandard(ms[0].value, st, level + 1);
      PairsAreStandard(ms[1..], st, level);
      hide NoRawControls;
      PairsPrepend(WrittenPairs(ms, st, level)[0], WrittenPairs(ms[1..], st, level));
    }
  }

  lemma PairsPrepend(p: Pair, pairs: seq<Pair>)
    requires WhiteNamed(p) && Standard(p.item.value) && StandardPairs(pairs)
    ensures StandardPairs([p] + pairs)
  {
  }

  // ---------------------------------------------------------------- it is the text

  lemma {:induction false} WrittenYieldsText(v: Value, st: Style, level: nat)
    ensures Yield(Written(v, st, level)) == Text(v, st, level)
    decreases v, 0
  {
    match v {
      case Arr(es) =>
        ItemsYieldText(es, st, level);
        Brackets(LBRACKET, RBRACKET, NewLine(st), ElemsText(es, st, level + 1), Indent(st, level));
      case Obj(ms) =>
        PairsYieldText(ms, st, level);
        Brackets(LBRACE, RBRACE, NewLine(st), MembersText(ms, st, level + 1), Indent(st, level));
      case _ => NumeralsAreText(v);
    }
  }

  lemma Brackets(open: byte, close: byte, line: seq<byte>, body: seq<byte>, indent: seq<byte>)
    ensures [open] + line + body + indent + [close] == [open] + (line + (body + indent)) + [close]
    ensures line + ([] + indent) == line + indent
  {
  }

  lemma NumeralsAreText(v: Value)
    ensures v.Int? ==> NumeralText(IntNumeral(v.stored, v.isUint64)) == IntText(v.stored, v.isUint64)
    ensures v.Real? ==> NumeralText(RealNumeral(v.r)) == RealText(v.r)
  {
    if v.Int? {
      var ds := IntNumeral(v.stored, v.isUint64).whole;
      assert ds + ([] + []) == ds && [] + ds == ds;
      assert Decimal(v.stored) == Sign(v.stored < 0) + Digits(Magnitude(v.stored));
    } else if v.Real? {
      var n := RealNumeral(v.r);
      assert n.sign + (n.whole + ([DOT] + n.fraction.value + []))
          == n.sign + n.whole + [DOT] + n.fraction.value;
    }
  }

  lemma ItemsUnfold(es: seq<Value>, st: Style, level: nat)
    requires es != []
    ensures var m := Margin(st, level);
            var text := Yield(Written(es[0], st, level + 1));
            ItemsText(m, WrittenItems(es, st, level))
            == if |es| == 1 then Margin(st, level + 1) + text + m
               else Margin(st, level + 1) + text + ([COMMA] + ItemsText(m, WrittenItems(es[1..], st, level)))
  {
    var items := WrittenItems(es, st, level);
    assert items[1..] == WrittenItems(es[1..], st, level);
    var first := Margin(st, level + 1) + Yield(Written(es[0], st, level + 1));
    hide Margin, Yield, Written;
    if |es| == 1 {
      assert first + Margin(st, level) + [] == first + Margin(st, level);
    } else {
      var others := items[1..];
      Assoc([COMMA], ItemText(others[0]), MoreItemsText(others[1..]));
      assert first + [] == first;
    }
  }

  lemma PairsUnfold(ms: seq<Member>, st: Style, level: nat)
    requires ms != []
    ensures var m := Margin(st, level);
            var head := Margin(st, level + 1) + StrText(ms[0].name, st) + Space(st) + [COLON];
            var text := Space(st) + Yield(Written(ms[0].value, st, level + 1));
            PairsText(m, WrittenPairs(ms, st, level))
            == if |ms| == 1 then head + (text + m)
               else head + text + ([COMMA] + PairsText(m, WrittenPairs(ms[1..], st, level)))
  {
    var m, pairs := Margin(st, level), WrittenPairs(ms, st, level);
    var others := WrittenPairs(ms[1..], st, level);
    assert pairs[1..] == others;
    var head := Margin(st, level + 1) + StrText(ms[0].name, st) + Space(st) + [COLON];
    var text := Space(st) + Yield(Written(ms[0].value, st, level + 1));
    assert SpacedPairText(pairs[0]) == head + (text + (if |ms| == 1 then m else []));
    assert text + [] == text;
    hide Margin, Yield, Written, Space, StrText, SpacedPairText, WrittenPairs;
    assert PairsText(m, pairs) == SpacedPairText(pairs[0]) + MorePairsText(others);
    if |ms| == 1 {
      assert MorePairsText(others) == [];
      assert head + (text + m) + [] == head + (text + m);
    } else {
      assert MorePairsText(others) == [COMMA] + SpacedPairText(others[0]) + MorePairsText(others[1..]);
      Assoc([COMMA], SpacedPairText(others[0]), MorePairsText(others[1..]));
    }
  }

  /** The margin of the first item, the items, and the margin of the closing bracket. */
  lemma {:induction false} ItemsYieldText(es: seq<Value>, st: Style, level: nat)
    ensures ItemsText(Margin(st, level), WrittenItems(es, st, level))
         == NewLine(st) + (ElemsText(es, st, level + 1) + Indent(st, level))
    decreases es, 0
  {
    if es == [] {
      assert [] + Indent(st, level) == Indent(st, level);
    } else {
      hide ItemsText, WrittenItems, Indent, NewLine, Yield, Written, Text;
      var line, outer := NewLine(st), Indent(st, level);
      ItemsUnfold(es, st, level);
      WrittenYieldsText(es[0], st, level + 1);
      if |es| == 1 {
        assert ElemsText(es[1..], st, level + 1) == [];
        Last(line, Indent(st, level + 1), Text(es[0], st, level + 1), outer);
      } else {
        ItemsYieldText(es[1..], st, level);
        NotLast(line, Indent(st, level + 1), Text(es[0], st, level + 1), ElemsText(es[1..], st, level + 1), outer);
      }
    }
  }

  lemma Last(line: seq<byte>, indent: seq<byte>, text: seq<byte>, outer: seq<byte>)
    ensures line + indent + text + (line + outer) == line + (indent + text + ([] + line) + [] + outer)
  {
    assert [] + line == line;
    assert indent + text + line + [] == indent + text + line;
  }

  lemma NotLast(line: seq<byte>, indent: seq<byte>, text: seq<byte>, others: seq<byte>, outer: seq<byte>)
    ensures line + indent + text + ([COMMA] + (line + (others + outer)))
         == line + (indent + text + ([COMMA] + line) + others + outer)
  {
  }

  lemma MembersUnfold(ms: seq<Member>, st: Style, level: nat)
    requires ms != []
    ensures MembersText(ms, st, level)
         == if |ms| == 1 then Indent(st, level) + PairText(ms[0], st, level) + ([] + NewLine(st)) + []
            else Indent(st, level) + PairText(ms[0], st, level) + ([COMMA] + NewLine(st))
                 + MembersText(ms[1..], st, level)
  {
    hide PairText, Indent, NewLine;
  }

  lemma {:induction false} PairsYieldText(ms: seq<Member>, st: Style, level: nat)
    ensures PairsText(Margin(st, level), WrittenPairs(ms, st, level))
         == NewLine(st) + (MembersText(ms, st, level + 1) + Indent(st, level))
    decreases ms, 0
  {
    if ms == [] {
      assert [] + Indent(st, level) == Indent(st, level);
    } else {
      hide PairsText, MembersText, WrittenPairs, Indent, NewLine, Yield, Written, Text, StrText, Space;
      var line, indent, outer := NewLine(st), Indent(st, level + 1), Indent(st, level);
      var text := Text(ms[0].value, st, level + 1);
      var pair := PairText(ms[0], st, level + 1);
      PairsUnfold(ms, st, level);
      MembersUnfold(ms, st, level + 1);
      WrittenYieldsText(ms[0].value, st, level + 1);
      PairGathers(line + indent, StrText(ms[0].name, st), Space(st), text);
      if |ms| == 1 {
        PairLast(line, indent, StrText(ms[0].name, st), Space(st), text, outer);
      } else {
        PairsYieldText(ms[1..], st, level);
        NotLast(line, indent, pair, MembersText(ms[1..], st, level + 1), outer);
      }
    }
  }

  lemma PairLast(line: seq<byte>, indent: seq<byte>, name: seq<byte>, space: seq<byte>, text: seq<byte>,
                 outer: seq<byte>)
    ensures line + indent + name + space + [COLON] + (space + text + (line + outer))
         == line + (indent + (name + space + [COLON] + space + text) + ([] + line) + [] + outer)
  {
    PairGathers(line + indent, name, space, text);
    Assoc(line + indent + name + space + [COLON], space + text, line + outer);
    Last(line, indent, name + space + [COLON] + space + text, outer);
  }

  lemma PairGathers(margin: seq<byte>, name: seq<byte>, space: seq<byte>, text: seq<byte>)
    ensures margin + name + space + [COLON] + (space + text) == margin + (name + space + [COLON] + space + text)
  {
  }

  // ---------------------------------------------------------------- the result

  ghost predicate IsRfcText(s: seq<byte>) {
    exists d :: StandardDocument(d) && DocumentText(d) == s
  }

  lemma PrintedIsRfc(v: Value, st: Style)
    requires NoRawControls(st.printable)
    ensures IsRfcText(Text(v, st, 0))
  {
    var d := Document([], Written(v, st, 0), []);
    WrittenIsStandard(v, st, 0);
    WrittenYieldsText(v, st, 0);
    assert DocumentText(d) == Text(v, st, 0) by {
      assert [] + Text(v, st, 0) + [] == Text(v, st, 0);
    }
  }

  lemma StartsQuoted(v: Syntax)
    requires Standard(v)
    ensures Yield(v) != [] && (Yield(v)[0] == QUOTE <==> v.Quoted?)
  {
    if v.Numeric? {
      NumeralStarts(v.n);
    }
  }

  lemma SpacedEnds(d: Document)
    requires StandardDocument(d)
    ensures var s := DocumentText(d);
            && s != []
            && (d.before != [] ==> s[0] in {SPACE, TAB, LF, CR})
            && (d.after != [] ==> s[|s| - 1] in {SPACE, TAB, LF, CR})
  {
    StandardIsReadable(d.value);
    YieldStarts(d.value);
    var s := DocumentText(d);
    if d.before != [] {
      assert s[0] == d.before[0];
    }
    if d.after != [] {
      assert s[|s| - 1] == d.after[|d.after| - 1];
    }
  }

  /** A text of one character between quotation marks. */
  lemma OneQuoted(d: Document)
    requires StandardDocument(d)
    requires var s := DocumentText(d); |s| == 3 && s[0] == QUOTE && s[2] == QUOTE
    ensures IsUnescaped(DocumentText(d)[1])
  {
    var s, y := DocumentText(d), Yield(d.value);
    StartsQuoted(d.value);
    SpacedEnds(d);
    assert s == y;
    assert y[1..2] == d.value.body;
    hide Yield;
  }

  lemma OneCharacterText(c: byte)
    ensures IsRfcText([QUOTE, c, QUOTE]) ==> IsUnescaped(c)
  {
    if IsRfcText([QUOTE, c, QUOTE]) {
      var d :| StandardDocument(d) && DocumentText(d) == [QUOTE, c, QUOTE];
      OneQuoted(d);
    }
  }

  /** Whatever is printed, in either layout, is a text of the standard exactly when `iswprint` rejects the control
      characters that have no short escape. */
  lemma PrintedIsRfcIff(printable: set<byte>)
    ensures (forall v, pretty :: IsRfcText(Text(v, Style(pretty, printable), 0))) <==> NoRawControls(printable)
  {
    if NoRawControls(printable) {
      forall v, pretty ensures IsRfcText(Text(v, Style(pretty, printable), 0)) {
        PrintedIsRfc(v, Style(pretty, printable));
      }
    } else {
      var c :| c in printable && c < 32 && ShortEscape(c).None?;
      assert Escape([c], printable) == [c];
      assert Text(Str([c]), Style(false, printable), 0) == [QUOTE, c, QUOTE];
      OneCharacterText(c);
    }
  }
}
