/** The texts of JSON in the characters themselves: words, punctuation and layout as they are printed, and the grammar
    that is read. */
module JsonCharacters {
  import opened Bytes
  import opened JsonValue
  import opened JsonEscape
  import opened JsonWriter
  import opened JsonTree
  import opened JsonRoundTrip
  import opened JsonNumerals
  import opened JsonTexts

  // ---------------------------------------------------------------- words

  predicate AreSpaces(w: seq<byte>) {
    forall i :: 0 <= i < |w| ==> w[i] in Ascii("\t\n\U{000B}\U{000C}\r ")
  }

  lemma SpacesAreSpaces(w: seq<byte>)
    ensures AreSpaces(w) <==> AllSpace(w)
  {
    hide IsSpace, Ascii;
    forall i | 0 <= i < |w| ensures w[i] in Ascii("\t\n\U{000B}\U{000C}\r ") <==> IsSpace(w[i]) {
      SpaceCharacters(w[i]);
    }
  }

  /** The three words read as their values, whatever white space is in front of them and whatever follows. */
  lemma WordsRead(w: seq<byte>, rest: seq<byte>)
    requires AreSpaces(w)
    ensures Json(w + Ascii("true") + rest) == Hit(Bool(true), rest)
    ensures Json(w + Ascii("false") + rest) == Hit(Bool(false), rest)
    ensures Json(w + Ascii("null") + rest) == Hit(Null, rest)
  {
    SpacesAreSpaces(w);
    TheWords();
    hide Ascii, AreSpaces, ValueRule;
    WordReads(w, TRUE_WORD, rest);
    WordReads(w, FALSE_WORD, rest);
    WordReads(w, NULL_WORD, rest);
  }

  lemma TheWords()
    ensures TRUE_WORD == Ascii("true") && FALSE_WORD == Ascii("false") && NULL_WORD == Ascii("null")
  {
  }

  lemma WordReads(w: seq<byte>, word: seq<byte>, rest: seq<byte>)
    requires AllSpace(w) && word in {NULL_WORD, TRUE_WORD, FALSE_WORD}
    ensures Json(w + word + rest) == Hit(if word == NULL_WORD then Null else Bool(word == TRUE_WORD), rest)
  {
    hide ValueRule, Skip;
    Assoc(w, word, rest);
    SkipOver(w, word + rest);
    SkippedFirst(w + (word + rest), word + rest);
    WordParses(word, rest);
  }

  /** And so they are printed, and stand in the grammar. */
  lemma WordsPrint(st: Style, level: nat)
    ensures Text(Bool(true), st, level) == Yield(TrueWord) == Ascii("true")
    ensures Text(Bool(false), st, level) == Yield(FalseWord) == Ascii("false")
    ensures Text(Null, st, level) == Yield(NullWord) == Ascii("null")
  {
    TheWords();
  }

  // ---------------------------------------------------------------- punctuation, as it is printed

  /** Texts with a separator between them. */
  function Between(texts: seq<seq<byte>>, sep: seq<byte>): seq<byte> {
    if texts == [] then []
    else if |texts| == 1 then texts[0]
    else texts[0] + sep + Between(texts[1..], sep)
  }

  function Blanks(n: nat): seq<byte> {
    seq(n, _ => 32)
  }

  /** What stands between the brackets: compactly, commas only; prettily, a line for every text, four spaces further
      in than the line of the closing bracket. */
  function Inside(texts: seq<seq<byte>>, pretty: bool, level: nat): seq<byte> {
    if !pretty then Between(texts, Ascii(","))
    else if texts == [] then Ascii("\n") + Blanks(4 * level)
    else
      var margin := Ascii("\n") + Blanks(4 * level + 4);
      margin + Between(texts, Ascii(",") + margin) + Ascii("\n") + Blanks(4 * level)
  }

  function Texts(es: seq<Value>, st: Style, level: nat): (texts: seq<seq<byte>>)
    ensures |texts| == |es|
  {
    seq(|es|, i requires 0 <= i < |es| => Text(es[i], st, level))
  }

  /** A name between quotation marks, a colon and the value, spaced when pretty. */
  function PairTexts(ms: seq<Member>, st: Style, level: nat): (texts: seq<seq<byte>>)
    ensures |texts| == |ms|
  {
    seq(|ms|, i requires 0 <= i < |ms| =>
      Ascii("\"") + Escape(ms[i].name, st.printable) + Ascii(if st.pretty then "\" : " else "\":")
      + Text(ms[i].value, st, level))
  }

  lemma {:induction false} IndentIsBlanks(st: Style, level: nat)
    ensures Indent(st, level) == Blanks(if st.pretty then 4 * level else 0)
  {
    if st.pretty && level > 0 {
      IndentIsBlanks(st, level - 1);
    }
  }

  lemma LineEndIs(st: Style)
    ensures NewLine(st) == if st.pretty then Ascii("\n") else []
    ensures Separator(true, st) == NewLine(st) && Separator(false, st) == Ascii(",") + NewLine(st)
  {
  }

  /** Items, each with its margin in front and its separator behind. */
  lemma LinedUp(first: seq<byte>, others: seq<seq<byte>>, indent: seq<byte>, end: seq<byte>, comma: seq<byte>)
    ensures others == [] ==> indent + first + end == indent + Between([first] + others, comma + end + indent) + end
    ensures others != [] ==>
              indent + first + (comma + end) + (indent + Between(others, comma + end + indent) + end)
              == indent + Between([first] + others, comma + end + indent) + end
  {
    assert ([first] + others)[1..] == others;
    if others != [] {
      var b, sep := Between(others, comma + end + indent), comma + end + indent;
      assert Between([first] + others, sep) == first + sep + b;
      hide Between;
      assert indent + first + (comma + end) + (indent + b + end) == indent + (first + (comma + end + indent) + b) + end;
    }
  }

  lemma {:induction false} ElemsLinedUp(es: seq<Value>, st: Style, level: nat)
    requires es != []
    ensures var end, indent := NewLine(st), Indent(st, level);
            ElemsText(es, st, level) == indent + Between(Texts(es, st, level), Ascii(",") + end + indent) + end
  {
    hide Text, Indent, NewLine, Between, Ascii, Separator;
    LineEndIs(st);
    var more := Texts(es[1..], st, level);
    assert Texts(es, st, level) == [Text(es[0], st, level)] + more;
    LinedUp(Text(es[0], st, level), more, Indent(st, level), NewLine(st), Ascii(","));
    if |es| == 1 {
      assert es[1..] == [];
      assert ElemsText(es, st, level) == ElemText(es[0], true, st, level) + [];
    } else {
      ElemsLinedUp(es[1..], st, level);
    }
  }

  lemma PairTextIs(m: Member, st: Style, level: nat)
    ensures [PairText(m, st, level)] == PairTexts([m], st, level)
  {
    assert Ascii("\" : ") == [QUOTE, SPACE, COLON, SPACE] && Ascii("\":") == [QUOTE, COLON] && Ascii("\"") == [QUOTE];
    var colon := if st.pretty then Ascii("\" : ") else Ascii("\":");
    hide Text, Escape, Ascii;
    var name, value := Escape(m.name, st.printable), Text(m.value, st, level);
    assert [QUOTE] + name + [QUOTE] + Space(st) + [COLON] + Space(st) + value == [QUOTE] + name + colon + value;
    assert PairTexts([m], st, level)[0] == [QUOTE] + name + colon + value;
  }

  lemma {:induction false} MembersLinedUp(ms: seq<Member>, st: Style, level: nat)
    requires ms != []
    ensures var end, indent := NewLine(st), Indent(st, level);
            MembersText(ms, st, level) == indent + Between(PairTexts(ms, st, level), Ascii(",") + end + indent) + end
  {
    hide PairText, Indent, NewLine, Between, Ascii, Separator;
    LineEndIs(st);
    var more := PairTexts(ms[1..], st, level);
    PairTextIs(ms[0], st, level);
    assert PairTexts(ms, st, level) == PairTexts([ms[0]], st, level) + more;
    hide Text, Escape;
    LinedUp(PairText(ms[0], st, level), more, Indent(st, level), NewLine(st), Ascii(","));
    if |ms| == 1 {
      assert ms[1..] == [];
      assert MembersText(ms, st, level) == MemberText(ms[0], true, st, level) + [];
    } else {
      MembersLinedUp(ms[1..], st, level);
    }
  }

  lemma InsideIs(texts: seq<seq<byte>>, st: Style, level: nat)
    ensures var end, out, margin := NewLine(st), Indent(st, level), Indent(st, level + 1);
            Inside(texts, st.pretty, level)
            == end + (if texts == [] then [] else margin + Between(texts, Ascii(",") + end + margin) + end) + out
  {
    IndentIsBlanks(st, level);
    IndentIsBlanks(st, level + 1);
    LineEndIs(st);
    hide Indent, NewLine;
    var end, out, margin := NewLine(st), Indent(st, level), Indent(st, level + 1);
    if st.pretty {
      assert Ascii(",") + end + margin == Ascii(",") + (end + margin);
      var b := Between(texts, Ascii(",") + end + margin);
      hide Between, Ascii;
      assert end + (margin + b + end) + out == end + margin + b + end + out;
      assert end + [] + out == end + out;
    } else {
      assert Ascii(",") + end + margin == Ascii(",");
      assert texts == [] ==> Between(texts, Ascii(",")) == [];
    }
  }

  lemma InsideOfArray(es: seq<Value>, st: Style, level: nat)
    ensures Inside(Texts(es, st, level + 1), st.pretty, level)
         == NewLine(st) + ElemsText(es, st, level + 1) + Indent(st, level)
  {
    InsideIs(Texts(es, st, level + 1), st, level);
    hide Inside, Indent, NewLine, Between, Ascii;
    if es == [] {
      NoElems(st, level + 1);
    } else {
      ElemsLinedUp(es, st, level + 1);
    }
  }

  lemma InsideOfObject(ms: seq<Member>, st: Style, level: nat)
    ensures Inside(PairTexts(ms, st, level + 1), st.pretty, level)
         == NewLine(st) + MembersText(ms, st, level + 1) + Indent(st, level)
  {
    InsideIs(PairTexts(ms, st, level + 1), st, level);
    hide Inside, Indent, NewLine, Between, Ascii;
    if ms == [] {
      NoMembers(st, level + 1);
    } else {
      MembersLinedUp(ms, st, level + 1);
    }
  }

  /** Arrays and objects in either layout, whatever the texts of their items are. */
  lemma ArrayInCharacters(es: seq<Value>, st: Style, level: nat)
    ensures Text(Arr(es), st, level) == Ascii("[") + Inside(Texts(es, st, level + 1), st.pretty, level) + Ascii("]")
  {
    assert Ascii("[") == [LBRACKET] && Ascii("]") == [RBRACKET];
    InsideOfArray(es, st, level);
    hide Inside, Indent, NewLine, Between, Ascii, ElemsText;
    Enclosed([LBRACKET], NewLine(st), ElemsText(es, st, level + 1), Indent(st, level), [RBRACKET]);
  }

  lemma ObjectInCharacters(ms: seq<Member>, st: Style, level: nat)
    ensures Text(Obj(ms), st, level) == Ascii("{") + Inside(PairTexts(ms, st, level + 1), st.pretty, level) + Ascii("}")
  {
    assert Ascii("{") == [LBRACE] && Ascii("}") == [RBRACE];
    InsideOfObject(ms, st, level);
    hide Inside, Indent, NewLine, Between, Ascii, MembersText;
    Enclosed([LBRACE], NewLine(st), MembersText(ms, st, level + 1), Indent(st, level), [RBRACE]);
  }

  lemma Enclosed(open: seq<byte>, end: seq<byte>, body: seq<byte>, out: seq<byte>, close: seq<byte>)
    ensures open + end + body + out + close == open + (end + body + out) + close
  {
  }

  /** Such a text is read back, in the characters in which it is written. */
  lemma CharactersRead(es: seq<Value>, ms: seq<Member>, st: Style, level: nat, rest: seq<byte>)
    ensures Json(Ascii("[") + Inside(Texts(es, st, level + 1), st.pretty, level) + Ascii("]") + rest)
         == Hit(Norm(Arr(es)), Skip(rest))
    ensures Json(Ascii("{") + Inside(PairTexts(ms, st, level + 1), st.pretty, level) + Ascii("}") + rest)
         == Hit(Norm(Obj(ms)), Skip(rest))
  {
    hide Inside, Texts, PairTexts, Text, ValueRule, Ascii, Norm;
    ArrayInCharacters(es, st, level);
    ObjectInCharacters(ms, st, level);
    TextParses(Arr(es), st, level, rest);
    TextParses(Obj(ms), st, level, rest);
  }

  /** A string between quotation marks; a real with a point and eight digits behind it. */
  lemma ScalarsInCharacters(s: seq<byte>, r: real, st: Style, level: nat)
    ensures Text(Str(s), st, level) == Ascii("\"") + Escape(s, st.printable) + Ascii("\"")
    ensures var t, sign := Text(Real(r), st, level), if r < 0.0 then Ascii("-") else [];
            var n := |t| - 9;
            && |sign| < n && sign <= t && AllDigits(t[|sign|..n])
            && t[n..n + 1] == Ascii(".") && AllDigits(t[n + 1..])
  {
    assert Ascii("\"") == [QUOTE] && Ascii("-") == [MINUS] && Ascii(".") == [DOT];
    hide Escape, Ascii, Digits, Padded, Units;
    var sign, whole, places :=
      if r < 0.0 then [MINUS] else [], Digits(Units(Abs(r)) / 100000000), Padded(Units(Abs(r)) % 100000000, 8);
    var t := Text(Real(r), st, level);
    assert t == sign + whole + [DOT] + places;
    assert t[|sign|..|t| - 9] == whole && t[|t| - 8..] == places;
  }

  // ---------------------------------------------------------------- the grammar that is read

  lemma WhiteCharacters(w: seq<byte>)
    ensures IsWhite(w) <==> (forall i :: 0 <= i < |w| ==> w[i] in Ascii(" \t\n\r"))
  {
    assert Ascii(" \t\n\r") == [32, 9, 10, 13];
  }

  function ItemTexts(items: seq<Item>): (texts: seq<seq<byte>>)
    ensures |texts| == |items|
  {
    seq(|items|, i requires 0 <= i < |items| => items[i].before + Yield(items[i].value) + items[i].after)
  }

  function NamedTexts(pairs: seq<Pair>): (texts: seq<seq<byte>>)
    ensures |texts| == |pairs|
  {
    seq(|pairs|, i requires 0 <= i < |pairs| =>
      pairs[i].before + Ascii("\"") + pairs[i].name + Ascii("\"") + pairs[i].beforeColon + Ascii(":")
      + (pairs[i].item.before + Yield(pairs[i].item.value) + pairs[i].item.after))
  }

  lemma {:induction false} BetweenStep(text: seq<byte>, others: seq<seq<byte>>)
    ensures Between([text] + others, Ascii(","))
         == if others == [] then text else text + ([COMMA] + Between(others, Ascii(",")))
  {
    assert Ascii(",") == [COMMA];
    hide Ascii;
    assert ([text] + others)[1..] == others;
    if others != [] {
      Assoc(text, [COMMA], Between(others, Ascii(",")));
    }
  }

  lemma {:induction false} ItemsInCharacters(items: seq<Item>)
    requires items != []
    ensures ItemText(items[0]) + MoreItemsText(items[1..]) == Between(ItemTexts(items), Ascii(","))
  {
    hide Ascii, Yield, Between;
    var more := items[1..];
    assert ItemTexts(items) == [ItemText(items[0])] + ItemTexts(more);
    hide ItemText;
    BetweenStep(ItemText(items[0]), ItemTexts(more));
    if more == [] {
      assert ItemText(items[0]) + [] == ItemText(items[0]);
    } else {
      ItemsInCharacters(more);
      Assoc([COMMA], ItemText(more[0]), MoreItemsText(more[1..]));
    }
  }

  lemma {:induction false} PairsInCharacters(pairs: seq<Pair>)
    requires pairs != []
    ensures SpacedPairText(pairs[0]) + MorePairsText(pairs[1..]) == Between(NamedTexts(pairs), Ascii(","))
  {
    hide Ascii, Yield, Between, SpacedPairText;
    var more := pairs[1..];
    NamedTextIs(pairs[0]);
    assert NamedTexts(pairs) == [NamedTexts([pairs[0]])[0]] + NamedTexts(more);
    BetweenStep(SpacedPairText(pairs[0]), NamedTexts(more));
    if more == [] {
      assert SpacedPairText(pairs[0]) + [] == SpacedPairText(pairs[0]);
    } else {
      PairsInCharacters(more);
      Assoc([COMMA], SpacedPairText(more[0]), MorePairsText(more[1..]));
    }
  }

  lemma NamedTextIs(p: Pair)
    ensures NamedTexts([p])[0] == SpacedPairText(p)
  {
    assert Ascii("\"") == [QUOTE] && Ascii(":") == [COLON];
    hide Ascii, Yield;
    var item := p.item.before + Yield(p.item.value) + p.item.after;
    assert p.before + ([QUOTE] + p.name + [QUOTE]) + p.beforeColon + [COLON] + item
        == p.before + [QUOTE] + p.name + [QUOTE] + p.beforeColon + [COLON] + item;
  }

  /** Arrays and objects of the grammar: brackets, and commas between the items. */
  lemma GrammarInCharacters(inner: seq<byte>, items: seq<Item>, pairs: seq<Pair>)
    ensures Yield(Array(inner, items))
         == Ascii("[") + (if items == [] then inner else Between(ItemTexts(items), Ascii(","))) + Ascii("]")
    ensures Yield(Object(inner, pairs))
         == Ascii("{") + (if pairs == [] then inner else Between(NamedTexts(pairs), Ascii(","))) + Ascii("}")
  {
    assert Ascii("[") == [LBRACKET] && Ascii("]") == [RBRACKET] && Ascii("{") == [LBRACE] && Ascii("}") == [RBRACE];
    hide Ascii;
    if items != [] {
      ItemsInCharacters(items);
    }
    if pairs != [] {
      PairsInCharacters(pairs);
    }
    hide ItemText, SpacedPairText, MoreItemsText, MorePairsText, Between;
  }

  /** Strings and numerals of the grammar. */
  lemma LexemesInCharacters(body: seq<byte>, n: Numeral)
    ensures Yield(Quoted(body)) == Ascii("\"") + body + Ascii("\"")
    ensures var e := n.exponent;
            Yield(Numeric(n))
            == n.sign + n.whole + (if n.fraction.Some? then Ascii(".") + n.fraction.value else [])
               + (if e.Some? then Ascii(if e.value.upper then "E" else "e") + e.value.sign + e.value.digits else [])
    ensures IsNumeral(n) ==> n.sign in {[], Ascii("+"), Ascii("-")}
    ensures IsNumeral(n) ==> forall i :: 0 <= i < |n.whole| ==> n.whole[i] in Ascii(DECIMALS)
  {
    assert Ascii("\"") == [QUOTE] && Ascii(".") == [DOT] && Ascii("E") == [69] && Ascii("e") == [101];
    assert Ascii("+") == [PLUS] && Ascii("-") == [MINUS];
    DecimalCharacters();
    hide Ascii;
  }

  lemma DecimalCharacters()
    ensures forall c :: IsDigit(c) <==> c in Ascii(DECIMALS)
  {
    assert Ascii(DECIMALS) == [48, 49, 50, 51, 52, 53, 54, 55, 56, 57];
  }
}
