/** What the reader throws, and where: each of its four complaints on a text that deserves it. */
module JsonErrors {
  import opened Bytes
  import opened JsonValue
  import opened JsonEscape
  import opened JsonWriter
  import opened JsonLex
  import opened JsonTree
  import opened JsonRoundTrip
  import opened JsonCharacters

  // ---------------------------------------------------------------- no value

  /** After white space there is nothing, or a character that no value begins with. */
  predicate BeginsNoValue(s: seq<byte>) {
    var t := Skip(s); t == [] || t[0] !in Ascii("\"{[+-.0123456789tfn")
  }

  lemma NoFirstCharacter(t: seq<byte>)
    requires t != [] && t[0] !in Ascii("\"{[+-.0123456789tfn")
    ensures t[0] !in {QUOTE, LBRACE, LBRACKET, PLUS, MINUS, DOT, 116, 102, 110} && !IsDigit(t[0])
  {
    assert Ascii("\"{[+-.0123456789tfn")
        == [34, 123, 91, 43, 45, 46, 48, 49, 50, 51, 52, 53, 54, 55, 56, 57, 116, 102, 110];
  }

  lemma NoValueMisses(s: seq<byte>)
    requires BeginsNoValue(s)
    ensures ValueRule(s).Miss?
  {
    var t := Skip(s);
    SkippedAgain(s);
    SkippedFirst(s, t);
    if t != [] {
      NoFirstCharacter(t);
    }
    hide Skip, Ascii, GetStr, ObjectRest, ArrayRest, DigitsValue, Scale;
    NothingThere(t);
  }

  lemma NothingThere(t: seq<byte>)
    requires t == Skip(t)
    requires t != [] ==> t[0] !in {QUOTE, LBRACE, LBRACKET, PLUS, MINUS, DOT, 116, 102, 110} && !IsDigit(t[0])
    ensures ValueRule(t).Miss?
  {
    assert Number(t).None?;
    assert LexString(t).None?;
    hide Number, LexString, Skip, GetStr, ObjectRest, ArrayRest;
  }

  lemma SkippedAgain(s: seq<byte>)
    ensures Skip(Skip(s)) == Skip(s)
  {
  }

  /** Where a value is missing, in a text or behind a name, that is thrown, at the first character there. */
  lemma MissingValueThrows(name: seq<byte>, printable: set<byte>, s: seq<byte>)
    requires BeginsNoValue(s)
    ensures Json(s) == Thrown(NotAValue, Skip(s))
    ensures Json(Ascii("{\"") + Escape(name, printable) + Ascii("\":") + s) == Thrown(NotAValue, Skip(s))
  {
    NoValueMisses(s);
    SkippedAgain(s);
    SkippedFirst(s, Skip(s));
    var st := Style(false, printable);
    hide ValueRule, PairRule, Ascii, StrText, Skip, Escape, BeginsNoValue;
    assert Json(s) == Thrown(NotAValue, Skip(s));
    hide Json;
    NamesBegin(name, st, s);
    NameThenColon(name, st, s);
    BeginsObject(name, st, [COLON] + s);
  }

  lemma NamesBegin(name: seq<byte>, st: Style, s: seq<byte>)
    ensures Ascii("{\"") + Escape(name, st.printable) + Ascii("\":") + s
         == [LBRACE] + (StrText(name, st) + ([COLON] + s))
  {
    assert Ascii("{\"") == [LBRACE, QUOTE] && Ascii("\":") == [QUOTE, COLON];
    hide Ascii, Escape;
    var e := Escape(name, st.printable);
    assert [LBRACE, QUOTE] + e + [QUOTE, COLON] + s == [LBRACE] + ([QUOTE] + e + [QUOTE] + ([COLON] + s));
  }

  /** An object whose first pair throws. */
  lemma BeginsObject(name: seq<byte>, st: Style, behind: seq<byte>)
    ensures var t := StrText(name, st) + behind;
            var p := PairRule(t);
            p.Thrown? ==> Json([LBRACE] + t) == Thrown(p.reason, p.at)
  {
    var t := StrText(name, st) + behind;
    assert Skip(t) == t;
    OpensObject([LBRACE] + t, t);
    hide ValueRule, PairRule, Skip, StrText;
  }

  lemma NameThenColon(name: seq<byte>, st: Style, s: seq<byte>)
    requires ValueRule(Skip(s)).Miss?
    ensures PairRule(StrText(name, st) + ([COLON] + s)) == Thrown(NotAValue, Skip(Skip(s)))
  {
    var behind := [COLON] + s;
    StringLexesBack(name, st, behind);
    SliceOver(StrText(name, st), behind);
    assert Skip(StrText(name, st) + behind) == StrText(name, st) + behind;
    assert Skip(behind) == behind;
    ChAt(COLON, behind, s);
    hide ValueRule, LexString, GetStr, Ch, Skip;
  }

  // ---------------------------------------------------------------- no colon

  /** A name without a colon behind it. */
  lemma MissingColonThrows(name: seq<byte>, printable: set<byte>, s: seq<byte>)
    requires Skip(s) == [] || Skip(s)[0] as int != ':' as int
    ensures Json(Ascii("{\"") + Escape(name, printable) + Ascii("\"") + s) == Thrown(NoColon, Skip(s))
  {
    var st := Style(false, printable);
    NamesBeginToo(name, st, s);
    hide ValueRule, Ascii, StrText, Skip;
    BeginsObject(name, st, s);
    NameWithoutColon(name, st, s);
  }

  lemma NamesBeginToo(name: seq<byte>, st: Style, s: seq<byte>)
    ensures Ascii("{\"") + Escape(name, st.printable) + Ascii("\"") + s == [LBRACE] + (StrText(name, st) + s)
  {
    assert Ascii("{\"") == [LBRACE, QUOTE] && Ascii("\"") == [QUOTE];
    hide Ascii, Escape;
    var e := Escape(name, st.printable);
    assert [LBRACE, QUOTE] + e + [QUOTE] + s == [LBRACE] + ([QUOTE] + e + [QUOTE] + s);
  }

  lemma NameWithoutColon(name: seq<byte>, st: Style, s: seq<byte>)
    requires Skip(s) == [] || Skip(s)[0] != COLON
    ensures PairRule(StrText(name, st) + s) == Thrown(NoColon, Skip(s))
  {
    StringLexesBack(name, st, s);
    SliceOver(StrText(name, st), s);
    assert Skip(StrText(name, st) + s) == StrText(name, st) + s;
    hide ValueRule, LexString, GetStr, Skip;
  }

  // ---------------------------------------------------------------- the wrong bracket

  lemma ArrayClosedWrong(es: seq<Value>, st: Style, level: nat, rest: seq<byte>)
    ensures var tail := Tail(st, level, RBRACE, rest);
            ValueRule([LBRACKET] + (NewLine(st) + (ElemsText(es, st, level + 1) + tail)))
            == Thrown(NotAnArray, [RBRACE] + rest)
  {
    var body, tail := ElemsText(es, st, level + 1), Tail(st, level, RBRACE, rest);
    hide Text, Indent, Tail, Norm, Skip, Ch, ValueRule, ElemsText;
    OpensArray([LBRACKET] + (NewLine(st) + (body + tail)), NewLine(st) + (body + tail));
    SkipOver(NewLine(st), body + tail);
    var u := Skip(body + tail);
    TailSkips(st, level, RBRACE, rest);
    if es == [] {
      assert body + tail == tail by {
        NoElems(st, level + 1);
      }
      NoValueAtClose(u, RBRACE, rest);
    } else {
      ElemsParse(es, st, level + 1, u, level, RBRACE, rest);
    }
    SkippedAgain(body + tail);
    NotThere(RBRACKET, Elements(u).rest, RBRACE, rest);
  }

  lemma ObjectClosedWrong(ms: seq<Member>, st: Style, level: nat, rest: seq<byte>)
    ensures var tail := Tail(st, level, RBRACKET, rest);
            ValueRule([LBRACE] + (NewLine(st) + (MembersText(ms, st, level + 1) + tail)))
            == Thrown(NotAnObject, [RBRACKET] + rest)
  {
    var body, tail := MembersText(ms, st, level + 1), Tail(st, level, RBRACKET, rest);
    hide Text, Indent, Tail, Norm, Skip, Ch, PairRule, ValueRule, MembersText;
    OpensObject([LBRACE] + (NewLine(st) + (body + tail)), NewLine(st) + (body + tail));
    SkipOver(NewLine(st), body + tail);
    var u := Skip(body + tail);
    TailSkips(st, level, RBRACKET, rest);
    if ms == [] {
      assert body + tail == tail by {
        NoMembers(st, level + 1);
      }
      NoPairAtClose(u, RBRACKET, rest);
    } else {
      MembersParse(ms, st, level + 1, u, level, RBRACKET, rest);
    }
    SkippedAgain(body + tail);
    NotThere(RBRACE, Members(u).rest, RBRACKET, rest);
  }

  /** An array that ends with a brace, and an object that ends with a bracket. */
  lemma WrongBracketThrows(es: seq<Value>, ms: seq<Member>, st: Style, level: nat, rest: seq<byte>)
    ensures Json(Ascii("[") + Inside(Texts(es, st, level + 1), st.pretty, level) + Ascii("}") + rest)
         == Thrown(NotAnArray, Ascii("}") + rest)
    ensures Json(Ascii("{") + Inside(PairTexts(ms, st, level + 1), st.pretty, level) + Ascii("]") + rest)
         == Thrown(NotAnObject, Ascii("]") + rest)
  {
    Brackets();
    hide Inside, Texts, PairTexts, Text, ValueRule, Ascii, Norm, ElemsText, MembersText;
    ArrayClosedWrong(es, st, level, rest);
    ObjectClosedWrong(ms, st, level, rest);
    InsideOfArray(es, st, level);
    InsideOfObject(ms, st, level);
    Assoc5Right([LBRACKET], NewLine(st), ElemsText(es, st, level + 1), Indent(st, level), [RBRACE], rest);
    Assoc5Right([LBRACE], NewLine(st), MembersText(ms, st, level + 1), Indent(st, level), [RBRACKET], rest);
  }

  lemma Brackets()
    ensures Ascii("[") == [LBRACKET] && Ascii("]") == [RBRACKET] && Ascii("{") == [LBRACE] && Ascii("}") == [RBRACE]
  {
  }

  lemma Assoc5Right(a: seq<byte>, b: seq<byte>, c: seq<byte>, d: seq<byte>, e: seq<byte>, f: seq<byte>)
    ensures a + (b + c + d) + e + f == a + (b + (c + (d + (e + f))))
  {
  }
}
