/** The lines of the pretty layout: each is indented by the brackets that are open. */
module JsonIndent {
  import opened Bytes
  import opened JsonValue
  import opened JsonWriter
  import opened JsonLex

  predicate Opens(c: byte) {
    c == LBRACKET || c == LBRACE
  }

  predicate Shuts(c: byte) {
    c == RBRACKET || c == RBRACE
  }

  /** The leading spaces, as a number. */
  function SpaceRun(s: seq<byte>): (n: nat)
    ensures n <= |s|
    ensures n < |s| ==> s[n] != SPACE
  {
    if s != [] && s[0] == SPACE then 1 + SpaceRun(s[1..]) else 0
  }

  /** A line that begins at `s`, with `depth` brackets open: four spaces for each of them, the one that the line closes
      first not counted, and then no white space. */
  predicate LineFits(s: seq<byte>, depth: nat) {
    var n := SpaceRun(s);
    n < |s| && !IsSpace(s[n]) && n == 4 * (if Shuts(s[n]) then depth - 1 else depth)
  }

  /** All lines behind the first, brackets and line feeds inside string literals not counted. */
  predicate LinesFit(s: seq<byte>, depth: nat)
    decreases |s|
  {
    if s == [] then true
    else if LexString(s).Some? then LinesFit(s[LexString(s).value..], depth)
    else if Opens(s[0]) then LinesFit(s[1..], depth + 1)
    else if Shuts(s[0]) then depth > 0 && LinesFit(s[1..], depth - 1)
    else (s[0] == LF ==> LineFits(s[1..], depth)) && LinesFit(s[1..], depth)
  }

  predicate IsInLine(w: seq<byte>) {
    forall i :: 0 <= i < |w| ==> w[i] != QUOTE && !Opens(w[i]) && !Shuts(w[i]) && w[i] != LF
  }

  lemma {:induction false} InLineFits(w: seq<byte>, rest: seq<byte>, depth: nat)
    requires IsInLine(w)
    ensures LinesFit(w + rest, depth) <==> LinesFit(rest, depth)
    decreases |w|
  {
    if w == [] {
      assert w + rest == rest;
    } else {
      assert (w + rest)[1..] == w[1..] + rest;
      InLineFits(w[1..], rest, depth);
    }
  }

  lemma StringFits(s: seq<byte>, st: Style, rest: seq<byte>, depth: nat)
    ensures LinesFit(StrText(s, st) + rest, depth) <==> LinesFit(rest, depth)
  {
    StringLexesBack(s, st, rest);
    SliceOver(StrText(s, st), rest);
  }

  lemma OpenFits(c: byte, rest: seq<byte>, depth: nat)
    requires Opens(c)
    ensures LinesFit([c] + rest, depth) <==> LinesFit(rest, depth + 1)
  {
    assert ([c] + rest)[1..] == rest;
  }

  lemma ShutFits(c: byte, rest: seq<byte>, depth: nat)
    requires Shuts(c) && depth > 0
    ensures LinesFit([c] + rest, depth) <==> LinesFit(rest, depth - 1)
  {
    assert ([c] + rest)[1..] == rest;
  }

  lemma EndFits(last: bool, st: Style, rest: seq<byte>, depth: nat)
    requires st.pretty
    ensures LinesFit(Separator(last, st) + rest, depth) <==> LineFits(rest, depth) && LinesFit(rest, depth)
  {
    var comma := if last then [] else [COMMA];
    Assoc(comma, [LF], rest);
    InLineFits(comma, [LF] + rest, depth);
    assert ([LF] + rest)[1..] == rest;
  }

  lemma {:induction false} IndentFits(st: Style, level: nat, rest: seq<byte>, depth: nat)
    requires st.pretty
    ensures LinesFit(Indent(st, level) + rest, depth) <==> LinesFit(rest, depth)
    ensures SpaceRun(Indent(st, level) + rest) == 4 * level + SpaceRun(rest)
    ensures |Indent(st, level)| == 4 * level
    decreases level
  {
    hide LinesFit;
    if level == 0 {
      assert Indent(st, 0) + rest == rest;
    } else {
      var four := [SPACE, SPACE, SPACE, SPACE];
      Assoc(Indent(st, level - 1), four, rest);
      IndentFits(st, level - 1, four + rest, depth);
      InLineFits(four, rest, depth);
      FourSpaces(rest);
    }
  }

  lemma {:induction false} OneSpace(rest: seq<byte>)
    ensures SpaceRun([SPACE] + rest) == 1 + SpaceRun(rest)
  {
    assert ([SPACE] + rest)[1..] == rest;
  }

  lemma FourSpaces(rest: seq<byte>)
    ensures SpaceRun([SPACE, SPACE, SPACE, SPACE] + rest) == 4 + SpaceRun(rest)
  {
    hide SpaceRun;
    OneSpace(rest);
    OneSpace([SPACE] + rest);
    OneSpace([SPACE] + ([SPACE] + rest));
    OneSpace([SPACE] + ([SPACE] + ([SPACE] + rest)));
    assert [SPACE, SPACE, SPACE, SPACE] + rest == [SPACE] + ([SPACE] + ([SPACE] + ([SPACE] + rest)));
  }

  /** The line of an item, and the line of a closing bracket. */
  lemma LineOf(st: Style, level: nat, t: seq<byte>, depth: nat)
    requires st.pretty && t != [] && !IsSpace(t[0])
    ensures LineFits(Indent(st, level) + t, depth) <==> level == if Shuts(t[0]) then depth - 1 else depth
  {
    IndentFits(st, level, t, depth);
    assert SpaceRun(t) == 0;
    assert (Indent(st, level) + t)[4 * level] == t[0];
    hide LinesFit;
  }

  lemma TextBegins(v: Value, st: Style, level: nat)
    ensures var t := Text(v, st, level); t != [] && !IsSpace(t[0]) && !Shuts(t[0])
  {
  }

  lemma NumbersAreInLine(v: Value)
    requires !v.Str? && !v.Arr? && !v.Obj?
    ensures IsInLine(Text(v, Style(true, {}), 0))
  {
  }

  lemma {:induction false} TextFits(v: Value, st: Style, level: nat, rest: seq<byte>)
    requires st.pretty
    ensures LinesFit(Text(v, st, level) + rest, level) <==> LinesFit(rest, level)
    decreases v, 0
  {
    match v {
      case Str(s) => StringFits(s, st, rest, level);
      case Arr(es) =>
        var tail := Indent(st, level) + ([RBRACKET] + rest);
        LineOf(st, level, [RBRACKET] + rest, level + 1);
        ElemsFit(es, st, level + 1, tail);
        BracketsFit(LBRACKET, RBRACKET, ElemsText(es, st, level + 1), st, level, rest);
      case Obj(ms) =>
        var tail := Indent(st, level) + ([RBRACE] + rest);
        LineOf(st, level, [RBRACE] + rest, level + 1);
        MembersFit(ms, st, level + 1, tail);
        BracketsFit(LBRACE, RBRACE, MembersText(ms, st, level + 1), st, level, rest);
      case _ =>
        NumbersAreInLine(v);
        InLineFits(Text(v, st, level), rest, level);
    }
  }

  /** Opening line, items, closing line. */
  lemma BracketsFit(open: byte, close: byte, body: seq<byte>, st: Style, level: nat, rest: seq<byte>)
    requires st.pretty && Opens(open) && Shuts(close)
    requires var tail := Indent(st, level) + ([close] + rest);
             LineFits(body + tail, level + 1) && (LinesFit(body + tail, level + 1) <==> LinesFit(tail, level + 1))
    ensures LinesFit([open] + NewLine(st) + body + Indent(st, level) + [close] + rest, level) <==> LinesFit(rest, level)
  {
    hide LinesFit, LineFits;
    var tail := Indent(st, level) + ([close] + rest);
    Assoc6([open], NewLine(st), body, Indent(st, level), [close], rest);
    OpenFits(open, NewLine(st) + (body + tail), level);
    assert Separator(true, st) == NewLine(st);
    EndFits(true, st, body + tail, level + 1);
    IndentFits(st, level, [close] + rest, level + 1);
    ShutFits(close, rest, level + 1);
  }

  /** One item and the others, their own texts already dealt with. */
  lemma ItemFits(item: seq<byte>, last: bool, st: Style, level: nat, others: seq<byte>, tail: seq<byte>)
    requires st.pretty && item != [] && !IsSpace(item[0]) && !Shuts(item[0])
    requires LineFits(others + tail, level) && (LinesFit(others + tail, level) <==> LinesFit(tail, level))
    requires var more := Separator(last, st) + (others + tail);
             LinesFit(item + more, level) <==> LinesFit(more, level)
    ensures var all := Indent(st, level) + item + Separator(last, st) + others + tail;
            LineFits(all, level) && (LinesFit(all, level) <==> LinesFit(tail, level))
  {
    hide LinesFit, LineFits, Separator;
    var more := Separator(last, st) + (others + tail);
    Assoc4(Indent(st, level) + item, Separator(last, st), others, tail);
    Assoc(Indent(st, level), item, more);
    IndentFits(st, level, item + more, level);
    EndFits(last, st, others + tail, level);
    LineOf(st, level, item + more, level);
  }

  lemma {:induction false} ElemsFit(es: seq<Value>, st: Style, level: nat, tail: seq<byte>)
    requires st.pretty && LineFits(tail, level)
    ensures var s := ElemsText(es, st, level) + tail;
            LineFits(s, level) && (LinesFit(s, level) <==> LinesFit(tail, level))
    decreases es, 1
  {
    hide LinesFit, LineFits, Separator, Indent;
    if es == [] {
      assert ElemsText(es, st, level) + tail == tail;
    } else {
      var last, others := |es| == 1, ElemsText(es[1..], st, level);
      ElemsFit(es[1..], st, level, tail);
      TextFits(es[0], st, level, Separator(last, st) + (others + tail));
      TextBegins(es[0], st, level);
      hide Text;
      ItemFits(Text(es[0], st, level), last, st, level, others, tail);
    }
  }

  lemma {:induction false} MembersFit(ms: seq<Member>, st: Style, level: nat, tail: seq<byte>)
    requires st.pretty && LineFits(tail, level)
    ensures var s := MembersText(ms, st, level) + tail;
            LineFits(s, level) && (LinesFit(s, level) <==> LinesFit(tail, level))
    decreases ms, 1
  {
    hide LinesFit, LineFits, Separator, Indent, PairText;
    if ms == [] {
      assert MembersText(ms, st, level) + tail == tail;
    } else {
      var last, others := |ms| == 1, MembersText(ms[1..], st, level);
      MembersFit(ms[1..], st, level, tail);
      PairFits(ms[0], st, level, Separator(last, st) + (others + tail));
      ItemFits(PairText(ms[0], st, level), last, st, level, others, tail);
    }
  }

  lemma {:induction false} PairFits(m: Member, st: Style, level: nat, rest: seq<byte>)
    requires st.pretty
    ensures var s := PairText(m, st, level);
            s != [] && s[0] == QUOTE && (LinesFit(s + rest, level) <==> LinesFit(rest, level))
    decreases m, 0
  {
    var value, colon := Text(m.value, st, level), [SPACE, COLON, SPACE];
    TextFits(m.value, st, level, rest);
    hide LinesFit, Text, StrText;
    InLineFits(colon, value + rest, level);
    StringFits(m.name, st, colon + (value + rest), level);
    PairSplits(m, st, level, rest);
  }

  lemma PairSplits(m: Member, st: Style, level: nat, rest: seq<byte>)
    requires st.pretty
    ensures var s := PairText(m, st, level);
            && s != [] && s[0] == QUOTE
            && s + rest == StrText(m.name, st) + ([SPACE, COLON, SPACE] + (Text(m.value, st, level) + rest))
  {
    hide Text, JsonEscape.Escape;
    var name, value := StrText(m.name, st), Text(m.value, st, level);
    Assoc6(name, [SPACE], [COLON], [SPACE], value, rest);
    assert [SPACE] + ([COLON] + ([SPACE] + (value + rest))) == [SPACE, COLON, SPACE] + (value + rest);
  }

  /** Every line of the pretty text of a value is indented by exactly four spaces for each bracket that is open. */
  lemma PrettyIsIndented(v: Value, printable: set<byte>)
    ensures LinesFit(Text(v, Style(true, printable), 0), 0)
  {
    var st := Style(true, printable);
    TextFits(v, st, 0, []);
    assert Text(v, st, 0) + [] == Text(v, st, 0);
  }
}
