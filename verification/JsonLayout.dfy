/** The pretty layout is the compact text with white space put between tokens, and nothing else. */
module JsonLayout {
  import opened Bytes
  import opened JsonValue
  import opened JsonWriter
  import opened JsonLex

  /** Erases white space outside string literals. */
  function Strip(s: seq<byte>): seq<byte>
    decreases |s|
  {
    if s == [] then []
    else if IsSpace(s[0]) then Strip(s[1..])
    else if LexString(s).Some? then s[..LexString(s).value] + Strip(s[LexString(s).value..])
    else [s[0]] + Strip(s[1..])
  }

  function Compact(st: Style): Style {
    Style(false, st.printable)
  }

  predicate IsPlain(w: seq<byte>) {
    forall i :: 0 <= i < |w| ==> !IsSpace(w[i]) && w[i] != QUOTE
  }

  lemma {:induction false} StripPlain(w: seq<byte>, rest: seq<byte>)
    requires IsPlain(w)
    ensures Strip(w + rest) == w + Strip(rest)
    decreases |w|
  {
    if w == [] {
      assert w + rest == rest;
    } else {
      assert (w + rest)[1..] == w[1..] + rest;
      StripPlain(w[1..], rest);
    }
  }

  lemma {:induction false} StripSpace(w: seq<byte>, rest: seq<byte>)
    requires AllSpace(w)
    ensures Strip(w + rest) == Strip(rest)
    decreases |w|
  {
    if w == [] {
      assert w + rest == rest;
    } else {
      assert (w + rest)[1..] == w[1..] + rest;
      StripSpace(w[1..], rest);
    }
  }

  lemma StripString(s: seq<byte>, st: Style, rest: seq<byte>)
    ensures Strip(StrText(s, st) + rest) == StrText(s, Compact(st)) + Strip(rest)
  {
    StringLexesBack(s, st, rest);
    SliceOver(StrText(s, st), rest);
  }

  lemma NumbersArePlain(v: Value)
    requires v.Int? || v.Real?
    ensures IsPlain(Text(v, Style(false, {}), 0))
  {
  }

  lemma StripSeparator(last: bool, st: Style, rest: seq<byte>)
    ensures Strip(Separator(last, st) + rest) == Separator(last, Compact(st)) + Strip(rest)
  {
    var comma := if last then [] else [COMMA];
    Assoc(comma, NewLine(st), rest);
    StripPlain(comma, NewLine(st) + rest);
    StripSpace(NewLine(st), rest);
    assert Separator(last, Compact(st)) == comma;
  }

  /** Opening line, items, closing line. */
  lemma StripBrackets(open: byte, close: byte, body: seq<byte>, bare: seq<byte>, st: Style, level: nat, rest: seq<byte>)
    requires IsPlain([open]) && IsPlain([close])
    requires Strip(body + (Indent(st, level) + ([close] + rest))) == bare + Strip(Indent(st, level) + ([close] + rest))
    ensures Strip([open] + NewLine(st) + body + Indent(st, level) + [close] + rest)
         == [open] + NewLine(Compact(st)) + bare + Indent(Compact(st), level) + [close] + Strip(rest)
  {
    var tail := Indent(st, level) + ([close] + rest);
    BracketsSplit(open, close, NewLine(st), body, Indent(st, level), rest);
    StripPlain([open], NewLine(st) + (body + tail));
    StripSpace(NewLine(st), body + tail);
    StripSpace(Indent(st, level), [close] + rest);
    StripPlain([close], rest);
    BracketsSplit(open, close, [], bare, [], Strip(rest));
  }

  lemma BracketsSplit(open: byte, close: byte, n: seq<byte>, body: seq<byte>, i: seq<byte>, rest: seq<byte>)
    ensures [open] + n + body + i + [close] + rest == [open] + (n + (body + (i + ([close] + rest))))
    ensures n == i == [] ==> [open] + n + body + i + [close] + rest == [open] + (body + ([close] + rest))
  {
    assert i + [close] + rest == i + ([close] + rest);
    if n == [] && i == [] {
      assert [open] + n == [open] && body + i == body;
    }
  }

  /** One item and the others, their own texts already dealt with. */
  lemma StripItem(indent: seq<byte>, item: seq<byte>, bare: seq<byte>, last: bool, st: Style,
                  others: seq<byte>, bareOthers: seq<byte>, rest: seq<byte>)
    requires AllSpace(indent)
    requires Strip(others + rest) == bareOthers + Strip(rest)
    requires Strip(item + (Separator(last, st) + (others + rest)))
        == bare + Strip(Separator(last, st) + (others + rest))
    ensures Strip(indent + item + Separator(last, st) + others + rest)
         == bare + Separator(last, Compact(st)) + bareOthers + Strip(rest)
  {
    StripSeparator(last, st, others + rest);
    StripSpace(indent, item + (Separator(last, st) + (others + rest)));
    Assoc4(indent + item, Separator(last, st), others, rest);
    Assoc(indent, item, Separator(last, st) + (others + rest));
    Assoc4(bare, Separator(last, Compact(st)), bareOthers, Strip(rest));
  }

  lemma {:induction false} StripText(v: Value, st: Style, level: nat, rest: seq<byte>)
    ensures Strip(Text(v, st, level) + rest) == Text(v, Compact(st), level) + Strip(rest)
    decreases v, 0
  {
    match v {
      case Str(s) => StripString(s, st, rest);
      case Arr(es) =>
        var tail := Indent(st, level) + ([RBRACKET] + rest);
        StripElems(es, st, level + 1, tail);
        StripBrackets(LBRACKET, RBRACKET, ElemsText(es, st, level + 1), ElemsText(es, Compact(st), level + 1), st,
            level, rest);
      case Obj(ms) =>
        var tail := Indent(st, level) + ([RBRACE] + rest);
        StripMembers(ms, st, level + 1, tail);
        StripBrackets(LBRACE, RBRACE, MembersText(ms, st, level + 1), MembersText(ms, Compact(st), level + 1), st,
            level, rest);
      case _ =>
        if v.Int? || v.Real? {
          NumbersArePlain(v);
        }
        StripPlain(Text(v, st, level), rest);
    }
  }

  lemma {:induction false} StripElems(es: seq<Value>, st: Style, level: nat, rest: seq<byte>)
    ensures Strip(ElemsText(es, st, level) + rest) == ElemsText(es, Compact(st), level) + Strip(rest)
    decreases es, 1
  {
    if es == [] {
      assert ElemsText(es, st, level) + rest == rest;
    } else {
      var last := |es| == 1;
      var others := ElemsText(es[1..], st, level);
      var more := Separator(last, st) + (others + rest);
      StripElems(es[1..], st, level, rest);
      StripText(es[0], st, level, more);
      StripItem(Indent(st, level), Text(es[0], st, level), Text(es[0], Compact(st), level), last, st,
                others, ElemsText(es[1..], Compact(st), level), rest);
      assert ElemsText(es, Compact(st), level)
          == Text(es[0], Compact(st), level) + Separator(last, Compact(st))
             + ElemsText(es[1..], Compact(st), level) by {
        assert [] + Text(es[0], Compact(st), level) == Text(es[0], Compact(st), level);
      }
    }
  }

  lemma {:induction false} StripMembers(ms: seq<Member>, st: Style, level: nat, rest: seq<byte>)
    ensures Strip(MembersText(ms, st, level) + rest) == MembersText(ms, Compact(st), level) + Strip(rest)
    decreases ms, 1
  {
    if ms == [] {
      assert MembersText(ms, st, level) + rest == rest;
    } else {
      var last := |ms| == 1;
      var others := MembersText(ms[1..], st, level);
      var more := Separator(last, st) + (others + rest);
      StripMembers(ms[1..], st, level, rest);
      StripPair(ms[0], st, level, more);
      StripItem(Indent(st, level), PairText(ms[0], st, level), PairText(ms[0], Compact(st), level), last, st,
                others, MembersText(ms[1..], Compact(st), level), rest);
      assert MembersText(ms, Compact(st), level)
          == PairText(ms[0], Compact(st), level) + Separator(last, Compact(st))
             + MembersText(ms[1..], Compact(st), level) by {
        assert [] + PairText(ms[0], Compact(st), level) == PairText(ms[0], Compact(st), level);
      }
    }
  }

  lemma {:induction false} StripPair(m: Member, st: Style, level: nat, rest: seq<byte>)
    ensures Strip(PairText(m, st, level) + rest) == PairText(m, Compact(st), level) + Strip(rest)
    decreases m, 0
  {
    var value := Text(m.value, st, level);
    StripText(m.value, st, level, rest);
    StripColon(m.name, st, value, Text(m.value, Compact(st), level), rest);
  }

  lemma StripColon(name: seq<byte>, st: Style, value: seq<byte>, bare: seq<byte>, rest: seq<byte>)
    requires Strip(value + rest) == bare + Strip(rest)
    ensures Strip(StrText(name, st) + Space(st) + [COLON] + Space(st) + value + rest)
         == StrText(name, Compact(st)) + Space(Compact(st)) + [COLON] + Space(Compact(st)) + bare + Strip(rest)
  {
    var tail := Space(st) + ([COLON] + (Space(st) + (value + rest)));
    StripSpacedColon(st, value + rest);
    StripString(name, st, tail);
    Assoc6(StrText(name, st), Space(st), [COLON], Space(st), value, rest);
    BareColon(StrText(name, Compact(st)), st, bare, Strip(rest));
  }

  lemma StripSpacedColon(st: Style, tail: seq<byte>)
    ensures Strip(Space(st) + ([COLON] + (Space(st) + tail))) == [COLON] + Strip(tail)
  {
    StripSpace(Space(st), [COLON] + (Space(st) + tail));
    StripPlain([COLON], Space(st) + tail);
    StripSpace(Space(st), tail);
  }

  lemma BareColon(name: seq<byte>, st: Style, bare: seq<byte>, rest: seq<byte>)
    ensures name + Space(Compact(st)) + [COLON] + Space(Compact(st)) + bare + rest == name + ([COLON] + (bare + rest))
  {
    Assoc6(name, [], [COLON], [], bare, rest);
  }

  /** For every value: erase the white space outside string literals, and the compact text is left. */
  lemma PrettyIsCompactPlusSpace(v: Value, printable: set<byte>)
    ensures Strip(Text(v, Style(true, printable), 0)) == Text(v, Style(false, printable), 0)
  {
    StripText(v, Style(true, printable), 0, []);
    assert Text(v, Style(true, printable), 0) + [] == Text(v, Style(true, printable), 0);
  }
}
