/** The JSON text generator, compact and pretty. */
module JsonWriter {
  import opened Bytes
  import opened JsonValue
  import opened JsonEscape

  const NULL_WORD: seq<byte> := [110, 117, 108, 108]
  const TRUE_WORD: seq<byte> := [116, 114, 117, 101]
  const FALSE_WORD: seq<byte> := [102, 97, 108, 115, 101]

  datatype Style = Style(pretty: bool, printable: set<byte>)

  // ---------------------------------------------------------------- what is printed

  /** `std::fixed << std::setprecision(8)`: how many units of 10^-8 are printed for a non-negative number. */
  function Units(r: real): (n: nat)
    requires r >= 0.0
  {
    (r * 100000000.0 + 0.5).Floor
  }

  function Abs(r: real): real {
    if r < 0.0 then -r else r
  }

  function RealText(r: real): seq<byte> {
    var n := Units(Abs(r));
    (if r < 0.0 then [MINUS] else []) + Digits(n / 100000000) + [DOT] + Padded(n % 100000000, 8)
  }

  function IntText(stored: int64, isUint64: bool): seq<byte> {
    if isUint64 then Digits(ToUint64(stored)) else Decimal(stored)
  }

  function StrText(s: seq<byte>, st: Style): seq<byte> {
    [QUOTE] + Escape(s, st.printable) + [QUOTE]
  }

  function NewLine(st: Style): (r: seq<byte>)
    ensures AllSpace(r)
  {
    if st.pretty then [LF] else []
  }

  function Space(st: Style): (r: seq<byte>)
    ensures AllSpace(r)
  {
    if st.pretty then [SPACE] else []
  }

  function Indent(st: Style, level: nat): (r: seq<byte>)
    ensures AllSpace(r)
    ensures !st.pretty ==> r == []
  {
    if !st.pretty || level == 0 then [] else Indent(st, level - 1) + [SPACE, SPACE, SPACE, SPACE]
  }

  function Text(v: Value, st: Style, level: nat): seq<byte>
    decreases v, 0
  {
    match v
    case Null => NULL_WORD
    case Bool(b) => if b then TRUE_WORD else FALSE_WORD
    case Int(i, u) => IntText(i, u)
    case Real(r) => RealText(r)
    case Str(s) => StrText(s, st)
    case Arr(es) => [LBRACKET] + NewLine(st) + ElemsText(es, st, level + 1) + Indent(st, level) + [RBRACKET]
    case Obj(ms) => [LBRACE] + NewLine(st) + MembersText(ms, st, level + 1) + Indent(st, level) + [RBRACE]
  }

  /** Between two items a comma, after each item a line end. */
  function Separator(last: bool, st: Style): seq<byte> {
    (if last then [] else [COMMA]) + NewLine(st)
  }

  function ElemText(e: Value, last: bool, st: Style, level: nat): seq<byte>
    decreases e, 1
  {
    Indent(st, level) + Text(e, st, level) + Separator(last, st)
  }

  function ElemsText(es: seq<Value>, st: Style, level: nat): seq<byte>
    decreases es
  {
    if es == [] then [] else ElemText(es[0], |es| == 1, st, level) + ElemsText(es[1..], st, level)
  }

  function PairText(m: Member, st: Style, level: nat): seq<byte>
    decreases m, 0
  {
    StrText(m.name, st) + Space(st) + [COLON] + Space(st) + Text(m.value, st, level)
  }

  function MemberText(m: Member, last: bool, st: Style, level: nat): seq<byte>
    decreases m, 1
  {
    Indent(st, level) + PairText(m, st, level) + Separator(last, st)
  }

  function MembersText(ms: seq<Member>, st: Style, level: nat): seq<byte>
    decreases ms
  {
    if ms == [] then [] else MemberText(ms[0], |ms| == 1, st, level) + MembersText(ms[1..], st, level)
  }

  // ---------------------------------------------------------------- how it is printed

  class Generator {
    const pretty: bool
    const printable: set<byte>
    var os: seq<byte>
    var indentationLevel: int

    function Current(): Style {
      Style(pretty, printable)
    }

    /** The constructor prints the value. */
    constructor (value: Value, pretty: bool, printable: set<byte>)
      ensures os == Text(value, Style(pretty, printable), 0)
      ensures indentationLevel == 0
    {
      this.pretty := pretty;
      this.printable := printable;
      os := [];
      indentationLevel := 0;
      new;
      Output(value);
    }

    method Put(text: seq<byte>)
      modifies this`os
      ensures os == old(os) + text
    {
      os := os + text;
    }

    method PutNewLine()
      modifies this`os
      ensures os == old(os) + NewLine(Current())
    {
      if pretty {
        os := os + [LF];
      }
    }

    method PutSpace()
      modifies this`os
      ensures os == old(os) + Space(Current())
    {
      if pretty {
        os := os + [SPACE];
      }
    }

    method PutSeparator(last: bool)
      modifies this`os
      ensures os == old(os) + Separator(last, Current())
    {
      if !last {
        os := os + [COMMA];
      }
      PutNewLine();
    }

    method PutIndent()
      requires indentationLevel >= 0
      modifies this`os
      ensures os == old(os) + Indent(Current(), indentationLevel)
    {
      if !pretty {
        return;
      }
      var i := 0;
      while i < indentationLevel
        invariant 0 <= i <= indentationLevel
        invariant os == old(os) + Indent(Current(), i)
      {
        os := os + [SPACE, SPACE, SPACE, SPACE];
        i := i + 1;
      }
    }

    method OutputString(s: seq<byte>)
      modifies this`os
      ensures os == old(os) + StrText(s, Current())
    {
      var escaped := AddEscChars(s, printable);
      os := os + [QUOTE] + escaped + [QUOTE];
    }

    /** Every output appends its text, and leaves the indentation level where it found it. */
    method Output(value: Value)
      requires indentationLevel >= 0
      modifies this`os, this`indentationLevel
      ensures os == old(os) + Text(value, Current(), old(indentationLevel))
      ensures indentationLevel == old(indentationLevel)
      decreases value, 1
    {
      match value
      case Null => Put(NULL_WORD);
      case Bool(b) => Put(if b then TRUE_WORD else FALSE_WORD);
      case Int(i, u) => Put(IntText(i, u));
      case Real(r) => Put(RealText(r));
      case Str(s) => OutputString(s);
      case Arr(es) => OutputArray(es);
      case Obj(ms) => OutputObject(ms);
    }

    /** One turn of the loop over an array. */
    method OutputElem(e: Value, last: bool)
      requires indentationLevel >= 0
      modifies this`os, this`indentationLevel
      ensures os == old(os) + ElemText(e, last, Current(), old(indentationLevel))
      ensures indentationLevel == old(indentationLevel)
      decreases e, 2
    {
      ghost var st, level := Current(), indentationLevel;
      Assoc3(os, Indent(st, level), Text(e, st, level), Separator(last, st));
      PutIndent();
      Output(e);
      PutSeparator(last);
    }

    /** The loop between the brackets. */
    method OutputElems(es: seq<Value>)
      requires indentationLevel >= 0
      modifies this`os, this`indentationLevel
      ensures os == old(os) + ElemsText(es, Current(), old(indentationLevel))
      ensures indentationLevel == old(indentationLevel)
      decreases es, 0
    {
      ghost var st, level, start := Current(), indentationLevel, os;
      var i := 0;
      while i < |es|
        invariant 0 <= i <= |es|
        invariant indentationLevel == level
        invariant os + ElemsText(es[i..], st, level) == start + ElemsText(es, st, level)
      {
        assert es[i..][1..] == es[i + 1..];
        Assoc(os, ElemText(es[i], i + 1 == |es|, st, level), ElemsText(es[i + 1..], st, level));
        OutputElem(es[i], i + 1 == |es|);
        i := i + 1;
      }
    }

    method OutputArray(es: seq<Value>)
      requires indentationLevel >= 0
      modifies this`os, this`indentationLevel
      ensures os == old(os) + Text(Arr(es), Current(), old(indentationLevel))
      ensures indentationLevel == old(indentationLevel)
      decreases es, 1
    {
      ghost var st, level := Current(), indentationLevel;
      Assoc5(os, [LBRACKET], NewLine(st), ElemsText(es, st, level + 1), Indent(st, level), [RBRACKET]);
      Put([LBRACKET]);
      PutNewLine();
      indentationLevel := indentationLevel + 1;
      OutputElems(es);
      indentationLevel := indentationLevel - 1;
      PutIndent();
      Put([RBRACKET]);
    }

    /** A name and its value. */
    method OutputPair(m: Member)
      requires indentationLevel >= 0
      modifies this`os, this`indentationLevel
      ensures os == old(os) + PairText(m, Current(), old(indentationLevel))
      ensures indentationLevel == old(indentationLevel)
      decreases m, 0
    {
      ghost var st := Current();
      Assoc5(os, StrText(m.name, st), Space(st), [COLON], Space(st), Text(m.value, st, indentationLevel));
      OutputString(m.name);
      PutSpace();
      Put([COLON]);
      PutSpace();
      Output(m.value);
    }

    /** One turn of the loop over an object. */
    method OutputMember(m: Member, last: bool)
      requires indentationLevel >= 0
      modifies this`os, this`indentationLevel
      ensures os == old(os) + MemberText(m, last, Current(), old(indentationLevel))
      ensures indentationLevel == old(indentationLevel)
      decreases m, 2
    {
      ghost var st, level := Current(), indentationLevel;
      Assoc3(os, Indent(st, level), PairText(m, st, level), Separator(last, st));
      PutIndent();
      OutputPair(m);
      PutSeparator(last);
    }

    /** The loop between the brackets. */
    method OutputMembers(ms: seq<Member>)
      requires indentationLevel >= 0
      modifies this`os, this`indentationLevel
      ensures os == old(os) + MembersText(ms, Current(), old(indentationLevel))
      ensures indentationLevel == old(indentationLevel)
      decreases ms, 0
    {
      ghost var st, level, start := Current(), indentationLevel, os;
      var i := 0;
      while i < |ms|
        invariant 0 <= i <= |ms|
        invariant indentationLevel == level
        invariant os + MembersText(ms[i..], st, level) == start + MembersText(ms, st, level)
      {
        assert ms[i..][1..] == ms[i + 1..];
        Assoc(os, MemberText(ms[i], i + 1 == |ms|, st, level), MembersText(ms[i + 1..], st, level));
        OutputMember(ms[i], i + 1 == |ms|);
        i := i + 1;
      }
    }

    method OutputObject(ms: seq<Member>)
      requires indentationLevel >= 0
      modifies this`os, this`indentationLevel
      ensures os == old(os) + Text(Obj(ms), Current(), old(indentationLevel))
      ensures indentationLevel == old(indentationLevel)
      decreases ms, 1
    {
      ghost var st, level := Current(), indentationLevel;
      Assoc5(os, [LBRACE], NewLine(st), MembersText(ms, st, level + 1), Indent(st, level), [RBRACE]);
      Put([LBRACE]);
      PutNewLine();
      indentationLevel := indentationLevel + 1;
      OutputMembers(ms);
      indentationLevel := indentationLevel - 1;
      PutIndent();
      Put([RBRACE]);
    }
  }

  method WriteString(value: Value, pretty: bool, printable: set<byte>) returns (text: seq<byte>)
    ensures text == Text(value, Style(pretty, printable), 0)
  {
    var generator := new Generator(value, pretty, printable);
    return generator.os;
  }
}
