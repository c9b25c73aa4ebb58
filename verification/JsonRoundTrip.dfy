/** Printing and parsing again, for every value, either layout and any text that follows. */
module JsonRoundTrip {
  import opened Bytes
  import opened JsonValue
  import opened JsonWriter
  import opened JsonLex
  import opened JsonTree

  /** What text can carry of a value: reals to 8 decimals, and the uint64 flag from 2^63 on. */
  function Norm(v: Value): (n: Value)
    decreases v
  {
    match v
    case Int(i, u) => NormInt(i, u)
    case Real(r) => Real(OnGrid(r))
    case Arr(es) => Arr(seq(|es|, i requires 0 <= i < |es| => Norm(es[i])))
    case Obj(ms) => Obj(seq(|ms|, i requires 0 <= i < |ms| => Member(ms[i].name, Norm(ms[i].value))))
    case _ => v
  }

  function NormElems(es: seq<Value>): (r: seq<Value>)
    ensures |r| == |es|
  {
    seq(|es|, i requires 0 <= i < |es| => Norm(es[i]))
  }

  function NormMembers(ms: seq<Member>): (r: seq<Member>)
    ensures |r| == |ms|
  {
    seq(|ms|, i requires 0 <= i < |ms| => Member(ms[i].name, Norm(ms[i].value)))
  }

  // ---------------------------------------------------------------- the skipper and the first character

  /** What is left after a value: brackets and braces skip the white space behind them. */
  function After(v: Value, rest: seq<byte>): (r: seq<byte>)
    ensures Skip(r) == Skip(rest)
  {
    if v.Arr? || v.Obj? then Skip(rest) else rest
  }

  predicate StartsValue(c: byte) {
    c == QUOTE || c == LBRACKET || c == LBRACE || c == MINUS || IsDigit(c) || c == 110 || c == 116 || c == 102
  }

  lemma TextStart(v: Value, st: Style, level: nat)
    ensures var t := Text(v, st, level); t != [] && StartsValue(t[0])
  {
  }

  lemma ChAt(c: byte, s: seq<byte>, rest: seq<byte>)
    requires !IsSpace(c) && Skip(s) == [c] + rest
    ensures Ch(c, s) == Some(Skip(rest))
  {
    assert ([c] + rest)[1..] == rest;
  }

  lemma NotThere(c: byte, s: seq<byte>, d: byte, rest: seq<byte>)
    requires Skip(s) == [d] + rest && c != d
    ensures Ch(c, s).None?
  {
  }

  // ---------------------------------------------------------------- scalars

  lemma WordParses(w: seq<byte>, rest: seq<byte>)
    requires w in {NULL_WORD, TRUE_WORD, FALSE_WORD}
    ensures ValueRule(w + rest) == Hit(if w == NULL_WORD then Null else Bool(w == TRUE_WORD), rest)
  {
    var s := w + rest;
    assert Skip(s) == s;
    SliceOver(w, rest);
    assert LexString(s).None?;
    assert s[0] == w[0];
    assert Number(s).None?;
  }

  lemma NumberParses(t: seq<byte>, rest: seq<byte>)
    requires t != [] && (t[0] == MINUS || IsDigit(t[0]))
    requires Number(t + rest).Some?
    ensures ValueRule(t + rest) == Hit(Number(t + rest).value.0, Number(t + rest).value.1)
  {
    assert (t + rest)[0] == t[0];
    assert Skip(t + rest) == t + rest;
  }

  lemma ScalarParses(v: Value, st: Style, level: nat, rest: seq<byte>)
    requires !v.Arr? && !v.Obj? && (v.Int? || v.Real? ==> EndsNumber(rest))
    ensures ValueRule(Text(v, st, level) + rest) == Hit(Norm(v), rest)
  {
    match v {
      case Null => WordParses(NULL_WORD, rest);
      case Bool(b) => WordParses(if b then TRUE_WORD else FALSE_WORD, rest);
      case Int(i, u) =>
        IntLexesBack(i, u, rest);
        NumberParses(IntText(i, u), rest);
      case Real(r) =>
        RealLexesBack(r, rest);
        NumberParses(RealText(r), rest);
      case Str(x) => StringParses(x, st, rest);
    }
  }

  lemma StringParses(s: seq<byte>, st: Style, rest: seq<byte>)
    ensures ValueRule(StrText(s, st) + rest) == Hit(Str(s), rest)
  {
    StringLexesBack(s, st, rest);
    SliceOver(StrText(s, st), rest);
    assert Skip(StrText(s, st) + rest) == StrText(s, st) + rest;
  }

  // ---------------------------------------------------------------- the round trip

  /** Printing then parsing gives the normal form back, and stops right behind the printed text, whatever follows
      it, unless that would prolong a number. */
  lemma {:induction false} TextParses(v: Value, st: Style, level: nat, rest: seq<byte>)
    requires v.Int? || v.Real? ==> EndsNumber(rest)
    ensures ValueRule(Text(v, st, level) + rest) == Hit(Norm(v), After(v, rest))
    decreases v, 0
  {
    match v {
      case Arr(es) => ArrayParses(es, st, level, rest);
      case Obj(ms) => ObjectParses(ms, st, level, rest);
      case _ => ScalarParses(v, st, level, rest);
    }
  }

  /** The text from the closing bracket's line on. */
  function Tail(st: Style, level: nat, c: byte, rest: seq<byte>): seq<byte> {
    Indent(st, level) + ([c] + rest)
  }

  predicate Closes(c: byte) {
    c == RBRACKET || c == RBRACE
  }

  lemma TailSkips(st: Style, level: nat, c: byte, rest: seq<byte>)
    requires Closes(c)
    ensures Skip(Tail(st, level, c, rest)) == [c] + rest
    ensures Skip(NewLine(st) + Tail(st, level, c, rest)) == [c] + rest
    ensures EndsNumber(Separator(true, st) + Tail(st, level, c, rest))
  {
    SkipOver(Indent(st, level), [c] + rest);
    SkipOver(NewLine(st), Tail(st, level, c, rest));
    assert Separator(true, st) == NewLine(st);
  }

  lemma CommaSkips(st: Style, more: seq<byte>)
    ensures Skip(Separator(false, st) + more) == [COMMA] + (NewLine(st) + more)
    ensures Skip(NewLine(st) + more) == Skip(more)
    ensures EndsNumber(Separator(false, st) + more)
  {
    Assoc([COMMA], NewLine(st), more);
    SkipOver(NewLine(st), more);
  }

  lemma CommaParses(s: seq<byte>, st: Style, more: seq<byte>)
    requires Skip(s) == Skip(Separator(false, st) + more)
    ensures Ch(COMMA, s) == Some(Skip(more))
  {
    CommaSkips(st, more);
    ChAt(COMMA, s, NewLine(st) + more);
  }

  lemma EndsAnyway(last: bool, st: Style, level: nat, c: byte, rest: seq<byte>, more: seq<byte>)
    requires Closes(c)
    requires last ==> more == Tail(st, level, c, rest)
    ensures EndsNumber(Separator(last, st) + more)
  {
    if last {
      TailSkips(st, level, c, rest);
    } else {
      CommaSkips(st, more);
    }
  }

  // ---------------------------------------------------------------- arrays

  lemma {:induction false} FirstElem(e: Value, last: bool, st: Style, level: nat, s: seq<byte>, more: seq<byte>)
    requires Skip(s) == Skip(ElemText(e, last, st, level) + more)
    requires EndsNumber(Separator(last, st) + more)
    ensures ValueRule(s) == Hit(Norm(e), After(e, Separator(last, st) + more))
    decreases e, 1
  {
    var rest := Separator(last, st) + more;
    var text := Text(e, st, level);
    Assoc4(Indent(st, level), text, Separator(last, st), more);
    SkipOver(Indent(st, level), text + rest);
    TextStart(e, st, level);
    TextParses(e, st, level, rest);
    SkippedFirst(s, text + rest);
  }

  lemma SkippedFirst(s: seq<byte>, t: seq<byte>)
    requires Skip(s) == Skip(t)
    ensures ValueRule(s) == ValueRule(t)
  {
    hide Skip, LexString, GetStr, Number, Ch, Word, ObjectRest, ArrayRest;
  }

  lemma {:induction false} MoreElemsParse(
      es: seq<Value>, st: Style, level: nat, s: seq<byte>, outer: nat, c: byte, rest: seq<byte>)
    requires Closes(c)
    requires Skip(s) == Skip(Separator(es == [], st) + (ElemsText(es, st, level) + Tail(st, outer, c, rest)))
    ensures MoreValues(s).Hit? && MoreValues(s).value == NormElems(es)
    ensures Skip(MoreValues(s).rest) == [c] + rest
    decreases es, 0
  {
    var tail := Tail(st, outer, c, rest);
    if es == [] {
      TailSkips(st, outer, c, rest);
      assert ElemsText(es, st, level) + tail == tail;
      NotThere(COMMA, s, c, rest);
    } else {
      CommaParses(s, st, ElemsText(es, st, level) + tail);
      ElemsParse(es, st, level, Skip(ElemsText(es, st, level) + tail), outer, c, rest);
    }
  }

  /** A first element, then the others. */
  lemma {:induction false} ElemsParse(
      es: seq<Value>, st: Style, level: nat, s: seq<byte>, outer: nat, c: byte, rest: seq<byte>)
    requires Closes(c) && es != []
    requires Skip(s) == Skip(ElemsText(es, st, level) + Tail(st, outer, c, rest))
    ensures ValueRule(s).Hit? && ValueRule(s).value == Norm(es[0])
    ensures var m := MoreValues(ValueRule(s).rest);
            m.Hit? && [Norm(es[0])] + m.value == NormElems(es) && Skip(m.rest) == [c] + rest
    decreases es, 0, 0
  {
    hide ValueRule, MoreValues, Norm, ElemText, Separator, Tail, Skip, EndsNumber;
    var tail := Tail(st, outer, c, rest);
    var last := |es| == 1;
    var more := ElemsText(es[1..], st, level) + tail;
    Assoc(ElemText(es[0], last, st, level), ElemsText(es[1..], st, level), tail);
    if last {
      assert more == tail;
    }
    EndsAnyway(last, st, outer, c, rest, more);
    FirstElem(es[0], last, st, level, s, more);
    MoreElemsParse(es[1..], st, level, ValueRule(s).rest, outer, c, rest);
    assert [Norm(es[0])] + NormElems(es[1..]) == NormElems(es);
  }

  lemma NoValueAtClose(s: seq<byte>, c: byte, rest: seq<byte>)
    requires Closes(c) && Skip(s) == [c] + rest
    ensures ValueRule(s).Miss?
  {
  }

  lemma OpensArray(s: seq<byte>, rest: seq<byte>)
    requires s == [LBRACKET] + rest
    ensures ValueRule(s) == ArrayRest(Skip(rest))
  {
    assert Skip(s) == s;
    ChAt(LBRACKET, s, rest);
  }

  lemma ArrayTextSplits(es: seq<Value>, st: Style, level: nat, rest: seq<byte>)
    ensures Text(Arr(es), st, level) + rest
        == [LBRACKET] + (NewLine(st) + (ElemsText(es, st, level + 1) + Tail(st, level, RBRACKET, rest)))
  {
    Assoc6([LBRACKET], NewLine(st), ElemsText(es, st, level + 1), Indent(st, level), [RBRACKET], rest);
    hide Indent, NewLine, ElemsText, MembersText;
  }

  lemma NoElems(st: Style, level: nat)
    ensures ElemsText([], st, level) == []
  {
  }

  lemma NormOfArray(es: seq<Value>)
    ensures Norm(Arr(es)) == Arr(NormElems(es))
  {
  }

  lemma {:induction false} ArrayParses(es: seq<Value>, st: Style, level: nat, rest: seq<byte>)
    ensures ValueRule(Text(Arr(es), st, level) + rest) == Hit(Norm(Arr(es)), Skip(rest))
    decreases es, 1
  {
    var body, tail := ElemsText(es, st, level + 1), Tail(st, level, RBRACKET, rest);
    var s := Text(Arr(es), st, level) + rest;
    ArrayTextSplits(es, st, level, rest);
    hide Text, Indent, Tail, Norm, Skip, Ch, ValueRule, ElemsText;
    OpensArray(s, NewLine(st) + (body + tail));
    SkipOver(NewLine(st), body + tail);
    var u := Skip(body + tail);
    TailSkips(st, level, RBRACKET, rest);
    if es == [] {
      assert body + tail == tail by {
        NoElems(st, level + 1);
      }
      NoValueAtClose(u, RBRACKET, rest);
    } else {
      ElemsParse(es, st, level + 1, u, level, RBRACKET, rest);
    }
    NormOfArray(es);
    ChAt(RBRACKET, Elements(u).rest, rest);
  }

  // ---------------------------------------------------------------- objects

  lemma NameParses(name: seq<byte>, st: Style, s: seq<byte>, value: seq<byte>)
    requires value != [] && StartsValue(value[0])
    requires Skip(s) == StrText(name, st) + (Space(st) + ([COLON] + (Space(st) + value)))
    requires ValueRule(value).Hit?
    ensures PairRule(s) == Hit(Member(name, ValueRule(value).value), ValueRule(value).rest)
  {
    var colon := Space(st) + ([COLON] + (Space(st) + value));
    StringLexesBack(name, st, colon);
    SliceOver(StrText(name, st), colon);
    SkipOver(Space(st), [COLON] + (Space(st) + value));
    ChAt(COLON, colon, Space(st) + value);
    SkipOver(Space(st), value);
  }

  lemma MemberTextSplits(m: Member, last: bool, st: Style, level: nat, more: seq<byte>)
    ensures MemberText(m, last, st, level) + more
         == Indent(st, level) + (StrText(m.name, st) + (Space(st) + ([COLON]
              + (Space(st) + (Text(m.value, st, level) + (Separator(last, st) + more))))))
  {
    var after := Separator(last, st) + more;
    Assoc4(Indent(st, level), PairText(m, st, level), Separator(last, st), more);
    Assoc6(StrText(m.name, st), Space(st), [COLON], Space(st), Text(m.value, st, level), after);
    hide Indent, StrText, Space, Text, Separator;
  }

  lemma {:induction false} FirstMember(m: Member, last: bool, st: Style, level: nat, s: seq<byte>, more: seq<byte>)
    requires Skip(s) == Skip(MemberText(m, last, st, level) + more)
    requires EndsNumber(Separator(last, st) + more)
    ensures PairRule(s) == Hit(Member(m.name, Norm(m.value)), After(m.value, Separator(last, st) + more))
    decreases m, 1
  {
    var rest := Separator(last, st) + more;
    var value := Text(m.value, st, level) + rest;
    var pair := StrText(m.name, st) + (Space(st) + ([COLON] + (Space(st) + value)));
    MemberTextSplits(m, last, st, level, more);
    SkipOver(Indent(st, level), pair);
    assert Skip(pair) == pair;
    TextStart(m.value, st, level);
    TextParses(m.value, st, level, rest);
    NameParses(m.name, st, s, value);
  }

  lemma {:induction false} MoreMembersParse(
      ms: seq<Member>, st: Style, level: nat, s: seq<byte>, outer: nat, c: byte, rest: seq<byte>)
    requires Closes(c)
    requires Skip(s) == Skip(Separator(ms == [], st) + (MembersText(ms, st, level) + Tail(st, outer, c, rest)))
    ensures MorePairs(s).Hit? && MorePairs(s).value == NormMembers(ms)
    ensures Skip(MorePairs(s).rest) == [c] + rest
    decreases ms, 0
  {
    var tail := Tail(st, outer, c, rest);
    if ms == [] {
      TailSkips(st, outer, c, rest);
      assert MembersText(ms, st, level) + tail == tail;
      NotThere(COMMA, s, c, rest);
    } else {
      CommaParses(s, st, MembersText(ms, st, level) + tail);
      MembersParse(ms, st, level, Skip(MembersText(ms, st, level) + tail), outer, c, rest);
    }
  }

  function NormMember(m: Member): Member {
    Member(m.name, Norm(m.value))
  }

  /** A first member, then the others. */
  lemma {:induction false} MembersParse(
      ms: seq<Member>, st: Style, level: nat, s: seq<byte>, outer: nat, c: byte, rest: seq<byte>)
    requires Closes(c) && ms != []
    requires Skip(s) == Skip(MembersText(ms, st, level) + Tail(st, outer, c, rest))
    ensures PairRule(s).Hit? && PairRule(s).value == NormMember(ms[0])
    ensures var m := MorePairs(PairRule(s).rest);
            m.Hit? && [NormMember(ms[0])] + m.value == NormMembers(ms) && Skip(m.rest) == [c] + rest
    decreases ms, 0, 0
  {
    hide PairRule, MorePairs, Norm, MemberText, Separator, Tail, Skip, EndsNumber;
    var tail := Tail(st, outer, c, rest);
    var last := |ms| == 1;
    var more := MembersText(ms[1..], st, level) + tail;
    Assoc(MemberText(ms[0], last, st, level), MembersText(ms[1..], st, level), tail);
    if last {
      assert more == tail;
    }
    EndsAnyway(last, st, outer, c, rest, more);
    FirstMember(ms[0], last, st, level, s, more);
    MoreMembersParse(ms[1..], st, level, PairRule(s).rest, outer, c, rest);
    assert [NormMember(ms[0])] + NormMembers(ms[1..]) == NormMembers(ms);
  }

  lemma NoPairAtClose(s: seq<byte>, c: byte, rest: seq<byte>)
    requires Closes(c) && Skip(s) == [c] + rest
    ensures PairRule(s).Miss?
  {
  }

  lemma OpensObject(s: seq<byte>, rest: seq<byte>)
    requires s == [LBRACE] + rest
    ensures ValueRule(s) == ObjectRest(Skip(rest))
  {
    assert Skip(s) == s;
    ChAt(LBRACE, s, rest);
  }

  lemma ObjectTextSplits(ms: seq<Member>, st: Style, level: nat, rest: seq<byte>)
    ensures Text(Obj(ms), st, level) + rest
        == [LBRACE] + (NewLine(st) + (MembersText(ms, st, level + 1) + Tail(st, level, RBRACE, rest)))
  {
    Assoc6([LBRACE], NewLine(st), MembersText(ms, st, level + 1), Indent(st, level), [RBRACE], rest);
    hide Indent, NewLine, ElemsText, MembersText;
  }

  lemma NoMembers(st: Style, level: nat)
    ensures MembersText([], st, level) == []
  {
  }

  lemma NormOfObject(ms: seq<Member>)
    ensures Norm(Obj(ms)) == Obj(NormMembers(ms))
  {
  }

  lemma {:induction false} ObjectParses(ms: seq<Member>, st: Style, level: nat, rest: seq<byte>)
    ensures ValueRule(Text(Obj(ms), st, level) + rest) == Hit(Norm(Obj(ms)), Skip(rest))
    decreases ms, 1
  {
    var body, tail := MembersText(ms, st, level + 1), Tail(st, level, RBRACE, rest);
    var s := Text(Obj(ms), st, level) + rest;
    ObjectTextSplits(ms, st, level, rest);
    hide Text, Indent, Tail, Norm, Skip, Ch, PairRule, MembersText;
    OpensObject(s, NewLine(st) + (body + tail));
    SkipOver(NewLine(st), body + tail);
    var u := Skip(body + tail);
    TailSkips(st, level, RBRACE, rest);
    if ms == [] {
      assert body + tail == tail by {
        NoMembers(st, level + 1);
      }
      NoPairAtClose(u, RBRACE, rest);
    } else {
      MembersParse(ms, st, level + 1, u, level, RBRACE, rest);
    }
    NormOfObject(ms);
    ChAt(RBRACE, Members(u).rest, rest);
  }

  // ---------------------------------------------------------------- what the round trip keeps

  /** Every real in the value is a multiple of 10^-8. */
  ghost predicate AllOnGrid(v: Value)
    decreases v
  {
    match v
    case Real(r) => IsOnGrid(r)
    case Arr(es) => forall i :: 0 <= i < |es| ==> AllOnGrid(es[i])
    case Obj(ms) => forall i :: 0 <= i < |ms| ==> AllOnGrid(ms[i].value)
    case _ => true
  }

  /** Text loses nothing that `operator==` sees exactly when the reals are on the grid. */
  lemma {:induction false} NormKeepsIff(v: Value)
    ensures Eq(v, Norm(v)) <==> AllOnGrid(v)
    decreases v
  {
    match v {
      case Real(r) => GridIsKept(r);
      case Arr(es) =>
        forall i | 0 <= i < |es| ensures Eq(es[i], Norm(es[i])) <==> AllOnGrid(es[i]) {
          NormKeepsIff(es[i]);
        }
      case Obj(ms) =>
        forall i | 0 <= i < |ms| ensures Eq(ms[i].value, Norm(ms[i].value)) <==> AllOnGrid(ms[i].value) {
          NormKeepsIff(ms[i].value);
        }
      case _ =>
    }
  }

  /** The round trip of `read_string` after `write_string`. */
  lemma RoundTrip(v: Value, st: Style)
    ensures var p := Json(Text(v, st, 0));
            && p.Hit? && p.value == Norm(v) && p.rest == []
            && (Eq(v, p.value) <==> AllOnGrid(v))
  {
    TextParses(v, st, 0, []);
    assert Text(v, st, 0) + [] == Text(v, st, 0);
    NormKeepsIff(v);
  }

  /** One trip is enough: what text can carry, it carries again. */
  lemma {:induction false} NormIsStable(v: Value)
    ensures Norm(Norm(v)) == Norm(v)
    decreases v
  {
    match v {
      case Real(r) =>
        GridIsNearest(r);
        GridIsKept(OnGrid(r));
      case Arr(es) =>
        forall i | 0 <= i < |es| ensures Norm(Norm(es[i])) == Norm(es[i]) {
          NormIsStable(es[i]);
        }
        assert Norm(Norm(v)).elems == Norm(v).elems;
      case Obj(ms) =>
        forall i | 0 <= i < |ms| ensures Norm(Norm(ms[i].value)) == Norm(ms[i].value) {
          NormIsStable(ms[i].value);
        }
        assert Norm(Norm(v)).members == Norm(v).members;
      case _ =>
    }
  }

  /** What has been read once is printed and read back as it is, flags included, in any layout. */
  lemma SecondTrip(v: Value, st: Style, su: Style)
    ensures var p := Json(Text(v, st, 0)); p.Hit? && Json(Text(p.value, su, 0)) == Hit(p.value, [])
  {
    RoundTrip(v, st);
    RoundTrip(Norm(v), su);
    NormIsStable(v);
    hide Json, Text, Norm;
  }

  /** Two values with the same text, in any two layouts, have the same normal form: the text is unambiguous. */
  lemma TextDeterminesValue(v: Value, w: Value, st: Style, su: Style)
    requires Text(v, st, 0) == Text(w, su, 0)
    ensures Norm(v) == Norm(w)
  {
    RoundTrip(v, st);
    RoundTrip(w, su);
  }

  /** A uint64 comes back with its bits: as a flagged value from 2^63 on, as a plain int below, and then
      the typed getters answer the same. */
  lemma Uint64Fidelity(u: uint64, st: Style)
    ensures var p := Json(Text(FromUint64(u), st, 0));
            && p.Hit? && p.rest == []
            && p.value == Int(ToInt64(u), u >= TWO63)
            && GetUint64(p.value) == Some(u)
            && GetReal(p.value) == GetReal(FromUint64(u)) == Some(u as real)
            && Eq(p.value, FromUint64(u))
  {
    RoundTrip(FromUint64(u), st);
  }
}
