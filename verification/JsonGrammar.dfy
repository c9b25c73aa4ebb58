/** The grammar as the combinators run it: ordered choice with backtracking over the input, but not over
    the actions, which fire as soon as their parser matches. The fired actions are kept in a log. */
module JsonGrammar {
  import opened Bytes
  import opened JsonValue
  import opened JsonWriter
  import opened JsonLex
  import opened JsonTree
  import opened JsonBuilder
  import opened JsonActions

  /** The outcome of a rule, with everything fired since the parse began. */
  datatype Fired =
    | Matched(rest: seq<byte>, log: seq<Action>)
    | NoMatch(log: seq<Action>)
    | Threw(reason: Reason, at: seq<byte>, log: seq<Action>)

  /** `string_[ action ]`, the action given the decoded literal. */
  function StringFires(s: seq<byte>, log: seq<Action>, name: bool): (f: Fired)
    ensures f.Matched? ==> |f.rest| < |s|
  {
    var t := Skip(s);
    match LexString(t)
    case None => NoMatch(log)
    case Some(n) =>
      var text := GetStr(t[..n]);
      Matched(t[n..], log + [if name then NewName(text) else NewStr(text)])
  }

  function NumberFires(s: seq<byte>, log: seq<Action>): (f: Fired)
    ensures f.Matched? ==> |f.rest| < |s|
  {
    var t := Skip(s);
    match StrictReal(t)
    case Some(r) => Matched(r.1, log + [NewReal(r.0)])
    case None =>
      match Int64(t)
      case Some(r) => Matched(r.1, log + [NewInt(r.0)])
      case None =>
        match Uint64(t)
        case Some(r) => Matched(r.1, log + [NewUint64(r.0)])
        case None => NoMatch(log)
  }

  function WordFires(w: seq<byte>, a: Action, s: seq<byte>, log: seq<Action>): (f: Fired)
    requires w != []
    ensures f.Matched? ==> |f.rest| < |s|
  {
    match Word(w, s)
    case Some(r) => Matched(r, log + [a])
    case None => NoMatch(log)
  }

  /** `value_`: each alternative starts again from `s`, with whatever the failed ones have fired. */
  function ValueFires(s: seq<byte>, log: seq<Action>): (f: Fired)
    ensures f.Matched? ==> |f.rest| < |s|
    decreases |s|, 5
  {
    var a := StringFires(s, log, false);
    if !a.NoMatch? then a else
    var b := NumberFires(s, a.log);
    if !b.NoMatch? then b else
    var c := ObjectFires(s, b.log);
    if !c.NoMatch? then c else
    var d := ArrayFires(s, c.log);
    if !d.NoMatch? then d else
    var e := WordFires(TRUE_WORD, NewTrue, s, d.log);
    if !e.NoMatch? then e else
    var f := WordFires(FALSE_WORD, NewFalse, s, e.log);
    if !f.NoMatch? then f else
    WordFires(NULL_WORD, NewNull, s, f.log)
  }

  /** `object_`: after the brace nothing can fail quietly any more. */
  function ObjectFires(s: seq<byte>, log: seq<Action>): (f: Fired)
    ensures f.Matched? ==> |f.rest| < |s|
    decreases |s|, 4
  {
    match Ch(LBRACE, s)
    case None => NoMatch(log)
    case Some(r) =>
      var m := MembersFire(r, log + [BeginObj]);
      if m.Threw? then m else
      var at := if m.Matched? then m.rest else r;
      match Ch(RBRACE, at)
      case Some(r') => Matched(r', m.log + [EndObj])
      case None => Threw(NotAnObject, Skip(at), m.log)
  }

  function MembersFire(s: seq<byte>, log: seq<Action>): (f: Fired)
    ensures f.Matched? ==> |f.rest| <= |s|
    decreases |s|, 7
  {
    var p := PairFires(s, log);
    if p.Matched? then MorePairsFire(p.rest, p.log) else p
  }

  function MorePairsFire(s: seq<byte>, log: seq<Action>): (f: Fired)
    ensures !f.NoMatch?
    ensures f.Matched? ==> |f.rest| <= |s|
    decreases |s|, 7
  {
    match Ch(COMMA, s)
    case None => Matched(s, log)
    case Some(r) =>
      var p := PairFires(r, log);
      match p
      case NoMatch(log') => Matched(s, log')
      case Threw(_, _, _) => p
      case Matched(r', log') => MorePairsFire(r', log')
  }

  function PairFires(s: seq<byte>, log: seq<Action>): (f: Fired)
    ensures f.Matched? ==> |f.rest| < |s|
    decreases |s|, 6
  {
    var n := StringFires(s, log, true);
    if !n.Matched? then n else
    match Ch(COLON, n.rest)
    case None => Threw(NoColon, Skip(n.rest), n.log)
    case Some(r) =>
      var v := ValueFires(r, n.log);
      if v.NoMatch? then Threw(NotAValue, Skip(r), v.log) else v
  }

  function ArrayFires(s: seq<byte>, log: seq<Action>): (f: Fired)
    ensures f.Matched? ==> |f.rest| < |s|
    decreases |s|, 4
  {
    match Ch(LBRACKET, s)
    case None => NoMatch(log)
    case Some(r) =>
      var m := ElementsFire(r, log + [BeginArray]);
      if m.Threw? then m else
      var at := if m.Matched? then m.rest else r;
      match Ch(RBRACKET, at)
      case Some(r') => Matched(r', m.log + [EndArray])
      case None => Threw(NotAnArray, Skip(at), m.log)
  }

  function ElementsFire(s: seq<byte>, log: seq<Action>): (f: Fired)
    ensures f.Matched? ==> |f.rest| <= |s|
    decreases |s|, 7
  {
    var v := ValueFires(s, log);
    if v.Matched? then MoreValuesFire(v.rest, v.log) else v
  }

  function MoreValuesFire(s: seq<byte>, log: seq<Action>): (f: Fired)
    ensures !f.NoMatch?
    ensures f.Matched? ==> |f.rest| <= |s|
    decreases |s|, 7
  {
    match Ch(COMMA, s)
    case None => Matched(s, log)
    case Some(r) =>
      var v := ValueFires(r, log);
      match v
      case NoMatch(log') => Matched(s, log')
      case Threw(_, _, _) => v
      case Matched(r', log') => MoreValuesFire(r', log')
  }

  /** `json_`: a value, or the empty parser whose action throws. */
  function JsonFires(s: seq<byte>): Fired {
    var v := ValueFires(s, []);
    if v.NoMatch? then Threw(NotAValue, Skip(s), v.log) else v
  }

  // ---------------------------------------------------------------- refinement

  /** The firing rule does what the plain rule does, and has fired `events` on top of `log`: all of them on
      a match, none on a quiet failure, a prefix of them when it throws. */
  predicate Refines<T>(p: Parsed<T>, f: Fired, log: seq<Action>, events: seq<Action>) {
    match p
    case Hit(_, rest) => f == Matched(rest, log + events)
    case Miss => f == NoMatch(log)
    case Thrown(why, at) => f.Threw? && f.reason == why && f.at == at && log <= f.log <= log + events
  }

  predicate SameOutcome<T, U>(p: Parsed<T>, q: Parsed<U>) {
    match p
    case Hit(_, rest) => q.Hit? && q.rest == rest
    case Miss => q.Miss?
    case Thrown(why, at) => q.Thrown? && q.reason == why && q.at == at
  }

  /** After `first` has been fired, the rest of a sequence. */
  lemma RefinesAfter<T, U>(p: Parsed<T>, q: Parsed<U>, f: Fired, log: seq<Action>, first: seq<Action>,
      others: seq<Action>)
    requires SameOutcome(p, q) && !p.Miss? && Refines(p, f, log + first, others)
    ensures Refines(q, f, log, first + others)
  {
    assert log + first + others == log + (first + others);
    if p.Thrown? {
      assert log <= log + first;
    }
  }

  /** A throw inside the first part of a sequence. */
  lemma RefinesBefore<T, U>(p: Parsed<T>, q: Parsed<U>, f: Fired, log: seq<Action>, first: seq<Action>,
      others: seq<Action>)
    requires SameOutcome(p, q) && p.Thrown? && Refines(p, f, log, first)
    ensures Refines(q, f, log, first + others)
  {
    assert log + first + others == log + (first + others);
  }

  lemma NumberRefines(s: seq<byte>, log: seq<Action>)
    ensures var t := Skip(s);
            match Number(t)
            case None => NumberFires(s, log) == NoMatch(log)
            case Some(r) => NumberFires(s, log) == Matched(r.1, log + Events(r.0))
  {
    hide StrictReal, Int64, Uint64;
    var t := Skip(s);
    if StrictReal(t).None? && Int64(t).None? && Uint64(t).Some? {
      CastsAreInverse(Uint64(t).value.0, 0);
    }
  }

  lemma ChSkipped(c: byte, s: seq<byte>)
    ensures Ch(c, Skip(s)) == Ch(c, s)
  {
  }

  lemma WordSkipped(w: seq<byte>, s: seq<byte>)
    requires w != []
    ensures Word(w, Skip(s)) == Word(w, s)
  {
  }

  /** The tree returned is the one parsed, or one that a thrown parse was on its way to. */
  lemma {:induction false} ValueRefines(s: seq<byte>, log: seq<Action>) returns (v: Value)
    ensures ValueRule(s).Hit? ==> v == ValueRule(s).value
    ensures Refines(ValueRule(s), ValueFires(s, log), log, Events(v))
    decreases |s|, 5
  {
    var t := Skip(s);
    v := if ValueRule(s).Hit? then ValueRule(s).value else Null;
    NumberRefines(s, log);
    ChSkipped(LBRACE, s);
    ChSkipped(LBRACKET, s);
    WordSkipped(TRUE_WORD, s);
    WordSkipped(FALSE_WORD, s);
    WordSkipped(NULL_WORD, s);
    if LexString(t).None? && Number(t).None? {
      if Ch(LBRACE, t).Some? {
        v := ObjectRefines(s, log);
      } else if Ch(LBRACKET, t).Some? {
        v := ArrayRefines(s, log);
      }
    }
  }

  lemma {:induction false} ObjectRefines(s: seq<byte>, log: seq<Action>) returns (v: Value)
    requires Ch(LBRACE, s).Some?
    ensures var p := ObjectRest(Ch(LBRACE, s).value);
            (p.Hit? ==> v == p.value) && Refines(p, ObjectFires(s, log), log, Events(v))
    decreases |s|, 4
  {
    hide Ch, Members, MembersFire, Skip;
    var r := Ch(LBRACE, s).value;
    var ms := MembersRefine(r, log + [BeginObj]);
    v := Obj(ms);
    Enclose(log, BeginObj, MemberEvents(ms), EndObj, ObjectFires(s, log).log);
  }

  /** What has been fired between an opening and a closing action. */
  lemma Enclose(log: seq<Action>, first: Action, inside: seq<Action>, last: Action, fired: seq<Action>)
    ensures log + ([first] + inside + [last]) == log + [first] + inside + [last]
    ensures log + [first] <= fired <= log + [first] + inside ==> log <= fired <= log + ([first] + inside + [last])
  {
    assert log + ([first] + inside + [last]) == log + [first] + inside + [last];
    assert log + [first] <= fired ==> log <= fired;
  }

  lemma {:induction false} MembersRefine(s: seq<byte>, log: seq<Action>) returns (ms: seq<Member>)
    ensures Members(s).Hit? ==> ms == Members(s).value
    ensures var f := MembersFire(s, log);
            if f.NoMatch? then Members(s) == Hit([], s) && f.log == log
            else Refines(Members(s), f, log, MemberEvents(ms))
    decreases |s|, 7
  {
    var m := PairRefines(s, log);
    match PairRule(s) {
      case Miss => ms := [];
      case Thrown(_, _) =>
        ms := [m];
        RefinesBefore(PairRule(s), Members(s), PairFires(s, log), log, PairEvents(m), MemberEvents([]));
      case Hit(_, r) =>
        var rest := MorePairsRefine(r, log + PairEvents(m));
        ms := [m] + rest;
        assert ms[1..] == rest;
        RefinesAfter(MorePairs(r), Members(s), MorePairsFire(r, log + PairEvents(m)), log, PairEvents(m),
            MemberEvents(rest));
    }
  }

  lemma {:induction false} MorePairsRefine(s: seq<byte>, log: seq<Action>) returns (ms: seq<Member>)
    ensures MorePairs(s).Hit? ==> ms == MorePairs(s).value
    ensures Refines(MorePairs(s), MorePairsFire(s, log), log, MemberEvents(ms))
    decreases |s|, 7
  {
    ms := [];
    if Ch(COMMA, s).Some? {
      var r := Ch(COMMA, s).value;
      var m := PairRefines(r, log);
      match PairRule(r) {
        case Miss =>
        case Thrown(_, _) =>
          ms := [m];
          RefinesBefore(PairRule(r), MorePairs(s), PairFires(r, log), log, PairEvents(m), MemberEvents([]));
        case Hit(_, r') =>
          var rest := MorePairsRefine(r', log + PairEvents(m));
          ms := [m] + rest;
          assert ms[1..] == rest;
          RefinesAfter(MorePairs(r'), MorePairs(s), MorePairsFire(r', log + PairEvents(m)), log, PairEvents(m),
              MemberEvents(rest));
      }
    }
  }

  lemma {:induction false} PairRefines(s: seq<byte>, log: seq<Action>) returns (m: Member)
    ensures PairRule(s).Hit? ==> m == PairRule(s).value
    ensures Refines(PairRule(s), PairFires(s, log), log, PairEvents(m))
    decreases |s|, 6
  {
    var t := Skip(s);
    m := Member([], Null);
    if LexString(t).Some? {
      var n := LexString(t).value;
      var name := GetStr(t[..n]);
      m := Member(name, Null);
      if Ch(COLON, t[n..]).Some? {
        var r := Ch(COLON, t[n..]).value;
        var v := ValueRefines(r, log + [NewName(name)]);
        m := Member(name, v);
        if ValueRule(r).Miss? {
          assert PairFires(s, log).log == log + [NewName(name)];
        } else {
          RefinesAfter(ValueRule(r), PairRule(s), ValueFires(r, log + [NewName(name)]), log, [NewName(name)],
              Events(v));
        }
      } else {
        assert PairFires(s, log).log == log + [NewName(name)];
      }
    }
  }

  lemma {:induction false} ArrayRefines(s: seq<byte>, log: seq<Action>) returns (v: Value)
    requires Ch(LBRACKET, s).Some?
    ensures var p := ArrayRest(Ch(LBRACKET, s).value);
            (p.Hit? ==> v == p.value) && Refines(p, ArrayFires(s, log), log, Events(v))
    decreases |s|, 4
  {
    hide Ch, Elements, ElementsFire, Skip;
    var r := Ch(LBRACKET, s).value;
    var vs := ElementsRefine(r, log + [BeginArray]);
    v := Arr(vs);
    Enclose(log, BeginArray, ElemEvents(vs), EndArray, ArrayFires(s, log).log);
  }

  lemma {:induction false} ElementsRefine(s: seq<byte>, log: seq<Action>) returns (vs: seq<Value>)
    ensures Elements(s).Hit? ==> vs == Elements(s).value
    ensures var f := ElementsFire(s, log);
            if f.NoMatch? then Elements(s) == Hit([], s) && f.log == log
            else Refines(Elements(s), f, log, ElemEvents(vs))
    decreases |s|, 7
  {
    var v := ValueRefines(s, log);
    match ValueRule(s) {
      case Miss => vs := [];
      case Thrown(_, _) =>
        vs := [v];
        RefinesBefore(ValueRule(s), Elements(s), ValueFires(s, log), log, Events(v), ElemEvents([]));
      case Hit(_, r) =>
        var rest := MoreValuesRefine(r, log + Events(v));
        vs := [v] + rest;
        assert vs[1..] == rest;
        RefinesAfter(MoreValues(r), Elements(s), MoreValuesFire(r, log + Events(v)), log, Events(v), ElemEvents(rest));
    }
  }

  lemma {:induction false} MoreValuesRefine(s: seq<byte>, log: seq<Action>) returns (vs: seq<Value>)
    ensures MoreValues(s).Hit? ==> vs == MoreValues(s).value
    ensures Refines(MoreValues(s), MoreValuesFire(s, log), log, ElemEvents(vs))
    decreases |s|, 7
  {
    vs := [];
    if Ch(COMMA, s).Some? {
      var r := Ch(COMMA, s).value;
      var v := ValueRefines(r, log);
      match ValueRule(r) {
        case Miss =>
        case Thrown(_, _) =>
          vs := [v];
          RefinesBefore(ValueRule(r), MoreValues(s), ValueFires(r, log), log, Events(v), ElemEvents([]));
        case Hit(_, r') =>
          var rest := MoreValuesRefine(r', log + Events(v));
          vs := [v] + rest;
          assert vs[1..] == rest;
          RefinesAfter(MoreValues(r'), MoreValues(s), MoreValuesFire(r', log + Events(v)), log, Events(v),
              ElemEvents(rest));
      }
    }
  }

  /** The whole parse. It never ends without a match or a throw; a match has fired exactly the actions of the
      parsed tree; and whatever the input, every action fired finds the machine in a state it is defined in. */
  lemma JsonRefines(s: seq<byte>, before: Value)
    ensures var p, f := Json(s), JsonFires(s);
            && !f.NoMatch?
            && (p.Hit? ==> f == Matched(p.rest, Events(p.value)))
            && (p.Thrown? ==> f.Threw? && f.reason == p.reason && f.at == p.at)
            && Run(Start(before), f.log).Some?
            && (p.Hit? ==> Run(Start(before), f.log).value.value == p.value)
  {
    var v := ValueRefines(s, []);
    var b := BuildsTree(before, v);
    assert [] + Events(v) == Events(v);
    RunPrefix(Start(before), JsonFires(s).log, Events(v));
  }

  /** `read_range` on a string: true exactly on a match, with the value built by the actions and the place
      where the parse stopped. A value half built when the parse threw stays as it is. */
  method ReadString(s: seq<byte>, before: Value) returns (ok: bool, value: Value, stop: seq<byte>)
    ensures ok <==> Json(s).Hit?
    ensures ok ==> value == Json(s).value && stop == Json(s).rest
    ensures !ok ==> stop == s
    ensures Run(Start(before), JsonFires(s).log).Some?
         && value == Run(Start(before), JsonFires(s).log).value.value
  {
    JsonRefines(s, before);
    var outcome := JsonFires(s);
    var actions := new SemanticActions(before);
    actions.FireAll(outcome.log);
    value := actions.value;
    match outcome
    case Matched(rest, _) =>
      ok, stop := true, rest;
    case Threw(_, _, _) =>
      ok, stop := false, s;
    case NoMatch(_) =>
      assert false;
  }
}
