/** The format-string interpreter: fed one argument at a time, it resumes in the middle of a
    specification when stars are still waiting for their values. */
module Format {
  import opened Bytes
  import opened FormatSpec

  // ---------------------------------------------------------------- literals

  /** The text up to the next specification or the end, "%%" read as '%', and what is left. */
  function Literal(s: seq<byte>): (r: (seq<byte>, seq<byte>))
    ensures |r.1| <= |s|
    ensures At(r.1, 0) == NUL || (At(r.1, 0) == PERCENT && At(r.1, 1) != PERCENT)
    decreases |s|
  {
    if At(s, 0) == NUL then ([], s)
    else if s[0] != PERCENT then
      var r := Literal(s[1..]);
      ([s[0]] + r.0, r.1)
    else if At(s, 1) != PERCENT then ([], s)
    else
      var r := Literal(s[2..]);
      ([PERCENT] + r.0, r.1)
  }

  /** A text as it has to be written in a format string. */
  function QuotePercent(t: seq<byte>): seq<byte> {
    if t == [] then []
    else (if t[0] == PERCENT then [PERCENT, PERCENT] else [t[0]]) + QuotePercent(t[1..])
  }

  /** Every text without NUL can be written as a literal, and is read back exactly, whatever follows. */
  lemma {:induction false} LiteralReadsBack(t: seq<byte>, tail: seq<byte>)
    requires NUL !in t
    ensures Literal(QuotePercent(t) + tail) == (t + Literal(tail).0, Literal(tail).1)
  {
    if t == [] {
      assert QuotePercent(t) + tail == tail;
      assert t + Literal(tail).0 == Literal(tail).0;
    } else {
      var more := QuotePercent(t[1..]) + tail;
      LiteralReadsBack(t[1..], tail);
      assert t == [t[0]] + t[1..];
      if t[0] == PERCENT {
        assert QuotePercent(t) + tail == [PERCENT, PERCENT] + more;
        assert ([PERCENT, PERCENT] + more)[2..] == more;
      } else {
        assert QuotePercent(t) + tail == [t[0]] + more;
        assert ([t[0]] + more)[1..] == more;
      }
      Assoc([t[0]], t[1..], Literal(tail).0);
    }
  }

  /** The literal from position `c` on, by the characters there. */
  lemma LiteralFrom(s: seq<byte>, c: nat)
    requires c <= |s|
    ensures var l := Literal(s[c..]);
            if At(s, c) == NUL || (At(s, c) == PERCENT && At(s, c + 1) != PERCENT) then l == ([], s[c..])
            else
              var n := if At(s, c) == PERCENT then c + 2 else c + 1;
              n <= |s| && l == ([s[n - 1]] + Literal(s[n..]).0, Literal(s[n..]).1)
  {
    var t := s[c..];
    assert At(t, 0) == At(s, c) && At(t, 1) == At(s, c + 1);
    if At(s, c) == PERCENT && At(s, c + 1) == PERCENT {
      assert t[2..] == s[c + 2..];
    } else if At(s, c) != NUL && At(s, c) != PERCENT {
      assert t[1..] == s[c + 1..];
    }
  }

  method PrintFormatStringLiteral(out: OStream, s: seq<byte>) returns (rest: seq<byte>)
    modifies out`text
    ensures out.text == old(out.text) + Literal(s).0 && rest == Literal(s).1
  {
    hide Literal;
    var fmt, c := 0, 0;
    assert s[0..] == s;
    while true
      invariant 0 <= fmt <= c <= |s|
      invariant out.text + s[fmt..c] + Literal(s[c..]).0 == old(out.text) + Literal(s).0
      invariant Literal(s[c..]).1 == Literal(s).1
      decreases |s| - c
    {
      LiteralFrom(s, c);
      if At(s, c) == NUL {
        out.text := out.text + s[fmt..c];
        return s[c..];
      }
      if At(s, c) == PERCENT {
        if At(s, c + 1) != PERCENT {
          out.text := out.text + s[fmt..c];
          return s[c..];
        }
        LiteralStep(out.text, s[fmt..c], [PERCENT], Literal(s[c + 2..]).0);
        out.text := out.text + s[fmt..c];
        c := c + 1;
        fmt := c;
        assert s[fmt..c + 1] == [PERCENT];
      } else {
        assert s[fmt..c + 1] == s[fmt..c] + [s[c]];
        LiteralStep(out.text, s[fmt..c], [s[c]], Literal(s[c + 1..]).0);
      }
      c := c + 1;
    }
  }

  lemma LiteralStep(a: seq<byte>, b: seq<byte>, c: seq<byte>, d: seq<byte>)
    ensures a + b + (c + d) == (a + b) + c + d == a + (b + c) + d
  {
  }

  // ---------------------------------------------------------------- one value

  datatype Put = Put(text: seq<byte>, after: StreamState)

  /** What the interpreter needs of its arguments: conversion to int for stars, formatting of one value under
      a stream state and a conversion character, and the characters of a C string. */
  datatype Printer<!T> = Printer(
    toInt: T -> Option<int>,
    put: (T, StreamState, byte) -> Put,
    cString: T -> Option<seq<byte>>)

  function Repeat(c: byte, n: nat): (s: seq<byte>)
    ensures |s| == n
  {
    if n == 0 then [] else [c] + Repeat(c, n - 1)
  }

  /** `out << string`: padded to the width, which is then used up. */
  function PutString(s: seq<byte>, out: StreamState): Put {
    var fill := if out.width > |s| then Repeat(out.fill, out.width - |s|) else [];
    Put(if out.flags.adjust == Left then s + fill else fill + s, out.(width := 0))
  }

  function PlusToSpace(s: seq<byte>): (r: seq<byte>)
    ensures |r| == |s|
  {
    seq(|s|, i requires 0 <= i < |s| => if s[i] == PLUS then SPACE else s[i])
  }

  function Prefix(s: seq<byte>, n: int): (r: seq<byte>)
    ensures r <= s
  {
    if n < 0 then [] else if n < |s| then s[..n] else s
  }

  /** One value: directly, or by way of a temporary stream when padding with spaces or truncating. */
  function Render<T>(pr: Printer<T>, value: T, out: StreamState, extra: Extra, conversion: byte): Put {
    if !extra.spacePad && !extra.truncate then pr.put(value, out, conversion)
    else
      var tmp := if extra.spacePad then out.(flags := out.flags.(showpos := true)) else out;
      var plain := if extra.truncate && pr.cString(value).Some? then Prefix(pr.cString(value).value, out.precision)
                   else pr.put(value, tmp, conversion).text;
      var result := if extra.spacePad then PlusToSpace(plain) else plain;
      if extra.truncate && |result| > out.precision then Put(Prefix(result, out.precision), out)
      else PutString(result, out)
  }

  // ---------------------------------------------------------------- the machine

  datatype Machine = Machine(text: seq<byte>, out: StreamState, fmt: seq<byte>, extra: Extra,
                             wantWidth: bool, wantPrecision: bool, variableWidth: int, variablePrecision: int)

  predicate Fresh(m: Machine) {
    m.extra == NO_EXTRA && !m.wantWidth && !m.wantPrecision
  }

  function Emit<T>(pr: Printer<T>, m: Machine, value: T, end: seq<byte>, conversion: byte): Machine {
    var put := Render(pr, value, m.out, m.extra, conversion);
    m.(text := m.text + put.text, out := put.after, extra := NO_EXTRA, fmt := end)
  }

  /** The specification is known: feed a star, or format the value. */
  function Consume<T>(pr: Printer<T>, m: Machine, value: T, end: seq<byte>, conversion: byte)
    : (Machine, Option<FormatError>)
  {
    if !m.extra.varWidth && !m.extra.varPrecision then (Emit(pr, m, value, end, conversion), None)
    else if m.wantWidth || m.wantPrecision then
      match pr.toInt(value)
      case None => (m, Some(NotConvertible))
      case Some(v) =>
        if m.wantWidth then (m.(variableWidth := v, wantWidth := false), None)
        else (m.(variablePrecision := v, wantPrecision := false), None)
    else
      var r := ParseSpec(m.out, m.fmt, m.variableWidth, m.variablePrecision);
      if r.error.Some? then (m.(out := r.p.out), r.error)
      else (Emit(pr, m.(out := r.p.out, extra := r.p.extra), value, r.end, r.conversion), None)
  }

  function AcceptStep<T>(pr: Printer<T>, m: Machine, value: T): (Machine, Option<FormatError>) {
    if !Fresh(m) then Consume(pr, m, value, [], NUL)
    else
      var literal := Literal(m.fmt);
      var n := m.(text := m.text + literal.0, fmt := literal.1);
      var d := ParseSpec(n.out, n.fmt, 0, 0);
      if d.error.Some? then (n.(out := d.p.out), d.error)
      else
        var e := d.p.extra;
        Consume(pr, n.(out := d.p.out, extra := e, wantWidth := e.varWidth, wantPrecision := e.varPrecision),
                value, d.end, d.conversion)
  }

  function FinishStep(m: Machine): (Machine, Option<FormatError>) {
    var literal := Literal(m.fmt);
    (m.(text := m.text + literal.0, fmt := literal.1), if At(literal.1, 0) != NUL then Some(TooManySpecs) else None)
  }

  function RunArgs<T>(pr: Printer<T>, m: Machine, args: seq<T>): (Machine, Option<FormatError>)
    decreases args
  {
    if args == [] then FinishStep(m)
    else
      var r := AcceptStep(pr, m, args[0]);
      if r.1.Some? then r else RunArgs(pr, r.0, args[1..])
  }

  function StartMachine(text: seq<byte>, out: StreamState, fmt: seq<byte>): Machine {
    Machine(text, out, fmt, NO_EXTRA, false, false, 0, 0)
  }

  class FormatIterator<T> {
    const printer: Printer<T>
    const out: OStream
    const orig: StreamState
    var fmt: seq<byte>
    var extra: Extra
    var wantWidth: bool
    var wantPrecision: bool
    var variableWidth: int
    var variablePrecision: int

    function State(): Machine
      reads this, out
    {
      Machine(out.text, out.state, fmt, extra, wantWidth, wantPrecision, variableWidth, variablePrecision)
    }

    constructor (printer: Printer<T>, out: OStream, fmt: seq<byte>)
      ensures this.printer == printer && this.out == out && orig == out.state
      ensures State() == StartMachine(out.text, out.state, fmt)
    {
      this.printer, this.out, this.fmt := printer, out, fmt;
      orig := out.state;
      extra := NO_EXTRA;
      wantWidth, wantPrecision := false, false;
      variableWidth, variablePrecision := 0, 0;
    }

    /** Text goes to the stream; the stream's state changes as the value's own output operator leaves it. */
    method Print(value: T, conversion: byte)
      modifies out
      ensures var put := old(Render(printer, value, out.state, extra, conversion));
              out.text == old(out.text) + put.text && out.state == put.after
    {
      if !extra.spacePad && !extra.truncate {
        var put := printer.put(value, out.state, conversion);
        out.text, out.state := out.text + put.text, put.after;
        return;
      }
      var tmp := out.state;
      if extra.spacePad {
        tmp := tmp.(flags := tmp.flags.(showpos := true));
      }
      var result;
      if extra.truncate && printer.cString(value).Some? {
        result := Prefix(printer.cString(value).value, out.state.precision);
      } else {
        result := printer.put(value, tmp, conversion).text;
      }
      if extra.spacePad {
        result := PlusToSpace(result);
      }
      if extra.truncate && |result| > out.state.precision {
        out.text := out.text + Prefix(result, out.state.precision);
      } else {
        var put := PutString(result, out.state);
        out.text, out.state := out.text + put.text, put.after;
      }
    }

    /** Format the value and go on behind its specification. */
    method EmitValue(value: T, end: seq<byte>, conversion: byte)
      modifies this`fmt, this`extra, out
      ensures State() == Emit(printer, old(State()), value, end, conversion)
    {
      Print(value, conversion);
      extra := NO_EXTRA;
      fmt := end;
    }

    /** A value for a star, width first. */
    method TakeStar(value: T) returns (error: Option<FormatError>)
      requires (extra.varWidth || extra.varPrecision) && (wantWidth || wantPrecision)
      modifies this
      ensures (State(), error) == Consume(printer, old(State()), value, [], NUL)
    {
      var v := printer.toInt(value);
      if v.None? {
        return Some(NotConvertible);
      }
      if wantWidth {
        variableWidth, wantWidth := v.value, false;
      } else {
        variablePrecision, wantPrecision := v.value, false;
      }
      return None;
    }

    method Accept(value: T) returns (error: Option<FormatError>)
      modifies this, out
      ensures (State(), error) == AcceptStep(printer, old(State()), value)
    {
      var end, conversion := [], NUL;
      if extra == NO_EXTRA && !wantWidth && !wantPrecision {
        fmt := PrintFormatStringLiteral(out, fmt);
        var e;
        e, end, conversion, error := StreamStateFromFormat(out, fmt, 0, 0);
        if error.Some? {
          return;
        }
        extra := e;
        wantWidth, wantPrecision := e.varWidth, e.varPrecision;
      }
      ghost var known := State();
      assert AcceptStep(printer, old(State()), value) == Consume(printer, known, value, end, conversion);
      if extra.varWidth || extra.varPrecision {
        if wantWidth || wantPrecision {
          error := TakeStar(value);
          return;
        }
        var e;
        e, end, conversion, error := StreamStateFromFormat(out, fmt, variableWidth, variablePrecision);
        if error.Some? {
          return;
        }
        extra := e;
      }
      EmitValue(value, end, conversion);
      error := None;
    }

    method Finish() returns (error: Option<FormatError>)
      modifies this`fmt, out`text
      ensures (State(), error) == FinishStep(old(State()))
    {
      fmt := PrintFormatStringLiteral(out, fmt);
      error := if At(fmt, 0) != NUL then Some(TooManySpecs) else None;
    }

    /** The destructor. */
    method Restore()
      modifies out`state
      ensures out.state == orig
    {
      out.state := orig;
    }
  }
}
