/** The resumable interpreter against a direct reading of the format string, its argument accounting,
    and the whole call. */
module FormatRefinement {
  import opened Bytes
  import opened FormatSpec
  import opened FormatStar
  import opened Format

  datatype Outcome = Outcome(text: seq<byte>, error: Option<FormatError>)

  function Stars(e: Extra): nat {
    (if e.varWidth then 1 else 0) + (if e.varPrecision then 1 else 0)
  }

  predicate Converts<T>(pr: Printer<T>, args: seq<T>) {
    forall i :: 0 <= i < |args| ==> pr.toInt(args[i]).Some?
  }

  function Take<T>(args: seq<T>, n: nat): (r: seq<T>)
    ensures |r| == if n < |args| then n else |args|
  {
    if n < |args| then args[..n] else args
  }

  /** Specification by specification: literal, star values, one formatted value, and on. */
  function Interpret<T>(pr: Printer<T>, s: seq<byte>, args: seq<T>, out: StreamState, text: seq<byte>): Outcome
    decreases |s|
  {
    var t := text + Literal(s).0;
    var rest := Literal(s).1;
    if At(rest, 0) == NUL then Outcome(t, if args == [] then None else Some(NotEnoughSpecs))
    else if args == [] then Outcome(t, Some(TooManySpecs))
    else
      var d := ParseSpec(out, rest, 0, 0);
      if d.error.Some? then Outcome(t, d.error)
      else
        var n := Stars(d.p.extra);
        if !Converts(pr, Take(args, n)) then Outcome(t, Some(NotConvertible))
        else if |args| <= n then Outcome(t, Some(TooManySpecs))
        else
          var r := ParseSpec(out, rest, WidthValue(pr, args, d.p.extra), PrecisionValue(pr, args, d.p.extra));
          ReparseAgrees(rest, out, 0, 0, out, WidthValue(pr, args, d.p.extra), PrecisionValue(pr, args, d.p.extra));
          var put := Render(pr, args[n], r.p.out, r.p.extra, r.conversion);
          Interpret(pr, r.end, args[n + 1..], put.after, t + put.text)
  }

  function WidthValue<T>(pr: Printer<T>, args: seq<T>, e: Extra): int
    requires |args| >= Stars(e) && Converts(pr, Take(args, Stars(e)))
  {
    if e.varWidth then assert Take(args, Stars(e))[0] == args[0]; pr.toInt(args[0]).value else 0
  }

  function PrecisionValue<T>(pr: Printer<T>, args: seq<T>, e: Extra): int
    requires |args| >= Stars(e) && Converts(pr, Take(args, Stars(e)))
  {
    if e.varPrecision then
      var n := Stars(e);
      assert Take(args, n)[n - 1] == args[n - 1];
      pr.toInt(args[n - 1]).value
    else 0
  }

  // ---------------------------------------------------------------- the refinement

  lemma OtherFlagsKept(out: StreamState, s: seq<byte>, w: int, v: int)
    ensures ParseSpec(out, s, w, v).p.out.flags.other == out.flags.other
  {
    if At(s, 0) == PERCENT {
      var t := s[1..];
      FlagsBySet(out, t[..FlagRun(t)]);
      StagesKeepOther(ApplyFlags(Reset(out), t[..FlagRun(t)]), t[FlagRun(t)..], w, v);
    }
  }

  lemma StagesKeepOther(p: Setting, s: seq<byte>, w: int, v: int)
    ensures AfterFlags(p, s, w, v).p.out.flags.other == p.out.flags.other
  {
    var x := Width(p, s, w);
    var q := Precision(x.p, x.rest, v);
    WidthKeepsOther(p, s, w);
    PrecisionKeepsOther(x.p, x.rest, v);
    ConversionKeepsOther(q.p, At(q.rest[LengthRun(q.rest)..], 0), q.given);
    hide Width, Precision, Conversion;
  }

  lemma WidthKeepsOther(p: Setting, s: seq<byte>, w: int)
    ensures Width(p, s, w).p.out.flags.other == p.out.flags.other
  {
  }

  lemma PrecisionKeepsOther(p: Setting, s: seq<byte>, v: int)
    ensures Precision(p, s, v).p.out.flags.other == p.out.flags.other
  {
  }

  lemma ConversionKeepsOther(p: Setting, c: byte, given: bool)
    ensures Conversion(p, c, given).out.flags.other == p.out.flags.other
  {
  }

  /** The machine after discovering a specification with stars. */
  predicate Pending(m: Machine) {
    && (m.extra.varWidth || m.extra.varPrecision)
    && At(m.fmt, 0) == PERCENT && At(m.fmt, 1) != PERCENT
    && (m.wantWidth ==> m.extra.varWidth) && (m.wantPrecision ==> m.extra.varPrecision)
  }

  lemma LiteralStays(s: seq<byte>)
    requires At(s, 0) == PERCENT && At(s, 1) != PERCENT
    ensures Literal(s) == ([], s)
  {
  }

  /** Arguments that run out in the middle of a specification: it counts as one too many. */
  lemma PendingRunsOut<T>(pr: Printer<T>, m: Machine)
    requires Pending(m)
    ensures RunArgs(pr, m, []).0.text == m.text && RunArgs(pr, m, []).1 == Some(TooManySpecs)
  {
    LiteralStays(m.fmt);
  }

  /** All stars fed: the specification is read again, now with the values. */
  lemma Reparse<T>(pr: Printer<T>, m: Machine, out: StreamState, args: seq<T>, w: int, v: int)
    requires Pending(m) && !m.wantWidth && !m.wantPrecision && args != []
    requires m.out == ParseSpec(out, m.fmt, 0, 0).p.out && ParseSpec(out, m.fmt, 0, 0).error.None?
    requires m.extra == ParseSpec(out, m.fmt, 0, 0).p.extra
    requires (m.extra.varWidth ==> m.variableWidth == w) && (m.extra.varPrecision ==> m.variablePrecision == v)
    ensures var r := ParseSpec(out, m.fmt, w, v);
            && r.error.None? && r.p.extra == m.extra
            && AcceptStep(pr, m, args[0])
                == (Emit(pr, m.(out := r.p.out, extra := r.p.extra), args[0], r.end, r.conversion), None)
            && RunArgs(pr, m, args)
               == RunArgs(pr, Emit(pr, m.(out := r.p.out, extra := r.p.extra), args[0], r.end, r.conversion), args[1..])
  {
    ReparseAgrees(m.fmt, out, 0, 0, out, w, v);
    ReparseAgrees(m.fmt, out, 0, 0, m.out, m.variableWidth, m.variablePrecision);
    OtherFlagsKept(out, m.fmt, 0, 0);
    UnusedValues(m.fmt, out, w, v, m.out, m.variableWidth, m.variablePrecision);
    hide ParseSpec, Render;
  }

  /** One star: its value is taken, or refused. */
  lemma TakesStar<T>(pr: Printer<T>, m: Machine, args: seq<T>)
    requires Pending(m) && (m.wantWidth || m.wantPrecision) && args != []
    ensures !Fresh(m)
    ensures pr.toInt(args[0]).None? ==>
              RunArgs(pr, m, args).0.text == m.text && RunArgs(pr, m, args).1 == Some(NotConvertible)
    ensures pr.toInt(args[0]).Some? ==>
              RunArgs(pr, m, args) == RunArgs(pr, Starred(m, pr.toInt(args[0]).value), args[1..])
    ensures pr.toInt(args[0]).Some? ==> Pending(Starred(m, pr.toInt(args[0]).value))
  {
    hide ParseSpec, Render;
  }

  function Starred(m: Machine, v: int): Machine {
    if m.wantWidth then m.(variableWidth := v, wantWidth := false)
    else m.(variablePrecision := v, wantPrecision := false)
  }

  /** The machine after the first `n` arguments have gone to its `n` open stars. */
  function Fed<T>(pr: Printer<T>, m: Machine, args: seq<T>): Machine
    requires |args| >= Open(m) && Converts(pr, Take(args, Open(m)))
    decreases Open(m)
  {
    if Open(m) == 0 then m
    else
      assert Take(args, Open(m))[0] == args[0];
      var m1 := Starred(m, pr.toInt(args[0]).value);
      assert forall i {:trigger Take(args[1..], Open(m1))[i]} ::
          0 <= i < |Take(args[1..], Open(m1))| ==> Take(args[1..], Open(m1))[i] == Take(args, Open(m))[i + 1];
      Fed(pr, m1, args[1..])
  }

  function Open(m: Machine): nat {
    (if m.wantWidth then 1 else 0) + (if m.wantPrecision then 1 else 0)
  }

  /** `f` is `m` with its open stars fed from `args`. */
  predicate IsFed<T>(pr: Printer<T>, m: Machine, args: seq<T>, f: Machine)
    requires |args| >= Open(m) && Converts(pr, args[..Open(m)])
  {
    && Pending(f) && Open(f) == 0
    && f.text == m.text && f.out == m.out && f.fmt == m.fmt && f.extra == m.extra
    && f.variableWidth == (if m.wantWidth then pr.toInt(args[..Open(m)][0]).value else m.variableWidth)
    && f.variablePrecision
        == (if m.wantPrecision then pr.toInt(args[..Open(m)][Open(m) - 1]).value else m.variablePrecision)
  }

  lemma {:induction false} FedIsFed<T>(pr: Printer<T>, m: Machine, args: seq<T>)
    requires Pending(m) && |args| >= Open(m) && Converts(pr, Take(args, Open(m)))
    ensures Take(args, Open(m)) == args[..Open(m)]
    ensures IsFed(pr, m, args, Fed(pr, m, args))
    ensures RunArgs(pr, m, args) == RunArgs(pr, Fed(pr, m, args), args[Open(m)..])
    decreases Open(m)
  {
    hide AcceptStep, FinishStep;
    var n := Open(m);
    if n == 0 {
      assert args[0..] == args;
    } else {
      TakesStar(pr, m, args);
      TakeSplits(pr, args, n);
      var m1 := Starred(m, pr.toInt(args[0]).value);
      FedIsFed(pr, m1, args[1..]);
      assert args[1..][n - 1..] == args[n..];
      assert args[..n][0] == args[0];
      assert n > 1 ==> args[1..][..n - 1][n - 2] == args[..n][n - 1];
    }
  }

  /** Feeding the stars fails on the first argument that is no integer, or when the arguments run out. */
  lemma {:induction false} FeedingFails<T>(pr: Printer<T>, m: Machine, args: seq<T>)
    requires Pending(m)
    requires !Converts(pr, Take(args, Open(m))) || |args| <= Open(m)
    ensures RunArgs(pr, m, args).0.text == m.text
    ensures RunArgs(pr, m, args).1
         == if Converts(pr, Take(args, Open(m))) then Some(TooManySpecs) else Some(NotConvertible)
    decreases Open(m)
  {
    hide AcceptStep, FinishStep;
    if args == [] {
      PendingRunsOut(pr, m);
    } else {
      TakesStar(pr, m, args);
      TakeSplits(pr, args, Open(m));
      if pr.toInt(args[0]).Some? {
        FeedingFails(pr, Starred(m, pr.toInt(args[0]).value), args[1..]);
      }
    }
  }

  lemma TakeSplits<T>(pr: Printer<T>, args: seq<T>, n: nat)
    requires args != [] && n > 0
    ensures Converts(pr, Take(args, n)) <==> pr.toInt(args[0]).Some? && Converts(pr, Take(args[1..], n - 1))
  {
    assert Take(args, n) == [args[0]] + Take(args[1..], n - 1);
    if Converts(pr, Take(args, n)) {
      assert forall i {:trigger Take(args[1..], n - 1)[i]} ::
          0 <= i < |Take(args[1..], n - 1)| ==> Take(args[1..], n - 1)[i] == Take(args, n)[i + 1];
    }
  }

  /** The machine right after a specification has been discovered. */
  function Discovered(m: Machine): Machine {
    var rest := Literal(m.fmt).1;
    var d := ParseSpec(m.out, rest, 0, 0);
    m.(text := m.text + Literal(m.fmt).0, fmt := rest, out := d.p.out, extra := d.p.extra,
       wantWidth := d.p.extra.varWidth, wantPrecision := d.p.extra.varPrecision)
  }

  /** The machine right after the value of a specification has been printed; `f` has all star values. */
  function Printed<T>(pr: Printer<T>, out: StreamState, f: Machine, w: int, v: int, value: T): Machine {
    var r := ParseSpec(out, f.fmt, w, v);
    Emit(pr, f.(out := r.p.out, extra := r.p.extra), value, r.end, r.conversion)
  }

  /** No specification is begun: the literal is the last one, or there are no arguments, or it is refused. */
  lemma NoSpecRuns<T>(pr: Printer<T>, m: Machine, args: seq<T>)
    requires Fresh(m)
    requires args == [] || At(Literal(m.fmt).1, 0) == NUL || ParseSpec(m.out, Literal(m.fmt).1, 0, 0).error.Some?
    ensures var r, i := RunArgs(pr, m, args), Interpret(pr, m.fmt, args, m.out, m.text);
            r.0.text == i.text && r.1 == i.error
  {
    if At(Literal(m.fmt).1, 0) == NUL {
      assert ParseSpec(m.out, Literal(m.fmt).1, 0, 0).error == Some(NotEnoughSpecs);
    }
    hide ParseSpec, Render;
  }

  lemma InterpretPlain<T>(pr: Printer<T>, m: Machine, args: seq<T>)
    requires args != [] && At(Literal(m.fmt).1, 0) != NUL
    requires var d := ParseSpec(m.out, Literal(m.fmt).1, 0, 0); d.error.None? && Stars(d.p.extra) == 0
    ensures var d := ParseSpec(m.out, Literal(m.fmt).1, 0, 0);
            var e := Emit(pr, Discovered(m), args[0], d.end, d.conversion);
            Interpret(pr, m.fmt, args, m.out, m.text) == Interpret(pr, e.fmt, args[1..], e.out, e.text)
  {
    hide ParseSpec, Render;
    assert Take(args, 0) == [] && args[0 + 1..] == args[1..];
  }

  lemma InterpretStar<T>(pr: Printer<T>, m: Machine, args: seq<T>, f: Machine)
    requires At(Literal(m.fmt).1, 0) != NUL && ParseSpec(m.out, Literal(m.fmt).1, 0, 0).error.None?
    requires var n := Stars(ParseSpec(m.out, Literal(m.fmt).1, 0, 0).p.extra); |args| > n && Converts(pr, Take(args, n))
    requires f.text == m.text + Literal(m.fmt).0 && f.fmt == Literal(m.fmt).1
    ensures var e := ParseSpec(m.out, Literal(m.fmt).1, 0, 0).p.extra;
            var n := Stars(e);
            var g := Printed(pr, m.out, f, WidthValue(pr, args, e), PrecisionValue(pr, args, e), args[n]);
            Interpret(pr, m.fmt, args, m.out, m.text) == Interpret(pr, g.fmt, args[n + 1..], g.out, g.text)
  {
    hide ParseSpec, Render, WidthValue, PrecisionValue;
  }

  lemma InterpretFails<T>(pr: Printer<T>, m: Machine, args: seq<T>)
    requires args != [] && At(Literal(m.fmt).1, 0) != NUL && ParseSpec(m.out, Literal(m.fmt).1, 0, 0).error.None?
    requires var n := Stars(ParseSpec(m.out, Literal(m.fmt).1, 0, 0).p.extra);
             |args| <= n || !Converts(pr, Take(args, n))
    ensures var n := Stars(ParseSpec(m.out, Literal(m.fmt).1, 0, 0).p.extra);
            Interpret(pr, m.fmt, args, m.out, m.text)
            == Outcome(m.text + Literal(m.fmt).0,
                       Some(if Converts(pr, Take(args, n)) then TooManySpecs else NotConvertible))
  {
    hide ParseSpec, Render, WidthValue, PrecisionValue;
  }

  /** The refinement, for every format string, argument list and stream: same text, same error. */
  lemma {:induction false} MachineRefines<T>(pr: Printer<T>, m: Machine, args: seq<T>)
    requires Fresh(m)
    ensures var r, i := RunArgs(pr, m, args), Interpret(pr, m.fmt, args, m.out, m.text);
            r.0.text == i.text && r.1 == i.error
    decreases |args|
  {
    hide RunArgs, Interpret, ParseSpec, WidthValue, PrecisionValue, Fed;
    var rest := Literal(m.fmt).1;
    var d := ParseSpec(m.out, rest, 0, 0);
    var n := Stars(d.p.extra);
    if args == [] || At(rest, 0) == NUL || d.error.Some? {
      NoSpecRuns(pr, m, args);
    } else if n == 0 {
      PlainSpecRuns(pr, m, args);
      InterpretPlain(pr, m, args);
      MachineRefines(pr, Emit(pr, Discovered(m), args[0], d.end, d.conversion), args[1..]);
    } else {
      DiscoveryFeeds(pr, m, args);
      if Converts(pr, Take(args, n)) && |args| > n {
        StarSpecRuns(pr, m, args);
        var f := Fed(pr, Discovered(m), args);
        InterpretStar(pr, m, args, f);
        var w, v := WidthValue(pr, args, d.p.extra), PrecisionValue(pr, args, d.p.extra);
        MachineRefines(pr, Printed(pr, m.out, f, w, v, args[n]), args[n + 1..]);
      } else {
        FeedingFails(pr, Discovered(m), args);
        InterpretFails(pr, m, args);
      }
    }
  }

  lemma PlainSpecRuns<T>(pr: Printer<T>, m: Machine, args: seq<T>)
    requires Fresh(m) && args != [] && At(Literal(m.fmt).1, 0) != NUL
    requires var d := ParseSpec(m.out, Literal(m.fmt).1, 0, 0); d.error.None? && Stars(d.p.extra) == 0
    ensures var d := ParseSpec(m.out, Literal(m.fmt).1, 0, 0);
            RunArgs(pr, m, args) == RunArgs(pr, Emit(pr, Discovered(m), args[0], d.end, d.conversion), args[1..])
  {
    hide ParseSpec, Render;
  }

  lemma StarSpecRuns<T>(pr: Printer<T>, m: Machine, args: seq<T>)
    requires Fresh(m) && At(Literal(m.fmt).1, 0) != NUL
    requires ParseSpec(m.out, Literal(m.fmt).1, 0, 0).error.None?
    requires var n := Stars(ParseSpec(m.out, Literal(m.fmt).1, 0, 0).p.extra);
             n > 0 && |args| > n && Converts(pr, Take(args, n))
    ensures var e := ParseSpec(m.out, Literal(m.fmt).1, 0, 0).p.extra;
            var n := Stars(e);
            var f := Fed(pr, Discovered(m), args);
            && IsFed(pr, Discovered(m), args, f)
            && RunArgs(pr, m, args)
               == RunArgs(pr, Printed(pr, m.out, f, WidthValue(pr, args, e), PrecisionValue(pr, args, e), args[n]),
                   args[n + 1..])
  {
    hide ParseSpec, Render, RunArgs;
    var p, e := Discovered(m), ParseSpec(m.out, Literal(m.fmt).1, 0, 0).p.extra;
    var n := Stars(e);
    DiscoveryFeeds(pr, m, args);
    FedIsFed(pr, p, args);
    var f := Fed(pr, p, args);
    assert args[..n][0] == args[0] && args[..n][n - 1] == args[n - 1];
    Reparse(pr, f, m.out, args[n..], WidthValue(pr, args, e), PrecisionValue(pr, args, e));
    assert args[n..][1..] == args[n + 1..];
  }

  /** The first argument of a specification with stars: discovery, then the argument is the first star's. */
  lemma DiscoveryFeeds<T>(pr: Printer<T>, m: Machine, args: seq<T>)
    requires Fresh(m) && args != [] && At(Literal(m.fmt).1, 0) != NUL
    requires var d := ParseSpec(m.out, Literal(m.fmt).1, 0, 0); d.error.None? && Stars(d.p.extra) > 0
    ensures Pending(Discovered(m)) && Open(Discovered(m)) == Stars(ParseSpec(m.out, Literal(m.fmt).1, 0, 0).p.extra)
    ensures RunArgs(pr, m, args) == RunArgs(pr, Discovered(m), args)
  {
    hide ParseSpec, Render;
  }

  // ---------------------------------------------------------------- argument accounting

  /** A specification as far as the arguments are concerned. */
  datatype SpecInfo = SpecInfo(stars: nat, supported: bool)

  const PLAIN: StreamState :=
    StreamState(0, 6, SPACE, Flags(NoAdjust, NoBase, General, false, false, false, false, false, 0))

  /** The specifications of a format string, up to the first that is refused. */
  function Specs(s: seq<byte>): seq<SpecInfo>
    decreases |s|
  {
    var rest := Literal(s).1;
    if At(rest, 0) == NUL then []
    else
      var d := ParseSpec(PLAIN, rest, 0, 0);
      if d.error.Some? then [SpecInfo(0, false)] else [SpecInfo(Stars(d.p.extra), true)] + Specs(d.end)
  }

  /** One argument for each specification and one for each of its stars. */
  function Needed(specs: seq<SpecInfo>): nat {
    if specs == [] then 0 else specs[0].stars + 1 + Needed(specs[1..])
  }

  predicate AllSupported(specs: seq<SpecInfo>) {
    forall i :: 0 <= i < |specs| ==> specs[i].supported
  }

  /** Every argument that is a star's converts to an int. */
  predicate StarsConvert<T>(pr: Printer<T>, specs: seq<SpecInfo>, args: seq<T>)
    decreases specs
  {
    specs == [] ||
    (Converts(pr, Take(args, specs[0].stars))
      && (|args| > specs[0].stars ==> StarsConvert(pr, specs[1..], args[specs[0].stars + 1..])))
  }

  /** No specification is begun, or the first one is refused. */
  lemma NoSpecSucceeds<T>(pr: Printer<T>, s: seq<byte>, args: seq<T>, out: StreamState, text: seq<byte>)
    requires args == [] || At(Literal(s).1, 0) == NUL || ParseSpec(out, Literal(s).1, 0, 0).error.Some?
    ensures Interpret(pr, s, args, out, text).error.None?
       <==> |args| == Needed(Specs(s)) && AllSupported(Specs(s)) && StarsConvert(pr, Specs(s), args)
  {
    var rest := Literal(s).1;
    ReparseAgrees(rest, out, 0, 0, PLAIN, 0, 0);
    hide ParseSpec, Render, Literal;
    if At(rest, 0) != NUL && args != [] {
      assert !Specs(s)[0].supported;
    }
  }

  /** Formatting succeeds exactly when the arguments are counted right, every specification is supported
      and every star argument is an integer. */
  lemma {:induction false} SucceedsIff<T>(pr: Printer<T>, s: seq<byte>, args: seq<T>, out: StreamState, text: seq<byte>)
    ensures Interpret(pr, s, args, out, text).error.None?
       <==> |args| == Needed(Specs(s)) && AllSupported(Specs(s)) && StarsConvert(pr, Specs(s), args)
    decreases |s|
  {
    hide Interpret, Specs, ParseSpec, Render, Literal, Needed, AllSupported, WidthValue, PrecisionValue;
    var rest := Literal(s).1;
    var d := ParseSpec(out, rest, 0, 0);
    if args == [] || At(rest, 0) == NUL || d.error.Some? {
      NoSpecSucceeds(pr, s, args, out, text);
    } else {
      var m := StartMachine(text, out, s);
      var n := Stars(d.p.extra);
      SpecsUnfold(s, out);
      if Converts(pr, Take(args, n)) && |args| > n {
        var w, v := WidthValue(pr, args, d.p.extra), PrecisionValue(pr, args, d.p.extra);
        ReparseAgrees(rest, out, 0, 0, out, w, v);
        var g := Printed(pr, out, Discovered(m), w, v, args[n]);
        InterpretStar(pr, m, args, Discovered(m));
        SucceedsIff(pr, d.end, args[n + 1..], g.out, g.text);
      } else {
        InterpretFails(pr, m, args);
      }
    }
  }

  lemma SpecsUnfold(s: seq<byte>, out: StreamState)
    requires At(Literal(s).1, 0) != NUL && ParseSpec(out, Literal(s).1, 0, 0).error.None?
    ensures var d := ParseSpec(out, Literal(s).1, 0, 0);
            var first := SpecInfo(Stars(d.p.extra), true);
            && Specs(s) == [first] + Specs(d.end)
            && Specs(s)[1..] == Specs(d.end)
            && Needed(Specs(s)) == Stars(d.p.extra) + 1 + Needed(Specs(d.end))
            && (AllSupported(Specs(s)) <==> AllSupported(Specs(d.end)))
  {
    ReparseAgrees(Literal(s).1, out, 0, 0, PLAIN, 0, 0);
    hide ParseSpec, Literal;
    var d := ParseSpec(out, Literal(s).1, 0, 0);
    assert Specs(s)[1..] == Specs(d.end);
    assert forall i :: 0 <= i < |Specs(d.end)| ==> Specs(s)[i + 1] == Specs(d.end)[i];
  }

  // ---------------------------------------------------------------- the whole call

  /** Construct, accept every argument, finish, destroy. The text is the interpreter's, and the stream's
      width, precision, fill and flags are back as they were, on success and on error alike. */
  method FormatTo<T>(pr: Printer<T>, out: OStream, fmt: seq<byte>, args: seq<T>) returns (error: Option<FormatError>)
    modifies out
    ensures Outcome(out.text, error) == Interpret(pr, fmt, args, old(out.state), old(out.text))
    ensures out.state == old(out.state)
  {
    var it := new FormatIterator(pr, out, fmt);
    ghost var start := it.State();
    MachineRefines(pr, start, args);
    var i := 0;
    error := None;
    while i < |args|
      invariant 0 <= i <= |args| && error.None?
      invariant it.out == out && it.printer == pr && it.orig == old(out.state)
      invariant RunArgs(pr, it.State(), args[i..]) == RunArgs(pr, start, args)
    {
      assert args[i..][0] == args[i] && args[i..][1..] == args[i + 1..];
      error := it.Accept(args[i]);
      if error.Some? {
        it.Restore();
        return;
      }
      i := i + 1;
    }
    error := it.Finish();
    it.Restore();
  }
}
