/** Stars through the whole interpreter: the arguments they take do what numbers in the format string do. */
module FormatStarText {
  import opened Bytes
  import opened FormatSpec
  import opened FormatStar
  import opened Format
  import opened FormatRefinement

  /** Formatting a value does not look at the notes on stars. */
  lemma RenderIgnoresStars<T>(pr: Printer<T>, value: T, out: StreamState, e: Extra, c: byte, w: bool, v: bool)
    ensures Render(pr, value, out, e.(varWidth := w, varPrecision := v), c) == Render(pr, value, out, e, c)
  {
    hide PutString, PlusToSpace, Prefix;
  }

  lemma SpecIsNoLiteral(s: seq<byte>)
    requires At(s, 0) == PERCENT && At(s, 1) != PERCENT
    ensures Literal(s) == ([], s)
  {
  }

  lemma SpecBegins(fs: seq<byte>, t: seq<byte>)
    requires AllFlags(fs) && At(t, 0) != PERCENT
    ensures At([PERCENT] + fs + t, 0) == PERCENT && At([PERCENT] + fs + t, 1) != PERCENT
  {
    assert |[PERCENT] + fs + t| > 1 ==> ([PERCENT] + fs + t)[1] == if fs == [] then t[0] else fs[0];
  }

  /** One specification and its value, without stars. */
  lemma PlainRuns<T>(pr: Printer<T>, s: seq<byte>, value: T, args: seq<T>, out: StreamState, text: seq<byte>)
    requires At(s, 0) == PERCENT && At(s, 1) != PERCENT
    requires var r := ParseSpec(out, s, 0, 0); r.error.None? && Stars(r.p.extra) == 0
    ensures var r := ParseSpec(out, s, 0, 0);
            var put := Render(pr, value, r.p.out, r.p.extra, r.conversion);
            Interpret(pr, s, [value] + args, out, text) == Interpret(pr, r.end, args, put.after, text + put.text)
  {
    SpecIsNoLiteral(s);
    assert ([value] + args)[1..] == args && text + [] == text;
    hide ParseSpec, Render, Interpret, Literal;
    InterpretPlain(pr, StartMachine(text, out, s), [value] + args);
  }

  /** The same behind the arguments of its stars. */
  lemma StarredRuns<T>(pr: Printer<T>, s: seq<byte>, given: seq<T>, value: T, args: seq<T>, out: StreamState,
                       text: seq<byte>, w: int, v: int)
    requires At(s, 0) == PERCENT && At(s, 1) != PERCENT
    requires var d := ParseSpec(out, s, 0, 0);
             && d.error.None? && Stars(d.p.extra) == |given| && Converts(pr, given)
             && (d.p.extra.varWidth ==> pr.toInt(given[0]) == Some(w))
             && (d.p.extra.varPrecision ==> pr.toInt(given[|given| - 1]) == Some(v))
    ensures var r := ParseSpec(out, s, w, v);
            var put := Render(pr, value, r.p.out, r.p.extra, r.conversion);
            Interpret(pr, s, given + ([value] + args), out, text)
            == Interpret(pr, r.end, args, put.after, text + put.text)
  {
    var all, d := given + ([value] + args), ParseSpec(out, s, 0, 0);
    SpecIsNoLiteral(s);
    ReparseAgrees(s, out, 0, 0, out, w, v);
    assert all[|given|] == value && all[|given| + 1..] == args && text + [] == text;
    hide ParseSpec, Render, Interpret, Literal, WidthValue, PrecisionValue;
    StarValues(pr, given, [value] + args, d.p.extra);
    UnusedValues(s, out, w, v, out, WidthValue(pr, all, d.p.extra), PrecisionValue(pr, all, d.p.extra));
    var m := StartMachine(text, out, s);
    InterpretStar(pr, m, all, Discovered(m));
  }

  lemma StarValues<T>(pr: Printer<T>, given: seq<T>, more: seq<T>, e: Extra)
    requires Stars(e) == |given| && Converts(pr, given) && more != []
    ensures Take(given + more, Stars(e)) == given
    ensures e.varWidth ==> Some(WidthValue(pr, given + more, e)) == pr.toInt(given[0])
    ensures e.varPrecision ==> Some(PrecisionValue(pr, given + more, e)) == pr.toInt(given[|given| - 1])
  {
    assert Take(given + more, Stars(e)) == given;
    assert forall i :: 0 <= i < |given| ==> (given + more)[i] == given[i];
  }

  /** Two specifications that differ in their stars only. */
  lemma RunAlike<T>(pr: Printer<T>, star: seq<byte>, inline: seq<byte>, given: seq<T>, value: T, args: seq<T>,
                    out: StreamState, text: seq<byte>, w: int, v: int)
    requires At(star, 0) == PERCENT && At(star, 1) != PERCENT && At(inline, 0) == PERCENT && At(inline, 1) != PERCENT
    requires |given| == 2 && pr.toInt(given[0]) == Some(w) && pr.toInt(given[1]) == Some(v)
    requires var d, r, i := ParseSpec(out, star, 0, 0), ParseSpec(out, star, w, v), ParseSpec(out, inline, 0, 0);
             && d.error.None? && Stars(d.p.extra) == 2 && i.error.None? && Stars(i.p.extra) == 0
             && r.p.out == i.p.out && r.end == i.end && r.conversion == i.conversion
             && r.p.extra == i.p.extra.(varWidth := true, varPrecision := true)
    ensures Interpret(pr, star, given + ([value] + args), out, text)
         == Interpret(pr, inline, [value] + args, out, text)
  {
    hide ParseSpec, Interpret, Render;
    var i := ParseSpec(out, inline, 0, 0);
    StarredRuns(pr, star, given, value, args, out, text, w, v);
    PlainRuns(pr, inline, value, args, out, text);
    RenderIgnoresStars(pr, value, i.p.out, i.p.extra, i.conversion, true, true);
  }

  /** `%*.*` with a width that is not 0 and a precision that is not negative prints what the two numbers in place do,
      and goes on in the same way, whatever follows. */
  lemma StarsPrintAsNumbers<T>(pr: Printer<T>, fs: seq<byte>, tail: seq<byte>, a: T, b: T, w: int, v: int, value: T,
                               args: seq<T>, out: StreamState, text: seq<byte>)
    requires AllFlags(fs) && w != 0 && v >= 0 && !IsDigit(At(tail, 0))
    requires pr.toInt(a) == Some(w) && pr.toInt(b) == Some(v)
    requires ParseSpec(out, [PERCENT] + fs + ([STAR] + ([DOT, STAR] + tail)), 0, 0).error.None?
    ensures Interpret(pr, [PERCENT] + fs + ([STAR] + ([DOT, STAR] + tail)), [a, b] + ([value] + args), out, text)
         == Interpret(pr, [PERCENT] + fs + (Decimal(w) + ([DOT] + Decimal(v) + tail)), [value] + args, out, text)
  {
    hide ParseSpec, Interpret, Decimal, AllFlags, Render;
    var star := [PERCENT] + fs + ([STAR] + ([DOT, STAR] + tail));
    var inline := [PERCENT] + fs + (Decimal(w) + ([DOT] + Decimal(v) + tail));
    SpecBegins(fs, [STAR] + ([DOT, STAR] + tail));
    DecimalBegins(w, [DOT] + Decimal(v) + tail);
    SpecBegins(fs, Decimal(w) + ([DOT] + Decimal(v) + tail));
    NoStars(out, fs, w, v, tail);
    StarsAreInlineIff(out, fs, tail, w, v, 0, 0);
    ReparseAgrees(star, out, 0, 0, out, w, v);
    RunAlike(pr, star, inline, [a, b], value, args, out, text, w, v);
  }

  /** Numbers in place note no star. */
  lemma NoStars(out: StreamState, fs: seq<byte>, w: int, v: int, tail: seq<byte>)
    requires AllFlags(fs) && w != 0 && !IsDigit(At(tail, 0))
    ensures Stars(ParseSpec(out, [PERCENT] + fs + (Decimal(w) + ([DOT] + Decimal(v) + tail)), 0, 0).p.extra) == 0
  {
    var n: nat := if w < 0 then -w else w;
    var p, t := ApplyFlags(Reset(out), fs), [DOT] + Decimal(v) + tail;
    InlineSplitsOff(out, fs, n, w < 0, t, 0, 0);
    FlagsBySet(out, fs);
    DigitsAreRead(n, t);
    var q := if w < 0 then ApplyFlag(p, MINUS) else p;
    assert !q.extra.varWidth && !q.extra.varPrecision;
    var y := Stage(q.(out := q.out.(width := n)), t, true);
    hide ParseSpec, Decimal, Digits, DigitRun, DigitsValue, ApplyFlag, ApplyFlags, Precision, FinishSpec;
    assert Width(q, Digits(n) + t, 0) == y;
    PrecisionsMeet(y.p, tail, v, 0);
    FinishParts(y, Precision(y.p, t, 0), y, Precision(y.p, t, 0));
  }

  lemma DecimalBegins(w: int, t: seq<byte>)
    ensures At(Decimal(w) + t, 0) != PERCENT
  {
    assert (Decimal(w) + t)[0] == Decimal(w)[0];
    if w < 0 {
      assert Decimal(w)[0] == MINUS;
    } else {
      assert Decimal(w)[0] == Digits(w)[0];
    }
    hide Digits;
  }
}
