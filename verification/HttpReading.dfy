/** What the reading functions make of any line at all: lines, words, numbers, versions and request lines. */
module HttpReading {
  import opened Bytes
  import opened Http
  import opened HttpFraming

  // ---------------------------------------------------------------- lines and words

  /** A line without a line end is all there is. */
  lemma {:induction false} LastLine(s: seq<byte>)
    requires OneLine(s)
    ensures SplitLine(s) == (s, [])
  {
    if s != [] {
      LastLine(s[1..]);
      assert [s[0]] + s[1..] == s;
    }
  }

  /** Words with one space between them. */
  function Spaced(words: seq<seq<byte>>): seq<byte> {
    if words == [] then []
    else if |words| == 1 then words[0]
    else words[0] + Ascii(" ") + Spaced(words[1..])
  }

  predicate AreWords(words: seq<seq<byte>>) {
    words != [] && forall i :: 0 <= i < |words| ==> SPACE !in words[i]
  }

  lemma {:induction false} WordsOfSpaced(words: seq<seq<byte>>)
    requires AreWords(words)
    ensures Words(Spaced(words)) == words
  {
    assert Ascii(" ") == [SPACE];
    if |words| == 1 {
      OneWord(words[0]);
    } else {
      WordsOfSpaced(words[1..]);
      WordSplitsOff(words[0], Spaced(words[1..]));
      assert words == [words[0]] + words[1..];
    }
  }

  /** Splitting undoes putting spaces between words, and the other way round, on every line. */
  lemma {:induction false} WordsAreSplit(s: seq<byte>)
    ensures AreWords(Words(s)) && Spaced(Words(s)) == s
    ensures forall words :: AreWords(words) && Spaced(words) == s ==> words == Words(s)
  {
    SpacedOfWords(s);
    forall words | AreWords(words) && Spaced(words) == s ensures words == Words(s) {
      WordsOfSpaced(words);
    }
  }

  lemma {:induction false} SpacedOfWords(s: seq<byte>)
    ensures AreWords(Words(s)) && Spaced(Words(s)) == s
  {
    if s == [] {
      assert AreWords([[]]) && Spaced([[]]) == [];
    } else {
      SpacedOfWords(s[1..]);
      WordsStep(s);
      hide Words, AreWords, Spaced;
      if s[0] == SPACE {
        EmptyWordFirst(Words(s[1..]));
      } else {
        LongerFirstWord(s[0], Words(s[1..]));
      }
      assert s == [s[0]] + s[1..];
    }
  }

  lemma {:induction false} WordsStep(s: seq<byte>)
    requires s != []
    ensures var w := Words(s[1..]); Words(s) == if s[0] == SPACE then [[]] + w else [[s[0]] + w[0]] + w[1..]
  {
  }

  lemma {:induction false} SpacedStep(w: seq<seq<byte>>)
    requires w != []
    ensures Spaced(w) == if |w| == 1 then w[0] else w[0] + [SPACE] + Spaced(w[1..])
  {
    assert Ascii(" ") == [SPACE];
  }

  lemma EmptyWordFirst(w: seq<seq<byte>>)
    requires AreWords(w)
    ensures AreWords([[]] + w) && Spaced([[]] + w) == [SPACE] + Spaced(w)
  {
    hide Spaced;
    var v := [[]] + w;
    assert v[1..] == w;
    SpacedStep(v);
  }

  lemma LongerFirstWord(c: byte, w: seq<seq<byte>>)
    requires AreWords(w) && c != SPACE
    ensures AreWords([[c] + w[0]] + w[1..]) && Spaced([[c] + w[0]] + w[1..]) == [c] + Spaced(w)
  {
    hide Spaced;
    var v := [[c] + w[0]] + w[1..];
    assert v[1..] == w[1..] && v[0] == [c] + w[0];
    LongerWords(c, w);
    hide AreWords;
    SpacedStep(v);
    SpacedStep(w);
    if |w| > 1 {
      Assoc4([c], w[0], [SPACE], Spaced(w[1..]));
      Assoc(w[0], [SPACE], Spaced(w[1..]));
    }
  }

  lemma LongerWords(c: byte, w: seq<seq<byte>>)
    requires AreWords(w) && c != SPACE
    ensures AreWords([[c] + w[0]] + w[1..])
  {
    var v := [[c] + w[0]] + w[1..];
    forall i | 0 <= i < |v| ensures SPACE !in v[i] {
      assert i > 0 ==> v[i] == w[i];
    }
  }

  // ---------------------------------------------------------------- numbers

  /** A numeral behind white space, with a sign or without: its number, whatever follows its digits. */
  lemma AtoiReads(w: seq<byte>, sign: seq<byte>, ds: seq<byte>, rest: seq<byte>)
    requires AllSpace(w) && sign in {[], Ascii("+"), Ascii("-")} && ds != [] && AllDigits(ds) && !StartsWithDigit(rest)
    ensures var n: int := DigitsValue(ds); Atoi(w + (sign + (ds + rest))) == if sign == Ascii("-") then -n else n
  {
    hide DigitsValue, DigitRun, Skip;
    SignCharacters();
    var t := sign + (ds + rest);
    SkipOver(w, t);
    assert Skip(t) == t by {
      assert t[0] == if sign == [] then ds[0] else sign[0];
      SkipsNothing(t);
    }
    DigitRunOf(ds, rest);
    SliceOver(ds, rest);
    assert t[|sign|..] == ds + rest;
    assert (ds + rest)[0] == ds[0];
  }

  lemma SkipsNothing(t: seq<byte>)
    requires t != [] && !IsSpace(t[0])
    ensures Skip(t) == t
  {
  }

  lemma SignCharacters()
    ensures Ascii("+") == [PLUS] && Ascii("-") == [MINUS]
  {
  }

  /** Without a digit there the number is 0. */
  lemma AtoiReadsNothing(w: seq<byte>, sign: seq<byte>, rest: seq<byte>)
    requires AllSpace(w) && sign in {[], Ascii("+"), Ascii("-")} && !StartsWithDigit(rest)
    requires sign == [] && rest != [] ==> !IsSpace(rest[0]) && rest[0] != PLUS && rest[0] != MINUS
    ensures Atoi(w + (sign + rest)) == 0
  {
    hide Skip;
    SignCharacters();
    var t := sign + rest;
    SkipOver(w, t);
    if t == [] {
      NothingSkipped();
    } else {
      assert t[0] == if sign == [] then rest[0] else sign[0];
      SkipsNothing(t);
      assert t[|sign|..] == rest;
      assert sign == [] ==> t == rest;
    }
    assert DigitRun(rest) == 0 && rest[..0] == [];
  }

  lemma NothingSkipped()
    ensures Skip([]) == []
  {
  }

  // ---------------------------------------------------------------- versions

  /** The mark of a version stands at position `i` of `s`. */
  predicate MarkAt(s: seq<byte>, i: nat) {
    i + 7 <= |s| && s[i..i + 7] == Ascii("HTTP/1.")
  }

  /** The number behind the first mark in front of any NUL; 0 without one. */
  lemma {:induction false} VersionIs(s: seq<byte>, i: nat)
    requires i <= |s| && NUL !in s[..i] && (forall j :: 0 <= j < i ==> !MarkAt(s, j))
    ensures MarkAt(s, i) ==> Version(s) == Atoi(s[i + 7..])
    ensures i == |s| || s[i] == NUL ==> Version(s) == 0
    decreases i
  {
    MarkLength();
    hide Ascii, Atoi;
    if i == 0 {
      MarkInFront(s);
    } else {
      assert s[..i][0] == s[0];
      assert !MarkAt(s, 0);
      MarkInFront(s);
      forall j | 0 <= j < i - 1 ensures !MarkAt(s[1..], j) {
        assert !MarkAt(s, j + 1);
        Shifted(s, j);
      }
      assert s[1..][..i - 1] == s[..i][1..];
      Shifted(s, i - 1);
      VersionIs(s[1..], i - 1);
      assert i + 7 <= |s| ==> s[1..][i + 6..] == s[i + 7..];
    }
  }

  lemma Shifted(s: seq<byte>, j: nat)
    requires s != []
    ensures MarkAt(s[1..], j) <==> MarkAt(s, j + 1)
  {
    hide Ascii;
    if j + 8 <= |s| {
      assert s[1..][j..j + 7] == s[j + 1..j + 8];
    }
  }

  lemma MarkLength()
    ensures |Ascii("HTTP/1.")| == 7 && Ascii("HTTP/1.")[0] == 72
  {
  }

  lemma MarkInFront(s: seq<byte>)
    ensures MarkAt(s, 0) <==> Ascii("HTTP/1.") <= s
    ensures MarkAt(s, 0) ==> s[0] != NUL
  {
    MarkLength();
    hide Ascii;
    if MarkAt(s, 0) {
      assert s[0..7][0] == s[0];
    }
  }

  // ---------------------------------------------------------------- request lines

  /** A request line is accepted exactly when its first word is GET or POST and its second begins with a slash. */
  lemma RequestAcceptedIff(verb: seq<byte>, uri: seq<byte>, more: seq<seq<byte>>, rest: seq<byte>, before: Request)
    requires AreWords([verb, uri] + more) && OneLine(Spaced([verb, uri] + more))
    ensures var r := ReadRequest(Spaced([verb, uri] + more) + Ascii("\n") + rest, before);
            && (r.ok <==> verb in {Ascii("GET"), Ascii("POST")} && uri != [] && uri[0] as int == '/' as int)
            && r.rest == rest
            && (r.ok ==> r.verb == verb && r.uri == uri && r.proto == if more == [] then 0 else Version(more[0]))
            && (!r.ok ==> r.proto == before.proto)
  {
    var words := [verb, uri] + more;
    LineEndIs();
    hide Spaced, Words, SplitLine, ReadRequest, Ascii, AreWords;
    WordsOfSpaced(words);
    LineSplitsOff(Spaced(words), rest);
    assert words[0] == verb && words[1] == uri && (more != [] ==> words[2] == more[0]);
    AcceptedByWords(Spaced(words) + [LF] + rest, words, rest, before);
  }

  lemma LineEndIs()
    ensures Ascii("\n") == [LF]
  {
  }

  lemma AcceptedByWords(s: seq<byte>, words: seq<seq<byte>>, rest: seq<byte>, before: Request)
    requires Words(SplitLine(s).0) == words && SplitLine(s).1 == rest && |words| >= 2
    ensures var r, verb, uri := ReadRequest(s, before), words[0], words[1];
            && (r.ok <==> verb in {Ascii("GET"), Ascii("POST")} && uri != [] && uri[0] as int == '/' as int)
            && r.rest == rest
            && (r.ok ==> r.verb == verb && r.uri == uri && r.proto == if |words| == 2 then 0 else Version(words[2]))
            && (!r.ok ==> r.proto == before.proto)
  {
    NoVersion();
    hide Version, Ascii, Words, SplitLine;
  }

  lemma NoVersion()
    ensures Version([]) == 0
  {
  }

  /** A single word is no request line, and no status line. */
  lemma OneWordIsRefused(word: seq<byte>, rest: seq<byte>, before: Request)
    requires SPACE !in word && OneLine(word)
    ensures var s := word + Ascii("\n") + rest;
            && ReadRequest(s, before) == before.(ok := false, rest := rest)
            && ReadStatus(s, before.proto) == Status(500, before.proto, rest)
  {
    LineEndIs();
    OneWord(word);
    LineSplitsOff(word, rest);
    hide Words, SplitLine, Ascii;
  }

  // ---------------------------------------------------------------- letters

  /** Lower case: a capital letter becomes the small one in the same place, everything else stays. */
  lemma LowerIs(c: byte, i: nat)
    requires i < 26
    ensures c as int == UPPER[i] as int ==> LowerByte(c) as int == LOWER[i] as int
    ensures c !in Ascii(UPPER) ==> LowerByte(c) == c
  {
    UpperCode(i);
    LowerCode(i);
    if 65 <= c <= 90 {
      InUpper(c);
    }
    hide Ascii;
  }

  lemma InUpper(c: byte)
    requires 65 <= c <= 90
    ensures c in Ascii(UPPER)
  {
    UpperCode(c as int - 65);
    assert Ascii(UPPER)[c as int - 65] == c;
  }
}
