/** String bodies: those the string rule takes, and among them those of section 7 of RFC 8259. */
module JsonLiterals {
  import opened Bytes
  import opened JsonEscape
  import opened JsonLex

  // ---------------------------------------------------------------- what the rule takes

  /** Any character but a quotation mark, where a backslash takes the next one with it. */
  predicate IsBody(s: seq<byte>)
    decreases |s|
  {
    if s == [] then true
    else if s[0] == QUOTE then false
    else if s[0] != BACKSLASH then IsBody(s[1..])
    else |s| >= 2 && IsBody(s[2..])
  }

  function Literal(body: seq<byte>): seq<byte> {
    [QUOTE] + body + [QUOTE]
  }

  lemma BodyLengthSteps(s: seq<byte>)
    requires s != []
    ensures s[0] != QUOTE && s[0] != BACKSLASH ==> BodyLength(s) == 1 + BodyLength(s[1..])
    ensures s[0] == BACKSLASH && |s| >= 2 ==> BodyLength(s) == 2 + BodyLength(s[2..])
  {
  }

  lemma {:induction false} BodyLengthOfBody(s: seq<byte>, rest: seq<byte>)
    requires IsBody(s)
    ensures BodyLength(s + ([QUOTE] + rest)) == |s|
    decreases |s|
  {
    var tail := [QUOTE] + rest;
    var t := s + tail;
    hide BodyLength;
    if s == [] {
      assert t == tail;
      NoBody(rest);
    } else if s[0] != BACKSLASH {
      assert t[0] == s[0] && t[1..] == s[1..] + tail;
      BodyLengthSteps(t);
      BodyLengthOfBody(s[1..], rest);
    } else {
      assert t[0] == s[0] && t[2..] == s[2..] + tail;
      BodyLengthSteps(t);
      BodyLengthOfBody(s[2..], rest);
    }
  }

  lemma NoBody(rest: seq<byte>)
    ensures BodyLength([QUOTE] + rest) == 0
  {
  }

  lemma {:induction false} BodyLengthIsBody(s: seq<byte>)
    ensures IsBody(s[..BodyLength(s)])
    decreases |s|
  {
    var n := BodyLength(s);
    if s == [] || s[0] == QUOTE {
    } else if s[0] != BACKSLASH {
      BodyLengthIsBody(s[1..]);
      assert s[..n][1..] == s[1..][..n - 1];
    } else if |s| >= 2 {
      BodyLengthIsBody(s[2..]);
      assert s[..n][2..] == s[2..][..n - 2];
    }
  }

  /** The string rule takes exactly the literal, whatever follows, and the action decodes the body. */
  lemma LiteralLexes(body: seq<byte>, rest: seq<byte>)
    requires IsBody(body)
    ensures LexString(Literal(body) + rest) == Some(|Literal(body)|)
    ensures GetStr(Literal(body)) == Unescape(body)
  {
    hide BodyLength, Unescape, IsBody;
    var s := Literal(body) + rest;
    BodyLengthOfBody(body, rest);
    assert s[1..] == body + ([QUOTE] + rest);
    assert s[1 + |body|] == QUOTE;
    assert Literal(body)[1..|Literal(body)| - 1] == body;
  }

  /** And only literals. */
  lemma LexedIsLiteral(s: seq<byte>) returns (body: seq<byte>)
    requires LexString(s).Some?
    ensures IsBody(body) && s[..LexString(s).value] == Literal(body)
    ensures s == Literal(body) + s[LexString(s).value..]
  {
    var n := BodyLength(s[1..]);
    body := s[1..][..n];
    BodyLengthIsBody(s[1..]);
    hide BodyLength, IsBody;
    assert s[..n + 2] == Literal(body);
  }

  // ---------------------------------------------------------------- section 7 of RFC 8259

  /** The character that a two-character escape stands for. */
  function EscapedCode(e: byte): nat {
    if e == 98 then 8          // b: backspace
    else if e == 102 then 12   // f: form feed
    else if e == 110 then 10   // n: line feed
    else if e == 114 then 13   // r: carriage return
    else if e == 116 then 9    // t: tab
    else e as nat              // the quotation mark, either solidus
  }

  function HexQuadCode(s: seq<byte>): (c: nat)
    requires |s| == 4
    ensures c < 0x10000
  {
    4096 * HexToNum(s[0]) + 256 * HexToNum(s[1]) + 16 * HexToNum(s[2]) + HexToNum(s[3])
  }

  /** The character codes of a string body: one for each raw byte, and one for each escape. */
  function Codes(s: seq<byte>): seq<nat>
    requires RfcChars(s)
    decreases |s|
  {
    if s == [] then []
    else if s[0] != BACKSLASH then [s[0] as nat] + Codes(s[1..])
    else if s[1] != 117 then [EscapedCode(s[1])] + Codes(s[2..])
    else [HexQuadCode(s[2..6])] + Codes(s[6..])
  }

  /** A `char` keeps the low eight bits. */
  function LowBytes(codes: seq<nat>): (s: seq<byte>)
    ensures |s| == |codes|
  {
    seq(|codes|, i requires 0 <= i < |codes| => (codes[i] % 256) as byte)
  }

  lemma {:induction false} RfcCharsAreBody(s: seq<byte>)
    requires RfcChars(s)
    ensures IsBody(s)
    decreases |s|
  {
    if s != [] {
      if s[0] != BACKSLASH {
        RfcCharsAreBody(s[1..]);
      } else if s[1] != 117 {
        RfcCharsAreBody(s[2..]);
      } else {
        RfcCharsAreBody(s[6..]);
        assert s[2..][4..] == s[6..];
        assert IsHexDigit(s[2]) && IsHexDigit(s[3]) && IsHexDigit(s[4]) && IsHexDigit(s[5]);
        PlainBody(s[2..], 4);
      }
    }
  }

  lemma PlainStep(s: seq<byte>)
    requires s != [] && s[0] != QUOTE && s[0] != BACKSLASH && IsBody(s[1..])
    ensures IsBody(s)
  {
  }

  lemma {:induction false} PlainBody(s: seq<byte>, n: nat)
    requires n <= |s| && IsBody(s[n..])
    requires forall i :: 0 <= i < n ==> s[i] != QUOTE && s[i] != BACKSLASH
    ensures IsBody(s)
    decreases n
  {
    hide IsBody;
    if n > 0 {
      assert s[1..][n - 1..] == s[n..];
      PlainBody(s[1..], n - 1);
      PlainStep(s);
    } else {
      assert s[0..] == s;
    }
  }

  lemma LowBytesCons(c: nat, codes: seq<nat>)
    ensures LowBytes([c] + codes) == [(c % 256) as byte] + LowBytes(codes)
  {
  }

  lemma {:induction false} RfcUnescape(s: seq<byte>)
    requires RfcChars(s)
    ensures Unescape(s) == LowBytes(Codes(s))
    decreases |s|
  {
    if s != [] {
      if s[0] != BACKSLASH {
        LowBytesCons(s[0] as nat, Codes(s[1..]));
        RfcUnescape(s[1..]);
      } else if s[1] != 117 {
        LowBytesCons(EscapedCode(s[1]), Codes(s[2..]));
        RfcUnescape(s[2..]);
      } else {
        LowBytesCons(HexQuadCode(s[2..6]), Codes(s[6..]));
        RfcUnescape(s[6..]);
        HexQuadIsLowByte(s);
      }
      hide LowBytes, HexQuad, HexQuadCode, HexPair;
    }
  }

  lemma HexQuadIsLowByte(s: seq<byte>)
    requires |s| >= 6
    ensures HexQuad(s[2], s[3], s[4], s[5]) == (HexQuadCode(s[2..6]) % 256) as byte
  {
    assert s[2..6] == [s[2], s[3], s[4], s[5]];
  }

  /** No `\u` escape above 00FF. */
  predicate IsNarrow(codes: seq<nat>) {
    forall i :: 0 <= i < |codes| ==> codes[i] < 256
  }

  /** `s` is the string with these character codes. */
  predicate Spells(s: seq<byte>, codes: seq<nat>) {
    |s| == |codes| && forall i :: 0 <= i < |s| ==> s[i] as nat == codes[i]
  }

  lemma SpellsIffNarrow(codes: seq<nat>)
    ensures Spells(LowBytes(codes), codes) <==> IsNarrow(codes)
  {
    if Spells(LowBytes(codes), codes) {
      forall i | 0 <= i < |codes| ensures codes[i] < 256 {
        assert LowBytes(codes)[i] as nat == codes[i];
      }
    }
  }
}
