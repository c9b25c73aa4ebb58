/** The messages in the characters that are sent. */
module HttpTexts {
  import opened Bytes
  import opened Http

  // ---------------------------------------------------------------- requests

  /** The caller's headers, a line for each. */
  function HeaderLines(hs: seq<Header>): seq<byte> {
    if hs == [] then [] else hs[0].name + Ascii(": ") + hs[0].value + Ascii("\r\n") + HeaderLines(hs[1..])
  }

  lemma {:induction false} LinesConcat(a: seq<seq<byte>>, b: seq<seq<byte>>)
    ensures Lines(a + b) == Lines(a) + Lines(b)
  {
    if a == [] {
      assert a + b == b;
    } else {
      assert (a + b)[1..] == a[1..] + b;
      LinesConcat(a[1..], b);
    }
  }

  lemma Ends()
    ensures Ascii("\r\n") == EOL && Ascii(": ") == [COLON, SPACE]
  {
  }

  lemma {:induction false} HeaderLinesAreLines(hs: seq<Header>)
    ensures Lines(HeaderTexts(hs)) == HeaderLines(hs)
  {
    Ends();
    hide Ascii;
    if hs != [] {
      HeaderLinesAreLines(hs[1..]);
      assert HeaderTexts(hs)[1..] == HeaderTexts(hs[1..]);
    }
  }

  lemma {:induction false} SixLinesOf(
      a: seq<byte>, b: seq<byte>, c: seq<byte>, d: seq<byte>, e: seq<byte>, f: seq<byte>)
    ensures Lines([a, b, c, d, e, f])
         == (a + EOL) + (b + EOL) + (c + EOL) + (d + EOL) + (e + EOL) + (f + EOL)
  {
    var ls := [a, b, c, d, e, f];
    assert ls[1..] == [b, c, d, e, f] && [b, c, d, e, f][1..] == [c, d, e, f] && [c, d, e, f][1..] == [d, e, f];
    assert [d, e, f][1..] == [e, f] && [e, f][1..] == [f];
    assert Lines([f]) == f + EOL;
    assert Lines([e, f]) == e + EOL + (f + EOL);
    assert Lines([d, e, f]) == d + EOL + (e + EOL + (f + EOL));
    assert Lines([c, d, e, f]) == c + EOL + (d + EOL + (e + EOL + (f + EOL)));
    assert Lines([b, c, d, e, f]) == b + EOL + (c + EOL + (d + EOL + (e + EOL + (f + EOL))));
  }

  lemma FirstLineIs()
    ensures RequestLine() + EOL == Ascii("POST / HTTP/1.1\r\n")
  {
  }

  lemma AgentLineIs(version: seq<byte>)
    ensures HeaderText(Ascii("User-Agent"), Ascii("FidChain-json-rpc/") + version) + EOL
         == Ascii("User-Agent: ") + Ascii("FidChain-json-rpc/") + version + Ascii("\r\n")
  {
    assert Ascii("User-Agent: ") == Ascii("User-Agent") + [COLON, SPACE];
    Ends();
    hide Ascii;
    var start := Ascii("User-Agent") + [COLON, SPACE];
    assert start + (Ascii("FidChain-json-rpc/") + version) + EOL == start + Ascii("FidChain-json-rpc/") + version + EOL;
  }

  lemma HostLineIs()
    ensures HeaderText(Ascii("Host"), Ascii("127.0.0.1")) + EOL == Ascii("Host: 127.0.0.1\r\n")
  {
  }

  lemma JsonIs()
    ensures Ascii("application/json") + EOL == Ascii("application/json\r\n")
  {
  }

  lemma TypeLineIs()
    ensures HeaderText(Ascii("Content-Type"), Ascii("application/json")) + EOL
         == Ascii("Content-Type: ") + Ascii("application/json\r\n")
  {
    assert Ascii("Content-Type: ") == Ascii("Content-Type") + [COLON, SPACE];
    hide Ascii;
    JsonIs();
    Assoc(Ascii("Content-Type: "), Ascii("application/json"), EOL);
  }

  lemma LengthLineIs(n: nat)
    ensures HeaderText(Ascii("Content-Length"), Digits(n)) + EOL
         == Ascii("Content-Length: ") + Digits(n) + Ascii("\r\n")
  {
    assert Ascii("Content-Length: ") == Ascii("Content-Length") + [COLON, SPACE];
    Ends();
    hide Ascii, Digits;
  }

  lemma ConnectionLineIs()
    ensures HeaderText(Ascii("Connection"), Ascii("keep-alive")) + EOL == Ascii("Connection: keep-alive\r\n")
  {
  }

  lemma AcceptLineIs()
    ensures HeaderText(Ascii("Accept"), Ascii("application/json")) + EOL
         == Ascii("Accept: ") + Ascii("application/json\r\n")
  {
    assert Ascii("Accept: ") == Ascii("Accept") + [COLON, SPACE];
    hide Ascii;
    JsonIs();
    Assoc(Ascii("Accept: "), Ascii("application/json"), EOL);
  }

  /** The lines of the program's own. */
  function OwnLines(length: nat, version: seq<byte>): seq<byte> {
    Ascii("User-Agent: ") + Ascii("FidChain-json-rpc/") + version + Ascii("\r\n")
    + Ascii("Host: 127.0.0.1\r\n")
    + (Ascii("Content-Type: ") + Ascii("application/json\r\n"))
    + (Ascii("Content-Length: ") + Digits(length) + Ascii("\r\n"))
    + Ascii("Connection: keep-alive\r\n")
    + (Ascii("Accept: ") + Ascii("application/json\r\n"))
  }

  lemma OwnLinesAreLines(length: nat, version: seq<byte>)
    ensures Lines(OwnHeaders(length, version)) == OwnLines(length, version)
  {
    hide Ascii, Digits, HeaderText;
    AgentLineIs(version);
    HostLineIs();
    TypeLineIs();
    LengthLineIs(length);
    ConnectionLineIs();
    AcceptLineIs();
    var ls := OwnHeaders(length, version);
    assert ls == [ls[0], ls[1], ls[2], ls[3], ls[4], ls[5]];
    hide Lines;
    SixLinesOf(ls[0], ls[1], ls[2], ls[3], ls[4], ls[5]);
  }

  /** The whole text of a request. */
  lemma PostText(msg: seq<byte>, hs: seq<Header>, version: seq<byte>)
    ensures HTTPPost(msg, hs, version)
         == Ascii("POST / HTTP/1.1\r\n") + (OwnLines(|msg|, version) + HeaderLines(hs)) + Ascii("\r\n") + msg
  {
    hide Ascii, RequestLine, Lines, OwnHeaders, HeaderTexts, OwnLines, HeaderLines;
    Ends();
    FirstLineIs();
    OwnLinesAreLines(|msg|, version);
    HeaderLinesAreLines(hs);
    LinesConcat(OwnHeaders(|msg|, version), HeaderTexts(hs));
  }

  // ---------------------------------------------------------------- replies

  lemma StatusStarts(status: int)
    ensures StatusLine(status) == Ascii("HTTP/1.1 ") + (Decimal(status) + [SPACE] + Reason(status))
  {
    assert Ascii("HTTP/1.1 ") == Ascii("HTTP/1.1") + [SPACE];
    hide Ascii, Decimal, Reason;
    var start := Ascii("HTTP/1.1") + [SPACE];
    assert start + Decimal(status) + [SPACE] + Reason(status) == start + (Decimal(status) + [SPACE] + Reason(status));
  }

  lemma ThreeDigits(a: nat, b: nat, c: nat)
    requires 0 < a < 10 && b < 10 && c < 10
    ensures Decimal(100 * a + 10 * b + c) == [DigitByte(a), DigitByte(b), DigitByte(c)]
  {
    hide Digits, DigitByte;
    DigitsUnfold(100 * a + 10 * b + c);
    DigitsUnfold(10 * a + b);
    DigitsUnfold(a);
  }

  /** A code of three digits and the space behind it. */
  lemma CodeIs(status: nat, a: nat, b: nat, c: nat, text: string)
    requires 0 < a < 10 && b < 10 && c < 10 && status == 100 * a + 10 * b + c
    requires text == [(48 + a) as char, (48 + b) as char, (48 + c) as char, ' ']
    ensures Decimal(status) + [SPACE] == Ascii(text)
  {
    ThreeDigits(a, b, c);
    hide Decimal;
  }

  lemma CodesAre()
    ensures Decimal(200) + [SPACE] == Ascii("200 ")
    ensures Decimal(400) + [SPACE] == Ascii("400 ")
    ensures Decimal(403) + [SPACE] == Ascii("403 ")
    ensures Decimal(404) + [SPACE] == Ascii("404 ")
    ensures Decimal(500) + [SPACE] == Ascii("500 ")
  {
    hide Decimal, Ascii;
    CodeIs(200, 2, 0, 0, "200 ");
    CodeIs(400, 4, 0, 0, "400 ");
    CodeIs(403, 4, 0, 3, "403 ");
    CodeIs(404, 4, 0, 4, "404 ");
    CodeIs(500, 5, 0, 0, "500 ");
  }

  lemma SpaceIs()
    ensures Ascii(" ") == [SPACE]
  {
  }

  /** The first line of a reply, for the codes that have a text and for all others. */
  lemma StatusLines(status: int)
    ensures StatusLine(200) == Ascii("HTTP/1.1 ") + (Ascii("200 ") + Ascii("OK"))
    ensures StatusLine(400) == Ascii("HTTP/1.1 ") + (Ascii("400 ") + Ascii("Bad Request"))
    ensures StatusLine(403) == Ascii("HTTP/1.1 ") + (Ascii("403 ") + Ascii("Forbidden"))
    ensures StatusLine(404) == Ascii("HTTP/1.1 ") + (Ascii("404 ") + Ascii("Not Found"))
    ensures StatusLine(500) == Ascii("HTTP/1.1 ") + (Ascii("500 ") + Ascii("Internal Server Error"))
    ensures status !in {200, 400, 403, 404, 500} ==>
              StatusLine(status) == Ascii("HTTP/1.1 ") + (Decimal(status) + Ascii(" "))
  {
    hide Ascii, Decimal, StatusLine;
    StatusStarts(200);
    StatusStarts(400);
    StatusStarts(403);
    StatusStarts(404);
    StatusStarts(500);
    StatusStarts(status);
    CodesAre();
    SpaceIs();
    if status !in {200, 400, 403, 404, 500} {
      assert Decimal(status) + [SPACE] + Reason(status) == Decimal(status) + [SPACE];
    }
  }
}
