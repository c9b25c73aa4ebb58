/** Requests: the caller's own headers come last, so they can change the announced length. */
module HttpRequests {
  import opened Bytes
  import opened Http
  import opened HttpFraming

  /** What the header lines announce; the last Content-Length wins. */
  function Announced(n: int, lines: seq<seq<byte>>): int
    decreases lines
  {
    if lines == [] then n
    else Announced(if FindColon(lines[0]) < |lines[0]| && FieldName(lines[0]) == Ascii("content-length")
                   then Atoi(FieldValue(lines[0])) else n, lines[1..])
  }

  lemma {:induction false} FoldAnnounces(h: Head, lines: seq<seq<byte>>)
    ensures Fold(h, lines).length == Announced(h.length, lines)
    decreases lines
  {
    if lines != [] {
      FoldAnnounces(HeadStep(h, lines[0]), lines[1..]);
    }
  }

  lemma RequestLineReadsBack(rest: seq<byte>, before: Request)
    ensures ReadRequest(RequestLine() + EOL + rest, before) == Request(true, 1, Ascii("POST"), [SLASH], rest)
  {
    var verb, protocol := Ascii("POST"), Ascii("HTTP/1.1");
    var second := [SLASH] + [SPACE] + (protocol + [CR]);
    assert protocol == Ascii("HTTP/1.") + Digits(1);
    PlainNameFacts("POST");
    ProtocolIsPlain(protocol, 1);
    LinesJoin(protocol, [CR]);
    FirstLineIsLine(verb, [SLASH], protocol + [CR]);
    LineSplitsOff(verb + [SPACE] + second, rest);
    FirstLineSplits(verb, [SLASH], protocol, rest);
    WordSplitsOff(verb, second);
    WordSplitsOff([SLASH], protocol + [CR]);
    OneWord(protocol + [CR]);
    VersionReadsBack(protocol, 1, [CR]);
    hide Words, Version, Atoi, SplitLine, Ascii, Digits, OneLine;
  }

  lemma KeepsLength(h: Head, name: string, value: seq<byte>)
    requires PlainName(name) && |name| != 14
    ensures HeadStep(h, HeaderText(Ascii(name), value) + [CR]).length == h.length
  {
    PlainNameFacts(name);
    NameReadsBack(Ascii(name), value);
  }

  /** The last three of the program's own lines. */
  lemma ConnectionKeepsLength(h: Head)
    ensures HeadStep(h, HeaderText(Ascii("Connection"), Ascii("keep-alive")) + [CR]).length == h.length
  {
    KeepsLength(h, "Connection", Ascii("keep-alive"));
    hide HeadStep, HeaderText, Ascii;
  }

  lemma AcceptKeepsLength(h: Head)
    ensures HeadStep(h, HeaderText(Ascii("Accept"), Ascii("application/json")) + [CR]).length == h.length
  {
    KeepsLength(h, "Accept", Ascii("application/json"));
    hide HeadStep, HeaderText, Ascii;
  }

  lemma LastThreeAnnounce(d: Head, n: nat)
    ensures HeadStep(HeadStep(HeadStep(d, HeaderText(Ascii("Content-Length"), Digits(n)) + [CR]),
                              HeaderText(Ascii("Connection"), Ascii("keep-alive")) + [CR]),
                     HeaderText(Ascii("Accept"), Ascii("application/json")) + [CR]).length == n
  {
    hide HeadStep, HeaderText, Ascii, Digits;
    LengthField(d, n);
    var e := HeadStep(d, HeaderText(Ascii("Content-Length"), Digits(n)) + [CR]);
    ConnectionKeepsLength(e);
    AcceptKeepsLength(HeadStep(e, HeaderText(Ascii("Connection"), Ascii("keep-alive")) + [CR]));
  }

  /** The program's own lines announce the length of the message. */
  lemma OwnHeadersAnnounce(n: nat, version: seq<byte>)
    ensures Fold(NO_HEAD, WithCR(OwnHeaders(n, version))).length == n
  {
    hide Fold, HeadStep, HeaderText, Ascii, Digits, WithCR, Server, OwnHeaders;
    var agent, host, kind, length, connection, accept :=
      HeaderText(Ascii("User-Agent"), Server(version)), HeaderText(Ascii("Host"), Ascii("127.0.0.1")),
      HeaderText(Ascii("Content-Type"), Ascii("application/json")), HeaderText(Ascii("Content-Length"), Digits(n)),
      HeaderText(Ascii("Connection"), Ascii("keep-alive")), HeaderText(Ascii("Accept"), Ascii("application/json"));
    OwnHeadersListed(n, version);
    SixAnnounced(NO_HEAD, agent, host, kind, length, connection, accept);
    LastThreeAnnounce(Fold(NO_HEAD, WithCR([agent, host, kind])), n);
  }

  /** The last three of six lines, one by one. */
  lemma SixAnnounced(h: Head, a: seq<byte>, b: seq<byte>, c: seq<byte>, d: seq<byte>, e: seq<byte>, f: seq<byte>)
    ensures Fold(h, WithCR([a, b, c, d, e, f]))
         == HeadStep(HeadStep(HeadStep(Fold(h, WithCR([a, b, c])), d + [CR]), e + [CR]), f + [CR])
  {
    var three, g := [d + [CR], e + [CR], f + [CR]], Fold(h, WithCR([a, b, c]));
    assert WithCR([a, b, c, d, e, f]) == WithCR([a, b, c]) + three;
    FoldConcat(h, WithCR([a, b, c]), three);
    FoldThree(g, d + [CR], e + [CR], f + [CR]);
  }

  lemma FoldThree(g: Head, x: seq<byte>, y: seq<byte>, z: seq<byte>)
    ensures Fold(g, [x, y, z]) == HeadStep(HeadStep(HeadStep(g, x), y), z)
  {
    hide HeadStep;
    assert [x, y, z][1..] == [y, z] && [y, z][1..] == [z];
    assert Fold(HeadStep(HeadStep(g, x), y), [z]) == HeadStep(HeadStep(HeadStep(g, x), y), z);
    assert Fold(HeadStep(g, x), [y, z]) == Fold(HeadStep(HeadStep(g, x), y), [z]);
  }

  lemma OwnHeadersListed(n: nat, version: seq<byte>)
    ensures OwnHeaders(n, version) ==
      [HeaderText(Ascii("User-Agent"), Server(version)), HeaderText(Ascii("Host"), Ascii("127.0.0.1")),
       HeaderText(Ascii("Content-Type"), Ascii("application/json")), HeaderText(Ascii("Content-Length"), Digits(n)),
       HeaderText(Ascii("Connection"), Ascii("keep-alive")), HeaderText(Ascii("Accept"), Ascii("application/json"))]
  {
  }

  lemma AgentIsLine(version: seq<byte>)
    requires OneLine(version)
    ensures IsLine(HeaderText(Ascii("User-Agent"), Ascii("FidChain-json-rpc/") + version))
  {
    ServerIsLine(version);
    ServerText(version);
    hide HeaderText, Ascii, OneLine, Server;
    HeaderIsLine("User-Agent", Server(version));
  }

  lemma HostIsLine()
    ensures IsLine(HeaderText(Ascii("Host"), Ascii("127.0.0.1")))
  {
    hide HeaderText, Ascii, OneLine;
    PlainTextIsLine("127.0.0.1");
    HeaderIsLine("Host", Ascii("127.0.0.1"));
  }

  lemma KeepAliveIsLine()
    ensures IsLine(HeaderText(Ascii("Connection"), Ascii("keep-alive")))
  {
    hide HeaderText, Ascii, OneLine;
    PlainTextIsLine("keep-alive");
    HeaderIsLine("Connection", Ascii("keep-alive"));
  }

  lemma AcceptIsLine()
    ensures IsLine(HeaderText(Ascii("Accept"), Ascii("application/json")))
  {
    hide HeaderText, Ascii, OneLine;
    PlainTextIsLine("application/json");
    HeaderIsLine("Accept", Ascii("application/json"));
  }

  lemma SixLines(a: seq<byte>, b: seq<byte>, c: seq<byte>, d: seq<byte>, e: seq<byte>, f: seq<byte>)
    requires IsLine(a) && IsLine(b) && IsLine(c) && IsLine(d) && IsLine(e) && IsLine(f)
    ensures AreLines([a, b, c, d, e, f])
  {
  }

  lemma OwnHeadersAreLines(n: nat, version: seq<byte>)
    requires OneLine(version)
    ensures AreLines(OwnHeaders(n, version))
  {
    hide HeaderText, Ascii, OneLine, Digits, IsLine, AreLines;
    AgentIsLine(version);
    HostIsLine();
    TypeIsLine();
    LengthIsLine(n);
    KeepAliveIsLine();
    AcceptIsLine();
    var ls := OwnHeaders(n, version);
    SixLines(ls[0], ls[1], ls[2], ls[3], ls[4], ls[5]);
  }

  predicate AreHeaders(hs: seq<Header>) {
    forall i :: 0 <= i < |hs| ==> OneLine(hs[i].name) && OneLine(hs[i].value)
  }

  lemma CustomHeadersAreLines(hs: seq<Header>)
    requires AreHeaders(hs)
    ensures AreLines(HeaderTexts(hs))
  {
    forall i | 0 <= i < |hs| ensures OneLine(HeaderTexts(hs)[i]) && HeaderTexts(hs)[i] != [] {
      LinesJoin(hs[i].name, [COLON, SPACE]);
      LinesJoin(hs[i].name + [COLON, SPACE], hs[i].value);
    }
  }

  /** The length the reader goes by. */
  function AnnouncedLength(msg: seq<byte>, hs: seq<Header>): int {
    Announced(|msg|, WithCR(HeaderTexts(hs)))
  }

  lemma RequestHead(msg: seq<byte>, hs: seq<Header>, version: seq<byte>)
    requires AreHeaders(hs) && OneLine(version)
    ensures AreLines(OwnHeaders(|msg|, version) + HeaderTexts(hs))
    ensures Fold(NO_HEAD, WithCR(OwnHeaders(|msg|, version) + HeaderTexts(hs))).length == AnnouncedLength(msg, hs)
  {
    var own, custom := OwnHeaders(|msg|, version), HeaderTexts(hs);
    OwnHeadersAreLines(|msg|, version);
    CustomHeadersAreLines(hs);
    OwnHeadersAnnounce(|msg|, version);
    assert WithCR(own + custom) == WithCR(own) + WithCR(custom);
    FoldConcat(NO_HEAD, WithCR(own), WithCR(custom));
    FoldAnnounces(Fold(NO_HEAD, WithCR(own)), WithCR(custom));
  }

  /** A request, whatever follows it: the request line reads back, and the message reads back exactly, up to the
      first byte of what follows, if and only if the headers announce its length and it is not too long. */
  lemma PostReadsBackIff(msg: seq<byte>, hs: seq<Header>, version: seq<byte>, rest: seq<byte>, before: Request)
    requires AreHeaders(hs) && OneLine(version)
    ensures var r := ReadRequest(HTTPPost(msg, hs, version) + rest, before);
            var m := ReadMessage(r.rest, r.proto);
            && r.ok && r.proto == 1 && r.verb == Ascii("POST") && r.uri == [SLASH]
            && (m.code == 200 && m.body == msg && m.rest == rest <==> AnnouncedLength(msg, hs) == |msg| <= 1000000)
  {
    var ls := OwnHeaders(|msg|, version) + HeaderTexts(hs);
    var message := Lines(ls) + EOL + (msg + rest);
    hide OwnHeaders, Lines, RequestLine;
    assert HTTPPost(msg, hs, version) + rest == RequestLine() + EOL + message;
    RequestLineReadsBack(message, before);
    RequestHead(msg, hs, version);
    HeadReadsBack(ls, msg + rest, NO_HEAD);
    SliceOver(msg, rest);
  }

  /** Which is so when no header of the caller's reads as Content-Length. */
  lemma {:induction false} WithoutCustomLength(n: int, lines: seq<seq<byte>>)
    requires forall i :: 0 <= i < |lines| ==> FieldName(lines[i]) != Ascii("content-length")
    ensures Announced(n, lines) == n
    decreases lines
  {
    if lines != [] {
      assert forall i :: 0 <= i < |lines[1..]| ==> lines[1..][i] == lines[i + 1];
      WithoutCustomLength(n, lines[1..]);
    }
  }

  /** A header of the caller's own that announces nothing. */
  function ZeroLength(): Header {
    Header(Ascii("Content-Length"), Ascii("0"))
  }

  lemma ZeroIsAnnounced(msg: seq<byte>)
    ensures AreHeaders([ZeroLength()]) && AnnouncedLength(msg, [ZeroLength()]) == 0
  {
    var line := HeaderText(Ascii("Content-Length"), Ascii("0")) + [CR];
    PlainTextIsLine("Content-Length");
    AtoiDigits(0);
    ZeroText();
    LengthField(NO_HEAD, 0);
    assert WithCR(HeaderTexts([ZeroLength()])) == [line];
    hide Ascii, Digits, HeaderText, WithCR, FieldName, FieldValue, FindColon;
    FoldAnnounces(Head(map[], |msg|), [line]);
    LengthField(Head(map[], |msg|), 0);
    assert [line][1..] == [];
    hide HeadStep;
  }

  lemma ZeroText()
    ensures Ascii("0") == Digits(0)
  {
  }

  /** A request can be spoilt: with a Content-Length of its caller's own the message of one byte is lost. */
  lemma SpoiltRequest(version: seq<byte>, rest: seq<byte>, before: Request)
    requires OneLine(version)
    ensures var r := ReadRequest(HTTPPost([65], [ZeroLength()], version) + rest, before);
            var m := ReadMessage(r.rest, r.proto);
            AnnouncedLength([65], [ZeroLength()]) == 0 && !(m.code == HTTP_OK && m.body == [65] && m.rest == rest)
  {
    hide HTTPPost, ReadRequest, ReadMessage, ZeroLength, AnnouncedLength, AreHeaders, Ascii;
    ZeroIsAnnounced([65]);
    PostReadsBackIff([65], [ZeroLength()], version, rest, before);
  }
}
