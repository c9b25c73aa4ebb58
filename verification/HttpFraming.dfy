/** Messages written one after the other are read back one by one, each read stopping at the first byte
    of the next message. */
module HttpFraming {
  import opened Bytes
  import opened Http

  // ---------------------------------------------------------------- lines

  predicate OneLine(s: seq<byte>) {
    LF !in s
  }

  lemma {:induction false} LineSplitsOff(line: seq<byte>, rest: seq<byte>)
    requires OneLine(line)
    ensures SplitLine(line + [LF] + rest) == (line, rest)
  {
    if line == [] {
      assert line + [LF] + rest == [LF] + rest;
    } else {
      assert (line + [LF] + rest)[1..] == line[1..] + [LF] + rest;
      LineSplitsOff(line[1..], rest);
      assert [line[0]] + line[1..] == line;
    }
  }

  predicate AreLines(ls: seq<seq<byte>>) {
    forall i :: 0 <= i < |ls| ==> OneLine(ls[i]) && ls[i] != []
  }

  function WithCR(ls: seq<seq<byte>>): (r: seq<seq<byte>>)
    ensures |r| == |ls|
  {
    seq(|ls|, i requires 0 <= i < |ls| => ls[i] + [CR])
  }

  /** The reader takes the header lines, each with its CR, up to the empty line. */
  lemma {:induction false} HeadReadsBack(ls: seq<seq<byte>>, rest: seq<byte>, h: Head)
    requires AreLines(ls)
    ensures ReadHead(Lines(ls) + EOL + rest, h) == (Fold(h, WithCR(ls)), rest)
    decreases ls
  {
    var s := Lines(ls) + EOL + rest;
    if ls == [] {
      assert s == [CR] + [LF] + rest;
      LineSplitsOff([CR], rest);
    } else {
      var more := Lines(ls[1..]) + EOL + rest;
      assert s == (ls[0] + [CR]) + [LF] + more;
      LineSplitsOff(ls[0] + [CR], more);
      HeadReadsBack(ls[1..], rest, HeadStep(h, ls[0] + [CR]));
      assert WithCR(ls)[0] == ls[0] + [CR] && WithCR(ls)[1..] == WithCR(ls[1..]);
    }
  }

  lemma {:induction false} FoldConcat(h: Head, a: seq<seq<byte>>, b: seq<seq<byte>>)
    ensures Fold(h, a + b) == Fold(Fold(h, a), b)
    decreases a
  {
    if a == [] {
      assert a + b == b;
    } else {
      assert (a + b)[1..] == a[1..] + b;
      FoldConcat(HeadStep(h, a[0]), a[1..], b);
    }
  }

  // ---------------------------------------------------------------- one header line

  predicate TrimmedEnds(s: seq<byte>) {
    s != [] ==> !IsSpace(s[0]) && !IsSpace(s[|s| - 1])
  }

  lemma FindColonAt(a: seq<byte>, b: seq<byte>)
    requires COLON !in a
    ensures FindColon(a + [COLON] + b) == |a|
  {
    if a == [] {
      assert a + [COLON] + b == [COLON] + b;
    } else {
      assert (a + [COLON] + b)[1..] == a[1..] + [COLON] + b;
      FindColonAt(a[1..], b);
    }
  }

  lemma TrimTrims(s: seq<byte>)
    requires TrimmedEnds(s)
    ensures Trim(s) == s
    ensures Trim([SPACE] + s + [CR]) == s
  {
    SkipOver([SPACE], s + [CR]);
    assert [SPACE] + s + [CR] == [SPACE] + (s + [CR]);
    if s != [] {
      assert (s + [CR])[0] == s[0];
      assert (s + [CR])[..|s|] == s;
      assert SkipBack(s + [CR]) == SkipBack(s);
    } else {
      assert s + [CR] == [CR];
      assert Skip([CR]) == [];
    }
  }

  /** A line as the writer makes it, for a name without a colon and a value without white space at its ends. */
  lemma FieldReadsBack(name: seq<byte>, value: seq<byte>)
    requires COLON !in name && TrimmedEnds(name) && TrimmedEnds(value)
    ensures var line := HeaderText(name, value) + [CR];
            FindColon(line) < |line| && FieldName(line) == ToLower(name) && FieldValue(line) == value
  {
    var line := HeaderText(name, value) + [CR];
    assert line == name + [COLON] + ([SPACE] + value + [CR]);
    FindColonAt(name, [SPACE] + value + [CR]);
    assert line[..|name|] == name && line[|name| + 1..] == [SPACE] + value + [CR];
    TrimTrims(name);
    TrimTrims(value);
  }

  /** Whatever the value is, the name is read back. */
  lemma NameReadsBack(name: seq<byte>, value: seq<byte>)
    requires COLON !in name && TrimmedEnds(name)
    ensures var line := HeaderText(name, value) + [CR];
            FindColon(line) < |line| && FieldName(line) == ToLower(name)
  {
    var line := HeaderText(name, value) + [CR];
    assert line == name + [COLON] + ([SPACE] + value + [CR]);
    FindColonAt(name, [SPACE] + value + [CR]);
    assert line[..|name|] == name;
    TrimTrims(name);
  }

  /** Digits behind a sign or none. */
  lemma AtoiNumeral(neg: bool, k: nat, rest: seq<byte>)
    requires !StartsWithDigit(rest)
    ensures var n: int := k;
            Atoi((if neg then [MINUS] else []) + (Digits(k) + rest)) == if neg then -n else n
  {
    hide Digits, DigitsValue, DigitRun;
    var a := Digits(k) + rest;
    var t := (if neg then [MINUS] else []) + a;
    DigitRunOf(Digits(k), rest);
    DigitsRoundTrip(k);
    SliceOver(Digits(k), rest);
    assert IsDigit(a[0]) by {
      assert a[0] == Digits(k)[0];
    }
    if neg {
      assert t[1..] == a;
    } else {
      assert t == a;
    }
    assert Skip(t) == t;
  }

  lemma AtoiDecimal(n: int, rest: seq<byte>)
    requires !StartsWithDigit(rest)
    ensures Atoi(Decimal(n) + rest) == n
  {
    var k: nat := if n < 0 then -n else n;
    AtoiNumeral(n < 0, k, rest);
    Assoc([MINUS], Digits(k), rest);
    assert [] + (Digits(k) + rest) == Digits(k) + rest;
    hide Digits, Atoi;
  }

  lemma AtoiDigits(n: nat)
    ensures Atoi(Digits(n)) == n && TrimmedEnds(Digits(n)) && OneLine(Digits(n))
  {
    AtoiDecimal(n, []);
    assert Decimal(n) + [] == Digits(n);
  }

  // ---------------------------------------------------------------- the names and texts the program uses

  predicate PlainChar(c: char) {
    33 <= c as int < 127 && c != ':'
  }

  predicate PlainName(s: string) {
    forall i :: 0 <= i < |s| ==> PlainChar(s[i])
  }

  lemma PlainNameFacts(s: string)
    requires PlainName(s)
    ensures COLON !in Ascii(s) && LF !in Ascii(s) && SPACE !in Ascii(s) && TrimmedEnds(Ascii(s))
  {
  }

  lemma PlainTextIsLine(s: string)
    requires forall i :: 0 <= i < |s| ==> 32 <= s[i] as int < 127
    ensures OneLine(Ascii(s))
  {
  }

  lemma LinesJoin(a: seq<byte>, b: seq<byte>)
    requires OneLine(a) && OneLine(b)
    ensures OneLine(a + b)
  {
  }

  lemma DecimalIsPlain(n: int)
    ensures OneLine(Decimal(n)) && SPACE !in Decimal(n)
  {
  }

  lemma LowerNames()
    ensures ToLower(Ascii("Content-Length")) == Ascii("content-length")
    ensures ToLower(Ascii("Connection")) == Ascii("connection")
  {
  }

  const CONNECTION: seq<byte> := Ascii("connection")

  function FieldOr(f: Fields, key: seq<byte>): seq<byte> {
    if key in f then f[key] else []
  }

  /** A line that neither gives the length nor the connection. */
  lemma OtherField(h: Head, name: seq<byte>, value: seq<byte>)
    requires COLON !in name && TrimmedEnds(name) && |name| != 14 && |name| != 10
    ensures var g := HeadStep(h, HeaderText(name, value) + [CR]);
            g.length == h.length && (CONNECTION in g.fields <==> CONNECTION in h.fields)
            && FieldOr(g.fields, CONNECTION) == FieldOr(h.fields, CONNECTION)
  {
    NameReadsBack(name, value);
  }

  lemma LengthField(h: Head, n: nat)
    ensures var g := HeadStep(h, HeaderText(Ascii("Content-Length"), Digits(n)) + [CR]);
            g.length == n && (CONNECTION in g.fields <==> CONNECTION in h.fields)
            && FieldOr(g.fields, CONNECTION) == FieldOr(h.fields, CONNECTION)
  {
    PlainNameFacts("Content-Length");
    AtoiDigits(n);
    FieldReadsBack(Ascii("Content-Length"), Digits(n));
    LowerNames();
  }

  lemma ConnectionField(h: Head, keepalive: bool)
    ensures var g := HeadStep(h, HeaderText(Ascii("Connection"), Connection(keepalive)) + [CR]);
            g.length == h.length && CONNECTION in g.fields && g.fields[CONNECTION] == Connection(keepalive)
  {
    PlainNameFacts("Connection");
    PlainNameFacts("keep-alive");
    PlainNameFacts("close");
    FieldReadsBack(Ascii("Connection"), Connection(keepalive));
    LowerNames();
  }

  lemma FoldFive(h: Head, a: seq<byte>, b: seq<byte>, c: seq<byte>, d: seq<byte>, e: seq<byte>)
    ensures Fold(h, WithCR([a, b, c, d, e]))
         == HeadStep(HeadStep(HeadStep(HeadStep(HeadStep(h, a + [CR]), b + [CR]), c + [CR]), d + [CR]), e + [CR])
  {
    hide HeadStep;
    assert WithCR([a, b, c, d, e]) == [a + [CR]] + WithCR([b, c, d, e]);
    assert WithCR([b, c, d, e]) == [b + [CR]] + WithCR([c, d, e]);
    assert WithCR([c, d, e]) == [c + [CR]] + WithCR([d, e]);
    assert WithCR([d, e]) == [d + [CR]] + WithCR([e]);
    assert WithCR([e]) == [e + [CR]];
    var x := HeadStep(h, a + [CR]);
    var y := HeadStep(x, b + [CR]);
    var z := HeadStep(y, c + [CR]);
    var u := HeadStep(z, d + [CR]);
    assert Fold(u, [e + [CR]]) == HeadStep(u, e + [CR]);
    assert Fold(z, WithCR([d, e])) == Fold(u, [e + [CR]]);
    assert Fold(y, WithCR([c, d, e])) == Fold(z, WithCR([d, e]));
    assert Fold(x, WithCR([b, c, d, e])) == Fold(y, WithCR([c, d, e]));
  }

  lemma HeaderIsLine(name: string, value: seq<byte>)
    requires PlainName(name) && OneLine(value)
    ensures OneLine(HeaderText(Ascii(name), value)) && HeaderText(Ascii(name), value) != []
  {
    PlainNameFacts(name);
  }

  predicate IsLine(s: seq<byte>) {
    OneLine(s) && s != []
  }

  lemma FiveLines(a: seq<byte>, b: seq<byte>, c: seq<byte>, d: seq<byte>, e: seq<byte>)
    requires IsLine(a) && IsLine(b) && IsLine(c) && IsLine(d) && IsLine(e)
    ensures AreLines([a, b, c, d, e])
  {
  }

  function Server(version: seq<byte>): seq<byte> {
    Ascii("FidChain-json-rpc/") + version
  }

  lemma ServerIsLine(version: seq<byte>)
    requires OneLine(version)
    ensures OneLine(Server(version))
  {
    PlainNameFacts("FidChain-json-rpc/");
  }

  lemma DateAndConnectionAreLines(date: seq<byte>, keepalive: bool)
    requires OneLine(date)
    ensures IsLine(HeaderText(Ascii("Date"), date))
    ensures IsLine(HeaderText(Ascii("Connection"), Connection(keepalive)))
  {
    hide HeaderText, Ascii, Connection, OneLine;
    ConnectionIsLine(keepalive);
    HeaderIsLine("Date", date);
    HeaderIsLine("Connection", Connection(keepalive));
  }

  lemma LengthIsLine(n: nat)
    ensures IsLine(HeaderText(Ascii("Content-Length"), Digits(n)))
  {
    hide HeaderText, Ascii, OneLine, Digits;
    AtoiDigits(n);
    HeaderIsLine("Content-Length", Digits(n));
  }

  lemma TypeIsLine()
    ensures IsLine(HeaderText(Ascii("Content-Type"), Ascii("application/json")))
  {
    hide HeaderText, Ascii, OneLine;
    PlainTextIsLine("application/json");
    HeaderIsLine("Content-Type", Ascii("application/json"));
  }

  lemma ServerHeaderIsLine(version: seq<byte>)
    requires OneLine(version)
    ensures IsLine(HeaderText(Ascii("Server"), Ascii("FidChain-json-rpc/") + version))
  {
    ServerIsLine(version);
    ServerText(version);
    hide HeaderText, Ascii, OneLine, Server;
    HeaderIsLine("Server", Server(version));
  }

  lemma ReplyHeadersAreLines(r: Reply)
    requires OneLine(r.date) && OneLine(r.version)
    ensures AreLines(ReplyHeaders(r))
  {
    hide HeaderText, Ascii, Connection, Digits, IsLine, AreLines;
    DateAndConnectionAreLines(r.date, r.keepalive);
    LengthIsLine(|r.body|);
    TypeIsLine();
    ServerHeaderIsLine(r.version);
    var ls := ReplyHeaders(r);
    FiveLines(ls[0], ls[1], ls[2], ls[3], ls[4]);
  }

  lemma ServerText(version: seq<byte>)
    ensures Server(version) == Ascii("FidChain-json-rpc/") + version
  {
  }

  lemma ConnectionIsLine(keepalive: bool)
    ensures OneLine(Connection(keepalive))
  {
    PlainTextIsLine("keep-alive");
    PlainTextIsLine("close");
  }

  /** What the header lines of a reply say. */
  lemma ReplyHeadReadsBack(r: Reply)
    ensures var h := Fold(NO_HEAD, WithCR(ReplyHeaders(r)));
            h.length == |r.body| && CONNECTION in h.fields && h.fields[CONNECTION] == Connection(r.keepalive)
  {
    PlainNameFacts("Date");
    PlainNameFacts("Content-Type");
    PlainNameFacts("Server");
    var date, connection, length, kind, server :=
      HeaderText(Ascii("Date"), r.date), HeaderText(Ascii("Connection"), Connection(r.keepalive)),
      HeaderText(Ascii("Content-Length"), Digits(|r.body|)),
      HeaderText(Ascii("Content-Type"), Ascii("application/json")), HeaderText(Ascii("Server"), Server(r.version));
    FoldFive(NO_HEAD, date, connection, length, kind, server);
    var a := HeadStep(NO_HEAD, date + [CR]);
    var b := HeadStep(a, connection + [CR]);
    var c := HeadStep(b, length + [CR]);
    var d := HeadStep(c, kind + [CR]);
    OtherField(NO_HEAD, Ascii("Date"), r.date);
    ConnectionField(a, r.keepalive);
    LengthField(b, |r.body|);
    OtherField(c, Ascii("Content-Type"), Ascii("application/json"));
    OtherField(d, Ascii("Server"), Server(r.version));
    hide HeadStep, HeaderText, Ascii;
  }

  lemma Digits296()
    ensures Ascii("296") == Digits(296)
  {
    assert Digits(2) == [50];
    assert Digits(29) == Digits(2) + [57];
    assert Digits(296) == Digits(29) + [54];
  }

  lemma RealmIsLine()
    ensures IsLine(HeaderText(Ascii("WWW-Authenticate"), Ascii("Basic realm=\"jsonrpc\"")))
  {
    hide HeaderText, Ascii, OneLine;
    PlainTextIsLine("Basic realm=\"jsonrpc\"");
    HeaderIsLine("WWW-Authenticate", Ascii("Basic realm=\"jsonrpc\""));
  }

  lemma PageTypeIsLine()
    ensures IsLine(HeaderText(Ascii("Content-Type"), Ascii("text/html")))
  {
    hide HeaderText, Ascii, OneLine;
    PlainTextIsLine("text/html");
    HeaderIsLine("Content-Type", Ascii("text/html"));
  }

  lemma UnauthorizedHeadersAreLines(date: seq<byte>, version: seq<byte>)
    requires OneLine(date) && OneLine(version)
    ensures AreLines(UnauthorizedHeaders(date, version))
  {
    Digits296();
    hide HeaderText, Ascii, Digits, IsLine, AreLines;
    DateAndConnectionAreLines(date, true);
    ServerHeaderIsLine(version);
    RealmIsLine();
    PageTypeIsLine();
    LengthIsLine(296);
    var ls := UnauthorizedHeaders(date, version);
    FiveLines(ls[0], ls[1], ls[2], ls[3], ls[4]);
  }

  lemma UnauthorizedHeadReadsBack(date: seq<byte>, version: seq<byte>)
    ensures var h := Fold(NO_HEAD, WithCR(UnauthorizedHeaders(date, version)));
            h.length == 296 && CONNECTION !in h.fields
  {
    var realm := Ascii("Basic realm=\"jsonrpc\"");
    PlainNameFacts("Date");
    PlainNameFacts("Server");
    PlainNameFacts("WWW-Authenticate");
    PlainNameFacts("Content-Type");
    Digits296();
    var day, server, auth, kind, length :=
      HeaderText(Ascii("Date"), date), HeaderText(Ascii("Server"), Server(version)),
      HeaderText(Ascii("WWW-Authenticate"), realm), HeaderText(Ascii("Content-Type"), Ascii("text/html")),
      HeaderText(Ascii("Content-Length"), Ascii("296"));
    FoldFive(NO_HEAD, day, server, auth, kind, length);
    var a := HeadStep(NO_HEAD, day + [CR]);
    var b := HeadStep(a, server + [CR]);
    var c := HeadStep(b, auth + [CR]);
    var d := HeadStep(c, kind + [CR]);
    OtherField(NO_HEAD, Ascii("Date"), date);
    OtherField(a, Ascii("Server"), Server(version));
    OtherField(b, Ascii("WWW-Authenticate"), realm);
    OtherField(c, Ascii("Content-Type"), Ascii("text/html"));
    LengthField(d, 296);
    hide HeadStep, HeaderText, Ascii;
  }

  // ---------------------------------------------------------------- status and request lines

  lemma {:induction false} WordSplitsOff(a: seq<byte>, b: seq<byte>)
    requires SPACE !in a
    ensures Words(a + [SPACE] + b) == [a] + Words(b)
  {
    if a == [] {
      assert a + [SPACE] + b == [SPACE] + b;
    } else {
      assert (a + [SPACE] + b)[1..] == a[1..] + [SPACE] + b;
      WordSplitsOff(a[1..], b);
      assert [a[0]] + a[1..] == a;
    }
  }

  lemma {:induction false} OneWord(s: seq<byte>)
    requires SPACE !in s
    ensures Words(s) == [s]
  {
    if s != [] {
      OneWord(s[1..]);
      assert [s[0]] + s[1..] == s;
    }
  }

  /** A first line of two words and more: the code is the second word, the version the digit of the first. */
  lemma TwoWordsReadBack(protocol: seq<byte>, n: nat, code: int, tail: seq<byte>, rest: seq<byte>, before: int)
    requires n < 10 && protocol == Ascii("HTTP/1.") + Digits(n) && OneLine(tail)
    ensures ReadStatus(protocol + [SPACE] + (Decimal(code) + [SPACE] + tail) + [LF] + rest, before)
        == Status(code, n, rest)
  {
    hide Words, Version, Atoi, SplitLine, Ascii, Digits, Decimal, OneLine;
    var second := Decimal(code) + [SPACE] + tail;
    var line := protocol + [SPACE] + second;
    ProtocolIsPlain(protocol, n);
    DecimalIsPlain(code);
    FirstLineIsLine(protocol, Decimal(code), tail);
    LineSplitsOff(line, rest);
    WordSplitsOff(protocol, second);
    WordSplitsOff(Decimal(code), tail);
    AtoiDecimal(code, []);
    assert Decimal(code) + [] == Decimal(code);
    VersionReadsBack(protocol, n, [SPACE] + second);
    Assoc(protocol, [SPACE], second);
  }

  lemma FirstLineIsLine(a: seq<byte>, b: seq<byte>, c: seq<byte>)
    requires OneLine(a) && OneLine(b) && OneLine(c)
    ensures OneLine(a + [SPACE] + (b + [SPACE] + c))
  {
  }

  lemma ProtocolIsPlain(protocol: seq<byte>, n: nat)
    requires n < 10 && protocol == Ascii("HTTP/1.") + Digits(n)
    ensures OneLine(protocol) && SPACE !in protocol
  {
    PlainNameFacts("HTTP/1.");
  }

  lemma StatusLineReadsBack(status: int, rest: seq<byte>, before: int)
    ensures ReadStatus(StatusLine(status) + EOL + rest, before) == Status(status, 1, rest)
  {
    var protocol := Ascii("HTTP/1.1");
    assert protocol == Ascii("HTTP/1.") + Digits(1);
    ReasonIsLine(status);
    LinesJoin(Reason(status), [CR]);
    TwoWordsReadBack(protocol, 1, status, Reason(status) + [CR], rest, before);
    FirstLineSplits(protocol, Decimal(status), Reason(status), rest);
  }

  lemma FirstLineSplits(a: seq<byte>, b: seq<byte>, c: seq<byte>, rest: seq<byte>)
    ensures a + [SPACE] + b + [SPACE] + c + EOL + rest == a + [SPACE] + (b + [SPACE] + (c + [CR])) + [LF] + rest
  {
  }

  lemma ReasonIsLine(status: int)
    ensures OneLine(Reason(status))
  {
    PlainTextIsLine("OK");
    PlainTextIsLine("Bad Request");
    PlainTextIsLine("Forbidden");
    PlainTextIsLine("Not Found");
    PlainTextIsLine("Internal Server Error");
  }

  /** The digit behind "HTTP/1.". */
  lemma VersionReadsBack(protocol: seq<byte>, n: nat, rest: seq<byte>)
    requires n < 10 && protocol == Ascii("HTTP/1.") + Digits(n) && !StartsWithDigit(rest)
    ensures Version(protocol + rest) == n
  {
    var s := protocol + rest;
    assert s[7..] == Digits(n) + rest;
    assert Ascii("HTTP/1.") <= s;
    assert Decimal(n) == Digits(n);
    AtoiDecimal(n, rest);
    assert s[0] == 72;
  }

  lemma Digits401()
    ensures Ascii("401") == Digits(401)
  {
    assert Digits(4) == [52];
    assert Digits(40) == Digits(4) + [48];
    assert Digits(401) == Digits(40) + [49];
  }

  lemma UnauthorizedLineReadsBack(rest: seq<byte>, before: int)
    ensures ReadStatus(UnauthorizedLine() + EOL + rest, before) == Status(401, 0, rest)
  {
    var protocol, why := Ascii("HTTP/1.0"), Ascii("Authorization Required");
    assert protocol == Ascii("HTTP/1.") + Digits(0);
    PlainTextIsLine("Authorization Required");
    LinesJoin(why, [CR]);
    Digits401();
    TwoWordsReadBack(protocol, 0, 401, why + [CR], rest, before);
    FirstLineSplits(protocol, Ascii("401"), why, rest);
  }

  // ---------------------------------------------------------------- whole replies

  /** What a client gets from one reply. */
  datatype Got = Got(status: int, code: int, connection: seq<byte>, body: seq<byte>)

  /** `ReadHTTPStatus`, then `ReadHTTPMessage` with its protocol. */
  function ReadReply(s: seq<byte>): (Got, seq<byte>) {
    var st := ReadStatus(s, 0);
    var m := ReadMessage(st.rest, st.proto);
    (Got(st.code, m.code, FieldOr(m.fields, CONNECTION), m.body), m.rest)
  }

  function Sent(r: Reply): Got {
    if r.status == HTTP_UNAUTHORIZED then Got(401, HTTP_OK, Ascii("close"), UnauthorizedPage())
    else Got(r.status, HTTP_OK, Connection(r.keepalive), r.body)
  }

  /** The reader puts up with messages up to MAX_SIZE only. */
  predicate Fits(r: Reply) {
    r.status == HTTP_UNAUTHORIZED || |r.body| <= MAX_SIZE
  }

  lemma MessageReadsBack(ls: seq<seq<byte>>, body: seq<byte>, rest: seq<byte>, proto: int)
    requires AreLines(ls)
    requires Fold(NO_HEAD, WithCR(ls)).length == |body|
    ensures var fields := Fold(NO_HEAD, WithCR(ls)).fields;
            ReadMessage(Lines(ls) + EOL + body + rest, proto)
            == if |body| <= MAX_SIZE then Message(HTTP_OK, WithConnection(fields, proto), body, rest)
               else Message(HTTP_INTERNAL_SERVER_ERROR, fields, [], body + rest)
  {
    Assoc(Lines(ls) + EOL, body, rest);
    HeadReadsBack(ls, body + rest, NO_HEAD);
    SliceOver(body, rest);
  }

  lemma OkIsConnection(keepalive: bool)
    ensures Connection(keepalive) in {Ascii("close"), Ascii("keep-alive")}
  {
  }

  /** One reply, whatever follows it: it is read back exactly, up to the first byte of what follows, if and
      only if it fits. */
  lemma ReplyReadsBackIff(r: Reply, rest: seq<byte>)
    requires OneLine(r.date) && OneLine(r.version)
    ensures ReadReply(HTTPReply(r) + rest) == (Sent(r), rest) <==> Fits(r)
    ensures ReadReply(HTTPReply(r) + rest).0.code == if Fits(r) then 200 else 500
  {
    if r.status == HTTP_UNAUTHORIZED {
      UnauthorizedReadsBack(r, rest);
    } else {
      var ls := ReplyHeaders(r);
      var message := Lines(ls) + EOL + r.body + rest;
      assert HTTPReply(r) + rest == StatusLine(r.status) + EOL + message;
      StatusLineReadsBack(r.status, message, 0);
      ReplyHeadersAreLines(r);
      ReplyHeadReadsBack(r);
      MessageReadsBack(ls, r.body, rest, 1);
      OkIsConnection(r.keepalive);
    }
  }

  lemma UnauthorizedReadsBack(r: Reply, rest: seq<byte>)
    requires OneLine(r.date) && OneLine(r.version) && r.status == HTTP_UNAUTHORIZED
    ensures ReadReply(HTTPReply(r) + rest) == (Sent(r), rest)
  {
    var ls := UnauthorizedHeaders(r.date, r.version);
    var page := UnauthorizedPage();
    var message := Lines(ls) + EOL + page + rest;
    hide UnauthorizedPage;
    assert HTTPReply(r) + rest == UnauthorizedLine() + EOL + message;
    UnauthorizedLineReadsBack(message, 0);
    UnauthorizedHeadersAreLines(r.date, r.version);
    UnauthorizedHeadReadsBack(r.date, r.version);
    MessageReadsBack(ls, page, rest, 0);
  }

  // ---------------------------------------------------------------- the whole stream

  function Replies(rs: seq<Reply>): seq<byte> {
    if rs == [] then [] else HTTPReply(rs[0]) + Replies(rs[1..])
  }

  function ReadReplies(n: nat, s: seq<byte>): (r: (seq<Got>, seq<byte>))
    ensures |r.0| == n
  {
    if n == 0 then ([], s)
    else
      var first := ReadReply(s);
      var others := ReadReplies(n - 1, first.1);
      ([first.0] + others.0, others.1)
  }

  /** Date and version are texts without a line end. */
  predicate Sendable(rs: seq<Reply>) {
    forall i :: 0 <= i < |rs| ==> OneLine(rs[i].date) && OneLine(rs[i].version)
  }

  function AllSent(rs: seq<Reply>): (r: seq<Got>)
    ensures |r| == |rs|
  {
    seq(|rs|, i requires 0 <= i < |rs| => Sent(rs[i]))
  }

  /** Any list of replies on one stream, of any status, is read back as that list, and what follows is untouched,
      if and only if every one of them fits. */
  lemma {:induction false} StreamReadsBackIff(rs: seq<Reply>, rest: seq<byte>)
    requires Sendable(rs)
    ensures ReadReplies(|rs|, Replies(rs) + rest) == (AllSent(rs), rest)
       <==> (forall i :: 0 <= i < |rs| ==> Fits(rs[i]))
  {
    hide HTTPReply, ReadReply;
    if rs == [] {
      assert Replies(rs) + rest == rest;
    } else {
      var more := Replies(rs[1..]) + rest;
      assert Replies(rs) + rest == HTTPReply(rs[0]) + more;
      ReplyReadsBackIff(rs[0], more);
      assert forall i :: 0 < i < |rs| ==> rs[i] == rs[1..][i - 1];
      StreamReadsBackIff(rs[1..], rest);
      var r := ReadReplies(|rs|, Replies(rs) + rest);
      assert r.0[0] == ReadReply(HTTPReply(rs[0]) + more).0;
      if Fits(rs[0]) {
        assert r.0[1..] == ReadReplies(|rs| - 1, more).0 && r.1 == ReadReplies(|rs| - 1, more).1;
        assert AllSent(rs) == [Sent(rs[0])] + AllSent(rs[1..]);
        assert AllSent(rs)[1..] == AllSent(rs[1..]);
      } else {
        assert AllSent(rs)[0].code == HTTP_OK != r.0[0].code;
      }
    }
  }
}
