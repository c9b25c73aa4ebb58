/** HTTP framing as the RPC client and server do it: messages written with a Content-Length, and a reader
    that takes them off a byte stream one after the other. */
module Http {
  import opened Bytes

  const MAX_SIZE: int := 1000000
  const HTTP_OK: int := 200
  const HTTP_UNAUTHORIZED: int := 401
  const HTTP_INTERNAL_SERVER_ERROR: int := 500

  const EOL: seq<byte> := [CR, LF]

  // ---------------------------------------------------------------- the writer

  /** A name and a value, as a line without its line end. */
  function HeaderText(name: seq<byte>, value: seq<byte>): seq<byte> {
    name + [COLON, SPACE] + value
  }

  /** Lines, each ended by CR LF. */
  function Lines(ls: seq<seq<byte>>): seq<byte> {
    if ls == [] then [] else ls[0] + EOL + Lines(ls[1..])
  }

  function Reason(status: int): seq<byte> {
    if status == 200 then Ascii("OK")
    else if status == 400 then Ascii("Bad Request")
    else if status == 403 then Ascii("Forbidden")
    else if status == 404 then Ascii("Not Found")
    else if status == 500 then Ascii("Internal Server Error")
    else []
  }

  function Connection(keepalive: bool): seq<byte> {
    if keepalive then Ascii("keep-alive") else Ascii("close")
  }

  /** What a reply depends on; date and version are texts that the program takes from elsewhere. */
  datatype Reply = Reply(status: int, body: seq<byte>, keepalive: bool, date: seq<byte>, version: seq<byte>)

  function StatusLine(status: int): seq<byte> {
    Ascii("HTTP/1.1") + [SPACE] + Decimal(status) + [SPACE] + Reason(status)
  }

  function ReplyHeaders(r: Reply): seq<seq<byte>> {
    [HeaderText(Ascii("Date"), r.date),
     HeaderText(Ascii("Connection"), Connection(r.keepalive)),
     HeaderText(Ascii("Content-Length"), Digits(|r.body|)),
     HeaderText(Ascii("Content-Type"), Ascii("application/json")),
     HeaderText(Ascii("Server"), Ascii("FidChain-json-rpc/") + r.version)]
  }

  function UnauthorizedLine(): seq<byte> {
    Ascii("HTTP/1.0") + [SPACE] + Ascii("401") + [SPACE] + Ascii("Authorization Required")
  }

  function UnauthorizedHeaders(date: seq<byte>, version: seq<byte>): seq<seq<byte>> {
    [HeaderText(Ascii("Date"), date),
     HeaderText(Ascii("Server"), Ascii("FidChain-json-rpc/") + version),
     HeaderText(Ascii("WWW-Authenticate"), Ascii("Basic realm=\"jsonrpc\"")),
     HeaderText(Ascii("Content-Type"), Ascii("text/html")),
     HeaderText(Ascii("Content-Length"), Ascii("296"))]
  }

  function PageHead(): (page: seq<byte>)
    ensures |page| == 125
  {
    Ascii("<!DOCTYPE HTML PUBLIC ") + Ascii("\"-//W3C//DTD HTML 4.01 ") + Ascii("Transitional//EN\"") + EOL
    + Ascii("\"http://www.w3.org/TR/1999/") + Ascii("REC-html401-19991224/loose.dtd\">") + EOL
  }

  function MetaTag(): (tag: seq<byte>)
    ensures |tag| == 72
  {
    Ascii("<META HTTP-EQUIV='Content-Type' ") + Ascii("CONTENT='text/html; charset=ISO-8859-1'>")
  }

  function PageTitle(): (page: seq<byte>)
    ensures |page| == 112
  {
    Ascii("<HTML>") + EOL
    + Ascii("<HEAD>") + EOL
    + Ascii("<TITLE>Error</TITLE>") + EOL
    + MetaTag() + EOL
  }

  function PageBody(): (page: seq<byte>)
    ensures |page| == 59
  {
    Ascii("</HEAD>") + EOL
    + Ascii("<BODY><H1>401 Unauthorized.</H1></BODY>") + EOL
    + Ascii("</HTML>") + EOL
  }

  /** The page a 401 reply carries. */
  function UnauthorizedPage(): (page: seq<byte>)
    ensures |page| == 296
  {
    PageHead() + PageTitle() + PageBody()
  }

  /** `HTTPReply`. */
  function HTTPReply(r: Reply): seq<byte> {
    if r.status == HTTP_UNAUTHORIZED then
      UnauthorizedLine() + EOL + Lines(UnauthorizedHeaders(r.date, r.version)) + EOL + UnauthorizedPage()
    else
      StatusLine(r.status) + EOL + Lines(ReplyHeaders(r)) + EOL + r.body
  }

  datatype Header = Header(name: seq<byte>, value: seq<byte>)

  function RequestLine(): seq<byte> {
    Ascii("POST") + [SPACE] + [SLASH] + [SPACE] + Ascii("HTTP/1.1")
  }

  function OwnHeaders(length: nat, version: seq<byte>): seq<seq<byte>> {
    [HeaderText(Ascii("User-Agent"), Ascii("FidChain-json-rpc/") + version),
     HeaderText(Ascii("Host"), Ascii("127.0.0.1")),
     HeaderText(Ascii("Content-Type"), Ascii("application/json")),
     HeaderText(Ascii("Content-Length"), Digits(length)),
     HeaderText(Ascii("Connection"), Ascii("keep-alive")),
     HeaderText(Ascii("Accept"), Ascii("application/json"))]
  }

  function HeaderTexts(hs: seq<Header>): (ls: seq<seq<byte>>)
    ensures |ls| == |hs|
  {
    seq(|hs|, i requires 0 <= i < |hs| => HeaderText(hs[i].name, hs[i].value))
  }

  /** `HTTPPost`; the caller's headers come after its own. */
  function HTTPPost(msg: seq<byte>, hs: seq<Header>, version: seq<byte>): seq<byte> {
    RequestLine() + EOL + Lines(OwnHeaders(|msg|, version) + HeaderTexts(hs)) + EOL + msg
  }

  // ---------------------------------------------------------------- what the reader computes

  /** `getline`: the text up to the first LF, which is consumed; without one, all there is. */
  function SplitLine(s: seq<byte>): (r: (seq<byte>, seq<byte>))
    ensures |r.1| <= |s|
    ensures r.0 != [] ==> |r.1| < |s|
    ensures LF !in r.0
  {
    if s == [] then ([], [])
    else if s[0] == LF then ([], s[1..])
    else
      var r := SplitLine(s[1..]);
      ([s[0]] + r.0, r.1)
  }

  /** `boost::split` on single spaces: adjacent spaces give empty words. */
  function Words(s: seq<byte>): (w: seq<seq<byte>>)
    ensures |w| >= 1
  {
    if s == [] then [[]]
    else
      var w := Words(s[1..]);
      if s[0] == SPACE then [[]] + w else [[s[0]] + w[0]] + w[1..]
  }

  /** `atoi`. */
  function Atoi(s: seq<byte>): int {
    var t := Skip(s);
    var a := if t != [] && (t[0] == MINUS || t[0] == PLUS) then t[1..] else t;
    var n: int := DigitsValue(a[..DigitRun(a)]);
    if t != [] && t[0] == MINUS then -n else n
  }

  function SkipBack(s: seq<byte>): (r: seq<byte>)
    ensures r <= s
    ensures r != [] ==> !IsSpace(r[|r| - 1])
  {
    if s != [] && IsSpace(s[|s| - 1]) then SkipBack(s[..|s| - 1]) else s
  }

  /** `boost::trim`. */
  function Trim(s: seq<byte>): seq<byte> {
    SkipBack(Skip(s))
  }

  function LowerByte(c: byte): byte {
    if 65 <= c <= 90 then c + 32 else c
  }

  function ToLower(s: seq<byte>): (r: seq<byte>)
    ensures |r| == |s|
  {
    seq(|s|, i requires 0 <= i < |s| => LowerByte(s[i]))
  }

  /** Position of the first colon, or the length. */
  function FindColon(s: seq<byte>): (n: nat)
    ensures n <= |s|
    ensures n < |s| ==> s[n] == COLON
    ensures forall i :: 0 <= i < n ==> s[i] != COLON
  {
    if s == [] || s[0] == COLON then 0 else 1 + FindColon(s[1..])
  }

  type Fields = map<seq<byte>, seq<byte>>

  datatype Head = Head(fields: Fields, length: int)

  function FieldName(line: seq<byte>): seq<byte> {
    ToLower(Trim(line[..FindColon(line)]))
  }

  function FieldValue(line: seq<byte>): seq<byte>
    requires FindColon(line) < |line|
  {
    Trim(line[FindColon(line) + 1..])
  }

  /** One header line: lines without a colon are dropped, and a later field replaces an earlier one. */
  function HeadStep(h: Head, line: seq<byte>): Head {
    if FindColon(line) == |line| then h
    else
      Head(h.fields[FieldName(line) := FieldValue(line)],
           if FieldName(line) == Ascii("content-length") then Atoi(FieldValue(line)) else h.length)
  }

  predicate EndsHead(line: seq<byte>) {
    line == [] || line == [CR]
  }

  function ReadHead(s: seq<byte>, h: Head): (r: (Head, seq<byte>))
    decreases |s|
  {
    var l := SplitLine(s);
    if EndsHead(l.0) then (h, l.1) else ReadHead(l.1, HeadStep(h, l.0))
  }

  /** Field by field. */
  function Fold(h: Head, lines: seq<seq<byte>>): Head
    decreases lines
  {
    if lines == [] then h else Fold(HeadStep(h, lines[0]), lines[1..])
  }

  const NO_HEAD: Head := Head(map[], 0)

  function Zeros(n: nat): (r: seq<byte>)
    ensures |r| == n
  {
    seq(n, _ => NUL)
  }

  /** `stream.read` into a zeroed buffer of `n` bytes. */
  function ReadBytes(s: seq<byte>, n: nat): (r: (seq<byte>, seq<byte>))
    ensures |r.0| == n
  {
    if n <= |s| then (s[..n], s[n..]) else (s + Zeros(n - |s|), [])
  }

  /** The connection field is there afterwards, with one of its two values. */
  function WithConnection(fields: Fields, proto: int): (r: Fields)
    ensures Ascii("connection") in r && r[Ascii("connection")] in {Ascii("close"), Ascii("keep-alive")}
  {
    var key := Ascii("connection");
    if key in fields && fields[key] in {Ascii("close"), Ascii("keep-alive")} then fields
    else fields[key := if proto >= 1 then Ascii("keep-alive") else Ascii("close")]
  }

  datatype Message = Message(code: int, fields: Fields, body: seq<byte>, rest: seq<byte>)

  function ReadMessage(s: seq<byte>, proto: int): Message {
    var h := ReadHead(s, NO_HEAD);
    if h.0.length < 0 || h.0.length > MAX_SIZE then Message(HTTP_INTERNAL_SERVER_ERROR, h.0.fields, [], h.1)
    else
      var b := ReadBytes(h.1, h.0.length);
      Message(HTTP_OK, WithConnection(h.0.fields, proto), b.0, b.1)
  }

  /** `strstr(s, "HTTP/1.")`, then the number behind it; 0 when it is not there. */
  function Version(s: seq<byte>): int {
    if s == [] || s[0] == NUL then 0
    else if Ascii("HTTP/1.") <= s then Atoi(s[7..])
    else Version(s[1..])
  }

  datatype Status = Status(code: int, proto: int, rest: seq<byte>)

  /** `before` is what the caller's protocol variable held: a line without a space leaves it alone. */
  function ReadStatus(s: seq<byte>, before: int): Status {
    var l := SplitLine(s);
    var w := Words(l.0);
    if |w| < 2 then Status(HTTP_INTERNAL_SERVER_ERROR, before, l.1) else Status(Atoi(w[1]), Version(l.0), l.1)
  }

  datatype Request = Request(ok: bool, proto: int, verb: seq<byte>, uri: seq<byte>, rest: seq<byte>)

  function ReadRequest(s: seq<byte>, before: Request): Request {
    var l := SplitLine(s);
    var w := Words(l.0);
    if |w| < 2 then before.(ok := false, rest := l.1)
    else if w[0] != Ascii("GET") && w[0] != Ascii("POST") then before.(ok := false, verb := w[0], rest := l.1)
    else if w[1] == [] || w[1][0] != SLASH then before.(ok := false, verb := w[0], uri := w[1], rest := l.1)
    else Request(true, Version(if |w| > 2 then w[2] else []), w[0], w[1], l.1)
  }

  // ---------------------------------------------------------------- how it is read

  class Stream {
    var data: seq<byte>

    constructor (data: seq<byte>)
      ensures this.data == data
    {
      this.data := data;
    }

    method GetLine() returns (line: seq<byte>)
      modifies this
      ensures line == SplitLine(old(data)).0 && data == SplitLine(old(data)).1
    {
      line := [];
      ghost var start := data;
      while data != [] && data[0] != LF
        invariant SplitLine(start).0 == line + SplitLine(data).0
        invariant SplitLine(start).1 == SplitLine(data).1
        decreases |data|
      {
        line := line + [data[0]];
        data := data[1..];
      }
      if data != [] {
        data := data[1..];
      }
    }

    method Read(n: nat) returns (bytes: seq<byte>)
      modifies this
      ensures (bytes, data) == ReadBytes(old(data), n)
    {
      if n <= |data| {
        bytes, data := data[..n], data[n..];
      } else {
        bytes, data := data + Zeros(n - |data|), [];
      }
    }

    method ReadHTTPHeaders(before: Fields) returns (fields: Fields, length: int)
      modifies this
      ensures (Head(fields, length), data) == ReadHead(old(data), Head(before, 0))
    {
      fields, length := before, 0;
      ghost var start := data;
      while true
        invariant ReadHead(data, Head(fields, length)) == ReadHead(start, Head(before, 0))
        decreases |data|
      {
        ghost var here := data;
        var line := GetLine();
        if EndsHead(line) {
          break;
        }
        var colon := FindColon(line);
        if colon != |line| {
          var name := ToLower(Trim(line[..colon]));
          var value := Trim(line[colon + 1..]);
          fields := fields[name := value];
          if name == Ascii("content-length") {
            length := Atoi(value);
          }
        }
      }
    }

    method ReadHTTPMessage(proto: int) returns (code: int, fields: Fields, body: seq<byte>)
      modifies this
      ensures Message(code, fields, body, data) == ReadMessage(old(data), proto)
    {
      fields, body := map[], [];
      var length;
      fields, length := ReadHTTPHeaders(fields);
      if length < 0 || length > MAX_SIZE {
        return HTTP_INTERNAL_SERVER_ERROR, fields, body;
      }
      if length > 0 {
        body := Read(length);
      }
      var key := Ascii("connection");
      var connection := if key in fields then fields[key] else [];
      if connection != Ascii("close") && connection != Ascii("keep-alive") {
        fields := fields[key := if proto >= 1 then Ascii("keep-alive") else Ascii("close")];
      }
      code := HTTP_OK;
    }

    method ReadHTTPStatus(before: int) returns (code: int, proto: int)
      modifies this
      ensures Status(code, proto, data) == ReadStatus(old(data), before)
    {
      var line := GetLine();
      var words := Words(line);
      if |words| < 2 {
        return HTTP_INTERNAL_SERVER_ERROR, before;
      }
      return Atoi(words[1]), Version(line);
    }

    method ReadHTTPRequestLine(before: Request) returns (r: Request)
      modifies this
      ensures r == ReadRequest(old(data), before) && data == r.rest
    {
      var line := GetLine();
      var words := Words(line);
      r := before.(ok := false, rest := data);
      if |words| < 2 {
        return;
      }
      r := r.(verb := words[0]);
      if words[0] != Ascii("GET") && words[0] != Ascii("POST") {
        return;
      }
      r := r.(uri := words[1]);
      if words[1] == [] || words[1][0] != SLASH {
        return;
      }
      r := r.(ok := true, proto := Version(if |words| > 2 then words[2] else []));
    }
  }
}
