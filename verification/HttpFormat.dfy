/** The replies as the program really makes them: by `strprintf`, from a format string and a list of arguments. */
module HttpFormat {
  import opened Bytes
  import opened FormatSpec
  import opened Format
  import opened FormatRefinement
  import opened Http

  const CHAR_D: byte := 100
  const CHAR_S: byte := 115
  const CHAR_U: byte := 117

  /** A literal text and the conversion, without flags or numbers, that follows it. */
  datatype Piece = Piece(literal: seq<byte>, conversion: byte)

  predicate IsPlainPiece(p: Piece) {
    IsPlainText(p.literal) && p.conversion in {CHAR_D, CHAR_S, CHAR_U}
  }

  predicate IsPlainText(t: seq<byte>) {
    NUL !in t && PERCENT !in t
  }

  predicate ArePlain(ps: seq<Piece>) {
    forall i :: 0 <= i < |ps| ==> IsPlainPiece(ps[i])
  }

  function FormatOf(ps: seq<Piece>, tail: seq<byte>): seq<byte> {
    if ps == [] then tail else ps[0].literal + [PERCENT, ps[0].conversion] + FormatOf(ps[1..], tail)
  }

  function Joined(ps: seq<Piece>, texts: seq<seq<byte>>, tail: seq<byte>): seq<byte>
    requires |texts| == |ps|
  {
    if ps == [] then tail else ps[0].literal + texts[0] + Joined(ps[1..], texts[1..], tail)
  }

  /** The stream state a bare conversion leaves. */
  function BareState(out: StreamState, c: byte): StreamState {
    Conversion(Reset(out), c, false).out
  }

  /** The argument's own output operator prints `text` in the state of a bare conversion. */
  ghost predicate Writes<T>(pr: Printer<T>, arg: T, c: byte, text: seq<byte>) {
    forall out :: pr.put(arg, BareState(out, c), c).text == text
  }

  lemma {:induction false} QuotePlain(t: seq<byte>)
    requires PERCENT !in t
    ensures QuotePercent(t) == t
  {
    if t != [] {
      QuotePlain(t[1..]);
      assert t == [t[0]] + t[1..];
    }
  }

  lemma PlainLiteral(t: seq<byte>, c: byte, rest: seq<byte>)
    requires IsPlainText(t) && c != PERCENT
    ensures Literal(t + [PERCENT, c] + rest) == (t, [PERCENT, c] + rest)
  {
    Assoc(t, [PERCENT, c], rest);
    QuotePlain(t);
    LiteralReadsBack(t, [PERCENT, c] + rest);
    assert Literal([PERCENT, c] + rest) == ([], [PERCENT, c] + rest);
    assert t + [] == t;
  }

  lemma BareSpec(out: StreamState, c: byte, rest: seq<byte>)
    requires c in {CHAR_D, CHAR_S, CHAR_U}
    ensures ParseSpec(out, [PERCENT, c] + rest, 0, 0) == Spec(Setting(BareState(out, c), NO_EXTRA), rest, c, None)
  {
    var t := [c] + rest;
    assert ([PERCENT, c] + rest)[1..] == t;
    assert FlagRun(t) == 0 && DigitRun(t) == 0 && LengthRun(t) == 0;
    assert t[..0] == [] && t[0..] == t && t[1..] == rest;
  }

  lemma OnePiece<T>(pr: Printer<T>, p: Piece, rest: seq<byte>, args: seq<T>, out: StreamState, text: seq<byte>)
    requires IsPlainPiece(p) && args != []
    ensures var put := pr.put(args[0], BareState(out, p.conversion), p.conversion);
            Interpret(pr, p.literal + [PERCENT, p.conversion] + rest, args, out, text)
            == Interpret(pr, rest, args[1..], put.after, text + p.literal + put.text)
  {
    var s := p.literal + [PERCENT, p.conversion] + rest;
    var m := StartMachine(text, out, s);
    PlainLiteral(p.literal, p.conversion, rest);
    BareSpec(out, p.conversion, rest);
    hide ParseSpec, Literal, Interpret, Conversion;
    InterpretPlain(pr, m, args);
  }

  /** A format string of bare conversions gives the literals and the printed arguments in turn. */
  lemma {:induction false} FormatsInTurn<T>(pr: Printer<T>, ps: seq<Piece>, tail: seq<byte>, args: seq<T>,
                                            texts: seq<seq<byte>>, out: StreamState, text: seq<byte>)
    requires ArePlain(ps) && IsPlainText(tail) && |args| == |ps| == |texts|
    requires forall i :: 0 <= i < |ps| ==> Writes(pr, args[i], ps[i].conversion, texts[i])
    ensures Interpret(pr, FormatOf(ps, tail), args, out, text) == Outcome(text + Joined(ps, texts, tail), None)
    decreases ps
  {
    if ps == [] {
      QuotePlain(tail);
      LiteralReadsBack(tail, []);
      assert tail + [] == tail;
    } else {
      hide Interpret, Conversion, BareState;
      var p := ps[0];
      OnePiece(pr, p, FormatOf(ps[1..], tail), args, out, text);
      assert Writes(pr, args[0], ps[0].conversion, texts[0]);
      var put := pr.put(args[0], BareState(out, p.conversion), p.conversion);
      FormatsInTurn(pr, ps[1..], tail, args[1..], texts[1..], put.after, text + p.literal + texts[0]);
      Assoc4(text, p.literal, texts[0], Joined(ps[1..], texts[1..], tail));
      Assoc(p.literal, texts[0], Joined(ps[1..], texts[1..], tail));
    }
  }

  // ---------------------------------------------------------------- the two format strings

  function FieldStart(name: string): seq<byte> {
    Ascii(name) + [COLON, SPACE]
  }

  /** The format string of a reply, cut at its conversions. */
  function ReplyPieces(): (ps: seq<Piece>)
    ensures |ps| == 7
  {
    [Piece(Ascii("HTTP/1.1") + [SPACE], CHAR_D),
     Piece([SPACE], CHAR_S),
     Piece(EOL + FieldStart("Date"), CHAR_S),
     Piece(EOL + FieldStart("Connection"), CHAR_S),
     Piece(EOL + FieldStart("Content-Length"), CHAR_U),
     Piece(EOL + FieldStart("Content-Type") + Ascii("application/json")
           + EOL + FieldStart("Server") + Ascii("FidChain-json-rpc/"), CHAR_S),
     Piece(EOL + EOL, CHAR_S)]
  }

  /** What the arguments print. */
  function ReplyTexts(r: Reply): (texts: seq<seq<byte>>)
    ensures |texts| == 7
  {
    [Decimal(r.status), Reason(r.status), r.date, Connection(r.keepalive), Digits(|r.body|), r.version, r.body]
  }

  /** The format string of the 401 page, and what follows its last conversion. */
  function UnauthorizedPieces(): seq<Piece> {
    [Piece(UnauthorizedLine() + EOL + FieldStart("Date"), CHAR_S),
     Piece(EOL + FieldStart("Server") + Ascii("FidChain-json-rpc/"), CHAR_S)]
  }

  function UnauthorizedTail(): seq<byte> {
    EOL + FieldStart("WWW-Authenticate") + Ascii("Basic realm=\"jsonrpc\"")
    + EOL + FieldStart("Content-Type") + Ascii("text/html")
    + EOL + FieldStart("Content-Length") + Ascii("296")
    + EOL + EOL + UnauthorizedPage()
  }

  lemma LinesFrom(ls: seq<seq<byte>>, k: nat, end: seq<byte>)
    requires k < |ls|
    ensures Lines(ls[k..]) + end == ls[k] + EOL + (Lines(ls[k + 1..]) + end)
  {
    assert ls[k..][1..] == ls[k + 1..];
  }

  lemma FiveLinesFrom(ls: seq<seq<byte>>, end: seq<byte>)
    requires |ls| == 5
    ensures forall k :: 0 <= k < 5 ==> Lines(ls[k..]) + end == ls[k] + EOL + (Lines(ls[k + 1..]) + end)
    ensures ls[0..] == ls && Lines(ls[5..]) + end == end
  {
    forall k | 0 <= k < 5 ensures Lines(ls[k..]) + end == ls[k] + EOL + (Lines(ls[k + 1..]) + end) {
      LinesFrom(ls, k, end);
    }
  }

  lemma JoinedFrom(ps: seq<Piece>, texts: seq<seq<byte>>, tail: seq<byte>, k: nat)
    requires |texts| == |ps| && k < |ps|
    ensures Joined(ps[k..], texts[k..], tail) == ps[k].literal + texts[k] + Joined(ps[k + 1..], texts[k + 1..], tail)
  {
    assert ps[k..][1..] == ps[k + 1..] && texts[k..][1..] == texts[k + 1..];
  }

  lemma JoinedAll(ps: seq<Piece>, texts: seq<seq<byte>>, tail: seq<byte>)
    requires |texts| == |ps|
    ensures forall k :: 0 <= k < |ps| ==>
              Joined(ps[k..], texts[k..], tail) == ps[k].literal + texts[k] + Joined(ps[k + 1..], texts[k + 1..], tail)
    ensures ps[0..] == ps && texts[0..] == texts
    ensures Joined(ps[|ps|..], texts[|ps|..], tail) == tail
  {
    forall k | 0 <= k < |ps|
      ensures Joined(ps[k..], texts[k..], tail) == ps[k].literal + texts[k] + Joined(ps[k + 1..], texts[k + 1..], tail)
    {
      JoinedFrom(ps, texts, tail, k);
    }
  }

  /** A header line with the line end in front of it instead of behind it. */
  lemma HeaderPiece(name: string, value: seq<byte>, more: seq<byte>)
    ensures EOL + FieldStart(name) + value + (EOL + more) == EOL + (HeaderText(Ascii(name), value) + EOL + more)
  {
    hide Ascii;
  }

  /** The same, the value beginning with a fixed text. */
  lemma PrefixedHeader(name: string, start: seq<byte>, value: seq<byte>, more: seq<byte>)
    ensures EOL + FieldStart(name) + start + value + (EOL + more)
         == EOL + (HeaderText(Ascii(name), start + value) + EOL + more)
  {
    hide Ascii;
  }

  lemma StatusPieces(code: seq<byte>, why: seq<byte>, more: seq<byte>)
    ensures Ascii("HTTP/1.1") + [SPACE] + code + ([SPACE] + why + (EOL + more))
         == Ascii("HTTP/1.1") + [SPACE] + code + [SPACE] + why + EOL + more
  {
    hide Ascii;
  }

  lemma AfterFirst(line: seq<byte>, a: seq<byte>, b: seq<byte>, c: seq<byte>, d: seq<byte>, more: seq<byte>)
    ensures line + a + b + c + d + more == line + (a + b + c + d + more)
  {
  }

  /** The last two header lines of a reply and its body. */
  lemma ReplyEnds(r: Reply)
    ensures var ps, texts, end := ReplyPieces(), ReplyTexts(r), EOL + r.body;
            Joined(ps[5..], texts[5..], []) == EOL + (Lines(ReplyHeaders(r)[3..]) + end)
  {
    var ps, texts, ls, end := ReplyPieces(), ReplyTexts(r), ReplyHeaders(r), EOL + r.body;
    JoinedAll(ps, texts, []);
    FiveLinesFrom(ls, end);
    var kind, server := EOL + FieldStart("Content-Type") + Ascii("application/json"), Ascii("FidChain-json-rpc/");
    assert ps[5].literal == kind + EOL + FieldStart("Server") + server && texts[5] == r.version;
    assert ps[6].literal + texts[6] + [] == EOL + end;
    assert ls[3] == HeaderText(Ascii("Content-Type"), Ascii("application/json"));
    assert ls[4] == HeaderText(Ascii("Server"), server + r.version);
    hide Ascii, Lines, Joined, HeaderText, FieldStart, ReplyPieces, ReplyTexts, ReplyHeaders;
    PrefixedHeader("Server", server, r.version, end);
    AfterFirst(kind, EOL, FieldStart("Server"), server, r.version, EOL + end);
    HeaderPiece("Content-Type", Ascii("application/json"), Lines(ls[4..]) + end);
  }

  /** Length, connection and date in front of them. */
  lemma ReplyMiddle(r: Reply)
    ensures var ps, texts, end := ReplyPieces(), ReplyTexts(r), EOL + r.body;
            Joined(ps[2..], texts[2..], []) == EOL + (Lines(ReplyHeaders(r)) + end)
  {
    var ps, texts, ls, end := ReplyPieces(), ReplyTexts(r), ReplyHeaders(r), EOL + r.body;
    JoinedAll(ps, texts, []);
    FiveLinesFrom(ls, end);
    ReplyEnds(r);
    assert ps[4].literal == EOL + FieldStart("Content-Length") && texts[4] == Digits(|r.body|);
    assert ps[3].literal == EOL + FieldStart("Connection") && texts[3] == Connection(r.keepalive);
    assert ps[2].literal == EOL + FieldStart("Date") && texts[2] == r.date;
    hide Ascii, Lines, Joined, Digits, Connection, HeaderText, FieldStart, ReplyPieces, ReplyTexts;
    HeaderPiece("Content-Length", Digits(|r.body|), Lines(ls[3..]) + end);
    HeaderPiece("Connection", Connection(r.keepalive), Lines(ls[2..]) + end);
    HeaderPiece("Date", r.date, Lines(ls[1..]) + end);
  }

  /** The reply that `strprintf` makes is the status line, the headers and the body. */
  lemma ReplyIsJoined(r: Reply)
    requires r.status != HTTP_UNAUTHORIZED
    ensures Joined(ReplyPieces(), ReplyTexts(r), []) == HTTPReply(r)
  {
    var ps, texts, ls, end := ReplyPieces(), ReplyTexts(r), ReplyHeaders(r), EOL + r.body;
    JoinedAll(ps, texts, []);
    ReplyMiddle(r);
    assert ps[0].literal == Ascii("HTTP/1.1") + [SPACE] && texts[0] == Decimal(r.status);
    assert ps[1].literal == [SPACE] && texts[1] == Reason(r.status);
    hide Ascii, Lines, Joined, Decimal, Reason, ReplyPieces, ReplyTexts, ReplyHeaders;
    StatusPieces(Decimal(r.status), Reason(r.status), Lines(ls) + end);
    assert Joined(ps, texts, []) == StatusLine(r.status) + EOL + (Lines(ls) + end);
    Assoc(StatusLine(r.status) + EOL, Lines(ls), end);
    Assoc(StatusLine(r.status) + EOL + Lines(ls), EOL, r.body);
  }

  lemma UnauthorizedTailIsLines(r: Reply)
    ensures UnauthorizedTail()
        == EOL + (Lines(UnauthorizedHeaders(r.date, r.version)[2..]) + (EOL + UnauthorizedPage()))
  {
    var ls, end := UnauthorizedHeaders(r.date, r.version), EOL + UnauthorizedPage();
    FiveLinesFrom(ls, end);
    var realm, kind, length := Ascii("Basic realm=\"jsonrpc\""), Ascii("text/html"), Ascii("296");
    var a, b, c := FieldStart("WWW-Authenticate"), FieldStart("Content-Type"), FieldStart("Content-Length");
    assert ls[2..] == [a + realm, b + kind, c + length];
    hide Ascii, Lines, HeaderText, UnauthorizedPage, FieldStart, UnauthorizedHeaders;
    TailLines(EOL, a, realm, b, kind, c, length, UnauthorizedPage());
  }

  lemma TailLines(e: seq<byte>, a: seq<byte>, x: seq<byte>, b: seq<byte>, y: seq<byte>, c: seq<byte>, z: seq<byte>,
                  page: seq<byte>)
    ensures e + a + x + e + b + y + e + c + z + e + e + page == e + (a + x + e + (b + y + e + (c + z + e + (e + page))))
  {
  }

  /** And so is the 401 page. */
  lemma UnauthorizedIsJoined(r: Reply)
    requires r.status == HTTP_UNAUTHORIZED
    ensures Joined(UnauthorizedPieces(), [r.date, r.version], UnauthorizedTail()) == HTTPReply(r)
  {
    var ps, texts, ls := UnauthorizedPieces(), [r.date, r.version], UnauthorizedHeaders(r.date, r.version);
    var first, end := UnauthorizedLine(), EOL + UnauthorizedPage();
    UnauthorizedTailIsLines(r);
    JoinedAll(ps, texts, UnauthorizedTail());
    FiveLinesFrom(ls, end);
    assert ps[1].literal == EOL + FieldStart("Server") + Ascii("FidChain-json-rpc/");
    assert ps[0].literal == first + EOL + FieldStart("Date");
    assert ls[0] == HeaderText(Ascii("Date"), r.date);
    assert ls[1] == HeaderText(Ascii("Server"), Ascii("FidChain-json-rpc/") + r.version);
    hide Ascii, Lines, Joined, HeaderText, FieldStart, UnauthorizedPage, UnauthorizedLine, UnauthorizedTail;
    hide UnauthorizedPieces, UnauthorizedHeaders;
    PrefixedHeader("Server", Ascii("FidChain-json-rpc/"), r.version, Lines(ls[2..]) + end);
    assert Joined(ps[1..], texts[1..], UnauthorizedTail()) == EOL + (Lines(ls[1..]) + end);
    HeaderPiece("Date", r.date, Lines(ls[1..]) + end);
    AfterFirst(first, EOL, FieldStart("Date"), r.date, [], EOL + (Lines(ls[1..]) + end));
    assert Joined(ps, texts, UnauthorizedTail()) == first + EOL + (Lines(ls) + end);
    Assoc(first + EOL, Lines(ls), end);
    Assoc(first + EOL + Lines(ls), EOL, UnauthorizedPage());
  }

  // ---------------------------------------------------------------- the result

  /** The arguments of `HTTPReply`'s call, as far as they matter: each prints what it should. */
  ghost predicate PrintsReply<T>(pr: Printer<T>, args: seq<T>, r: Reply) {
    && |args| == 7
    && forall i :: 0 <= i < 7 ==> Writes(pr, args[i], ReplyPieces()[i].conversion, ReplyTexts(r)[i])
  }

  ghost predicate PrintsUnauthorized<T>(pr: Printer<T>, args: seq<T>, r: Reply) {
    |args| == 2 && Writes(pr, args[0], CHAR_S, r.date) && Writes(pr, args[1], CHAR_S, r.version)
  }

  lemma PlainAscii(s: string)
    requires forall i :: 0 <= i < |s| ==> 32 <= s[i] as int < 127 && s[i] != '%'
    ensures IsPlainText(Ascii(s))
  {
  }

  lemma PlainField(name: string)
    requires forall i :: 0 <= i < |name| ==> 32 <= name[i] as int < 127 && name[i] != '%'
    ensures IsPlainText(FieldStart(name))
  {
  }

  lemma PlainJoins()
    ensures forall a: seq<byte>, b: seq<byte> {:trigger IsPlainText(a + b)} ::
              IsPlainText(a) && IsPlainText(b) ==> IsPlainText(a + b)
    ensures IsPlainText(EOL) && IsPlainText([SPACE])
  {
  }

  lemma ReplyIsPlain()
    ensures ArePlain(ReplyPieces())
  {
    PlainAscii("HTTP/1.1");
    PlainField("Date");
    PlainField("Connection");
    PlainField("Content-Length");
    PlainField("Content-Type");
    PlainAscii("application/json");
    PlainField("Server");
    PlainAscii("FidChain-json-rpc/");
    PlainJoins();
    hide Ascii, FieldStart, IsPlainText;
  }

  lemma UnauthorizedPiecesArePlain()
    ensures ArePlain(UnauthorizedPieces())
  {
    PlainAscii("HTTP/1.0");
    PlainAscii("401");
    PlainAscii("Authorization Required");
    PlainField("Date");
    PlainField("Server");
    PlainAscii("FidChain-json-rpc/");
    PlainJoins();
    hide Ascii, FieldStart, IsPlainText;
  }

  lemma UnauthorizedFieldsArePlain()
    ensures IsPlainText(FieldStart("WWW-Authenticate")) && IsPlainText(Ascii("Basic realm=\"jsonrpc\""))
    ensures IsPlainText(FieldStart("Content-Type")) && IsPlainText(Ascii("text/html"))
    ensures IsPlainText(FieldStart("Content-Length")) && IsPlainText(Ascii("296"))
  {
    hide Ascii, FieldStart, IsPlainText;
    PlainField("WWW-Authenticate");
    PlainAscii("Basic realm=\"jsonrpc\"");
    PlainField("Content-Type");
    PlainAscii("text/html");
    PlainField("Content-Length");
    PlainAscii("296");
  }

  lemma UnauthorizedTailIsPlain()
    ensures IsPlainText(UnauthorizedTail())
  {
    hide Ascii, FieldStart, IsPlainText, PageHead, PageTitle, PageBody;
    UnauthorizedFieldsArePlain();
    PageHeadIsPlain();
    PageTitleIsPlain();
    PageBodyIsPlain();
    PlainJoins();
  }

  lemma DoctypeIsPlain()
    ensures IsPlainText(Ascii("<!DOCTYPE HTML PUBLIC ") + Ascii("\"-//W3C//DTD HTML 4.01 ")
                        + Ascii("Transitional//EN\""))
  {
    PlainAscii("<!DOCTYPE HTML PUBLIC ");
    PlainAscii("\"-//W3C//DTD HTML 4.01 ");
    PlainAscii("Transitional//EN\"");
    PlainJoins();
    hide Ascii, IsPlainText;
  }

  lemma LooseIsPlain()
    ensures IsPlainText(Ascii("\"http://www.w3.org/TR/1999/"))
    ensures IsPlainText(Ascii("REC-html401-19991224/loose.dtd\">"))
  {
    PlainAscii("\"http://www.w3.org/TR/1999/");
    PlainAscii("REC-html401-19991224/loose.dtd\">");
    hide Ascii, IsPlainText;
  }

  lemma PageHeadIsPlain()
    ensures IsPlainText(PageHead())
  {
    hide Ascii, IsPlainText;
    DoctypeIsPlain();
    LooseIsPlain();
    PlainJoins();
  }

  lemma PageTitleIsPlain()
    ensures IsPlainText(PageTitle())
  {
    PlainAscii("<HTML>");
    PlainAscii("<HEAD>");
    PlainAscii("<TITLE>Error</TITLE>");
    MetaTagIsPlain();
    PlainJoins();
    hide Ascii, IsPlainText, MetaTag;
  }

  lemma MetaTagIsPlain()
    ensures IsPlainText(MetaTag())
  {
    PlainAscii("<META HTTP-EQUIV='Content-Type' ");
    PlainAscii("CONTENT='text/html; charset=ISO-8859-1'>");
    PlainJoins();
    hide Ascii, IsPlainText;
  }

  lemma PageBodyIsPlain()
    ensures IsPlainText(PageBody())
  {
    PlainAscii("</HEAD>");
    PlainAscii("<BODY><H1>401 Unauthorized.</H1></BODY>");
    PlainAscii("</HTML>");
    PlainJoins();
    hide Ascii, IsPlainText;
  }

  /** Formatting the reply's format string with the reply's arguments gives `HTTPReply`, without error, on
      any stream and whatever bytes the body has. */
  lemma FormattedReply<T>(pr: Printer<T>, args: seq<T>, r: Reply, out: StreamState)
    requires r.status != HTTP_UNAUTHORIZED && PrintsReply(pr, args, r)
    ensures Interpret(pr, FormatOf(ReplyPieces(), []), args, out, []) == Outcome(HTTPReply(r), None)
  {
    hide Interpret, FormatOf, Joined, HTTPReply, ReplyPieces, ReplyTexts;
    ReplyIsPlain();
    ReplyIsJoined(r);
    FormatsInTurn(pr, ReplyPieces(), [], args, ReplyTexts(r), out, []);
    assert [] + HTTPReply(r) == HTTPReply(r);
  }

  lemma FormattedUnauthorized<T>(pr: Printer<T>, args: seq<T>, r: Reply, out: StreamState)
    requires r.status == HTTP_UNAUTHORIZED && PrintsUnauthorized(pr, args, r)
    ensures Interpret(pr, FormatOf(UnauthorizedPieces(), UnauthorizedTail()), args, out, [])
        == Outcome(HTTPReply(r), None)
  {
    hide Interpret, FormatOf, Joined, HTTPReply, Ascii, FieldStart, UnauthorizedTail, UnauthorizedLine;
    UnauthorizedPiecesArePlain();
    UnauthorizedTailIsPlain();
    UnauthorizedIsJoined(r);
    FormatsInTurn(pr, UnauthorizedPieces(), UnauthorizedTail(), args, [r.date, r.version], out, []);
    assert [] + HTTPReply(r) == HTTPReply(r);
  }
}
