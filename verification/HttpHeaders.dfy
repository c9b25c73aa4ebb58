/** Header fields end to end: what was put into a request or a reply is what the reader finds under its name. */
module HttpHeaders {
  import opened Bytes
  import opened Http
  import opened HttpFraming
  import opened HttpRequests

  // ---------------------------------------------------------------- trimming

  lemma {:induction false} SkipBackOver(m: seq<byte>, w: seq<byte>)
    requires AllSpace(w) && (m != [] ==> !IsSpace(m[|m| - 1]))
    ensures SkipBack(m + w) == m
  {
    if w == [] {
      assert m + w == m;
    } else {
      assert (m + w)[..|m + w| - 1] == m + w[..|w| - 1];
      SkipBackOver(m, w[..|w| - 1]);
    }
  }

  /** White space on both sides of a text that neither begins nor ends with it. */
  lemma TrimIs(a: seq<byte>, m: seq<byte>, b: seq<byte>)
    requires AllSpace(a) && TrimmedEnds(m) && AllSpace(b)
    ensures Trim(a + m + b) == m
  {
    Assoc(a, m, b);
    SkipOver(a, m + b);
    if m == [] {
      assert m + b == b && b + [] == b;
      SkipOver(b, []);
    } else {
      assert (m + b)[0] == m[0];
      SkipBackOver(m, b);
    }
  }

  /** Every text is made like that. */
  lemma {:induction false} Untrimmed(s: seq<byte>) returns (a: seq<byte>, m: seq<byte>, b: seq<byte>)
    ensures AllSpace(a) && TrimmedEnds(m) && AllSpace(b) && s == a + m + b
    decreases |s|
  {
    if s != [] && IsSpace(s[0]) {
      var a', m', b' := Untrimmed(s[1..]);
      a, m, b := [s[0]] + a', m', b';
      assert s == [s[0]] + s[1..];
    } else if s != [] && IsSpace(s[|s| - 1]) {
      var a', m', b' := Untrimmed(s[..|s| - 1]);
      a, m, b := a', m', b' + [s[|s| - 1]];
      assert s == s[..|s| - 1] + [s[|s| - 1]];
    } else {
      a, m, b := [], s, [];
    }
  }

  lemma TrimIgnores(s: seq<byte>)
    ensures Trim(s + [CR]) == Trim(s) && Trim([SPACE] + s + [CR]) == Trim(s)
  {
    hide Trim, TrimmedEnds;
    var a, m, b := Untrimmed(s);
    TrimIs(a, m, b);
    assert s + [CR] == a + m + (b + [CR]);
    TrimIs(a, m, b + [CR]);
    assert [SPACE] + s + [CR] == ([SPACE] + a) + m + (b + [CR]);
    TrimIs([SPACE] + a, m, b + [CR]);
  }

  // ---------------------------------------------------------------- one header

  /** The name under which a header is found: up to a colon in it, if there is one, trimmed and in lower case. */
  function Key(h: Header): seq<byte> {
    ToLower(Trim(h.name[..FindColon(h.name)]))
  }

  /** What is found there: the value, behind the rest of the name if there is a colon in it. */
  function Field(h: Header): seq<byte> {
    if COLON in h.name then Trim(h.name[FindColon(h.name) + 1..] + [COLON, SPACE] + h.value) else Trim(h.value)
  }

  lemma ColonIsFound(s: seq<byte>)
    ensures FindColon(s) < |s| <==> COLON in s
  {
  }

  lemma {:induction false} ColonStays(s: seq<byte>, t: seq<byte>)
    requires COLON in s
    ensures FindColon(s + t) == FindColon(s)
  {
    assert (s + t)[0] == s[0];
    if s[0] != COLON {
      assert (s + t)[1..] == s[1..] + t;
      ColonStays(s[1..], t);
    }
  }

  lemma HeaderReadsBack(h: Header)
    ensures var line := HeaderText(h.name, h.value) + [CR];
            FindColon(line) < |line| && FieldName(line) == Key(h) && FieldValue(line) == Field(h)
  {
    hide FindColon, Trim, ToLower;
    var line := HeaderText(h.name, h.value) + [CR];
    ColonIsFound(h.name);
    if COLON in h.name {
      var c, tail := FindColon(h.name), [COLON, SPACE] + h.value + [CR];
      assert line == h.name + tail;
      ColonStays(h.name, tail);
      assert line[..c] == h.name[..c];
      assert line[c + 1..] == (h.name[c + 1..] + [COLON, SPACE] + h.value) + [CR];
      TrimIgnores(h.name[c + 1..] + [COLON, SPACE] + h.value);
    } else {
      assert line == h.name + [COLON] + ([SPACE] + h.value + [CR]);
      FindColonAt(h.name, [SPACE] + h.value + [CR]);
      assert line[..|h.name|] == h.name == h.name[..FindColon(h.name)];
      assert line[|h.name| + 1..] == [SPACE] + h.value + [CR];
      TrimIgnores(h.value);
    }
  }

  // ---------------------------------------------------------------- all of them

  /** Fields put into a map in turn. */
  function Assigned(f: Fields, hs: seq<Header>): Fields
    decreases hs
  {
    if hs == [] then f else Assigned(f[Key(hs[0]) := Field(hs[0])], hs[1..])
  }

  lemma {:induction false} FoldAssigns(h: Head, hs: seq<Header>)
    ensures Fold(h, WithCR(HeaderTexts(hs))).fields == Assigned(h.fields, hs)
    decreases hs
  {
    hide Key, Field, FieldName, FieldValue, FindColon, HeaderText;
    if hs != [] {
      var lines := WithCR(HeaderTexts(hs));
      assert lines[0] == HeaderText(hs[0].name, hs[0].value) + [CR];
      assert lines[1..] == WithCR(HeaderTexts(hs[1..]));
      HeaderReadsBack(hs[0]);
      FoldAssigns(HeadStep(h, lines[0]), hs[1..]);
    }
  }

  /** No header behind the `i`-th has its name. */
  predicate IsLast(hs: seq<Header>, i: nat)
    requires i < |hs|
  {
    forall j :: i < j < |hs| ==> Key(hs[j]) != Key(hs[i])
  }

  predicate Names(hs: seq<Header>, k: seq<byte>) {
    exists i :: 0 <= i < |hs| && Key(hs[i]) == k
  }

  lemma {:induction false} NotAssigned(f: Fields, hs: seq<Header>, k: seq<byte>)
    ensures !Names(hs, k) ==> (k in Assigned(f, hs) <==> k in f) && (k in f ==> Assigned(f, hs)[k] == f[k])
    ensures k in Assigned(f, hs) <==> k in f || Names(hs, k)
    decreases hs
  {
    hide Key, Field;
    if hs != [] {
      var g := f[Key(hs[0]) := Field(hs[0])];
      NotAssigned(g, hs[1..], k);
      assert Names(hs, k) <==> Key(hs[0]) == k || Names(hs[1..], k) by {
        NamesSplit(hs, k);
      }
    }
  }

  lemma NamesSplit(hs: seq<Header>, k: seq<byte>)
    requires hs != []
    ensures Names(hs, k) <==> Key(hs[0]) == k || Names(hs[1..], k)
  {
    hide Key;
    assert forall i :: 0 < i < |hs| ==> hs[i] == hs[1..][i - 1];
    if Names(hs[1..], k) {
      var i :| 0 <= i < |hs[1..]| && Key(hs[1..][i]) == k;
      assert Key(hs[i + 1]) == k;
    }
    if Names(hs, k) && Key(hs[0]) != k {
      var i :| 0 <= i < |hs| && Key(hs[i]) == k;
      assert Key(hs[1..][i - 1]) == k;
    }
  }

  lemma {:induction false} LastIsAssigned(f: Fields, hs: seq<Header>, i: nat)
    requires i < |hs| && IsLast(hs, i)
    ensures Key(hs[i]) in Assigned(f, hs) && Assigned(f, hs)[Key(hs[i])] == Field(hs[i])
    decreases hs
  {
    hide Key, Field;
    var g := f[Key(hs[0]) := Field(hs[0])];
    if i == 0 {
      assert !Names(hs[1..], Key(hs[0]));
      NotAssigned(g, hs[1..], Key(hs[0]));
    } else {
      assert hs[1..][i - 1] == hs[i];
      LastIsAssigned(g, hs[1..], i - 1);
    }
  }

  // ---------------------------------------------------------------- requests

  function OwnList(length: nat, version: seq<byte>): (hs: seq<Header>)
    ensures |hs| == 6
  {
    [Header(Ascii("User-Agent"), Ascii("FidChain-json-rpc/") + version),
     Header(Ascii("Host"), Ascii("127.0.0.1")),
     Header(Ascii("Content-Type"), Ascii("application/json")),
     Header(Ascii("Content-Length"), Digits(length)),
     Header(Ascii("Connection"), Ascii("keep-alive")),
     Header(Ascii("Accept"), Ascii("application/json"))]
  }

  lemma OwnListIs(length: nat, version: seq<byte>, hs: seq<Header>)
    ensures OwnHeaders(length, version) + HeaderTexts(hs) == HeaderTexts(OwnList(length, version) + hs)
  {
    hide HeaderText, Ascii, Digits;
  }

  /** A name without a colon or white space. */
  lemma PlainKey(name: string, lower: string, value: seq<byte>)
    requires PlainName(name) && ToLower(Ascii(name)) == Ascii(lower)
    ensures Key(Header(Ascii(name), value)) == Ascii(lower) && Field(Header(Ascii(name), value)) == Trim(value)
  {
    PlainNameFacts(name);
    TrimTrims(Ascii(name));
    ColonIsFound(Ascii(name));
    assert Ascii(name)[..|name|] == Ascii(name);
    hide Ascii, Trim, ToLower, FindColon;
  }

  lemma PlainValue(value: string)
    requires value != "" && PlainName(value)
    ensures Trim(Ascii(value)) == Ascii(value)
  {
    PlainNameFacts(value);
    TrimTrims(Ascii(value));
  }

  lemma HostValue()
    ensures Trim(Ascii("127.0.0.1")) == Ascii("127.0.0.1")
  {
    PlainValue("127.0.0.1");
  }

  lemma TypeValue()
    ensures Trim(Ascii("application/json")) == Ascii("application/json")
  {
    PlainValue("application/json");
  }

  lemma ConnectionValue(keepalive: bool)
    ensures Trim(Connection(keepalive)) == Connection(keepalive)
  {
    hide Ascii, Trim;
    if keepalive {
      PlainValue("keep-alive");
    } else {
      PlainValue("close");
    }
  }

  lemma {:induction false} LengthValue(n: nat)
    ensures Trim(Digits(n)) == Digits(n)
  {
    hide Digits, Atoi, Trim;
    AtoiDigits(n);
    TrimTrims(Digits(n));
  }

  lemma AgentKey(value: seq<byte>)
    ensures Key(Header(Ascii("User-Agent"), value)) == Ascii("user-agent")
    ensures Field(Header(Ascii("User-Agent"), value)) == Trim(value)
  {
    assert ToLower(Ascii("User-Agent")) == Ascii("user-agent");
    hide Ascii, Key, Field, Trim, ToLower, Digits;
    PlainKey("User-Agent", "user-agent", value);
  }

  lemma HostKey()
    ensures Key(Header(Ascii("Host"), Ascii("127.0.0.1"))) == Ascii("host")
    ensures Field(Header(Ascii("Host"), Ascii("127.0.0.1"))) == Ascii("127.0.0.1")
  {
    assert ToLower(Ascii("Host")) == Ascii("host");
    hide Ascii, Key, Field, Trim, ToLower, Digits, Connection;
    PlainKey("Host", "host", Ascii("127.0.0.1"));
    HostValue();
  }

  lemma TypeKey(value: seq<byte>)
    ensures Key(Header(Ascii("Content-Type"), value)) == Ascii("content-type")
    ensures Field(Header(Ascii("Content-Type"), value)) == Trim(value)
  {
    assert ToLower(Ascii("Content-Type")) == Ascii("content-type");
    hide Ascii, Key, Field, Trim, ToLower, Digits, Connection;
    PlainKey("Content-Type", "content-type", value);
  }

  lemma {:induction false} LengthKey(n: nat)
    ensures Key(Header(Ascii("Content-Length"), Digits(n))) == Ascii("content-length")
    ensures Field(Header(Ascii("Content-Length"), Digits(n))) == Digits(n)
  {
    assert ToLower(Ascii("Content-Length")) == Ascii("content-length");
    hide Ascii, Key, Field, Trim, ToLower, Digits, Connection;
    PlainKey("Content-Length", "content-length", Digits(n));
    LengthValue(n);
  }

  lemma ConnectionKey(keepalive: bool)
    ensures Key(Header(Ascii("Connection"), Connection(keepalive))) == Ascii("connection")
    ensures Field(Header(Ascii("Connection"), Connection(keepalive))) == Connection(keepalive)
  {
    assert ToLower(Ascii("Connection")) == Ascii("connection");
    hide Ascii, Key, Field, Trim, ToLower, Digits, Connection;
    PlainKey("Connection", "connection", Connection(keepalive));
    ConnectionValue(keepalive);
  }

  lemma AcceptKey()
    ensures Key(Header(Ascii("Accept"), Ascii("application/json"))) == Ascii("accept")
    ensures Field(Header(Ascii("Accept"), Ascii("application/json"))) == Ascii("application/json")
  {
    assert ToLower(Ascii("Accept")) == Ascii("accept");
    hide Ascii, Key, Field, Trim, ToLower, Digits, Connection;
    PlainKey("Accept", "accept", Ascii("application/json"));
    TypeValue();
  }

  lemma DateKey(value: seq<byte>)
    ensures Key(Header(Ascii("Date"), value)) == Ascii("date")
    ensures Field(Header(Ascii("Date"), value)) == Trim(value)
  {
    assert ToLower(Ascii("Date")) == Ascii("date");
    hide Ascii, Key, Field, Trim, ToLower, Digits, Connection;
    PlainKey("Date", "date", value);
  }

  lemma ServerKey(value: seq<byte>)
    ensures Key(Header(Ascii("Server"), value)) == Ascii("server")
    ensures Field(Header(Ascii("Server"), value)) == Trim(value)
  {
    assert ToLower(Ascii("Server")) == Ascii("server");
    hide Ascii, Key, Field, Trim, ToLower, Digits, Connection;
    PlainKey("Server", "server", value);
  }

  lemma RealmKey(value: seq<byte>)
    ensures Key(Header(Ascii("WWW-Authenticate"), value)) == Ascii("www-authenticate")
    ensures Field(Header(Ascii("WWW-Authenticate"), value)) == Trim(value)
  {
    assert ToLower(Ascii("WWW-Authenticate")) == Ascii("www-authenticate");
    hide Ascii, Key, Field, Trim, ToLower, Digits, Connection;
    PlainKey("WWW-Authenticate", "www-authenticate", value);
  }

  lemma OwnKeys(length: nat, version: seq<byte>)
    ensures var own := OwnList(length, version);
            && Key(own[0]) == Ascii("user-agent") && Field(own[0]) == Trim(Ascii("FidChain-json-rpc/") + version)
            && Key(own[1]) == Ascii("host") && Field(own[1]) == Ascii("127.0.0.1")
            && Key(own[2]) == Ascii("content-type") && Field(own[2]) == Ascii("application/json")
            && Key(own[3]) == Ascii("content-length") && Field(own[3]) == Digits(length)
            && Key(own[4]) == Ascii("connection") && Field(own[4]) == Ascii("keep-alive")
            && Key(own[5]) == Ascii("accept") && Field(own[5]) == Ascii("application/json")
  {
    hide Ascii, Key, Field, Trim, ToLower, Digits;
    AgentKey(Ascii("FidChain-json-rpc/") + version);
    HostKey();
    TypeKey(Ascii("application/json"));
    TypeValue();
    LengthKey(length);
    ConnectionKey(true);
    AcceptKey();
  }

  lemma OwnNamesDiffer()
    ensures Ascii("user-agent") != Ascii("connection") && Ascii("host") != Ascii("accept")
    ensures Ascii("host") !in {Ascii("user-agent"), Ascii("content-type"), Ascii("content-length"), Ascii("connection")}
    ensures Ascii("accept") !in {Ascii("user-agent"), Ascii("content-type"), Ascii("content-length")}
    ensures Ascii("accept") != Ascii("connection")
    ensures Ascii("content-type") !in {Ascii("user-agent"), Ascii("content-length"), Ascii("connection")}
    ensures Ascii("content-length") !in {Ascii("user-agent"), Ascii("connection")}
  {
    assert Ascii("user-agent")[0] == 117 && Ascii("connection")[0] == 99;
    AsciiLengths();
    hide Ascii;
  }

  lemma AsciiLengths()
    ensures |Ascii("user-agent")| == |Ascii("connection")| == 10 && |Ascii("host")| == 4 && |Ascii("accept")| == 6
    ensures |Ascii("content-type")| == 12 && |Ascii("content-length")| == 14
  {
  }

  /** Its own headers come first, so one of them is found unless the caller's have its name. */
  lemma OwnIsLast(length: nat, version: seq<byte>, hs: seq<Header>, i: nat)
    requires i < 6 && !Names(hs, Key(OwnList(length, version)[i]))
    ensures IsLast(OwnList(length, version) + hs, i)
  {
    hide Ascii, Key, Field, Digits;
    OwnKeys(length, version);
    OwnNamesDiffer();
    var own := OwnList(length, version);
    var all := own + hs;
    forall j | i < j < |all| ensures Key(all[j]) != Key(all[i]) {
      if j >= 6 {
        assert all[j] == hs[j - 6];
      }
    }
  }

  /** What becomes of a field in the end: the connection field has one of two values. */
  function Settled(code: int, key: seq<byte>, value: seq<byte>): seq<byte> {
    if code == 200 && key == Ascii("connection") && value !in {Ascii("close"), Ascii("keep-alive")}
    then Ascii("keep-alive") else value
  }

  predicate Finds(f: Fields, key: seq<byte>, value: seq<byte>) {
    key in f && f[key] == value
  }

  lemma SettlesAll(f: Fields, key: seq<byte>, value: seq<byte>)
    requires Finds(f, key, value) && Ascii("connection") in f
    ensures Finds(WithConnection(f, 1), key, Settled(200, key, value)) && WithConnection(f, 1).Keys == f.Keys
  {
    hide Ascii;
  }

  lemma MessageFields(ls: seq<seq<byte>>, tail: seq<byte>, proto: int)
    requires AreLines(ls)
    ensures var m, f := ReadMessage(Lines(ls) + EOL + tail, proto), Fold(NO_HEAD, WithCR(ls)).fields;
            m.fields == (if m.code == 200 then WithConnection(f, proto) else f) && (m.code == 200 || m.code == 500)
  {
    HeadReadsBack(ls, tail, NO_HEAD);
    hide Lines, Fold, WithConnection, ReadHead, ReadBytes;
  }

  lemma PostSplits(msg: seq<byte>, hs: seq<Header>, version: seq<byte>, rest: seq<byte>)
    ensures HTTPPost(msg, hs, version) + rest
         == RequestLine() + EOL + (Lines(OwnHeaders(|msg|, version) + HeaderTexts(hs)) + EOL + (msg + rest))
  {
    hide RequestLine, Lines, OwnHeaders, HeaderTexts;
  }

  /** The map that the reader makes of the header lines of a request. */
  lemma RequestFields(msg: seq<byte>, hs: seq<Header>, version: seq<byte>, rest: seq<byte>, before: Request)
    requires AreHeaders(hs) && OneLine(version)
    ensures var r := ReadRequest(HTTPPost(msg, hs, version) + rest, before);
            var m := ReadMessage(r.rest, r.proto);
            var f := Assigned(map[], OwnList(|msg|, version) + hs);
            m.fields == (if m.code == 200 then WithConnection(f, 1) else f) && (m.code == 200 || m.code == 500)
  {
    hide OwnHeaders, OwnList, HeaderTexts, Lines, RequestLine, Assigned, WithConnection;
    hide HTTPPost, ReadRequest, ReadMessage;
    var ls := OwnHeaders(|msg|, version) + HeaderTexts(hs);
    PostSplits(msg, hs, version, rest);
    RequestLineReadsBack(Lines(ls) + EOL + (msg + rest), before);
    RequestHead(msg, hs, version);
    MessageFields(ls, msg + rest, 1);
    OwnListIs(|msg|, version, hs);
    FoldAssigns(NO_HEAD, OwnList(|msg|, version) + hs);
  }

  /** Every header of the caller's arrives under its name, unless a later one has the same name. */
  lemma HeadersArrive(msg: seq<byte>, hs: seq<Header>, version: seq<byte>, rest: seq<byte>, before: Request)
    requires AreHeaders(hs) && OneLine(version)
    ensures var r := ReadRequest(HTTPPost(msg, hs, version) + rest, before);
            var m := ReadMessage(r.rest, r.proto);
            forall i :: 0 <= i < |hs| && IsLast(hs, i) ==>
              Finds(m.fields, Key(hs[i]), Settled(m.code, Key(hs[i]), Field(hs[i])))
  {
    hide HTTPPost, ReadRequest, ReadMessage, Assigned, WithConnection, Key, Field, Settled, Ascii;
    var all := OwnList(|msg|, version) + hs;
    var f := Assigned(map[], all);
    RequestFields(msg, hs, version, rest, before);
    HasConnection(|msg|, version, hs);
    forall i | 0 <= i < |hs| && IsLast(hs, i)
      ensures Finds(f, Key(hs[i]), Field(hs[i]))
      ensures Finds(WithConnection(f, 1), Key(hs[i]), Settled(200, Key(hs[i]), Field(hs[i])))
      ensures Settled(500, Key(hs[i]), Field(hs[i])) == Field(hs[i])
    {
      assert forall j :: 0 <= j < |hs| ==> all[6 + j] == hs[j];
      LastIsAssigned(map[], all, 6 + i);
      SettlesAll(f, Key(hs[i]), Field(hs[i]));
      Unsettled(Key(hs[i]), Field(hs[i]));
    }
  }

  lemma Unsettled(key: seq<byte>, value: seq<byte>)
    ensures Settled(500, key, value) == value
  {
  }

  lemma HasConnection(length: nat, version: seq<byte>, hs: seq<Header>)
    ensures Ascii("connection") in Assigned(map[], OwnList(length, version) + hs)
  {
    hide Ascii, Assigned, Key, Field, Digits;
    OwnKeys(length, version);
    var all := OwnList(length, version) + hs;
    assert Key(all[4]) == Ascii("connection");
    NotAssigned(map[], all, Ascii("connection"));
  }

  lemma OwnArrives(msg: seq<byte>, hs: seq<Header>, version: seq<byte>, rest: seq<byte>, before: Request, i: nat)
    requires AreHeaders(hs) && OneLine(version) && i < 6
    ensures var r := ReadRequest(HTTPPost(msg, hs, version) + rest, before);
            var h := OwnList(|msg|, version)[i];
            Names(hs, Key(h)) || Finds(ReadMessage(r.rest, r.proto).fields, Key(h), Field(h))
  {
    hide HTTPPost, ReadRequest, ReadMessage, Assigned, WithConnection, Key, Field, Ascii, OwnList, Settled;
    var own := OwnList(|msg|, version);
    var all, h := own + hs, own[i];
    var f := Assigned(map[], all);
    if !Names(hs, Key(h)) {
      RequestFields(msg, hs, version, rest, before);
      HasConnection(|msg|, version, hs);
      OwnIsLast(|msg|, version, hs, i);
      LastIsAssigned(map[], all, i);
      SettlesAll(f, Key(h), Field(h));
      OwnIsSettled(|msg|, version, i);
    }
  }

  lemma OwnIsSettled(length: nat, version: seq<byte>, i: nat)
    requires i < 6
    ensures var h := OwnList(length, version)[i]; Settled(200, Key(h), Field(h)) == Field(h)
  {
    OwnKeys(length, version);
    OwnNamesDiffer();
    hide Ascii, Key, Field, Trim, Digits, OwnList;
  }

  /** Nothing else is found than what the program or the caller put in. */
  lemma NothingElseArrives(msg: seq<byte>, hs: seq<Header>, version: seq<byte>, rest: seq<byte>, before: Request,
                           k: seq<byte>)
    requires AreHeaders(hs) && OneLine(version)
    ensures var r := ReadRequest(HTTPPost(msg, hs, version) + rest, before);
            k in ReadMessage(r.rest, r.proto).fields ==>
              k in {Ascii("user-agent"), Ascii("host"), Ascii("content-type"), Ascii("content-length"),
                    Ascii("connection"), Ascii("accept")} || Names(hs, k)
  {
    hide HTTPPost, ReadRequest, ReadMessage, Assigned, WithConnection, Key, Field, Ascii, Trim, Digits, OwnList;
    var all := OwnList(|msg|, version) + hs;
    var f := Assigned(map[], all);
    RequestFields(msg, hs, version, rest, before);
    HasConnection(|msg|, version, hs);
    SettlesKeys(f);
    NotAssigned(map[], all, k);
    if k in f {
      OwnKeys(|msg|, version);
      var i :| 0 <= i < |all| && Key(all[i]) == k;
      assert i >= 6 ==> all[i] == hs[i - 6];
    }
  }

  lemma SettlesKeys(f: Fields)
    requires Ascii("connection") in f
    ensures WithConnection(f, 1).Keys == f.Keys
  {
    hide Ascii;
  }

  /** And so do the program's own, each unless the caller's have its name. */
  lemma OwnHeadersArrive(msg: seq<byte>, hs: seq<Header>, version: seq<byte>, rest: seq<byte>, before: Request)
    requires AreHeaders(hs) && OneLine(version)
    ensures var r := ReadRequest(HTTPPost(msg, hs, version) + rest, before);
            var f := ReadMessage(r.rest, r.proto).fields;
            && (Names(hs, Ascii("user-agent"))
                || Finds(f, Ascii("user-agent"), Trim(Ascii("FidChain-json-rpc/") + version)))
            && (Names(hs, Ascii("host")) || Finds(f, Ascii("host"), Ascii("127.0.0.1")))
            && (Names(hs, Ascii("content-type")) || Finds(f, Ascii("content-type"), Ascii("application/json")))
            && (Names(hs, Ascii("content-length")) || Finds(f, Ascii("content-length"), Digits(|msg|)))
            && (Names(hs, Ascii("connection")) || Finds(f, Ascii("connection"), Ascii("keep-alive")))
            && (Names(hs, Ascii("accept")) || Finds(f, Ascii("accept"), Ascii("application/json")))
  {
    hide HTTPPost, ReadRequest, ReadMessage, Key, Field, Ascii, Trim, Digits, OwnList, Names, Finds;
    OwnKeys(|msg|, version);
    forall i | 0 <= i < 6
      ensures var r := ReadRequest(HTTPPost(msg, hs, version) + rest, before);
              var h := OwnList(|msg|, version)[i];
              Names(hs, Key(h)) || Finds(ReadMessage(r.rest, r.proto).fields, Key(h), Field(h))
    {
      OwnArrives(msg, hs, version, rest, before, i);
    }
  }

  // ---------------------------------------------------------------- replies

  function ReplyList(r: Reply): seq<Header> {
    [Header(Ascii("Date"), r.date),
     Header(Ascii("Connection"), Connection(r.keepalive)),
     Header(Ascii("Content-Length"), Digits(|r.body|)),
     Header(Ascii("Content-Type"), Ascii("application/json")),
     Header(Ascii("Server"), Ascii("FidChain-json-rpc/") + r.version)]
  }

  function UnauthorizedList(date: seq<byte>, version: seq<byte>): seq<Header> {
    [Header(Ascii("Date"), date),
     Header(Ascii("Server"), Ascii("FidChain-json-rpc/") + version),
     Header(Ascii("WWW-Authenticate"), Ascii("Basic realm=\"jsonrpc\"")),
     Header(Ascii("Content-Type"), Ascii("text/html")),
     Header(Ascii("Content-Length"), Ascii("296"))]
  }

  lemma ListsAreHeaders(r: Reply)
    ensures ReplyHeaders(r) == HeaderTexts(ReplyList(r))
    ensures UnauthorizedHeaders(r.date, r.version) == HeaderTexts(UnauthorizedList(r.date, r.version))
  {
    hide HeaderText, Ascii, Digits, Connection;
  }

  lemma AssignedFive(a: Header, b: Header, c: Header, d: Header, e: Header)
    ensures Assigned(map[], [a, b, c, d, e])
         == map[][Key(a) := Field(a)][Key(b) := Field(b)][Key(c) := Field(c)][Key(d) := Field(d)][Key(e) := Field(e)]
  {
    hide Key, Field;
    var f: Fields := map[];
    var g := f[Key(a) := Field(a)];
    var h := g[Key(b) := Field(b)];
    var k := h[Key(c) := Field(c)];
    var l := k[Key(d) := Field(d)];
    assert [a, b, c, d, e][1..] == [b, c, d, e] && [b, c, d, e][1..] == [c, d, e] && [c, d, e][1..] == [d, e];
    assert [d, e][1..] == [e];
    assert Assigned(l, [e]) == Assigned(l[Key(e) := Field(e)], []);
    assert Assigned(k, [d, e]) == Assigned(l, [e]);
    assert Assigned(h, [c, d, e]) == Assigned(k, [d, e]);
    assert Assigned(g, [b, c, d, e]) == Assigned(h, [c, d, e]);
    assert Assigned(f, [a, b, c, d, e]) == Assigned(g, [b, c, d, e]);
  }

  /** What the header lines of a reply say, under the names in lower case. */
  function ReplyFields(r: Reply): Fields {
    map[Ascii("date") := Trim(r.date),
        Ascii("connection") := if r.keepalive then Ascii("keep-alive") else Ascii("close"),
        Ascii("content-length") := Digits(|r.body|),
        Ascii("content-type") := Ascii("application/json"),
        Ascii("server") := Trim(Ascii("FidChain-json-rpc/") + r.version)]
  }

  /** And those of the 401 page, which says nothing of the connection. */
  function UnauthorizedFields(r: Reply): Fields {
    map[Ascii("date") := Trim(r.date),
        Ascii("server") := Trim(Ascii("FidChain-json-rpc/") + r.version),
        Ascii("www-authenticate") := Ascii("Basic realm=\"jsonrpc\""),
        Ascii("content-type") := Ascii("text/html"),
        Ascii("content-length") := Ascii("296")]
  }

  lemma ReplyAssigns(r: Reply)
    ensures Assigned(map[], ReplyList(r)) == ReplyFields(r)
  {
    hide Ascii, Key, Field, Trim, Digits, Connection, Assigned;
    DateKey(r.date);
    ConnectionKey(r.keepalive);
    LengthKey(|r.body|);
    TypeKey(Ascii("application/json"));
    TypeValue();
    ServerKey(Ascii("FidChain-json-rpc/") + r.version);
    var hs := ReplyList(r);
    AssignedFive(hs[0], hs[1], hs[2], hs[3], hs[4]);
    ConnectionIs(r.keepalive);
  }

  lemma ConnectionIs(keepalive: bool)
    ensures Connection(keepalive) == if keepalive then Ascii("keep-alive") else Ascii("close")
  {
  }

  lemma PageValues()
    ensures Trim(Ascii("Basic realm=\"jsonrpc\"")) == Ascii("Basic realm=\"jsonrpc\"")
    ensures Trim(Ascii("text/html")) == Ascii("text/html")
  {
    TrimTrims(Ascii("Basic realm=\"jsonrpc\""));
    TrimTrims(Ascii("text/html"));
    hide Trim;
  }

  lemma UnauthorizedAssigns(r: Reply)
    ensures Assigned(map[], UnauthorizedList(r.date, r.version)) == UnauthorizedFields(r)
  {
    hide Ascii, Key, Field, Trim, Digits, Assigned;
    DateKey(r.date);
    ServerKey(Ascii("FidChain-json-rpc/") + r.version);
    RealmKey(Ascii("Basic realm=\"jsonrpc\""));
    TypeKey(Ascii("text/html"));
    PageValues();
    LengthKey(296);
    Digits296();
    var hs := UnauthorizedList(r.date, r.version);
    AssignedFive(hs[0], hs[1], hs[2], hs[3], hs[4]);
  }

  /** What a client finds in the header of a reply, whatever follows: exactly these fields; the 401 page closes the
      connection. */
  lemma ReplyHeadersArrive(r: Reply, rest: seq<byte>)
    requires OneLine(r.date) && OneLine(r.version)
    ensures var st := ReadStatus(HTTPReply(r) + rest, 0);
            var f := ReadMessage(st.rest, st.proto).fields;
            f == if r.status == 401 then UnauthorizedFields(r)[Ascii("connection") := Ascii("close")]
                 else ReplyFields(r)
  {
    hide Lines, StatusLine, UnauthorizedLine, UnauthorizedPage, ReplyHeaders, UnauthorizedHeaders, Assigned;
    hide HeaderTexts;
    hide ReadMessage, ReadStatus, Ascii, ReplyFields, UnauthorizedFields, ReplyList, UnauthorizedList, WithConnection;
    ListsAreHeaders(r);
    ReplySettles(r);
    if r.status == 401 {
      var ls, page := UnauthorizedHeaders(r.date, r.version), UnauthorizedPage();
      assert HTTPReply(r) + rest == UnauthorizedLine() + EOL + (Lines(ls) + EOL + (page + rest));
      UnauthorizedLineReadsBack(Lines(ls) + EOL + (page + rest), 0);
      UnauthorizedHeadersAreLines(r.date, r.version);
      FoldAssigns(NO_HEAD, UnauthorizedList(r.date, r.version));
      UnauthorizedAssigns(r);
      MessageFields(ls, page + rest, 0);
      UnauthorizedReadsBack(r, rest);
    } else {
      var ls := ReplyHeaders(r);
      assert HTTPReply(r) + rest == StatusLine(r.status) + EOL + (Lines(ls) + EOL + (r.body + rest));
      StatusLineReadsBack(r.status, Lines(ls) + EOL + (r.body + rest), 0);
      ReplyHeadersAreLines(r);
      FoldAssigns(NO_HEAD, ReplyList(r));
      ReplyAssigns(r);
      MessageFields(ls, r.body + rest, 1);
    }
  }

  lemma ReplySettles(r: Reply)
    ensures WithConnection(ReplyFields(r), 1) == ReplyFields(r)
    ensures WithConnection(UnauthorizedFields(r), 0) == UnauthorizedFields(r)[Ascii("connection") := Ascii("close")]
  {
    OwnNamesDiffer();
    assert Ascii("connection") !in UnauthorizedFields(r) by {
      assert |Ascii("date")| == 4 && |Ascii("server")| == 6 && |Ascii("www-authenticate")| == 16;
      assert |Ascii("content-type")| == 12 && |Ascii("content-length")| == 14 && |Ascii("connection")| == 10;
    }
    assert ReplyFields(r)[Ascii("connection")] in {Ascii("keep-alive"), Ascii("close")} by {
      assert |Ascii("server")| == 6 && |Ascii("content-type")| == 12 && |Ascii("content-length")| == 14;
    }
    hide Ascii;
  }
}
