/** JSON-RPC requests and replies: objects printed compactly on one line, carried by HTTP messages. */
module JsonRpc {
  import opened Bytes
  import opened JsonValue
  import opened JsonEscape
  import opened JsonWriter
  import opened JsonTree
  import opened JsonRoundTrip
  import opened JsonEscapeForms
  import opened JsonCharacters
  import opened Http
  import opened HttpFraming
  import opened HttpRequests

  function RequestObject(name: seq<byte>, params: seq<Value>, id: Value): Value {
    Obj([Member(Ascii("method"), Str(name)), Member(Ascii("params"), Arr(params)), Member(Ascii("id"), id)])
  }

  /** With an error there is no result. */
  function ReplyObject(result: Value, error: Value, id: Value): Value {
    Obj([Member(Ascii("result"), if !error.Null? then Null else result),
         Member(Ascii("error"), error),
         Member(Ascii("id"), id)])
  }

  /** `write_string(value, false) + "\n"`. */
  function OneLineText(v: Value, printable: set<byte>): seq<byte> {
    Text(v, Style(false, printable), 0) + [LF]
  }

  function JSONRPCRequest(name: seq<byte>, params: seq<Value>, id: Value, printable: set<byte>): seq<byte> {
    OneLineText(RequestObject(name, params, id), printable)
  }

  function JSONRPCReply(result: Value, error: Value, id: Value, printable: set<byte>): seq<byte> {
    OneLineText(ReplyObject(result, error, id), printable)
  }

  // ---------------------------------------------------------------- looking up a member

  /** `find_value`: the value of the first member with the name, or null. */
  function Lookup(ms: seq<Member>, name: seq<byte>): (v: Value)
    ensures (forall i :: 0 <= i < |ms| ==> ms[i].name != name) ==> v == Null
    ensures forall i :: 0 <= i < |ms| && ms[i].name == name && (forall j :: 0 <= j < i ==> ms[j].name != name) ==>
              v == ms[i].value
  {
    if ms == [] then Null else if ms[0].name == name then ms[0].value else Lookup(ms[1..], name)
  }

  method FindValue(ms: seq<Member>, name: seq<byte>) returns (v: Value)
    ensures v == Lookup(ms, name)
  {
    var i := 0;
    while i < |ms|
      invariant 0 <= i <= |ms|
      invariant forall j :: 0 <= j < i ==> ms[j].name != name
    {
      if ms[i].name == name {
        return ms[i].value;
      }
      i := i + 1;
    }
    return Null;
  }

  lemma ThreeNames()
    ensures Ascii("method") != Ascii("params") && Ascii("result") != Ascii("error")
    ensures Ascii("method") != Ascii("id") && Ascii("params") != Ascii("id")
    ensures Ascii("result") != Ascii("id") && Ascii("error") != Ascii("id")
  {
    assert Ascii("method")[0] == 109 && Ascii("params")[0] == 112;
  }

  lemma ThreeMembers(ms: seq<Member>)
    requires |ms| == 3
    requires ms[0].name != ms[1].name && ms[0].name != ms[2].name && ms[1].name != ms[2].name
    ensures Lookup(ms, ms[0].name) == ms[0].value
    ensures Lookup(ms, ms[1].name) == ms[1].value
    ensures Lookup(ms, ms[2].name) == ms[2].value
  {
    hide Lookup;
  }

  // ---------------------------------------------------------------- requests and replies

  lemma OneLineTextParses(v: Value, printable: set<byte>)
    requires v.Obj?
    ensures Json(OneLineText(v, printable)) == Hit(Norm(v), [])
  {
    TextParses(v, Style(false, printable), 0, [LF]);
    assert Skip([LF]) == [];
  }

  /** The parsed body of a request: three members in this order, and what is found under their names is the method's
      name, the parameters and the id, up to what text can carry. */
  predicate CarriesRequest(p: Parsed<Value>, name: seq<byte>, params: seq<Value>, id: Value) {
    && p.Hit? && p.rest == [] && p.value.Obj?
    && var ms := p.value.members;
    && |ms| == 3 && [ms[0].name, ms[1].name, ms[2].name] == [Ascii("method"), Ascii("params"), Ascii("id")]
    && Lookup(ms, Ascii("method")) == Str(name)
    && Lookup(ms, Ascii("params")) == Norm(Arr(params))
    && Lookup(ms, Ascii("id")) == Norm(id)
  }

  /** The parsed body of a reply: the result is there unless there is an error. */
  predicate CarriesReply(p: Parsed<Value>, result: Value, error: Value, id: Value) {
    && p.Hit? && p.rest == [] && p.value.Obj?
    && var ms := p.value.members;
    && |ms| == 3 && [ms[0].name, ms[1].name, ms[2].name] == [Ascii("result"), Ascii("error"), Ascii("id")]
    && Lookup(ms, Ascii("result")) == (if error == Null then Norm(result) else Null)
    && Lookup(ms, Ascii("error")) == Norm(error)
    && Lookup(ms, Ascii("id")) == Norm(id)
  }

  lemma ParsedRequest(name: seq<byte>, params: seq<Value>, id: Value, printable: set<byte>)
    ensures CarriesRequest(Json(JSONRPCRequest(name, params, id, printable)), name, params, id)
  {
    var sent := RequestObject(name, params, id);
    OneLineTextParses(sent, printable);
    NormOfObject(sent.members);
    hide Json, Ascii, OneLineText, Lookup;
    ThreeNames();
    var ms := NormMembers(sent.members);
    assert Norm(Str(name)) == Str(name);
    ThreeMembers(ms);
  }

  lemma ParsedReply(result: Value, error: Value, id: Value, printable: set<byte>)
    ensures CarriesReply(Json(JSONRPCReply(result, error, id, printable)), result, error, id)
  {
    var sent := ReplyObject(result, error, id);
    OneLineTextParses(sent, printable);
    NormOfObject(sent.members);
    hide Json, Ascii, OneLineText, Lookup;
    ThreeNames();
    var ms := NormMembers(sent.members);
    assert Norm(Null) == Null;
    ThreeMembers(ms);
  }

  /** A reply end to end: whatever the result, error, id and status (the 401 page carries no object), the client
      takes the message off the stream if and only if it is not too long, parses its body, and finds result, error and
      id in it (up to what text can carry), with the stream at the next message. */
  lemma ReplyArrivesIff(result: Value, error: Value, id: Value, printable: set<byte>,
                        status: int, keepalive: bool, date: seq<byte>, version: seq<byte>, rest: seq<byte>)
    requires OneLine(date) && OneLine(version) && status != 401
    ensures var body := JSONRPCReply(result, error, id, printable);
            var got := ReadReply(HTTPReply(Reply(status, body, keepalive, date, version)) + rest);
            && (got.0.code == 200 <==> |body| <= 1000000)
            && (got.0.code == 200 ==>
                  got.0.status == status && got.1 == rest && CarriesReply(Json(got.0.body), result, error, id))
    ensures error == Null ==> (Eq(result, Norm(result)) <==> AllOnGrid(result))
    ensures (Eq(error, Norm(error)) <==> AllOnGrid(error)) && (Eq(id, Norm(id)) <==> AllOnGrid(id))
  {
    var reply := Reply(status, JSONRPCReply(result, error, id, printable), keepalive, date, version);
    ReplyReadsBackIff(reply, rest);
    ParsedReply(result, error, id, printable);
    NormKeepsIff(result);
    NormKeepsIff(error);
    NormKeepsIff(id);
    hide HTTPReply, ReadReply, JSONRPCReply, Json, CarriesReply, Eq, Norm, AllOnGrid;
  }

  /** A request end to end, under any headers: it is taken off the stream if and only if they announce its length, which
      is not too long, and then method, parameters and id are found in it, with the stream at the next message. */
  lemma RequestArrivesIff(name: seq<byte>, params: seq<Value>, id: Value, printable: set<byte>,
                          hs: seq<Header>, version: seq<byte>, rest: seq<byte>, before: Request)
    requires AreHeaders(hs) && OneLine(version)
    ensures var msg := JSONRPCRequest(name, params, id, printable);
            var r := ReadRequest(HTTPPost(msg, hs, version) + rest, before);
            var m := ReadMessage(r.rest, r.proto);
            && r.ok
            && (m.code == 200 && m.body == msg && m.rest == rest <==> AnnouncedLength(msg, hs) == |msg| <= 1000000)
            && (m.body == msg ==> CarriesRequest(Json(m.body), name, params, id))
    ensures (Eq(Arr(params), Norm(Arr(params))) <==> AllOnGrid(Arr(params))) && (Eq(id, Norm(id)) <==> AllOnGrid(id))
  {
    hide HTTPPost, ReadRequest, ReadMessage, JSONRPCRequest, Json, CarriesRequest, AnnouncedLength;
    NormKeepsIff(Arr(params));
    NormKeepsIff(id);
    hide Eq, Norm, AllOnGrid;
    PostReadsBackIff(JSONRPCRequest(name, params, id, printable), hs, version, rest, before);
    ParsedRequest(name, params, id, printable);
  }

  // ---------------------------------------------------------------- their texts

  /** The letters of these names are printable. */
  predicate Prints(printable: set<byte>, names: string) {
    forall c :: c in Ascii(names) ==> c in printable
  }

  lemma NamePrints(printable: set<byte>, name: string)
    requires Prints(printable, name)
    requires forall i :: 0 <= i < |name| ==> 97 <= name[i] as int <= 122
    ensures Escape(Ascii(name), printable) == Ascii(name)
  {
    hide Escape;
    var s := Ascii(name);
    assert forall i :: 0 <= i < |s| ==> s[i] in s && s[i] as int == name[i] as int;
    hide Ascii;
    EscapeLeavesIff(s, printable);
  }

  /** A name with a plain text, and a value. */
  lemma NamedText(m: Member, name: string, ms: seq<Member>, i: nat, printable: set<byte>)
    requires i < |ms| && ms[i] == m && m.name == Ascii(name) && Escape(Ascii(name), printable) == Ascii(name)
    ensures var st := Style(false, printable);
            PairTexts(ms, st, 1)[i] == NameText(name) + Text(m.value, st, 1)
  {
    hide Text, Ascii, Escape;
  }

  /** Three values behind their names, on one line. */
  lemma ThreeMemberText(a: string, x: Value, b: string, y: Value, c: string, z: Value, printable: set<byte>)
    requires Escape(Ascii(a), printable) == Ascii(a) && Escape(Ascii(b), printable) == Ascii(b)
    requires Escape(Ascii(c), printable) == Ascii(c)
    ensures var st := Style(false, printable);
            OneLineText(Obj([Member(Ascii(a), x), Member(Ascii(b), y), Member(Ascii(c), z)]), printable)
            == Ascii("{") + NameText(a) + Text(x, st, 1) + (Ascii(",") + NameText(b)) + Text(y, st, 1)
               + (Ascii(",") + NameText(c)) + Text(z, st, 1) + Ascii("}\n")
  {
    LastCharacters();
    hide Text, Ascii, Escape, Between, NameText, PairTexts;
    var st := Style(false, printable);
    var ms := [Member(Ascii(a), x), Member(Ascii(b), y), Member(Ascii(c), z)];
    ObjectInCharacters(ms, st, 0);
    NamedText(ms[0], a, ms, 0, printable);
    NamedText(ms[1], b, ms, 1, printable);
    NamedText(ms[2], c, ms, 2, printable);
    var ts := PairTexts(ms, st, 1);
    ThreeBetween(ts, Ascii(","));
    Regroup(Ascii("{"), NameText(a), Text(x, st, 1), Ascii(","), NameText(b), Text(y, st, 1), NameText(c),
            Text(z, st, 1), Ascii("}"));
  }

  lemma LastCharacters()
    ensures Ascii("}\n") == Ascii("}") + [LF]
  {
  }

  function NameText(name: string): seq<byte> {
    Ascii("\"") + Ascii(name) + Ascii("\":")
  }

  lemma ThreeBetween(ts: seq<seq<byte>>, sep: seq<byte>)
    requires |ts| == 3
    ensures Between(ts, sep) == ts[0] + sep + (ts[1] + sep + ts[2])
  {
    assert ts[1..][1..] == [ts[2]];
    assert Between([ts[2]], sep) == ts[2];
  }

  lemma Regroup(open: seq<byte>, a: seq<byte>, x: seq<byte>, sep: seq<byte>, b: seq<byte>, y: seq<byte>,
                c: seq<byte>, z: seq<byte>, close: seq<byte>)
    ensures open + ((a + x) + sep + ((b + y) + sep + (c + z))) + close + [LF]
         == open + a + x + (sep + b) + y + (sep + c) + z + (close + [LF])
  {
    var u, v := (sep + b) + y, (sep + c) + z;
    assert (a + x) + sep + ((b + y) + sep + (c + z)) == (a + x) + (u + v);
    Assoc4(open, a, x, u + v);
    assert open + ((a + x) + (u + v)) == open + a + x + (u + v);
    assert open + a + x + (u + v) + close + [LF] == open + a + x + u + v + (close + [LF]);
  }

  lemma MethodName()
    ensures Ascii("{\"method\":") == Ascii("{") + NameText("method")
  {
  }

  lemma ParamsName()
    ensures Ascii(",\"params\":") == Ascii(",") + NameText("params")
  {
  }

  lemma IdName()
    ensures Ascii(",\"id\":") == Ascii(",") + NameText("id")
  {
  }

  lemma ResultName()
    ensures Ascii("{\"result\":") == Ascii("{") + NameText("result")
  {
  }

  lemma ErrorName()
    ensures Ascii(",\"error\":") == Ascii(",") + NameText("error")
  {
  }

  /** The text of a request, where lower-case letters are printable. */
  lemma RequestText(name: seq<byte>, params: seq<Value>, id: Value, printable: set<byte>)
    requires Prints(printable, "method") && Prints(printable, "params") && Prints(printable, "id")
    ensures var st := Style(false, printable);
            JSONRPCRequest(name, params, id, printable)
            == Ascii("{\"method\":") + Text(Str(name), st, 1) + Ascii(",\"params\":") + Text(Arr(params), st, 1)
               + Ascii(",\"id\":") + Text(id, st, 1) + Ascii("}\n")
  {
    hide Text, Ascii, Escape, OneLineText, NameText, Prints;
    NamePrints(printable, "method");
    NamePrints(printable, "params");
    NamePrints(printable, "id");
    ThreeMemberText("method", Str(name), "params", Arr(params), "id", id, printable);
    MethodName();
    ParamsName();
    IdName();
  }

  /** And that of a reply. */
  lemma ReplyText(result: Value, error: Value, id: Value, printable: set<byte>)
    requires Prints(printable, "result") && Prints(printable, "error") && Prints(printable, "id")
    ensures var st := Style(false, printable);
            JSONRPCReply(result, error, id, printable)
            == Ascii("{\"result\":") + Text(if error == Null then result else Null, st, 1)
               + Ascii(",\"error\":") + Text(error, st, 1) + Ascii(",\"id\":") + Text(id, st, 1) + Ascii("}\n")
  {
    hide Text, Ascii, Escape, OneLineText, NameText, Prints;
    NamePrints(printable, "result");
    NamePrints(printable, "error");
    NamePrints(printable, "id");
    ThreeMemberText("result", if error == Null then result else Null, "error", error, "id", id, printable);
    ResultName();
    ErrorName();
    IdName();
  }
}
