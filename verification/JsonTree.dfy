/** "Parse to a tree, then return it": the grammar as a plain recursive parser without actions.
    This is what the action-firing grammar is measured against. */
module JsonTree {
  import opened Bytes
  import opened JsonValue
  import opened JsonWriter
  import opened JsonLex

  datatype Reason = NotAValue | NotAnArray | NotAnObject | NoColon

  /** A rule either consumes input, or fails without a word, or throws. */
  datatype Parsed<+T> =
    | Hit(value: T, rest: seq<byte>)
    | Miss
    | Thrown(reason: Reason, at: seq<byte>)

  /** A single-character parser: the skipper runs before and after the character. */
  function Ch(c: byte, s: seq<byte>): (r: Option<seq<byte>>)
    ensures r.Some? ==> |r.value| < |s|
  {
    var t := Skip(s);
    if t != [] && t[0] == c then Some(Skip(t[1..])) else None
  }

  /** A keyword: the skipper runs before it, not inside or after. */
  function Word(w: seq<byte>, s: seq<byte>): (r: Option<seq<byte>>)
    requires w != []
    ensures r.Some? ==> |r.value| < |s|
  {
    var t := Skip(s);
    if w <= t then Some(t[|w|..]) else None
  }

  function ValueRule(s: seq<byte>): (p: Parsed<Value>)
    ensures p.Hit? ==> |p.rest| < |s|
    decreases |s|, 1
  {
    var t := Skip(s);
    if LexString(t).Some? then
      var n := LexString(t).value;
      Hit(Str(GetStr(t[..n])), t[n..])
    else if Number(t).Some? then Hit(Number(t).value.0, Number(t).value.1)
    else if Ch(LBRACE, t).Some? then ObjectRest(Ch(LBRACE, t).value)
    else if Ch(LBRACKET, t).Some? then ArrayRest(Ch(LBRACKET, t).value)
    else if Word(TRUE_WORD, t).Some? then Hit(Bool(true), Word(TRUE_WORD, t).value)
    else if Word(FALSE_WORD, t).Some? then Hit(Bool(false), Word(FALSE_WORD, t).value)
    else if Word(NULL_WORD, t).Some? then Hit(Null, Word(NULL_WORD, t).value)
    else Miss
  }

  function ObjectRest(s: seq<byte>): (p: Parsed<Value>)
    ensures !p.Miss?
    ensures p.Hit? ==> |p.rest| < |s|
    decreases |s|, 4
  {
    match Members(s)
    case Thrown(why, at) => Thrown(why, at)
    case Hit(ms, r) =>
      match Ch(RBRACE, r)
      case Some(r') => Hit(Obj(ms), r')
      case None => Thrown(NotAnObject, Skip(r))
  }

  function Members(s: seq<byte>): (p: Parsed<seq<Member>>)
    ensures !p.Miss?
    ensures p.Hit? ==> |p.rest| <= |s|
    decreases |s|, 3
  {
    match PairRule(s)
    case Miss => Hit([], s)
    case Thrown(why, at) => Thrown(why, at)
    case Hit(m, r) =>
      match MorePairs(r)
      case Thrown(why, at) => Thrown(why, at)
      case Hit(ms, r') => Hit([m] + ms, r')
  }

  function MorePairs(s: seq<byte>): (p: Parsed<seq<Member>>)
    ensures !p.Miss?
    ensures p.Hit? ==> |p.rest| <= |s|
    decreases |s|, 3
  {
    match Ch(COMMA, s)
    case None => Hit([], s)
    case Some(r) =>
      match PairRule(r)
      case Miss => Hit([], s)
      case Thrown(why, at) => Thrown(why, at)
      case Hit(m, r') =>
        match MorePairs(r')
        case Thrown(why, at) => Thrown(why, at)
        case Hit(ms, r'') => Hit([m] + ms, r'')
  }

  function PairRule(s: seq<byte>): (p: Parsed<Member>)
    ensures p.Hit? ==> |p.rest| < |s|
    decreases |s|, 2
  {
    var t := Skip(s);
    match LexString(t)
    case None => Miss
    case Some(n) =>
      match Ch(COLON, t[n..])
      case None => Thrown(NoColon, Skip(t[n..]))
      case Some(r) =>
        match ValueRule(r)
        case Miss => Thrown(NotAValue, Skip(r))
        case Thrown(why, at) => Thrown(why, at)
        case Hit(v, r') => Hit(Member(GetStr(t[..n]), v), r')
  }

  function ArrayRest(s: seq<byte>): (p: Parsed<Value>)
    ensures !p.Miss?
    ensures p.Hit? ==> |p.rest| < |s|
    decreases |s|, 4
  {
    match Elements(s)
    case Thrown(why, at) => Thrown(why, at)
    case Hit(vs, r) =>
      match Ch(RBRACKET, r)
      case Some(r') => Hit(Arr(vs), r')
      case None => Thrown(NotAnArray, Skip(r))
  }

  function Elements(s: seq<byte>): (p: Parsed<seq<Value>>)
    ensures !p.Miss?
    ensures p.Hit? ==> |p.rest| <= |s|
    decreases |s|, 3
  {
    match ValueRule(s)
    case Miss => Hit([], s)
    case Thrown(why, at) => Thrown(why, at)
    case Hit(v, r) =>
      match MoreValues(r)
      case Thrown(why, at) => Thrown(why, at)
      case Hit(vs, r') => Hit([v] + vs, r')
  }

  function MoreValues(s: seq<byte>): (p: Parsed<seq<Value>>)
    ensures !p.Miss?
    ensures p.Hit? ==> |p.rest| <= |s|
    decreases |s|, 3
  {
    match Ch(COMMA, s)
    case None => Hit([], s)
    case Some(r) =>
      match ValueRule(r)
      case Miss => Hit([], s)
      case Thrown(why, at) => Thrown(why, at)
      case Hit(v, r') =>
        match MoreValues(r')
        case Thrown(why, at) => Thrown(why, at)
        case Hit(vs, r'') => Hit([v] + vs, r'')
  }

  /** The start rule: what is not a value throws. */
  function Json(s: seq<byte>): (p: Parsed<Value>)
    ensures !p.Miss?
    ensures p.Hit? ==> |p.rest| < |s|
  {
    match ValueRule(s)
    case Miss => Thrown(NotAValue, Skip(s))
    case p => p
  }
}
