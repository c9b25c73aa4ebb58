/** Whole texts: what the reader makes of every text of its own, wide grammar, and which of the texts of
    RFC 8259 it accepts, with what value. */
module JsonTexts {
  import opened Bytes
  import opened JsonValue
  import opened JsonEscape
  import opened JsonWriter
  import opened JsonLex
  import opened JsonTree
  import opened JsonRoundTrip
  import opened JsonNumerals
  import opened JsonLiterals

  // ---------------------------------------------------------------- written values

  /** A value as it is written, the white space around its items and names included. */
  datatype Syntax =
    | NullWord | TrueWord | FalseWord
    | Numeric(n: Numeral)
    | Quoted(body: seq<byte>)
    | Array(inner: seq<byte>, items: seq<Item>)
    | Object(inner: seq<byte>, pairs: seq<Pair>)

  datatype Item = Item(before: seq<byte>, value: Syntax, after: seq<byte>)

  datatype Pair = Pair(before: seq<byte>, name: seq<byte>, beforeColon: seq<byte>, item: Item)

  /** The reader's grammar: any white space, any string body, any numeral. */
  predicate Readable(v: Syntax)
    decreases v
  {
    match v
    case Numeric(n) => IsNumeral(n)
    case Quoted(body) => IsBody(body)
    case Array(inner, items) =>
      && AllSpace(inner)
      && (forall i :: 0 <= i < |items| ==> Spaced(items[i]) && Readable(items[i].value))
    case Object(inner, pairs) =>
      && AllSpace(inner)
      && (forall i :: 0 <= i < |pairs| ==> Named(pairs[i]) && Readable(pairs[i].item.value))
    case _ => true
  }

  predicate Spaced(i: Item) {
    AllSpace(i.before) && AllSpace(i.after)
  }

  predicate Named(p: Pair) {
    AllSpace(p.before) && IsBody(p.name) && AllSpace(p.beforeColon) && Spaced(p.item)
  }

  /** The text. */
  function Yield(v: Syntax): seq<byte>
    decreases v, 0
  {
    match v
    case NullWord => NULL_WORD
    case TrueWord => TRUE_WORD
    case FalseWord => FALSE_WORD
    case Numeric(n) => NumeralText(n)
    case Quoted(body) => Literal(body)
    case Array(inner, items) => [LBRACKET] + ItemsText(inner, items) + [RBRACKET]
    case Object(inner, pairs) => [LBRACE] + PairsText(inner, pairs) + [RBRACE]
  }

  function ItemText(i: Item): seq<byte>
    decreases i, 0
  {
    i.before + Yield(i.value) + i.after
  }

  function ItemsText(inner: seq<byte>, items: seq<Item>): seq<byte>
    decreases items, 1
  {
    if items == [] then inner else ItemText(items[0]) + MoreItemsText(items[1..])
  }

  function MoreItemsText(items: seq<Item>): seq<byte>
    decreases items, 0
  {
    if items == [] then [] else [COMMA] + ItemText(items[0]) + MoreItemsText(items[1..])
  }

  function SpacedPairText(p: Pair): seq<byte>
    decreases p, 0
  {
    p.before + Literal(p.name) + p.beforeColon + [COLON] + ItemText(p.item)
  }

  function PairsText(inner: seq<byte>, pairs: seq<Pair>): seq<byte>
    decreases pairs, 1
  {
    if pairs == [] then inner else SpacedPairText(pairs[0]) + MorePairsText(pairs[1..])
  }

  function MorePairsText(pairs: seq<Pair>): seq<byte>
    decreases pairs, 0
  {
    if pairs == [] then [] else [COMMA] + SpacedPairText(pairs[0]) + MorePairsText(pairs[1..])
  }

  // ---------------------------------------------------------------- what is read

  /** Every integer in it fits one of the 64-bit types. */
  predicate Fits(v: Syntax)
    requires Readable(v)
    decreases v
  {
    match v
    case Numeric(n) => NumeralFits(n)
    case Array(_, items) => forall i :: 0 <= i < |items| ==> Fits(items[i].value)
    case Object(_, pairs) => forall i :: 0 <= i < |pairs| ==> Fits(pairs[i].item.value)
    case _ => true
  }

  /** What the reader makes of it. */
  function Reading(v: Syntax): Value
    requires Readable(v) && Fits(v)
    decreases v
  {
    match v
    case NullWord => Null
    case TrueWord => Bool(true)
    case FalseWord => Bool(false)
    case Numeric(n) => NumeralValue(n)
    case Quoted(body) => Str(Unescape(body))
    case Array(_, items) => Arr(seq(|items|, i requires 0 <= i < |items| => Reading(items[i].value)))
    case Object(_, pairs) =>
      Obj(seq(|pairs|, i requires 0 <= i < |pairs| => Member(Unescape(pairs[i].name), Reading(pairs[i].item.value))))
  }

  predicate ReadableItems(items: seq<Item>) {
    forall i :: 0 <= i < |items| ==> Spaced(items[i]) && Readable(items[i].value)
  }

  predicate ReadablePairs(pairs: seq<Pair>) {
    forall i :: 0 <= i < |pairs| ==> Named(pairs[i]) && Readable(pairs[i].item.value)
  }

  predicate ItemsFit(items: seq<Item>)
    requires ReadableItems(items)
  {
    forall i :: 0 <= i < |items| ==> Fits(items[i].value)
  }

  predicate PairsFit(pairs: seq<Pair>)
    requires ReadablePairs(pairs)
  {
    forall i :: 0 <= i < |pairs| ==> Fits(pairs[i].item.value)
  }

  function Readings(items: seq<Item>): (vs: seq<Value>)
    requires ReadableItems(items) && ItemsFit(items)
    ensures |vs| == |items|
  {
    seq(|items|, i requires 0 <= i < |items| => Reading(items[i].value))
  }

  function ReadingsOf(pairs: seq<Pair>): (ms: seq<Member>)
    requires ReadablePairs(pairs) && PairsFit(pairs)
    ensures |ms| == |pairs|
  {
    seq(|pairs|, i requires 0 <= i < |pairs| => Member(Unescape(pairs[i].name), Reading(pairs[i].item.value)))
  }

  // ---------------------------------------------------------------- reading it

  lemma WhiteSkips(w: seq<byte>, s: seq<byte>)
    requires AllSpace(w)
    ensures Skip(w + s) == Skip(s)
  {
    SkipOver(w, s);
  }

  lemma WhiteEndsNumber(w: seq<byte>, s: seq<byte>)
    requires AllSpace(w) && EndsNumber(s)
    ensures EndsNumber(w + s)
  {
  }

  predicate StartsReadable(c: byte) {
    StartsValue(c) || c == PLUS || c == DOT
  }

  lemma YieldStarts(v: Syntax)
    requires Readable(v)
    ensures Yield(v) != [] && StartsReadable(Yield(v)[0])
    ensures v.Numeric? ==> Yield(v)[0] in {PLUS, MINUS, DOT} || IsDigit(Yield(v)[0])
  {
    if v.Numeric? {
      NumeralStarts(v.n);
    }
  }

  lemma NumeralStarts(n: Numeral)
    requires IsNumeral(n)
    ensures var t := NumeralText(n); t != [] && (t[0] in {PLUS, MINUS, DOT} || IsDigit(t[0]))
  {
    var t := NumeralText(n);
    if n.sign != [] {
      assert t[0] == n.sign[0];
    } else if n.whole != [] {
      assert t[0] == n.whole[0];
    } else {
      assert t[0] == DOT;
    }
  }

  /** What a rule makes of a value that starts at `s`, when `next` is what stands behind the value and the white
      space after it. An integer that does not fit is no value, and inside a container that throws. */
  predicate Reads(v: Syntax, s: seq<byte>, next: seq<byte>)
    requires Readable(v)
  {
    var p := ValueRule(s);
    if Fits(v) then p.Hit? && p.value == Reading(v) && Skip(p.rest) == next
    else if v.Numeric? then p.Miss?
    else p.Thrown?
  }

  lemma ScalarReads(v: Syntax, rest: seq<byte>)
    requires Readable(v) && !v.Array? && !v.Object? && (v.Numeric? ==> EndsNumber(rest))
    ensures Reads(v, Yield(v) + rest, Skip(rest))
  {
    match v {
      case NullWord => WordParses(NULL_WORD, rest);
      case TrueWord => WordParses(TRUE_WORD, rest);
      case FalseWord => WordParses(FALSE_WORD, rest);
      case Numeric(n) =>
        YieldStarts(v);
        NumeralLexes(n, rest);
        NumeralReads(NumeralText(n), rest);
      case Quoted(body) => LiteralReads(body, rest);
    }
  }

  lemma StartsNothingElse(s: seq<byte>)
    requires s != [] && (s[0] in {PLUS, MINUS, DOT} || IsDigit(s[0]))
    ensures Skip(s) == s && LexString(s).None? && Ch(LBRACE, s).None? && Ch(LBRACKET, s).None?
    ensures Word(TRUE_WORD, s).None? && Word(FALSE_WORD, s).None? && Word(NULL_WORD, s).None?
  {
    assert Skip(s) == s;
    assert TRUE_WORD[0] == 116 && FALSE_WORD[0] == 102 && NULL_WORD[0] == 110;
    hide BodyLength, Skip;
  }

  lemma NumeralReads(t: seq<byte>, rest: seq<byte>)
    requires t != [] && (t[0] in {PLUS, MINUS, DOT} || IsDigit(t[0]))
    ensures var n := Number(t + rest);
            ValueRule(t + rest) == if n.Some? then Hit(n.value.0, n.value.1) else Miss
  {
    hide Number, LexString, Ch, Word, Skip, GetStr, ObjectRest, ArrayRest;
    assert (t + rest)[0] == t[0];
    StartsNothingElse(t + rest);
  }

  lemma LiteralReads(body: seq<byte>, rest: seq<byte>)
    requires IsBody(body)
    ensures ValueRule(Literal(body) + rest) == Hit(Str(Unescape(body)), rest)
  {
    LiteralLexes(body, rest);
    SliceOver(Literal(body), rest);
    assert Skip(Literal(body) + rest) == Literal(body) + rest;
    hide LexString, GetStr, Unescape, IsBody, Literal;
  }

  /** A value, whatever follows it, unless that would prolong a number. */
  lemma {:induction false} ValueReads(v: Syntax, rest: seq<byte>)
    requires Readable(v) && (v.Numeric? ==> EndsNumber(rest))
    ensures Reads(v, Yield(v) + rest, Skip(rest))
    decreases v, 0
  {
    match v {
      case Array(inner, items) => ArrayReads(inner, items, rest);
      case Object(inner, pairs) => ObjectReads(inner, pairs, rest);
      case _ => ScalarReads(v, rest);
    }
  }

  /** The place behind an item: not white space, and nothing that would prolong a number. */
  predicate IsNext(more: seq<byte>) {
    EndsNumber(more) && Skip(more) == more
  }

  lemma {:induction false} ItemReads(i: Item, s: seq<byte>, more: seq<byte>)
    requires Spaced(i) && Readable(i.value) && IsNext(more)
    requires Skip(s) == Skip(ItemText(i) + more)
    ensures Reads(i.value, s, more)
    ensures Skip(s) != [] && StartsReadable(Skip(s)[0])
    decreases i, 0
  {
    var text, behind := Yield(i.value), i.after + more;
    Assoc4(i.before, text, i.after, more);
    WhiteSkips(i.before, text + behind);
    WhiteSkips(i.after, more);
    WhiteEndsNumber(i.after, more);
    YieldStarts(i.value);
    assert (text + behind)[0] == text[0];
    ValueReads(i.value, behind);
    SkippedFirst(s, text + behind);
    hide ValueRule, Yield, Reading, Fits, Readable, EndsNumber, AllSpace;
  }

  // ---------------------------------------------------------------- arrays

  /** What a rule makes of the items before `close`: all of them, or a throw, or it stops where no bracket is. */
  predicate ItemsRead(items: seq<Item>, p: Parsed<seq<Value>>, close: seq<byte>)
    requires ReadableItems(items)
  {
    if ItemsFit(items) then p.Hit? && p.value == Readings(items) && Skip(p.rest) == close
    else p.Thrown? || (p.Hit? && Ch(RBRACKET, p.rest).None?)
  }

  lemma ItemsSplit(items: seq<Item>)
    requires ReadableItems(items) && items != []
    ensures ReadableItems(items[1..]) && Spaced(items[0]) && Readable(items[0].value)
    ensures ItemsFit(items) <==> Fits(items[0].value) && ItemsFit(items[1..])
    ensures ItemsFit(items) ==> Readings(items) == [Reading(items[0].value)] + Readings(items[1..])
  {
    assert forall i :: 0 < i < |items| ==> items[i] == items[1..][i - 1];
  }

  lemma NextIsThere(c: byte, text: seq<byte>, rest: seq<byte>)
    requires c == RBRACKET || c == RBRACE
    requires text == [] || text[0] == COMMA
    ensures IsNext(text + ([c] + rest))
  {
    assert text == [] ==> text + ([c] + rest) == [c] + rest;
  }

  lemma {:induction false} MoreItemsRead(items: seq<Item>, s: seq<byte>, rest: seq<byte>)
    requires ReadableItems(items) && Skip(s) == MoreItemsText(items) + ([RBRACKET] + rest)
    ensures ItemsRead(items, MoreValues(s), [RBRACKET] + rest)
    decreases items, 0
  {
    var close := [RBRACKET] + rest;
    if items == [] {
      assert MoreItemsText(items) + close == close;
      NotThere(COMMA, s, RBRACKET, rest);
    } else {
      var more := MoreItemsText(items[1..]) + close;
      var here := ItemText(items[0]) + more;
      assert MoreItemsText(items) + close == [COMMA] + here;
      ChAt(COMMA, s, here);
      NotThere(RBRACKET, s, COMMA, here);
      ItemsSplit(items);
      NextIsThere(RBRACKET, MoreItemsText(items[1..]), rest);
      ItemReads(items[0], Skip(here), more);
      if Fits(items[0].value) {
        MoreItemsRead(items[1..], ValueRule(Skip(here)).rest, rest);
      }
      hide ValueRule, Ch, Skip, Reading, Readings, ItemsFit, Fits, ItemText, MoreItemsText;
    }
  }

  lemma {:induction false} FirstItemReads(items: seq<Item>, s: seq<byte>, rest: seq<byte>)
    requires ReadableItems(items) && items != []
    requires Skip(s) == Skip(ItemText(items[0]) + (MoreItemsText(items[1..]) + ([RBRACKET] + rest)))
    ensures ItemsRead(items, Elements(s), [RBRACKET] + rest)
    decreases items, 0
  {
    var more := MoreItemsText(items[1..]) + ([RBRACKET] + rest);
    ItemsSplit(items);
    NextIsThere(RBRACKET, MoreItemsText(items[1..]), rest);
    ItemReads(items[0], s, more);
    assert Ch(RBRACKET, s).None?;
    if Fits(items[0].value) {
      MoreItemsRead(items[1..], ValueRule(s).rest, rest);
    }
    hide ValueRule, Ch, Skip, Reading, Readings, ItemsFit, Fits, ItemText, MoreItemsText;
  }

  lemma ArrayParts(inner: seq<byte>, items: seq<Item>, rest: seq<byte>)
    requires Readable(Array(inner, items))
    ensures var v := Array(inner, items);
            && Yield(v) + rest == [LBRACKET] + (ItemsText(inner, items) + ([RBRACKET] + rest))
            && ReadableItems(items) && (Fits(v) <==> ItemsFit(items))
            && (Fits(v) ==> Reading(v) == Arr(Readings(items)))
  {
    Assoc4([LBRACKET], ItemsText(inner, items), [RBRACKET], rest);
  }

  lemma {:induction false} ArrayReads(inner: seq<byte>, items: seq<Item>, rest: seq<byte>)
    requires Readable(Array(inner, items))
    ensures var v := Array(inner, items); Reads(v, Yield(v) + rest, Skip(rest))
    decreases items, 1
  {
    var v, close := Array(inner, items), [RBRACKET] + rest;
    var text := ItemsText(inner, items);
    ArrayParts(inner, items, rest);
    assert AllSpace(inner);
    hide ValueRule, Yield, Readable, Reading, Fits, ItemsFit, ItemText, MoreItemsText;
    OpensArray(Yield(v) + rest, text + close);
    var u := Skip(text + close);
    if items == [] {
      WhiteSkips(inner, close);
      NoValueAtClose(u, RBRACKET, rest);
      assert ItemsFit(items) && Readings(items) == [];
    } else {
      Assoc(ItemText(items[0]), MoreItemsText(items[1..]), close);
      FirstItemReads(items, u, rest);
    }
    if Fits(v) {
      ChAt(RBRACKET, Elements(u).rest, rest);
    }
  }

  // ---------------------------------------------------------------- objects

  predicate PairsRead(pairs: seq<Pair>, p: Parsed<seq<Member>>, close: seq<byte>)
    requires ReadablePairs(pairs)
  {
    if PairsFit(pairs) then p.Hit? && p.value == ReadingsOf(pairs) && Skip(p.rest) == close
    else p.Thrown?
  }

  lemma PairsSplit(pairs: seq<Pair>)
    requires ReadablePairs(pairs) && pairs != []
    ensures ReadablePairs(pairs[1..]) && Named(pairs[0]) && Readable(pairs[0].item.value)
    ensures PairsFit(pairs) <==> Fits(pairs[0].item.value) && PairsFit(pairs[1..])
    ensures PairsFit(pairs) ==>
              ReadingsOf(pairs) == [Member(Unescape(pairs[0].name), Reading(pairs[0].item.value))]
                                   + ReadingsOf(pairs[1..])
  {
    assert forall i :: 0 < i < |pairs| ==> pairs[i] == pairs[1..][i - 1];
  }

  /** The name and the colon. */
  lemma NameReads(p: Pair, s: seq<byte>, value: seq<byte>)
    requires Named(p)
    requires Skip(s) == Literal(p.name) + (p.beforeColon + ([COLON] + value))
    ensures var v, r := ValueRule(Skip(value)), PairRule(s);
            match v
            case Hit(x, rest) => r == Hit(Member(Unescape(p.name), x), rest)
            case _ => r.Thrown?
  {
    var behind := p.beforeColon + ([COLON] + value);
    LiteralLexes(p.name, behind);
    SliceOver(Literal(p.name), behind);
    WhiteSkips(p.beforeColon, [COLON] + value);
    ChAt(COLON, behind, value);
    hide LexString, GetStr, ValueRule, Unescape, IsBody, AllSpace, Literal;
  }

  lemma {:induction false} PairReads(p: Pair, s: seq<byte>, more: seq<byte>)
    requires Named(p) && Readable(p.item.value) && IsNext(more)
    requires Skip(s) == Skip(SpacedPairText(p) + more)
    ensures var r := PairRule(s);
            if Fits(p.item.value)
            then r.Hit? && r.value == Member(Unescape(p.name), Reading(p.item.value)) && Skip(r.rest) == more
            else r.Thrown?
    decreases p, 0
  {
    var value := ItemText(p.item) + more;
    var text := Literal(p.name) + (p.beforeColon + ([COLON] + value));
    Assoc6(p.before, Literal(p.name), p.beforeColon, [COLON], ItemText(p.item), more);
    WhiteSkips(p.before, text);
    assert text[0] == QUOTE;
    NameReads(p, s, value);
    ItemReads(p.item, Skip(value), more);
    hide ValueRule, PairRule, Reading, Fits, ItemText, Unescape, IsBody, AllSpace;
  }

  lemma {:induction false} MorePairsRead(pairs: seq<Pair>, s: seq<byte>, rest: seq<byte>)
    requires ReadablePairs(pairs) && Skip(s) == MorePairsText(pairs) + ([RBRACE] + rest)
    ensures PairsRead(pairs, MorePairs(s), [RBRACE] + rest)
    decreases pairs, 0
  {
    var close := [RBRACE] + rest;
    if pairs == [] {
      assert MorePairsText(pairs) + close == close;
      NotThere(COMMA, s, RBRACE, rest);
    } else {
      var more := MorePairsText(pairs[1..]) + close;
      var here := SpacedPairText(pairs[0]) + more;
      assert MorePairsText(pairs) + close == [COMMA] + here;
      ChAt(COMMA, s, here);
      PairsSplit(pairs);
      NextIsThere(RBRACE, MorePairsText(pairs[1..]), rest);
      PairReads(pairs[0], Skip(here), more);
      if Fits(pairs[0].item.value) {
        MorePairsRead(pairs[1..], PairRule(Skip(here)).rest, rest);
      }
      hide PairRule, Ch, Skip, Reading, ReadingsOf, PairsFit, Fits, SpacedPairText, MorePairsText;
    }
  }

  lemma {:induction false} FirstPairReads(pairs: seq<Pair>, s: seq<byte>, rest: seq<byte>)
    requires ReadablePairs(pairs) && pairs != []
    requires Skip(s) == Skip(SpacedPairText(pairs[0]) + (MorePairsText(pairs[1..]) + ([RBRACE] + rest)))
    ensures PairsRead(pairs, Members(s), [RBRACE] + rest)
    decreases pairs, 0
  {
    var more := MorePairsText(pairs[1..]) + ([RBRACE] + rest);
    PairsSplit(pairs);
    NextIsThere(RBRACE, MorePairsText(pairs[1..]), rest);
    PairReads(pairs[0], s, more);
    if Fits(pairs[0].item.value) {
      MorePairsRead(pairs[1..], PairRule(s).rest, rest);
    }
    hide PairRule, Ch, Skip, Reading, ReadingsOf, PairsFit, Fits, SpacedPairText, MorePairsText;
  }

  lemma ObjectParts(inner: seq<byte>, pairs: seq<Pair>, rest: seq<byte>)
    requires Readable(Object(inner, pairs))
    ensures var v := Object(inner, pairs);
            && Yield(v) + rest == [LBRACE] + (PairsText(inner, pairs) + ([RBRACE] + rest))
            && ReadablePairs(pairs) && (Fits(v) <==> PairsFit(pairs))
            && (Fits(v) ==> Reading(v) == Obj(ReadingsOf(pairs)))
  {
    Assoc4([LBRACE], PairsText(inner, pairs), [RBRACE], rest);
  }

  lemma {:induction false} ObjectReads(inner: seq<byte>, pairs: seq<Pair>, rest: seq<byte>)
    requires Readable(Object(inner, pairs))
    ensures var v := Object(inner, pairs); Reads(v, Yield(v) + rest, Skip(rest))
    decreases pairs, 1
  {
    var v, close := Object(inner, pairs), [RBRACE] + rest;
    var text := PairsText(inner, pairs);
    ObjectParts(inner, pairs, rest);
    assert AllSpace(inner);
    hide ValueRule, Yield, Readable, Reading, Fits, PairsFit, SpacedPairText, MorePairsText;
    OpensObject(Yield(v) + rest, text + close);
    var u := Skip(text + close);
    if pairs == [] {
      WhiteSkips(inner, close);
      NoPairAtClose(u, RBRACE, rest);
      assert PairsFit(pairs) && ReadingsOf(pairs) == [];
    } else {
      Assoc(SpacedPairText(pairs[0]), MorePairsText(pairs[1..]), close);
      FirstPairReads(pairs, u, rest);
    }
    if Fits(v) {
      ChAt(RBRACE, Members(u).rest, rest);
    }
  }

  // ---------------------------------------------------------------- the texts of RFC 8259

  /** `ws` of the standard: space, horizontal tab, line feed, carriage return. */
  predicate IsWhite(w: seq<byte>) {
    forall i :: 0 <= i < |w| ==> w[i] in {SPACE, TAB, LF, CR}
  }

  /** The grammar of section 2: white space where its structural characters allow it. */
  predicate Standard(v: Syntax)
    decreases v
  {
    match v
    case Numeric(n) => IsStandard(n)
    case Quoted(body) => RfcChars(body)
    case Array(inner, items) =>
      && IsWhite(inner)
      && (forall i :: 0 <= i < |items| ==> WhiteSpaced(items[i]) && Standard(items[i].value))
    case Object(inner, pairs) =>
      && IsWhite(inner)
      && (forall i :: 0 <= i < |pairs| ==> WhiteNamed(pairs[i]) && Standard(pairs[i].item.value))
    case _ => true
  }

  predicate WhiteSpaced(i: Item) {
    IsWhite(i.before) && IsWhite(i.after)
  }

  predicate WhiteNamed(p: Pair) {
    IsWhite(p.before) && RfcChars(p.name) && IsWhite(p.beforeColon) && WhiteSpaced(p.item)
  }

  lemma {:induction false} StandardIsReadable(v: Syntax)
    requires Standard(v)
    ensures Readable(v)
    decreases v
  {
    match v {
      case Quoted(body) => RfcCharsAreBody(body);
      case Array(_, items) =>
        forall i | 0 <= i < |items| ensures Spaced(items[i]) && Readable(items[i].value) {
          StandardIsReadable(items[i].value);
        }
      case Object(_, pairs) =>
        forall i | 0 <= i < |pairs| ensures Named(pairs[i]) && Readable(pairs[i].item.value) {
          RfcCharsAreBody(pairs[i].name);
          StandardIsReadable(pairs[i].item.value);
        }
      case _ =>
    }
  }

  /** Every integer in it lies in [-2^63, 2^64). */
  predicate InRange(v: Syntax)
    requires Standard(v)
    decreases v
  {
    match v
    case Numeric(n) => IsInteger(n) ==> -TWO63 <= IntegerOf(n) < TWO64
    case Array(_, items) => forall i :: 0 <= i < |items| ==> InRange(items[i].value)
    case Object(_, pairs) => forall i :: 0 <= i < |pairs| ==> InRange(pairs[i].item.value)
    case _ => true
  }

  lemma {:induction false} FitsIffInRange(v: Syntax)
    requires Standard(v) && Readable(v)
    ensures Fits(v) <==> InRange(v)
    decreases v
  {
    match v {
      case Numeric(n) => StandardFits(n);
      case Array(_, items) =>
        forall i | 0 <= i < |items| ensures Fits(items[i].value) <==> InRange(items[i].value) {
          FitsIffInRange(items[i].value);
        }
      case Object(_, pairs) =>
        forall i | 0 <= i < |pairs| ensures Fits(pairs[i].item.value) <==> InRange(pairs[i].item.value) {
          FitsIffInRange(pairs[i].item.value);
        }
      case _ =>
    }
  }

  // ---------------------------------------------------------------- what they denote

  /** The value of a numeral, by its number. */
  predicate IsNumber(v: Value, n: Numeral)
    requires IsNumeral(n)
  {
    if IsInteger(n) then v.Int? && (if v.isUint64 then ToUint64(v.stored) else v.stored) == IntegerOf(n)
    else v == Real(RealOf(n))
  }

  /** `x` is the value that the text denotes, strings being strings of one-byte characters. */
  predicate Denotes(v: Syntax, x: Value)
    requires Standard(v)
    decreases v
  {
    match v
    case NullWord => x == Null
    case TrueWord => x == Bool(true)
    case FalseWord => x == Bool(false)
    case Numeric(n) => IsNumber(x, n)
    case Quoted(body) => x.Str? && Spells(x.s, Codes(body))
    case Array(_, items) =>
      && x.Arr? && |x.elems| == |items|
      && (forall i :: 0 <= i < |items| ==> Denotes(items[i].value, x.elems[i]))
    case Object(_, pairs) =>
      && x.Obj? && |x.members| == |pairs|
      && (forall i :: 0 <= i < |pairs| ==>
            Spells(x.members[i].name, Codes(pairs[i].name)) && Denotes(pairs[i].item.value, x.members[i].value))
  }

  /** Every string in it, names included, has only characters of one byte. */
  predicate Narrow(v: Syntax)
    requires Standard(v)
    decreases v
  {
    match v
    case Quoted(body) => IsNarrow(Codes(body))
    case Array(_, items) => forall i :: 0 <= i < |items| ==> Narrow(items[i].value)
    case Object(_, pairs) =>
      forall i :: 0 <= i < |pairs| ==> IsNarrow(Codes(pairs[i].name)) && Narrow(pairs[i].item.value)
    case _ => true
  }

  lemma {:induction false} ReadingDenotesIff(v: Syntax)
    requires Standard(v) && Readable(v) && Fits(v)
    ensures Denotes(v, Reading(v)) <==> Narrow(v)
    decreases v
  {
    match v {
      case Numeric(n) =>
        if IsInteger(n) && IntegerOf(n) >= TWO63 {
          CastsAreInverse(IntegerOf(n), 0);
        }
      case Quoted(body) =>
        RfcUnescape(body);
        SpellsIffNarrow(Codes(body));
      case Array(_, items) =>
        forall i | 0 <= i < |items|
          ensures Denotes(items[i].value, Reading(items[i].value)) <==> Narrow(items[i].value)
        {
          ReadingDenotesIff(items[i].value);
        }
      case Object(_, pairs) =>
        forall i | 0 <= i < |pairs|
          ensures Spells(Unescape(pairs[i].name), Codes(pairs[i].name)) <==> IsNarrow(Codes(pairs[i].name))
          ensures Denotes(pairs[i].item.value, Reading(pairs[i].item.value)) <==> Narrow(pairs[i].item.value)
        {
          RfcUnescape(pairs[i].name);
          SpellsIffNarrow(Codes(pairs[i].name));
          ReadingDenotesIff(pairs[i].item.value);
        }
      case _ =>
    }
  }

  // ---------------------------------------------------------------- the result

  /** White space, a value, white space. */
  datatype Document = Document(before: seq<byte>, value: Syntax, after: seq<byte>)

  predicate ReadableDocument(d: Document) {
    AllSpace(d.before) && Readable(d.value) && AllSpace(d.after)
  }

  predicate StandardDocument(d: Document) {
    IsWhite(d.before) && Standard(d.value) && IsWhite(d.after)
  }

  function DocumentText(d: Document): seq<byte> {
    d.before + Yield(d.value) + d.after
  }

  /** A text of the reader's grammar is accepted exactly when its integers fit; nothing but white space is left. */
  lemma DocumentReads(d: Document)
    requires ReadableDocument(d)
    ensures var p := Json(DocumentText(d));
            && (p.Hit? <==> Fits(d.value))
            && (p.Hit? ==> p.value == Reading(d.value) && Skip(p.rest) == [])
  {
    var s := DocumentText(d);
    Assoc(d.before, Yield(d.value), d.after);
    WhiteSkips(d.before, Yield(d.value) + d.after);
    assert d.after + [] == d.after;
    WhiteSkips(d.after, []);
    WhiteEndsNumber(d.after, []);
    ValueReads(d.value, d.after);
    SkippedFirst(s, Yield(d.value) + d.after);
    hide ValueRule, Yield, Reading, Fits;
  }

  /** The reader accepts a text of the standard exactly when its integers are in range, and then it gives the value
      that the text denotes exactly when no `\u` escape goes above 00FF. Nothing but white space is left. */
  lemma RfcTextReadsIff(d: Document)
    requires StandardDocument(d)
    ensures var p := Json(DocumentText(d));
            && (p.Hit? <==> InRange(d.value))
            && (p.Hit? ==> Skip(p.rest) == [])
            && (p.Hit? && Denotes(d.value, p.value) <==> InRange(d.value) && Narrow(d.value))
  {
    StandardIsReadable(d.value);
    FitsIffInRange(d.value);
    DocumentReads(d);
    if Fits(d.value) {
      ReadingDenotesIff(d.value);
    }
    hide Json, DocumentText, Reading, Denotes, Narrow, Fits, InRange;
  }

  /** 2^64 is refused. */
  lemma BigIntegerIsRefused()
    ensures var d := Document([], Numeric(Numeral([], Digits(TWO64), None, None)), []);
            StandardDocument(d) && !Json(DocumentText(d)).Hit?
  {
    var d := Document([], Numeric(Numeral([], Digits(TWO64), None, None)), []);
    hide Json, DocumentText, Digits, DigitsValue;
    DigitsRoundTrip(TWO64);
    RfcTextReadsIff(d);
  }

  /** The string "\u0100" is accepted, but not as what it denotes. */
  lemma WideEscapeIsTruncated()
    ensures var d := Document([], Quoted([BACKSLASH, 117, 48, 49, 48, 48]), []);
            var p := Json(DocumentText(d));
            StandardDocument(d) && p.Hit? && !Denotes(d.value, p.value)
  {
    var body: seq<byte> := [BACKSLASH, 117, 48, 49, 48, 48];
    var d := Document([], Quoted(body), []);
    hide Json, DocumentText;
    assert body[6..] == [] && body[2..6] == [48, 49, 48, 48];
    assert RfcChars(body);
    assert Standard(d.value);
    assert Codes(body) == [256] + Codes([]);
    assert Codes(body)[0] == 256;
    RfcTextReadsIff(d);
  }
}
