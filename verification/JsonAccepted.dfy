/** The converse: the reader accepts nothing but texts of its grammar, whatever follows them. */
module JsonAccepted {
  import opened Bytes
  import opened JsonValue
  import opened JsonEscape
  import opened JsonWriter
  import opened JsonLex
  import opened JsonTree
  import opened JsonRoundTrip
  import opened JsonNumerals
  import opened JsonLiterals
  import opened JsonTexts

  // ---------------------------------------------------------------- white space and single characters

  lemma {:induction false} SkipSplits(s: seq<byte>) returns (w: seq<byte>)
    ensures AllSpace(w) && s == w + Skip(s)
  {
    if s != [] && IsSpace(s[0]) {
      var w' := SkipSplits(s[1..]);
      w := [s[0]] + w';
    } else {
      w := [];
    }
  }

  lemma ChSplits(c: byte, s: seq<byte>) returns (w: seq<byte>, z: seq<byte>)
    requires Ch(c, s).Some?
    ensures AllSpace(w) && AllSpace(z) && s == w + ([c] + (z + Ch(c, s).value))
  {
    w := SkipSplits(s);
    var t := Skip(s);
    z := SkipSplits(t[1..]);
    assert t == [c] + t[1..];
    hide Skip;
  }

  lemma SpaceJoins(a: seq<byte>, b: seq<byte>)
    requires AllSpace(a) && AllSpace(b)
    ensures AllSpace(a + b)
  {
  }

  // ---------------------------------------------------------------- values

  /** How a value stands in `s`: white space, its text, white space, the rest. */
  predicate Stands(i: Item, s: seq<byte>, rest: seq<byte>) {
    Spaced(i) && Readable(i.value) && s == i.before + (Yield(i.value) + (i.after + rest))
  }

  /** A number has to be taken as far as it goes. */
  predicate Munched(i: Item, rest: seq<byte>) {
    i.value.Numeric? ==> IsMunch(i.value.n, i.after + rest)
  }

  /** The item is what the value rule took from the front of `s`. */
  predicate Took(s: seq<byte>, i: Item) {
    var p := ValueRule(s);
    p.Hit? && Stands(i, s, p.rest) && Fits(i.value) && p.value == Reading(i.value) && Munched(i, p.rest)
  }

  lemma {:induction false} ValueTakes(s: seq<byte>) returns (i: Item)
    requires ValueRule(s).Hit?
    ensures Took(s, i)
    decreases |s|, 1
  {
    var w := SkipSplits(s);
    var t := Skip(s);
    if LexString(t).Some? {
      i := LiteralTakes(s, w);
    } else if Number(t).Some? {
      i := NumberTakes(s, w);
    } else if Ch(LBRACE, t).Some? {
      i := ObjectTakes(s, w);
    } else if Ch(LBRACKET, t).Some? {
      i := ArrayTakes(s, w);
    } else {
      i := WordTakes(s, w);
    }
  }

  lemma LiteralTakes(s: seq<byte>, w: seq<byte>) returns (i: Item)
    requires AllSpace(w) && s == w + Skip(s) && LexString(Skip(s)).Some?
    ensures Took(s, i)
  {
    var body := LexedIsLiteral(Skip(s));
    i := Item(w, Quoted(body), []);
    LiteralLexes(body, ValueRule(s).rest);
    hide LexString, GetStr, IsBody, Literal, Skip, Unescape;
    assert [] + ValueRule(s).rest == ValueRule(s).rest;
  }

  lemma NumberTakes(s: seq<byte>, w: seq<byte>) returns (i: Item)
    requires AllSpace(w) && s == w + Skip(s) && LexString(Skip(s)).None? && Number(Skip(s)).Some?
    ensures Took(s, i)
  {
    hide LexString, Number, NumeralText, NumeralFits, NumeralValue, IsMunch, IsNumeral, Skip;
    var n := NumberIsText(Skip(s));
    i := Item(w, Numeric(n), []);
    assert [] + ValueRule(s).rest == ValueRule(s).rest;
  }

  lemma WordSplits(word: seq<byte>, s: seq<byte>)
    requires word != [] && Word(word, Skip(s)).Some?
    ensures Skip(s) == word + Word(word, Skip(s)).value
  {
    assert Skip(Skip(s)) == Skip(s);
  }

  lemma WordTakes(s: seq<byte>, w: seq<byte>) returns (i: Item)
    requires AllSpace(w) && s == w + Skip(s) && ValueRule(s).Hit?
    requires var t := Skip(s); LexString(t).None? && Number(t).None? && Ch(LBRACE, t).None? && Ch(LBRACKET, t).None?
    ensures Took(s, i)
  {
    var t := Skip(s);
    hide LexString, Number, Ch, Skip, Word;
    var word := if Word(TRUE_WORD, t).Some? then TrueWord
                else if Word(FALSE_WORD, t).Some? then FalseWord else NullWord;
    WordSplits(Yield(word), s);
    i := Item(w, word, []);
    assert [] + ValueRule(s).rest == ValueRule(s).rest;
  }

  // ---------------------------------------------------------------- arrays

  /** The items up to a closing bracket, and what stands behind it. */
  predicate TookItems(items: seq<Item>, vs: seq<Value>) {
    ReadableItems(items) && ItemsFit(items) && vs == Readings(items)
  }

  lemma ItemsJoin(i: Item, items: seq<Item>, v: Value, vs: seq<Value>)
    requires Spaced(i) && Readable(i.value) && Fits(i.value) && v == Reading(i.value) && TookItems(items, vs)
    ensures TookItems([i] + items, [v] + vs)
  {
    var all := [i] + items;
    assert all[0] == i && all[1..] == items;
    assert forall k :: 1 <= k < |all| ==> all[k] == items[k - 1];
    ItemsSplit(all);
    hide Reading, Fits, Readable, ItemsFit, Readings;
  }

  lemma MoreItemsTextJoins(i: Item, items: seq<Item>)
    ensures MoreItemsText([i] + items) == [COMMA] + (ItemText(i) + MoreItemsText(items))
  {
    assert ([i] + items)[1..] == items;
    Assoc([COMMA], ItemText(i), MoreItemsText(items));
    hide ItemText;
  }

  /** An item with more white space around it. */
  function Padded(w: seq<byte>, i: Item, z: seq<byte>): Item {
    Item(w + i.before, i.value, i.after + z)
  }

  lemma PaddedStands(w: seq<byte>, i: Item, z: seq<byte>, s: seq<byte>, rest: seq<byte>)
    requires AllSpace(w) && AllSpace(z) && Stands(i, s, z + rest)
    ensures Spaced(Padded(w, i, z)) && Readable(i.value) && w + s == ItemText(Padded(w, i, z)) + rest
  {
    SpaceJoins(w, i.before);
    SpaceJoins(i.after, z);
    hide Yield, Readable;
    var text := Yield(i.value);
    Assoc4(w + i.before, text, i.after + z, rest);
    Assoc(i.after, z, rest);
    Assoc(w, i.before, text + (i.after + (z + rest)));
  }

  /** The rest of an array, from behind an item on. */
  lemma {:induction false} MoreItemsTake(s: seq<byte>) returns (w: seq<byte>, items: seq<Item>, z: seq<byte>)
    requires var m := MoreValues(s); m.Hit? && Ch(RBRACKET, m.rest).Some?
    ensures AllSpace(w) && AllSpace(z) && TookItems(items, MoreValues(s).value)
    ensures s == w + (MoreItemsText(items) + ([RBRACKET] + (z + Ch(RBRACKET, MoreValues(s).rest).value)))
    decreases |s|, 3
  {
    var end := Ch(RBRACKET, MoreValues(s).rest).value;
    if Ch(COMMA, s).None? || ValueRule(Ch(COMMA, s).value).Miss? {
      w, z := ChSplits(RBRACKET, s);
      items := [];
      assert [] + ([RBRACKET] + (z + end)) == [RBRACKET] + (z + end);
      assert Readings(items) == [];
    } else {
      var r := Ch(COMMA, s).value;
      var i := ValueTakes(r);
      var v, more := ValueRule(r).value, ValueRule(r).rest;
      var w1, w2 := ChSplits(COMMA, s);
      var w', others, z' := MoreItemsTake(more);
      w, z := w1, z';
      items := MoreItemsJoin(w2, i, w', others, z', r, more, end);
      ItemsJoin(Padded(w2, i, w'), others, v, MoreValues(more).value);
      hide ValueRule, Ch, Reading, Fits, Readable, MoreItemsText;
    }
  }

  lemma MoreItemsJoin(w2: seq<byte>, i: Item, w': seq<byte>, others: seq<Item>, z: seq<byte>, r: seq<byte>,
                      more: seq<byte>, end: seq<byte>) returns (items: seq<Item>)
    requires AllSpace(w2) && AllSpace(w') && Stands(i, r, more)
    requires more == w' + (MoreItemsText(others) + ([RBRACKET] + (z + end)))
    ensures items == [Padded(w2, i, w')] + others
    ensures Spaced(Padded(w2, i, w')) && Readable(i.value)
    ensures [COMMA] + (w2 + r) == MoreItemsText(items) + ([RBRACKET] + (z + end))
  {
    hide MoreItemsText, ItemText, Readable, Stands, Yield;
    var p := Padded(w2, i, w');
    var close := [RBRACKET] + (z + end);
    items := [p] + others;
    PaddedStands(w2, i, w', r, MoreItemsText(others) + close);
    MoreItemsTextJoins(p, others);
    Assoc(ItemText(p), MoreItemsText(others), close);
    Assoc([COMMA], ItemText(p) + MoreItemsText(others), close);
  }

  /** All of an array between its brackets, with the white space `w2` behind the opening one. */
  lemma {:induction false} ElementsTake(w2: seq<byte>, r: seq<byte>)
      returns (inner: seq<byte>, items: seq<Item>, z: seq<byte>)
    requires var m := Elements(r); m.Hit? && Ch(RBRACKET, m.rest).Some?
    requires AllSpace(w2)
    ensures AllSpace(inner) && AllSpace(z) && TookItems(items, Elements(r).value)
    ensures w2 + r == ItemsText(inner, items) + ([RBRACKET] + (z + Ch(RBRACKET, Elements(r).rest).value))
    decreases |r|, 4
  {
    var end := Ch(RBRACKET, Elements(r).rest).value;
    if ValueRule(r).Miss? {
      var w1;
      w1, z := ChSplits(RBRACKET, r);
      inner, items := w2 + w1, [];
      SpaceJoins(w2, w1);
      Assoc(w2, w1, [RBRACKET] + (z + end));
      assert Readings(items) == [];
    } else {
      var i := ValueTakes(r);
      var v, more := ValueRule(r).value, ValueRule(r).rest;
      var w', others, z' := MoreItemsTake(more);
      var p := Padded(w2, i, w');
      inner, items, z := [], [p] + others, z';
      hide ValueRule, Ch, Reading, Fits, Readable, MoreItemsText, ItemText;
      var close := [RBRACKET] + (z + end);
      PaddedStands(w2, i, w', r, MoreItemsText(others) + close);
      ItemsJoin(p, others, v, MoreValues(more).value);
      assert items[0] == p && items[1..] == others;
      Assoc(ItemText(p), MoreItemsText(others), close);
    }
  }

  /** The opening character of a container, which is where the value starts. */
  lemma OpensAt(c: byte, s: seq<byte>) returns (z: seq<byte>)
    requires Ch(c, Skip(s)).Some?
    ensures AllSpace(z) && Skip(s) == [c] + (z + Ch(c, Skip(s)).value)
  {
    var t := Skip(s);
    assert Skip(t) == t;
    z := SkipSplits(t[1..]);
    assert t == [c] + t[1..];
  }

  predicate StartsNoScalar(t: seq<byte>) {
    LexString(t).None? && Number(t).None?
  }

  lemma {:induction false} ArrayTakes(s: seq<byte>, w: seq<byte>) returns (i: Item)
    requires AllSpace(w) && s == w + Skip(s) && ValueRule(s).Hit?
    requires var t := Skip(s); StartsNoScalar(t) && Ch(LBRACE, t).None? && Ch(LBRACKET, t).Some?
    ensures Took(s, i)
    decreases |s|, 0
  {
    var t := Skip(s);
    var r := Ch(LBRACKET, t).value;
    assert ValueRule(s) == ArrayRest(r) by {
      hide Ch, LexString, Number, ArrayRest;
    }
    var w2 := OpensAt(LBRACKET, s);
    var inner, items, z := ElementsTake(w2, r);
    i := Item(w, Array(inner, items), z);
    ArrayStands(w, inner, items, z, s, w2 + r, ValueRule(s).rest);
    hide ValueRule, Ch, Skip, LexString, Number, Elements, Reading, Fits, Readable, Stands, ItemsFit, ReadableItems;
    hide Readings;
  }

  lemma ArrayStands(w: seq<byte>, inner: seq<byte>, items: seq<Item>, z: seq<byte>, s: seq<byte>, body: seq<byte>,
                    rest: seq<byte>)
    requires AllSpace(w) && AllSpace(inner) && AllSpace(z) && ReadableItems(items)
    requires s == w + ([LBRACKET] + body) && body == ItemsText(inner, items) + ([RBRACKET] + (z + rest))
    ensures var v := Array(inner, items);
            Stands(Item(w, v, z), s, rest) && (Fits(v) <==> ItemsFit(items))
            && (Fits(v) ==> Reading(v) == Arr(Readings(items)))
  {
    ArrayParts(inner, items, z + rest);
    hide Yield, ItemsText, Reading, Readings, ItemsFit, Fits;
  }

  // ---------------------------------------------------------------- objects

  predicate TookPairs(pairs: seq<Pair>, ms: seq<Member>) {
    ReadablePairs(pairs) && PairsFit(pairs) && ms == ReadingsOf(pairs)
  }

  /** The pair stands at the front of `s`. */
  predicate PairStands(p: Pair, s: seq<byte>, rest: seq<byte>) {
    Named(p) && Readable(p.item.value) && s == SpacedPairText(p) + rest
  }

  lemma {:induction false} PairTakes(s: seq<byte>) returns (p: Pair)
    requires PairRule(s).Hit?
    ensures PairStands(p, s, PairRule(s).rest) && Fits(p.item.value)
    ensures PairRule(s).value == Member(Unescape(p.name), Reading(p.item.value))
    decreases |s|, 2
  {
    var w := SkipSplits(s);
    var t := Skip(s);
    var n := LexString(t).value;
    var r := Ch(COLON, t[n..]).value;
    var body := LexedIsLiteral(t);
    LiteralLexes(body, t[n..]);
    var w1, w2 := ChSplits(COLON, t[n..]);
    var i := ValueTakes(r);
    p := Pair(w, body, w1, Padded(w2, i, []));
    hide ValueRule, Ch, LexString, GetStr, Skip, Literal, IsBody, Unescape, Reading, Fits, Readable, ItemText;
    var rest := PairRule(s).rest;
    assert [] + rest == rest;
    PaddedStands(w2, i, [], r, rest);
    PairTextJoins(p, rest);
  }

  lemma PairTextJoins(p: Pair, rest: seq<byte>)
    ensures SpacedPairText(p) + rest
         == p.before + (Literal(p.name) + (p.beforeColon + ([COLON] + (ItemText(p.item) + rest))))
  {
    Assoc6(p.before, Literal(p.name), p.beforeColon, [COLON], ItemText(p.item), rest);
    hide Literal, ItemText;
  }

  function PaddedPair(w: seq<byte>, p: Pair, z: seq<byte>): Pair {
    Pair(w + p.before, p.name, p.beforeColon, Padded([], p.item, z))
  }

  lemma PaddedPairStands(w: seq<byte>, p: Pair, z: seq<byte>, s: seq<byte>, rest: seq<byte>)
    requires AllSpace(w) && AllSpace(z) && PairStands(p, s, z + rest)
    ensures PairStands(PaddedPair(w, p, z), w + s, rest)
  {
    SpaceJoins(w, p.before);
    var i := p.item;
    assert Stands(i, ItemText(i) + (z + rest), z + rest) by {
      Assoc4(i.before, Yield(i.value), i.after, z + rest);
    }
    PaddedStands([], i, z, ItemText(i) + (z + rest), rest);
    var behind := p.beforeColon + ([COLON] + (ItemText(i) + (z + rest)));
    assert [] + (ItemText(i) + (z + rest)) == ItemText(i) + (z + rest);
    PairTextJoins(p, z + rest);
    PairTextJoins(PaddedPair(w, p, z), rest);
    hide SpacedPairText, ItemText, Literal, Readable, Yield;
    Assoc(w, p.before, Literal(p.name) + behind);
  }

  lemma PairsJoin(p: Pair, pairs: seq<Pair>, m: Member, ms: seq<Member>)
    requires Named(p) && Readable(p.item.value) && Fits(p.item.value)
    requires m == Member(Unescape(p.name), Reading(p.item.value)) && TookPairs(pairs, ms)
    ensures TookPairs([p] + pairs, [m] + ms)
  {
    var all := [p] + pairs;
    assert all[0] == p && all[1..] == pairs;
    assert forall k :: 1 <= k < |all| ==> all[k] == pairs[k - 1];
    PairsSplit(all);
    hide Reading, Fits, Readable, PairsFit, ReadingsOf, Unescape;
  }

  lemma MorePairsTextJoins(p: Pair, pairs: seq<Pair>)
    ensures MorePairsText([p] + pairs) == [COMMA] + (SpacedPairText(p) + MorePairsText(pairs))
  {
    assert ([p] + pairs)[1..] == pairs;
    Assoc([COMMA], SpacedPairText(p), MorePairsText(pairs));
    hide SpacedPairText;
  }

  /** The rest of an object, from behind a pair on. */
  lemma {:induction false} MorePairsTake(s: seq<byte>) returns (w: seq<byte>, pairs: seq<Pair>, z: seq<byte>)
    requires var m := MorePairs(s); m.Hit? && Ch(RBRACE, m.rest).Some?
    ensures AllSpace(w) && AllSpace(z) && TookPairs(pairs, MorePairs(s).value)
    ensures s == w + (MorePairsText(pairs) + ([RBRACE] + (z + Ch(RBRACE, MorePairs(s).rest).value)))
    decreases |s|, 3
  {
    var end := Ch(RBRACE, MorePairs(s).rest).value;
    if Ch(COMMA, s).None? || PairRule(Ch(COMMA, s).value).Miss? {
      w, z := ChSplits(RBRACE, s);
      pairs := [];
      assert [] + ([RBRACE] + (z + end)) == [RBRACE] + (z + end);
      assert ReadingsOf(pairs) == [];
    } else {
      var r := Ch(COMMA, s).value;
      var p := PairTakes(r);
      var m, more := PairRule(r).value, PairRule(r).rest;
      var w1, w2 := ChSplits(COMMA, s);
      var w', others, z' := MorePairsTake(more);
      w, z := w1, z';
      pairs := MorePairsJoin(w2, p, w', others, z', r, more, end);
      PairsJoin(PaddedPair(w2, p, w'), others, m, MorePairs(more).value);
      hide PairRule, Ch, Reading, Fits, Readable, MorePairsText;
    }
  }

  lemma MorePairsJoin(w2: seq<byte>, p: Pair, w': seq<byte>, others: seq<Pair>, z: seq<byte>, r: seq<byte>,
                      more: seq<byte>, end: seq<byte>) returns (pairs: seq<Pair>)
    requires AllSpace(w2) && AllSpace(w') && PairStands(p, r, more)
    requires more == w' + (MorePairsText(others) + ([RBRACE] + (z + end)))
    ensures pairs == [PaddedPair(w2, p, w')] + others
    ensures Named(PaddedPair(w2, p, w')) && Readable(p.item.value)
    ensures [COMMA] + (w2 + r) == MorePairsText(pairs) + ([RBRACE] + (z + end))
  {
    hide MorePairsText, SpacedPairText, Readable;
    var q := PaddedPair(w2, p, w');
    var close := [RBRACE] + (z + end);
    pairs := [q] + others;
    PaddedPairStands(w2, p, w', r, MorePairsText(others) + close);
    MorePairsTextJoins(q, others);
    Assoc(SpacedPairText(q), MorePairsText(others), close);
    Assoc([COMMA], SpacedPairText(q) + MorePairsText(others), close);
  }

  lemma {:induction false} MembersTake(w2: seq<byte>, r: seq<byte>)
      returns (inner: seq<byte>, pairs: seq<Pair>, z: seq<byte>)
    requires var m := Members(r); m.Hit? && Ch(RBRACE, m.rest).Some?
    requires AllSpace(w2)
    ensures AllSpace(inner) && AllSpace(z) && TookPairs(pairs, Members(r).value)
    ensures w2 + r == PairsText(inner, pairs) + ([RBRACE] + (z + Ch(RBRACE, Members(r).rest).value))
    decreases |r|, 4
  {
    var end := Ch(RBRACE, Members(r).rest).value;
    if PairRule(r).Miss? {
      var w1;
      w1, z := ChSplits(RBRACE, r);
      inner, pairs := w2 + w1, [];
      SpaceJoins(w2, w1);
      Assoc(w2, w1, [RBRACE] + (z + end));
      assert ReadingsOf(pairs) == [];
    } else {
      var p := PairTakes(r);
      var m, more := PairRule(r).value, PairRule(r).rest;
      var w', others, z' := MorePairsTake(more);
      var q := PaddedPair(w2, p, w');
      inner, pairs, z := [], [q] + others, z';
      hide PairRule, Ch, Reading, Fits, Readable, MorePairsText, SpacedPairText;
      var close := [RBRACE] + (z + end);
      PaddedPairStands(w2, p, w', r, MorePairsText(others) + close);
      PairsJoin(q, others, m, MorePairs(more).value);
      assert pairs[0] == q && pairs[1..] == others;
      Assoc(SpacedPairText(q), MorePairsText(others), close);
    }
  }

  lemma {:induction false} ObjectTakes(s: seq<byte>, w: seq<byte>) returns (i: Item)
    requires AllSpace(w) && s == w + Skip(s) && ValueRule(s).Hit?
    requires var t := Skip(s); StartsNoScalar(t) && Ch(LBRACE, t).Some?
    ensures Took(s, i)
    decreases |s|, 0
  {
    var t := Skip(s);
    var r := Ch(LBRACE, t).value;
    assert ValueRule(s) == ObjectRest(r) by {
      hide Ch, LexString, Number, ObjectRest;
    }
    var w2 := OpensAt(LBRACE, s);
    var inner, pairs, z := MembersTake(w2, r);
    i := Item(w, Object(inner, pairs), z);
    ObjectStands(w, inner, pairs, z, s, w2 + r, ValueRule(s).rest);
    hide ValueRule, Ch, Skip, LexString, Number, Members, Reading, Fits, Readable, Stands, PairsFit, ReadablePairs;
    hide ReadingsOf;
  }

  lemma ObjectStands(w: seq<byte>, inner: seq<byte>, pairs: seq<Pair>, z: seq<byte>, s: seq<byte>, body: seq<byte>,
                     rest: seq<byte>)
    requires AllSpace(w) && AllSpace(inner) && AllSpace(z) && ReadablePairs(pairs)
    requires s == w + ([LBRACE] + body) && body == PairsText(inner, pairs) + ([RBRACE] + (z + rest))
    ensures var v := Object(inner, pairs);
            Stands(Item(w, v, z), s, rest) && (Fits(v) <==> PairsFit(pairs))
            && (Fits(v) ==> Reading(v) == Obj(ReadingsOf(pairs)))
  {
    ObjectParts(inner, pairs, z + rest);
    hide Yield, PairsText, Reading, ReadingsOf, PairsFit, Fits;
  }

  // ---------------------------------------------------------------- the result

  /** The document stands at the front of `s`, and a number is taken as far as it goes. */
  predicate Begins(d: Document, s: seq<byte>, rest: seq<byte>) {
    && ReadableDocument(d) && s == DocumentText(d) + rest
    && (d.value.Numeric? ==> IsMunch(d.value.n, d.after + rest))
  }

  lemma DocumentSplits(d: Document, rest: seq<byte>)
    ensures DocumentText(d) + rest == d.before + (Yield(d.value) + (d.after + rest))
  {
    Assoc4(d.before, Yield(d.value), d.after, rest);
    hide Yield;
  }

  /** What is accepted is a text of the grammar, read as that text reads. */
  lemma AcceptedIsDocument(s: seq<byte>) returns (d: Document)
    requires Json(s).Hit?
    ensures Begins(d, s, Json(s).rest) && Fits(d.value) && Json(s).value == Reading(d.value)
  {
    var i := ValueTakes(s);
    d := Document(i.before, i.value, i.after);
    DocumentSplits(d, Json(s).rest);
    hide ValueRule, Yield, Readable, Fits, Reading, DocumentText, IsMunch;
  }

  /** And a text of the grammar, with integers that fit, is accepted whatever follows it. */
  lemma DocumentIsAccepted(d: Document, s: seq<byte>, rest: seq<byte>)
    requires Begins(d, s, rest) && Fits(d.value)
    ensures Json(s).Hit?
  {
    var behind := d.after + rest;
    DocumentSplits(d, rest);
    WhiteSkips(d.before, Yield(d.value) + behind);
    SkippedFirst(s, Yield(d.value) + behind);
    if d.value.Numeric? {
      YieldStarts(d.value);
      NumeralIsAccepted(d.value.n, behind);
      NumeralReads(NumeralText(d.value.n), behind);
      hide ValueRule, Number, NumeralText, IsMunch, NumeralFits, Skip;
    } else {
      ValueReads(d.value, behind);
      hide ValueRule, Yield, Reading, Fits, Readable, Skip;
    }
  }

  /** The reader's language, exactly: it accepts a text if and only if a text of its grammar with integers that fit
      stands at the front of it, a number at the top being taken as far as it goes. */
  lemma AcceptsIff(s: seq<byte>)
    ensures Json(s).Hit? <==> exists d, rest :: Begins(d, s, rest) && Fits(d.value)
  {
    hide Json, Fits;
    if Json(s).Hit? {
      var d := AcceptedIsDocument(s);
    }
    if d, rest :| Begins(d, s, rest) && Fits(d.value) {
      DocumentIsAccepted(d, s, rest);
    }
  }
}
