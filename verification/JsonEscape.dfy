/** String escaping (writer side) and unescaping (reader side). */
module JsonEscape {
  import opened Bytes

  // ---------------------------------------------------------------- writer

  function HexChar(d: nat): (c: byte)
    requires d < 16
  {
    if d < 10 then (48 + d) as byte else (55 + d) as byte
  }

  /** `\uHHHH` for a character code. */
  function NonPrintable(c: nat): (r: seq<byte>)
    requires c < 0x10000
    ensures |r| == 6
  {
    [BACKSLASH, 117, HexChar(c / 4096), HexChar(c / 256 % 16), HexChar(c / 16 % 16), HexChar(c % 16)]
  }

  /** The second character of a two-character escape, for the characters that have one. */
  function ShortEscape(c: byte): Option<byte> {
    if c == QUOTE then Some(QUOTE)
    else if c == BACKSLASH then Some(BACKSLASH)
    else if c == 8 then Some(98)       // \b
    else if c == 12 then Some(102)     // \f
    else if c == LF then Some(110)     // \n
    else if c == CR then Some(114)     // \r
    else if c == TAB then Some(116)    // \t
    else None
  }

  /** What one source character becomes; `printable` is the set on which `iswprint` answers true. */
  function EscapeByte(c: byte, printable: set<byte>): (r: seq<byte>)
    ensures |r| >= 1
  {
    match ShortEscape(c)
    case Some(e) => [BACKSLASH, e]
    case None => if c in printable then [c] else NonPrintable(c as nat)
  }

  function Escape(s: seq<byte>, printable: set<byte>): seq<byte> {
    if s == [] then [] else EscapeByte(s[0], printable) + Escape(s[1..], printable)
  }

  lemma EscapeFrom(s: seq<byte>, printable: set<byte>, i: nat)
    requires i <= |s|
    ensures Escape(s[i..], printable)
         == if i == |s| then [] else EscapeByte(s[i], printable) + Escape(s[i + 1..], printable)
    ensures s[0..] == s
  {
    if i < |s| {
      assert s[i..][1..] == s[i + 1..];
    }
  }

  method AddEscChars(s: seq<byte>, printable: set<byte>) returns (result: seq<byte>)
    ensures result == Escape(s, printable)
  {
    hide Escape, NonPrintable;
    result := [];
    var i := 0;
    EscapeFrom(s, printable, |s|);
    while i < |s|
      invariant 0 <= i <= |s|
      invariant result + Escape(s[i..], printable) == Escape(s, printable)
    {
      ghost var before := result;
      EscapeFrom(s, printable, i);
      Assoc(result, EscapeByte(s[i], printable), Escape(s[i + 1..], printable));
      var c := s[i];
      var short := ShortEscape(c);
      if short.Some? {
        result := result + [BACKSLASH, short.value];
      } else if c in printable {
        result := result + [c];
      } else {
        result := result + NonPrintable(c as nat);
      }
      assert result == before + EscapeByte(c, printable);
      i := i + 1;
    }
  }

  // ---------------------------------------------------------------- reader

  function HexToNum(c: byte): (d: nat)
    ensures d < 16
  {
    if 48 <= c <= 57 then c as int - 48
    else if 97 <= c <= 102 then c as int - 87
    else if 65 <= c <= 70 then c as int - 55
    else 0
  }

  /** `\xHH`, as a `char`. */
  function HexPair(a: byte, b: byte): byte {
    (16 * HexToNum(a) + HexToNum(b)) as byte
  }

  /** `\uHHHH` truncated to a `char`: the two high digits are lost. */
  function HexQuad(a: byte, b: byte, c: byte, d: byte): byte {
    ((4096 * HexToNum(a) + 256 * HexToNum(b) + 16 * HexToNum(c) + HexToNum(d)) % 256) as byte
  }

  /** The character of a two-character escape, where the reader knows one. */
  function ShortUnescape(e: byte): Option<byte> {
    if e == 116 then Some(TAB)
    else if e == 98 then Some(8)
    else if e == 102 then Some(12)
    else if e == 110 then Some(LF)
    else if e == 114 then Some(CR)
    else if e == BACKSLASH then Some(BACKSLASH)
    else if e == SLASH then Some(SLASH)
    else if e == QUOTE then Some(QUOTE)
    else None
  }

  /** The escape after a backslash at the front of `s`: what it appends, and how many bytes it takes
      (the backslash included). Unknown and cut-off escapes append nothing. */
  function EscapeAt(s: seq<byte>): (r: (seq<byte>, nat))
    requires |s| >= 2
    ensures 2 <= r.1 <= |s|
  {
    if ShortUnescape(s[1]).Some? then ([ShortUnescape(s[1]).value], 2)
    else if s[1] == 120 && |s| >= 4 then ([HexPair(s[2], s[3])], 4)
    else if s[1] == 117 && |s| >= 6 then ([HexQuad(s[2], s[3], s[4], s[5])], 6)
    else ([], 2)
  }

  function Unescape(s: seq<byte>): seq<byte>
    decreases |s|
  {
    if |s| < 2 then s
    else if s[0] != BACKSLASH then [s[0]] + Unescape(s[1..])
    else EscapeAt(s).0 + Unescape(s[EscapeAt(s).1..])
  }

  /** The iterator step: `i` stands on the character after the backslash, and ends on the last one used. */
  method AppendEscChar(s: seq<byte>, i: nat, result: seq<byte>) returns (result': seq<byte>, i': nat)
    requires 1 <= i < |s|
    ensures result' == result + EscapeAt(s[i - 1..]).0
    ensures i' == i - 2 + EscapeAt(s[i - 1..]).1
    ensures i <= i' < |s|
  {
    var c2 := s[i];
    i' := i;
    result' := result;
    var short := ShortUnescape(c2);
    if short.Some? {
      result' := result + [short.value];
    } else if c2 == 120 {
      if |s| - i >= 3 {
        result' := result + [HexPair(s[i + 1], s[i + 2])];
        i' := i + 2;
      }
    } else if c2 == 117 {
      if |s| - i >= 5 {
        result' := result + [HexQuad(s[i + 1], s[i + 2], s[i + 3], s[i + 4])];
        i' := i + 4;
      }
    }
  }

  lemma UnescapePlain(p: seq<byte>, s: seq<byte>)
    requires forall k :: 0 <= k < |p| ==> p[k] != BACKSLASH
    ensures Unescape(p + s) == p + Unescape(s)
  {
    if p == [] {
      assert p + s == s;
    } else if |p + s| >= 2 {
      assert (p + s)[1..] == p[1..] + s;
      UnescapePlain(p[1..], s);
    } else {
      assert s == [];
    }
  }

  /** The stretch copied at a backslash, and the escape that follows it. */
  lemma UnescapeStretch(done: seq<byte>, s: seq<byte>, a: nat, i: nat)
    requires a <= i < |s| - 1 && s[i] == BACKSLASH
    requires forall k :: a <= k < i ==> s[k] != BACKSLASH
    ensures done + Unescape(s[a..]) == done + s[a..i] + EscapeAt(s[i..]).0 + Unescape(s[i + EscapeAt(s[i..]).1..])
  {
    assert s[a..] == s[a..i] + s[i..];
    UnescapePlain(s[a..i], s[i..]);
    var e := EscapeAt(s[i..]);
    assert s[i..][e.1..] == s[i + e.1..];
    var u := Unescape(s[i + e.1..]);
    assert Unescape(s[i..]) == e.0 + u;
    assert done + (s[a..i] + (e.0 + u)) == done + s[a..i] + e.0 + u;
  }

  lemma UnescapeTail(s: seq<byte>)
    requires forall k :: 0 <= k < |s| - 1 ==> s[k] != BACKSLASH
    ensures Unescape(s) == s
  {
    if s != [] {
      assert s == s[..|s| - 1] + s[|s| - 1..];
      UnescapePlain(s[..|s| - 1], s[|s| - 1..]);
    }
  }

  /** The copying loop never leaves the input, whatever the input is, and computes `Unescape`. */
  method SubstituteEscChars(s: seq<byte>) returns (result: seq<byte>)
    ensures result == Unescape(s)
  {
    hide Unescape, EscapeAt;
    if |s| < 2 {
      UnescapeTail(s);
      return s;
    }
    result := [];
    var substrStart := 0;
    assert s[0..] == s;
    var i := 0;
    while i < |s| - 1
      invariant 0 <= substrStart <= i <= |s|
      invariant forall k :: substrStart <= k < i ==> s[k] != BACKSLASH
      invariant result + Unescape(s[substrStart..]) == Unescape(s)
    {
      if s[i] == BACKSLASH {
        UnescapeStretch(result, s, substrStart, i);
        result := result + s[substrStart..i];
        i := i + 1;
        result, i := AppendEscChar(s, i, result);
        substrStart := i + 1;
      }
      i := i + 1;
    }
    UnescapeTail(s[substrStart..]);
    result := result + s[substrStart..];
  }

  // ---------------------------------------------------------------- the two together

  lemma HexQuadOfByte(c: byte)
    ensures HexQuad(HexChar(0), HexChar(0), HexChar(c as nat / 16), HexChar(c as nat % 16)) == c
  {
  }

  lemma UnescapeNonPrintable(c: byte, rest: seq<byte>)
    ensures Unescape(NonPrintable(c as nat) + rest) == [c] + Unescape(rest)
  {
    var e := NonPrintable(c as nat);
    assert (e + rest)[6..] == rest;
    HexQuadOfByte(c);
    assert c as nat / 4096 == 0 && c as nat / 256 % 16 == 0 && c as nat / 16 % 16 == c as nat / 16;
    hide HexQuad, HexChar, HexPair;
    assert EscapeAt(e + rest) == ([c], 6);
  }

  lemma UnescapeEscapeByte(c: byte, printable: set<byte>, rest: seq<byte>)
    ensures Unescape(EscapeByte(c, printable) + rest) == [c] + Unescape(rest)
  {
    var e := EscapeByte(c, printable);
    if ShortEscape(c).None? && c !in printable {
      UnescapeNonPrintable(c, rest);
    } else {
      assert (e + rest)[|e|..] == rest;
      hide NonPrintable, HexQuad, HexPair;
      if ShortEscape(c).None? && rest == [] {
        assert e + rest == [c];
      }
    }
  }

  /** Escaping loses nothing: whatever counts as printable, the reader's unescape undoes it. */
  lemma {:induction false} EscapeRoundTrip(s: seq<byte>, printable: set<byte>)
    ensures Unescape(Escape(s, printable)) == s
  {
    if s != [] {
      UnescapeEscapeByte(s[0], printable, Escape(s[1..], printable));
      EscapeRoundTrip(s[1..], printable);
    }
  }

  /** Hence no two strings share an escaped form, not even under different printable sets. */
  lemma EscapeInjective(s: seq<byte>, t: seq<byte>, p: set<byte>, q: set<byte>)
    requires Escape(s, p) == Escape(t, q)
    ensures s == t
  {
    EscapeRoundTrip(s, p);
    EscapeRoundTrip(t, q);
  }

  // ---------------------------------------------------------------- RFC 8259, section 7

  predicate IsHexDigit(c: byte) {
    48 <= c <= 57 || 65 <= c <= 70 || 97 <= c <= 102
  }

  /** `unescaped` of the standard, byte by byte: no control character, quotation mark or reverse solidus. */
  predicate IsUnescaped(c: byte) {
    c >= 32 && c != QUOTE && c != BACKSLASH
  }

  /** A sequence of `char` productions of section 7 of RFC 8259. */
  predicate RfcChars(s: seq<byte>)
    decreases |s|
  {
    if s == [] then true
    else if s[0] != BACKSLASH then IsUnescaped(s[0]) && RfcChars(s[1..])
    else if |s| >= 2 && s[1] in {QUOTE, BACKSLASH, SLASH, 98, 102, 110, 114, 116} then RfcChars(s[2..])
    else |s| >= 6 && s[1] == 117 && (forall k :: 2 <= k < 6 ==> IsHexDigit(s[k])) && RfcChars(s[6..])
  }

  /** Every control character that is written raw: printable, and without a short escape. */
  predicate NoRawControls(printable: set<byte>) {
    forall c :: c in printable && c < 32 ==> ShortEscape(c).Some?
  }

  lemma {:induction false} EscapedIsRfcString(s: seq<byte>, printable: set<byte>)
    requires NoRawControls(printable)
    ensures RfcChars(Escape(s, printable))
  {
    if s != [] {
      var e, r := EscapeByte(s[0], printable), Escape(s[1..], printable);
      EscapedIsRfcString(s[1..], printable);
      assert (e + r)[|e|..] == r;
    }
  }

  /** Escaped strings are string bodies of the standard exactly when `iswprint` rejects every
      control character that has no short escape. */
  lemma EscapedIsRfcStringIff(printable: set<byte>)
    ensures (forall s :: RfcChars(Escape(s, printable))) <==> NoRawControls(printable)
  {
    if NoRawControls(printable) {
      forall s ensures RfcChars(Escape(s, printable)) {
        EscapedIsRfcString(s, printable);
      }
    } else {
      var c :| c in printable && c < 32 && ShortEscape(c).None?;
      assert Escape([c], printable) == [c];
    }
  }
}
