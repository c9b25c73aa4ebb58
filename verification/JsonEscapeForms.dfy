/** Escaping and unescaping character by character: which characters are escaped, to what, and what every escape
    stands for, in the characters themselves. */
module JsonEscapeForms {
  import opened Bytes
  import opened JsonEscape

  // ---------------------------------------------------------------- escaping

  const UPPER_HEX: string := "0123456789ABCDEF"
  const LOWER_HEX: string := "0123456789abcdef"

  /** Quotation mark, backslash, backspace, form feed, line feed, carriage return, tab. */
  predicate IsListed(c: byte) {
    c in {34, 92, 8, 12, 10, 13, 9}
  }

  lemma {:induction false} EscapeConcat(s: seq<byte>, t: seq<byte>, printable: set<byte>)
    ensures Escape(s + t, printable) == Escape(s, printable) + Escape(t, printable)
  {
    hide EscapeByte;
    if s == [] {
      assert s + t == t;
    } else {
      assert (s + t)[1..] == s[1..] + t;
      EscapeConcat(s[1..], t, printable);
    }
  }

  /** A string is escaped piece by piece, and this is the piece of every character. */
  lemma EscapedForm(c: byte, printable: set<byte>)
    ensures var e := Escape([c], printable);
            && (c == 34 ==> e == Ascii("\\\""))
            && (c == 92 ==> e == Ascii("\\\\"))
            && (c == 8 ==> e == Ascii("\\b"))
            && (c == 12 ==> e == Ascii("\\f"))
            && (c == 10 ==> e == Ascii("\\n"))
            && (c == 13 ==> e == Ascii("\\r"))
            && (c == 9 ==> e == Ascii("\\t"))
            && (!IsListed(c) && c in printable ==> e == [c])
            && (!IsListed(c) && c !in printable ==>
                  && |e| == 6 && e[..4] == Ascii("\\u00")
                  && e[4] as int == UPPER_HEX[c as int / 16] as int && e[5] as int == UPPER_HEX[c as int % 16] as int)
  {
    assert [c][1..] == [];
    assert Escape([c], printable) == EscapeByte(c, printable);
    if !IsListed(c) && c !in printable {
      LongForm(c);
    }
  }

  lemma LongForm(c: byte)
    ensures var e := NonPrintable(c as nat);
            && |e| == 6 && e[..4] == Ascii("\\u00")
            && e[4] as int == UPPER_HEX[c as int / 16] as int && e[5] as int == UPPER_HEX[c as int % 16] as int
  {
    var x := c as int;
    assert x / 4096 == 0 && x / 256 % 16 == 0 && x / 16 % 16 == x / 16;
    HexCharacter(x / 16);
    HexCharacter(x % 16);
    assert HexChar(0) == 48;
    hide HexChar;
  }

  lemma HexCharacter(d: nat)
    requires d < 16
    ensures HexChar(d) as int == UPPER_HEX[d] as int
  {
  }

  /** What escaping adds to the length. */
  function Added(s: seq<byte>, printable: set<byte>): nat {
    if s == [] then 0
    else (if IsListed(s[0]) then 1 else if s[0] in printable then 0 else 5) + Added(s[1..], printable)
  }

  lemma {:induction false} EscapedLength(s: seq<byte>, printable: set<byte>)
    ensures |Escape(s, printable)| == |s| + Added(s, printable)
  {
    if s != [] {
      EscapedLength(s[1..], printable);
      EscapeConcat([s[0]], s[1..], printable);
      assert [s[0]] + s[1..] == s;
      EscapedForm(s[0], printable);
      hide Escape;
    }
  }

  /** A string stays as it is exactly when all its characters are printable and none is listed. */
  lemma {:induction false} EscapeLeavesIff(s: seq<byte>, printable: set<byte>)
    ensures Escape(s, printable) == s <==> (forall i :: 0 <= i < |s| ==> s[i] in printable && !IsListed(s[i]))
  {
    EscapedLength(s, printable);
    if forall i :: 0 <= i < |s| ==> s[i] in printable && !IsListed(s[i]) {
      if s != [] {
        EscapeLeavesIff(s[1..], printable);
        EscapeConcat([s[0]], s[1..], printable);
        assert [s[0]] + s[1..] == s;
        EscapedForm(s[0], printable);
      }
    } else {
      AddsSomething(s, printable);
    }
  }

  lemma {:induction false} AddsSomething(s: seq<byte>, printable: set<byte>)
    requires exists i :: 0 <= i < |s| && !(s[i] in printable && !IsListed(s[i]))
    ensures Added(s, printable) > 0
  {
    if s[0] in printable && !IsListed(s[0]) {
      var i :| 0 <= i < |s| && !(s[i] in printable && !IsListed(s[i]));
      assert s[1..][i - 1] == s[i];
      AddsSomething(s[1..], printable);
    }
  }

  // ---------------------------------------------------------------- unescaping

  /** `c` is a hexadecimal digit for `d`. */
  predicate IsHexOf(c: byte, d: nat) {
    d < 16 && (c as int == LOWER_HEX[d] as int || c as int == UPPER_HEX[d] as int)
  }

  lemma HexDigitOf(c: byte, d: nat)
    requires IsHexOf(c, d)
    ensures HexToNum(c) == d && IsHexDigit(c)
  {
  }

  lemma {:induction false} EscapeStep(s: seq<byte>)
    requires |s| >= 2 && s[0] == 92
    ensures Unescape(s) == EscapeAt(s).0 + Unescape(s[EscapeAt(s).1..])
  {
    hide EscapeAt;
  }

  const SHORT_NAMES: string := "\"\\/bfnrt"
  const SHORT_CODES: seq<byte> := [34, 92, 47, 8, 12, 10, 13, 9]

  /** A two-character escape gives its character. */
  lemma ShortEscapeReads(i: nat, e: byte, rest: seq<byte>)
    requires i < 8 && e as int == SHORT_NAMES[i] as int
    ensures Unescape([92, e] + rest) == [SHORT_CODES[i]] + Unescape(rest)
  {
    hide Unescape, HexPair, HexQuad;
    EscapeStep([92, e] + rest);
    assert ([92, e] + rest)[2..] == rest;
    assert ShortUnescape(e) == Some(SHORT_CODES[i]);
  }

  /** A hexadecimal escape gives the character with that code, of four digits the last two. */
  lemma HexEscapeReads(a: byte, b: byte, k: nat, l: nat, rest: seq<byte>)
    requires IsHexOf(a, k) && IsHexOf(b, l)
    ensures Unescape(Ascii("\\x") + [a, b] + rest) == [(16 * k + l) as byte] + Unescape(rest)
  {
    HexDigitOf(a, k);
    HexDigitOf(b, l);
    assert Ascii("\\x") == [92, 120];
    hide Unescape, Ascii, HexToNum, HexQuad, IsHexOf;
    var s := [92, 120] + [a, b] + rest;
    EscapeStep(s);
    assert s[4..] == rest && EscapeAt(s) == ([HexPair(a, b)], 4);
  }

  lemma UnicodeEscapeReads(a: byte, b: byte, c: byte, d: byte, i: nat, j: nat, k: nat, l: nat, rest: seq<byte>)
    requires IsHexOf(a, i) && IsHexOf(b, j) && IsHexOf(c, k) && IsHexOf(d, l)
    ensures Unescape(Ascii("\\u") + [a, b, c, d] + rest) == [(16 * k + l) as byte] + Unescape(rest)
  {
    HexDigitOf(a, i);
    HexDigitOf(b, j);
    HexDigitOf(c, k);
    HexDigitOf(d, l);
    assert Ascii("\\u") == [92, 117];
    hide Unescape, Ascii, HexToNum, HexPair, IsHexOf;
    var s := [92, 117] + [a, b, c, d] + rest;
    EscapeStep(s);
    LowTwo(i, j, 16 * k + l);
    assert HexQuad(a, b, c, d) as int == 16 * k + l;
    hide HexQuad;
    assert s[6..] == rest && EscapeAt(s) == ([HexQuad(a, b, c, d)], 6);
  }

  lemma LowTwo(i: nat, j: nat, n: nat)
    requires n < 256
    ensures (4096 * i + 256 * j + n) % 256 == n
  {
    DivMod(4096 * i + 256 * j + n, 256, 16 * i + j, n);
  }

  /** Any other character behind a backslash is dropped with it, and any character but a backslash stays. A lone
      backslash at the end stays too. */
  lemma OtherEscapesRead(c: byte, rest: seq<byte>)
    ensures c !in Ascii("\"\\/bfnrtxu") ==> Unescape([92, c] + rest) == Unescape(rest)
    ensures c != 92 ==> Unescape([c] + rest) == [c] + Unescape(rest)
    ensures Unescape([]) == [] && Unescape([92]) == [92]
  {
    assert Ascii("\"\\/bfnrtxu") == [34, 92, 47, 98, 102, 110, 114, 116, 120, 117];
    assert ([92, c] + rest)[2..] == rest && ([c] + rest)[1..] == rest;
    hide HexPair, HexQuad;
    if rest == [] {
      assert [c] + rest == [c];
    }
  }

  /** A hexadecimal escape that is cut off gives nothing, and its digits stay. */
  lemma {:induction false} CutEscapesRead(t: seq<byte>)
    ensures |t| < 2 ==> Unescape(Ascii("\\x") + t) == Unescape(t)
    ensures |t| < 4 ==> Unescape(Ascii("\\u") + t) == Unescape(t)
  {
    assert Ascii("\\x") == [92, 120] && Ascii("\\u") == [92, 117];
    hide Unescape, Ascii, EscapeAt;
    if |t| < 2 {
      CutEscape(120, t);
    }
    if |t| < 4 {
      CutEscape(117, t);
    }
  }

  lemma {:induction false} CutEscape(e: byte, t: seq<byte>)
    requires (e == 120 && |t| < 2) || (e == 117 && |t| < 4)
    ensures Unescape([92, e] + t) == Unescape(t)
  {
    hide Unescape, HexPair, HexQuad;
    EscapeStep([92, e] + t);
    assert ([92, e] + t)[2..] == t && [] + Unescape(t) == Unescape(t);
  }
}
