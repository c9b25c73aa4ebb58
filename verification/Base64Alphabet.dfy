/** The coder bit by bit, against the alphabet of table 1 in section 4 of RFC 4648, written out. */
module Base64Alphabet {
  import opened Bytes
  import opened Base64

  const ALPHABET: string := "ABCDEFGHIJKLMNOPQRSTUVWXYZabcdefghijklmnopqrstuvwxyz0123456789+/"

  // ---------------------------------------------------------------- bits

  /** The bits of an octet, the highest first. */
  function OctetBits(c: byte): (bits: seq<nat>)
    ensures |bits| == 8
  {
    var x := c as int;
    [x / 128, x / 64 % 2, x / 32 % 2, x / 16 % 2, x / 8 % 2, x / 4 % 2, x / 2 % 2, x % 2]
  }

  /** The bits of octets, one octet after the other. */
  function Bits(b: seq<byte>): (bits: seq<nat>)
    ensures |bits| == 8 * |b|
  {
    if b == [] then [] else OctetBits(b[0]) + Bits(b[1..])
  }

  /** Zeros stand behind the end. */
  function BitAt(b: seq<byte>, j: nat): nat {
    if j < |Bits(b)| then Bits(b)[j] else 0
  }

  /** The number that the bits 6k to 6k+5 make. */
  function SixBits(b: seq<byte>, k: nat): nat {
    32 * BitAt(b, 6 * k) + 16 * BitAt(b, 6 * k + 1) + 8 * BitAt(b, 6 * k + 2)
    + 4 * BitAt(b, 6 * k + 3) + 2 * BitAt(b, 6 * k + 4) + BitAt(b, 6 * k + 5)
  }

  lemma BitsOfThree(b: seq<byte>)
    requires |b| >= 3
    ensures Bits(b) == OctetBits(b[0]) + OctetBits(b[1]) + OctetBits(b[2]) + Bits(b[3..])
  {
    hide OctetBits, Bits;
    assert b[1..][1..] == b[2..] && b[2..][1..] == b[3..];
    BitsStep(b);
    BitsStep(b[1..]);
    BitsStep(b[2..]);
    FiveParts(OctetBits(b[0]), OctetBits(b[1]), OctetBits(b[2]), [], Bits(b[3..]));
    assert [] + Bits(b[3..]) == Bits(b[3..]);
    var three := OctetBits(b[0]) + OctetBits(b[1]) + OctetBits(b[2]);
    assert three + [] == three;
  }

  lemma {:induction false} BitsStep(b: seq<byte>)
    requires b != []
    ensures Bits(b) == OctetBits(b[0]) + Bits(b[1..])
  {
    hide OctetBits;
  }

  /** A group of three octets is 24 bits, and what is behind it moves up by as many. */
  lemma BitsShift(b: seq<byte>, j: nat)
    requires |b| >= 3
    ensures BitAt(b, j + 24) == BitAt(b[3..], j)
  {
    hide Bits, OctetBits;
    BitsOfThree(b);
  }

  lemma SixBitsShift(b: seq<byte>, k: nat)
    requires |b| >= 3
    ensures SixBits(b, k + 4) == SixBits(b[3..], k)
  {
    hide BitAt;
    BitsShift(b, 6 * k);
    BitsShift(b, 6 * k + 1);
    BitsShift(b, 6 * k + 2);
    BitsShift(b, 6 * k + 3);
    BitsShift(b, 6 * k + 4);
    BitsShift(b, 6 * k + 5);
  }

  /** The first octets, filled up with zeros. */
  function OctetOr0(b: seq<byte>, i: nat): byte {
    if i < |b| then b[i] else 0
  }

  lemma BitOfOctet(b: seq<byte>, i: nat, j: nat)
    requires i < 3 && j < 8
    ensures BitAt(b, 8 * i + j) == OctetBits(OctetOr0(b, i))[j]
  {
    BitsFrom(b, i);
    if i < |b| {
      assert Bits(b[i..]) == OctetBits(b[i]) + Bits(b[i..][1..]);
      hide OctetBits;
    }
  }

  lemma {:induction false} BitsFrom(b: seq<byte>, i: nat)
    ensures i <= |b| ==> Bits(b)[8 * i..] == Bits(b[i..])
  {
    hide OctetBits;
    if 0 < i <= |b| {
      BitsFrom(b[1..], i - 1);
      assert b[1..][i - 1..] == b[i..];
      assert Bits(b)[8 * i..] == Bits(b[1..])[8 * (i - 1)..];
    } else if i == 0 {
      assert b[0..] == b;
    }
  }

  lemma Halves(x: nat, d: nat, y: nat)
    requires d > 0 && y == x / d
    ensures x / (2 * d) == y / 2
  {
    var q, r := y / 2, x % d;
    assert x == d * y + r;
    if y == 2 * q {
      Twice(d, q);
      DivMod(x, 2 * d, q, r);
    } else {
      assert y == 2 * q + 1;
      Twice(d, q);
      DivMod(x, 2 * d, q, d + r);
    }
  }

  lemma Twice(d: nat, q: nat)
    ensures d * (2 * q) == q * (2 * d)
    ensures d * (2 * q + 1) == q * (2 * d) + d
  {
  }

  /** A number below 256 by its halves. */
  lemma OctetIsItsBits(c: byte)
    ensures var x, y := c as int, OctetBits(c);
            && x / 128 == y[0] < 2
            && x / 64 == 2 * y[0] + y[1]
            && x / 32 == 2 * (x / 64) + y[2]
            && x / 16 == 2 * (x / 32) + y[3]
            && x / 8 == 2 * (x / 16) + y[4]
            && x / 4 == 2 * (x / 8) + y[5]
            && x / 2 == 2 * (x / 4) + y[6]
            && x == 2 * (x / 2) + y[7]
  {
    var x := c as int;
    Halves(x, 64, x / 64);
    Halves(x, 32, x / 32);
    Halves(x, 16, x / 16);
    Halves(x, 8, x / 8);
    Halves(x, 4, x / 4);
    Halves(x, 2, x / 2);
  }

  /** What the 6-bit groups take of an octet. */
  lemma OctetInParts(c: byte)
    ensures var x, y := c as int, OctetBits(c);
            && x / 4 == 32 * y[0] + 16 * y[1] + 8 * y[2] + 4 * y[3] + 2 * y[4] + y[5]
            && x % 4 == 2 * y[6] + y[7]
            && x / 16 == 8 * y[0] + 4 * y[1] + 2 * y[2] + y[3]
            && x % 16 == 8 * y[4] + 4 * y[5] + 2 * y[6] + y[7]
            && x / 64 == 2 * y[0] + y[1]
            && x % 64 == 32 * y[2] + 16 * y[3] + 8 * y[4] + 4 * y[5] + 2 * y[6] + y[7]
  {
    hide OctetBits;
    OctetIsItsBits(c);
  }

  /** The first four sextets are the four 6-bit groups of the first three octets. */
  lemma FirstSextets(b: seq<byte>, k: nat)
    requires k < 4
    ensures SixBits(b, k) == Sextet(Group(OctetOr0(b, 0), OctetOr0(b, 1), OctetOr0(b, 2)), k)
  {
    hide BitAt, OctetBits, OctetOr0, Group, Sextet;
    var x, y, z := OctetOr0(b, 0), OctetOr0(b, 1), OctetOr0(b, 2);
    GroupSextets(x, y, z);
    if k == 0 {
      BitsOfOctet(b, 0);
      OctetInParts(x);
    } else if k == 1 {
      BitsOfOctet(b, 0);
      BitsOfOctet(b, 1);
      OctetInParts(x);
      OctetInParts(y);
    } else if k == 2 {
      BitsOfOctet(b, 1);
      BitsOfOctet(b, 2);
      OctetInParts(y);
      OctetInParts(z);
    } else {
      BitsOfOctet(b, 2);
      OctetInParts(z);
    }
  }

  lemma BitsOfOctet(b: seq<byte>, i: nat)
    requires i < 3
    ensures var n, y := 8 * i, OctetBits(OctetOr0(b, i));
            && BitAt(b, n) == y[0] && BitAt(b, n + 1) == y[1] && BitAt(b, n + 2) == y[2] && BitAt(b, n + 3) == y[3]
            && BitAt(b, n + 4) == y[4] && BitAt(b, n + 5) == y[5] && BitAt(b, n + 6) == y[6] && BitAt(b, n + 7) == y[7]
  {
    hide BitAt, OctetBits, OctetOr0;
    BitOfOctet(b, i, 0);
    BitOfOctet(b, i, 1);
    BitOfOctet(b, i, 2);
    BitOfOctet(b, i, 3);
    BitOfOctet(b, i, 4);
    BitOfOctet(b, i, 5);
    BitOfOctet(b, i, 6);
    BitOfOctet(b, i, 7);
  }

  /** The 6-bit values of an encoding are the bits, six by six. */
  lemma {:induction false} SextetsAreSixBits(b: seq<byte>, k: nat)
    requires k < |ToSextets(b)|
    ensures ToSextets(b)[k] == SixBits(b, k)
    decreases k
  {
    hide SixBits, Group, Sextet;
    if k < 4 {
      FirstSextets(b, k);
      if |b| >= 3 {
        ToSextetsUnfold(b);
      }
    } else {
      ToSextetsUnfold(b);
      assert ToSextets(b)[k] == ToSextets(b[3..])[k - 4];
      SextetsAreSixBits(b[3..], k - 4);
      SixBitsShift(b, k - 4);
    }
  }

  // ---------------------------------------------------------------- the alphabet

  lemma SymbolIsInAlphabet(v: nat)
    requires v < 64
    ensures Symbol(v) as int == ALPHABET[v] as int
  {
    if v < 26 {
      UpperCode(v);
      StartsUpper(v);
    } else if v < 52 {
      LowerCode(v - 26);
      GoesOnLower(v - 26);
    }
  }

  lemma StartsUpper(i: nat)
    requires i < 26
    ensures ALPHABET[i] == UPPER[i]
  {
  }

  lemma GoesOnLower(i: nat)
    requires i < 26
    ensures ALPHABET[26 + i] == LOWER[i]
  {
  }

  // ---------------------------------------------------------------- the encoder

  /** Character `k` of an encoding is the one that stands in the alphabet at the number of the bits 6k to 6k+5, as
      long as there are bits, and a padding character from there on. */
  lemma EncodedCharacter(b: seq<byte>, k: nat)
    requires k < (|b| + 2) / 3 * 4
    ensures |Encode(b)| == (|b| + 2) / 3 * 4
    ensures 6 * k < 8 * |b| ==> SixBits(b, k) < 64 && Encode(b)[k] as int == ALPHABET[SixBits(b, k)] as int
    ensures 6 * k >= 8 * |b| ==> Encode(b)[k] as int == '=' as int
  {
    hide SixBits, Encode, ToSextets, Symbol;
    EncodedLength(b);
    EncodeShape(b);
    SymbolCount(|b|, k);
    if 6 * k < 8 * |b| {
      SextetsAreSixBits(b, k);
      SymbolIsInAlphabet(SixBits(b, k));
    }
  }

  lemma SymbolCount(n: nat, k: nat)
    ensures k < n / 3 * 4 + (if n % 3 == 0 then 0 else n % 3 + 1) <==> 6 * k < 8 * n
  {
    var q, r := n / 3, n % 3;
    assert n == 3 * q + r;
  }

  // ---------------------------------------------------------------- the decoder

  ghost predicate InAlphabet(c: byte) {
    exists v :: 0 <= v < 64 && c as int == ALPHABET[v] as int
  }

  lemma TableIsAlphabet(c: byte)
    ensures IsSymbol(c) <==> InAlphabet(c)
    ensures IsSymbol(c) ==> c as int == ALPHABET[Table(c).value] as int
  {
    hide Table, Symbol;
    if IsSymbol(c) {
      SymbolInvertsTable(c);
      SymbolIsInAlphabet(Table(c).value);
    }
    if InAlphabet(c) {
      var v: nat :| v < 64 && c as int == ALPHABET[v] as int;
      SymbolIsInAlphabet(v);
      TableInvertsSymbol(v);
    }
  }

  /** `x` are the places in the alphabet of the longest run of its characters in front of `s`. */
  ghost predicate IsLongestRun(s: seq<byte>, x: seq<nat>) {
    && |x| <= |s| && AreSextets(x)
    && (forall i :: 0 <= i < |x| ==> s[i] as int == ALPHABET[x[i]] as int)
    && (|x| < |s| ==> !InAlphabet(s[|x|]))
  }

  /** What the decoder reads is that run, and there is only one. */
  lemma RunIsLongest(s: seq<byte>)
    ensures IsLongestRun(s, Values(s))
    ensures forall x :: IsLongestRun(s, x) ==> x == Values(s)
  {
    hide Table, InAlphabet;
    forall i | 0 <= i < |s| ensures IsSymbol(s[i]) <==> InAlphabet(s[i]) {
      TableIsAlphabet(s[i]);
    }
    forall i | 0 <= i < SymbolRun(s) ensures s[i] as int == ALPHABET[Values(s)[i]] as int {
      TableIsAlphabet(s[i]);
    }
    forall x | IsLongestRun(s, x) ensures x == Values(s) {
      SameRun(s, x, Values(s));
    }
  }

  lemma SameRun(s: seq<byte>, x: seq<nat>, y: seq<nat>)
    requires IsLongestRun(s, x) && IsLongestRun(s, y)
    ensures x == y
  {
    forall i | 0 <= i < |x| && i < |y| ensures x[i] == y[i] {
      SymbolIsInAlphabet(x[i]);
      SymbolIsInAlphabet(y[i]);
      TableInvertsSymbol(x[i]);
      TableInvertsSymbol(y[i]);
    }
    IsInAlphabet(s, x);
    IsInAlphabet(s, y);
  }

  lemma IsInAlphabet(s: seq<byte>, x: seq<nat>)
    requires IsLongestRun(s, x)
    ensures forall i :: 0 <= i < |x| ==> InAlphabet(s[i])
  {
    forall i | 0 <= i < |x| ensures InAlphabet(s[i]) {
      assert s[i] as int == ALPHABET[x[i]] as int;
    }
  }

  /** The bits of a number below 64, the highest first. */
  function SextetBits(v: nat): (bits: seq<nat>)
    requires v < 64
    ensures |bits| == 6
  {
    [v / 32, v / 16 % 2, v / 8 % 2, v / 4 % 2, v / 2 % 2, v % 2]
  }

  function BitsOfValues(x: seq<nat>): (bits: seq<nat>)
    requires AreSextets(x)
    ensures |bits| == 6 * |x|
  {
    if x == [] then [] else SextetBits(x[0]) + BitsOfValues(x[1..])
  }

  lemma SextetIsItsBits(v: nat)
    requires v < 64
    ensures var y := SextetBits(v);
            && v == 32 * y[0] + 16 * y[1] + 8 * y[2] + 4 * y[3] + 2 * y[4] + y[5]
            && y[0] < 2
            && v / 16 == 2 * y[0] + y[1]
            && v % 16 == 8 * y[2] + 4 * y[3] + 2 * y[4] + y[5]
            && v / 4 == 8 * y[0] + 4 * y[1] + 2 * y[2] + y[3]
            && v % 4 == 2 * y[4] + y[5]
  {
    Halves(v, 16, v / 16);
    Halves(v, 8, v / 8);
    Halves(v, 4, v / 4);
    Halves(v, 2, v / 2);
  }

  lemma BitIs(x: nat, d: nat, q: nat, b: nat, r: nat)
    requires b < 2 && r < d && x == (2 * q + b) * d + r
    ensures x / d % 2 == b
  {
    DivMod(x, d, 2 * q + b, r);
  }

  /** No other bits make the same octet. */
  lemma OnlyBits(c: byte, a: nat, b: nat, d: nat, e: nat, f: nat, g: nat, h: nat, i: nat)
    requires a < 2 && b < 2 && d < 2 && e < 2 && f < 2 && g < 2 && h < 2 && i < 2
    requires c as int == 128 * a + 64 * b + 32 * d + 16 * e + 8 * f + 4 * g + 2 * h + i
    ensures OctetBits(c) == [a, b, d, e, f, g, h, i]
  {
    var x := c as int;
    DivMod(x, 128, a, 64 * b + 32 * d + 16 * e + 8 * f + 4 * g + 2 * h + i);
    BitIs(x, 64, a, b, 32 * d + 16 * e + 8 * f + 4 * g + 2 * h + i);
    BitIs(x, 32, 2 * a + b, d, 16 * e + 8 * f + 4 * g + 2 * h + i);
    BitIs(x, 16, 4 * a + 2 * b + d, e, 8 * f + 4 * g + 2 * h + i);
    BitIs(x, 8, 8 * a + 4 * b + 2 * d + e, f, 4 * g + 2 * h + i);
    BitIs(x, 4, 16 * a + 8 * b + 4 * d + 2 * e + f, g, 2 * h + i);
    BitIs(x, 2, 32 * a + 16 * b + 8 * d + 4 * e + 2 * f + g, h, i);
  }

  /** The bits of an octet that is made of two 6-bit values. */
  lemma OctetOfTwo(u: nat, v: nat)
    requires u < 64 && v < 64
    ensures OctetBits(Octet(u, v, 0)) == SextetBits(u) + SextetBits(v)[..2]
    ensures OctetBits(Octet(u, v, 1)) == SextetBits(u)[2..] + SextetBits(v)[..4]
    ensures OctetBits(Octet(u, v, 2)) == SextetBits(u)[4..] + SextetBits(v)
  {
    var y, z := SextetBits(u), SextetBits(v);
    BitsAreBits(u);
    BitsAreBits(v);
    SextetIsItsBits(u);
    SextetIsItsBits(v);
    hide OctetBits, SextetBits;
    OnlyBits(Octet(u, v, 0), y[0], y[1], y[2], y[3], y[4], y[5], z[0], z[1]);
    OnlyBits(Octet(u, v, 1), y[2], y[3], y[4], y[5], z[0], z[1], z[2], z[3]);
    OnlyBits(Octet(u, v, 2), y[4], y[5], z[0], z[1], z[2], z[3], z[4], z[5]);
  }

  lemma BitsAreBits(v: nat)
    requires v < 64
    ensures forall i :: 0 <= i < 6 ==> SextetBits(v)[i] < 2
  {
  }

  lemma {:induction false} ValuesStep(x: seq<nat>)
    requires AreSextets(x) && x != []
    ensures BitsOfValues(x) == SextetBits(x[0]) + BitsOfValues(x[1..])
  {
    hide SextetBits;
  }

  lemma NoValues()
    ensures BitsOfValues([]) == []
  {
  }

  lemma ValuesUnfold(x: seq<nat>)
    requires AreSextets(x) && |x| >= 4
    ensures BitsOfValues(x)
         == SextetBits(x[0]) + SextetBits(x[1]) + SextetBits(x[2]) + SextetBits(x[3]) + BitsOfValues(x[4..])
  {
    hide SextetBits, BitsOfValues;
    assert x[1..][1..] == x[2..] && x[2..][1..] == x[3..] && x[3..][1..] == x[4..];
    ValuesStep(x);
    ValuesStep(x[1..]);
    ValuesStep(x[2..]);
    ValuesStep(x[3..]);
    FiveParts(SextetBits(x[0]), SextetBits(x[1]), SextetBits(x[2]), SextetBits(x[3]), BitsOfValues(x[4..]));
  }

  lemma FiveParts(a: seq<nat>, b: seq<nat>, c: seq<nat>, d: seq<nat>, e: seq<nat>)
    ensures a + (b + (c + (d + e))) == a + b + c + d + e
  {
  }

  lemma BitsOfOctets(b: seq<byte>)
    ensures |b| >= 1 ==> Bits(b) == OctetBits(b[0]) + Bits(b[1..])
    ensures |b| == 1 ==> Bits(b) == OctetBits(b[0])
    ensures |b| == 2 ==> Bits(b) == OctetBits(b[0]) + OctetBits(b[1])
  {
    hide OctetBits;
  }

  /** The bits of what is decoded are the bits of the 6-bit values, as far as they fill octets. */
  lemma {:induction false} DecodedBits(x: seq<nat>)
    requires AreSextets(x)
    ensures Bits(Octets(x)) <= BitsOfValues(x)
  {
    hide OctetBits, SextetBits, Octet;
    if |x| < 4 {
      ShortRun(x);
    } else {
      OctetsUnfold(x);
      BitsOfThree(Octets(x));
      assert Octets(x)[3..] == Octets(x[4..]);
      DecodedBits(x[4..]);
      OctetOfTwo(x[0], x[1]);
      OctetOfTwo(x[1], x[2]);
      OctetOfTwo(x[2], x[3]);
      ValuesUnfold(x);
      hide Octets, Bits, BitsOfValues;
    }
  }

  lemma ShortRun(x: seq<nat>)
    requires |x| < 4 && AreSextets(x)
    ensures Bits(Octets(x)) <= BitsOfValues(x)
  {
    hide OctetBits, SextetBits, Octet, Bits, BitsOfValues;
    NoBits();
    if |x| >= 2 {
      OctetOfTwo(x[0], x[1]);
      ValuesStep(x);
      ValuesStep(x[1..]);
      BitsOfOctets(Octets(x));
      if |x| == 3 {
        OctetOfTwo(x[1], x[2]);
        ValuesStep(x[2..]);
        assert x[1..][1..] == x[2..];
      }
    }
  }

  lemma NoBits()
    ensures Bits([]) == []
  {
  }

  /** The decoder by the alphabet alone: it reads the longest run of its characters, and gives as many octets as the
      bits of their places fill, bit for bit. */
  lemma DecodesLongestRun(s: seq<byte>, x: seq<nat>)
    requires IsLongestRun(s, x)
    ensures var d := Octets(Values(s)); |d| == |x| * 3 / 4 && Bits(d) <= BitsOfValues(x)
  {
    RunIsLongest(s);
    DecodedBits(x);
    hide Octets, Values, Bits, BitsOfValues, IsLongestRun;
  }
}
