/** The streaming Base64 coder and decoder. The C++ works on non-negative `int`s, so `x << k` is
    `x * 2^k`, `x >> k` is `x / 2^k`, `x & (2^k - 1)` is `x % 2^k`; `|` is defined bit by bit. */
module Base64 {
  import opened Bytes

  const PAD: byte := 61

  // ---------------------------------------------------------------- bits

  /** `x | y`. */
  function BitOr(x: nat, y: nat): nat
    decreases x + y
  {
    if x == 0 && y == 0 then 0
    else (if x % 2 == 1 || y % 2 == 1 then 1 else 0) + 2 * BitOr(x / 2, y / 2)
  }

  function Pow2(k: nat): (p: nat)
    ensures p > 0
  {
    if k == 0 then 1 else 2 * Pow2(k - 1)
  }

  lemma {:induction false} OrNothing(x: nat)
    ensures BitOr(x, 0) == x
  {
    if x > 0 {
      OrNothing(x / 2);
    }
  }

  /** Bits that do not meet add up. */
  lemma {:induction false} OrDisjoint(q: nat, y: nat, k: nat)
    requires y < Pow2(k)
    ensures BitOr(q * Pow2(k), y) == q * Pow2(k) + y
    decreases k
  {
    if k == 0 {
      OrNothing(q);
    } else {
      var h := q * Pow2(k - 1);
      assert q * Pow2(k) == 2 * h;
      OrDisjoint(q, y / 2, k - 1);
    }
  }

  /** The three alignments that occur. */
  lemma OrAligned(q: nat, y: nat)
    ensures y < 4 ==> BitOr(q * 4, y) == q * 4 + y
    ensures y < 16 ==> BitOr(q * 16, y) == q * 16 + y
    ensures y < 64 ==> BitOr(q * 64, y) == q * 64 + y
  {
    assert Pow2(2) == 4 && Pow2(4) == 4 * Pow2(2) && Pow2(6) == 4 * Pow2(4);
    if y < 4 {
      OrDisjoint(q, y, 2);
    }
    if y < 16 {
      OrDisjoint(q, y, 4);
    }
    if y < 64 {
      OrDisjoint(q, y, 6);
    }
  }

  // ---------------------------------------------------------------- section 4 of RFC 4648

  /** Table 1 of the standard: the character of a 6-bit value. */
  function Symbol(v: nat): (c: byte)
    requires v < 64
    ensures c != PAD && c != NUL
  {
    if v < 26 then (65 + v) as byte
    else if v < 52 then (71 + v) as byte
    else if v < 62 then (v - 4) as byte
    else if v == 62 then PLUS
    else SLASH
  }

  /** The decoding table; None stands for -1. */
  function Table(c: byte): (v: Option<nat>)
    ensures v.Some? ==> v.value < 64
  {
    if c == PLUS then Some(62)
    else if c == SLASH then Some(63)
    else if 48 <= c <= 57 then Some(c as int + 4)
    else if 65 <= c <= 90 then Some(c as int - 65)
    else if 97 <= c <= 122 then Some(c as int - 71)
    else None
  }

  lemma TableInvertsSymbol(v: nat)
    requires v < 64
    ensures Table(Symbol(v)) == Some(v)
  {
  }

  lemma SymbolInvertsTable(c: byte)
    requires Table(c).Some?
    ensures Symbol(Table(c).value) == c
  {
  }

  /** Three octets, concatenated to 24 bits. */
  function Group(a: byte, b: byte, c: byte): (g: nat)
    ensures g < 0x1000000
  {
    a as int * 65536 + b as int * 256 + c as int
  }

  /** The `k`-th of the four 6-bit groups in 24 bits. */
  function Sextet(g: nat, k: nat): (v: nat)
    requires k < 4
    ensures v < 64
  {
    if k == 0 then g / 262144 % 64 else if k == 1 then g / 4096 % 64 else if k == 2 then g / 64 % 64 else g % 64
  }

  /** The four characters of 24 bits. */
  function Quad(g: nat): (q: seq<byte>)
    ensures |q| == 4
  {
    [Symbol(Sextet(g, 0)), Symbol(Sextet(g, 1)), Symbol(Sextet(g, 2)), Symbol(Sextet(g, 3))]
  }

  lemma Thirds(n: nat)
    requires n >= 3
    ensures (n + 2) / 3 == (n - 3 + 2) / 3 + 1
  {
  }

  /** 24-bit groups from left to right; zero bits are added to a short last group, and padding makes it four
      characters. */
  function Encode(b: seq<byte>): seq<byte> {
    if |b| == 0 then []
    else if |b| == 1 then
      Quad(Group(b[0], 0, 0))[..2] + [PAD, PAD]
    else if |b| == 2 then
      Quad(Group(b[0], b[1], 0))[..3] + [PAD]
    else
      Quad(Group(b[0], b[1], b[2])) + Encode(b[3..])
  }

  lemma {:induction false} EncodedLength(b: seq<byte>)
    ensures |Encode(b)| == (|b| + 2) / 3 * 4
  {
    hide Quad, Group;
    if |b| >= 3 {
      EncodedLength(b[3..]);
      Thirds(|b|);
    }
  }

  lemma {:induction false} EncodeConcat(a: seq<byte>, b: seq<byte>)
    requires |a| % 3 == 0
    ensures Encode(a + b) == Encode(a) + Encode(b)
  {
    hide Group, Sextet, Symbol;
    if a == [] {
      assert a + b == b;
    } else {
      assert (a + b)[3..] == a[3..] + b;
      EncodeConcat(a[3..], b);
    }
  }

  // ---------------------------------------------------------------- the encoder

  /** The four groups of six bits in 24 bits, octet by octet. */
  lemma GroupSextets(a: byte, b: byte, c: byte)
    ensures var g := Group(a, b, c);
            && Sextet(g, 0) == a as int / 4
            && Sextet(g, 1) == a as int % 4 * 16 + b as int / 16
            && Sextet(g, 2) == b as int % 16 * 4 + c as int / 64
            && Sextet(g, 3) == c as int % 64
  {
    var g, x, y, z := Group(a, b, c), a as int, b as int, c as int;
    DivMod(g, 262144, x / 4, x % 4 * 65536 + y * 256 + z);
    DivMod(g, 4096, x * 16 + y / 16, y % 16 * 256 + z);
    DivMod(x * 16 + y / 16, 64, x / 4, x % 4 * 16 + y / 16);
    DivMod(g, 64, x * 1024 + y * 4 + z / 64, z % 64);
    DivMod(x * 1024 + y * 4 + z / 64, 64, x * 16 + y / 16, y % 16 * 4 + z / 64);
  }

  /** The bits the encoder takes from its octets are those of the 24-bit group. */
  lemma EncoderBits(a: byte, b: byte, c: byte)
    ensures a as int / 4 == Sextet(Group(a, b, c), 0)
    ensures BitOr(a as int % 4 * 16, b as int / 16) == Sextet(Group(a, b, c), 1)
    ensures BitOr(b as int % 16 * 4, c as int / 64) == Sextet(Group(a, b, c), 2)
    ensures c as int % 64 == Sextet(Group(a, b, c), 3)
  {
    hide Group, Sextet, BitOr;
    GroupSextets(a, b, c);
    OrAligned(a as int % 4, b as int / 16);
    OrAligned(b as int % 16, c as int / 64);
  }

  lemma CarryBits(a: byte, b: byte)
    ensures a as int % 4 * 16 == Sextet(Group(a, 0, 0), 1)
    ensures b as int % 16 * 4 == Sextet(Group(a, b, 0), 2)
    ensures Sextet(Group(a, b, 0), 0) == Sextet(Group(a, 0, 0), 0)
  {
    hide Group, Sextet;
    GroupSextets(a, 0, 0);
    GroupSextets(a, b, 0);
  }

  /** The characters printed for an unfinished group, and the bits carried. */
  function Partial(tail: seq<byte>): seq<byte>
    requires |tail| < 3
  {
    if |tail| == 0 then []
    else if |tail| == 1 then [Symbol(Sextet(Group(tail[0], 0, 0), 0))]
    else [Symbol(Sextet(Group(tail[0], tail[1], 0), 0)), Symbol(Sextet(Group(tail[0], tail[1], 0), 1))]
  }

  function Carry(tail: seq<byte>): (left: nat)
    requires |tail| < 3
  {
    if |tail| == 0 then 0 else if |tail| == 1 then tail[0] as int % 4 * 16 else tail[1] as int % 16 * 4
  }

  /** One octet more, by the state it is read in. */
  lemma EncodeStep(tail: seq<byte>, enc: byte)
    requires |tail| < 3
    ensures |tail| == 0 ==> Partial(tail + [enc]) == [Symbol(enc as int / 4)]
    ensures |tail| == 1 ==> BitOr(Carry(tail), enc as int / 16) < 64
    ensures |tail| == 1 ==> Partial(tail + [enc]) == Partial(tail) + [Symbol(BitOr(Carry(tail), enc as int / 16))]
    ensures |tail| == 2 ==> BitOr(Carry(tail), enc as int / 64) < 64
    ensures |tail| == 2 ==>
      Encode(tail + [enc]) == Partial(tail) + [Symbol(BitOr(Carry(tail), enc as int / 64)), Symbol(enc as int % 64)]
  {
    hide Group, Sextet, Symbol, BitOr;
    if |tail| == 0 {
      EncoderBits(enc, 0, 0);
    } else if |tail| == 1 {
      EncoderBits(tail[0], enc, 0);
      EncoderBits(tail[0], 0, 0);
    } else {
      EncoderBits(tail[0], tail[1], enc);
      EncoderBits(tail[0], tail[1], 0);
      assert (tail + [enc])[3..] == [];
    }
  }

  lemma CarryStep(tail: seq<byte>, enc: byte)
    requires |tail| < 2
    ensures Carry(tail + [enc]) == if |tail| == 0 then enc as int % 4 * 16 else enc as int % 16 * 4
  {
  }

  lemma EncodeEndOfOne(a: byte)
    ensures Carry([a]) == a as int % 4 * 16 < 64
    ensures Encode([a]) == Partial([a]) + [Symbol(a as int % 4 * 16)] + [PAD, PAD]
  {
    hide Group, Sextet, Symbol;
    CarryBits(a, 0);
  }

  lemma EncodeEndOfTwo(a: byte, b: byte)
    ensures Carry([a, b]) == b as int % 16 * 4 < 64
    ensures Encode([a, b]) == Partial([a, b]) + [Symbol(b as int % 16 * 4)] + [PAD]
  {
    hide Group, Sextet, Symbol;
    CarryBits(a, b);
  }

  lemma NothingYet(done: seq<byte>)
    ensures Encode([]) == [] && Partial([]) == []
    ensures Encode(done) + [] == Encode(done)
  {
  }

  /** What is printed so far. */
  function Printed(done: seq<byte>, tail: seq<byte>): seq<byte>
    requires |tail| < 3
  {
    Encode(done) + Partial(tail)
  }

  lemma NothingPrinted()
    ensures Printed([], []) == []
  {
    NothingYet([]);
  }

  /** One octet more, in a group that it does not fill. */
  lemma PrintStarts(done: seq<byte>, enc: byte)
    ensures Printed(done, [enc]) == Printed(done, []) + [Symbol(enc as int / 4)]
    ensures Carry([enc]) == enc as int % 4 * 16
  {
    hide Symbol, Encode;
    EncodeStep([], enc);
    CarryStep([], enc);
    assert [] + [enc] == [enc];
    NothingYet(done);
    hide Partial, Carry;
  }

  lemma PrintGoesOn(done: seq<byte>, a: byte, enc: byte)
    ensures BitOr(Carry([a]), enc as int / 16) < 64
    ensures Printed(done, [a, enc]) == Printed(done, [a]) + [Symbol(BitOr(Carry([a]), enc as int / 16))]
    ensures Carry([a, enc]) == enc as int % 16 * 4
  {
    hide Symbol, Encode, BitOr, Partial, Carry;
    EncodeStep([a], enc);
    CarryStep([a], enc);
    assert [a] + [enc] == [a, enc];
    Assoc(Encode(done), Partial([a]), [Symbol(BitOr(Carry([a]), enc as int / 16))]);
  }

  /** And in one that it fills. */
  lemma PrintFills(done: seq<byte>, a: byte, b: byte, enc: byte)
    requires |done| % 3 == 0
    ensures BitOr(Carry([a, b]), enc as int / 64) < 64
    ensures Printed(done + [a, b, enc], [])
         == Printed(done, [a, b]) + [Symbol(BitOr(Carry([a, b]), enc as int / 64))] + [Symbol(enc as int % 64)]
  {
    hide Symbol, Encode, BitOr, Partial, Carry;
    EncodeStep([a, b], enc);
    assert [a, b] + [enc] == [a, b, enc];
    EncodeConcat(done, [a, b, enc]);
    NothingYet(done + [a, b, enc]);
    var x, y := Symbol(BitOr(Carry([a, b]), enc as int / 64)), Symbol(enc as int % 64);
    assert Encode(done) + (Partial([a, b]) + [x, y]) == Encode(done) + Partial([a, b]) + [x] + [y];
  }

  /** The end of the input. */
  lemma PrintEnds(done: seq<byte>, tail: seq<byte>)
    requires |done| % 3 == 0 && |tail| < 3
    ensures |tail| == 0 ==> Encode(done + tail) == Printed(done, tail)
    ensures |tail| != 0 ==> Carry(tail) < 64
    ensures |tail| == 1 ==> Encode(done + tail) == Printed(done, tail) + [Symbol(Carry(tail))] + [PAD] + [PAD]
    ensures |tail| == 2 ==> Encode(done + tail) == Printed(done, tail) + [Symbol(Carry(tail))] + [PAD]
  {
    hide Symbol, Encode, Partial, Carry;
    EncodeConcat(done, tail);
    NothingYet(done);
    if |tail| == 0 {
      assert tail == [];
    } else if |tail| == 1 {
      assert tail == [tail[0]];
      EncodeEndOfOne(tail[0]);
      var c := [Symbol(Carry(tail))];
      assert Encode(done) + (Partial(tail) + c + [PAD, PAD]) == Encode(done) + Partial(tail) + c + [PAD] + [PAD];
    } else {
      assert tail == [tail[0], tail[1]];
      EncodeEndOfTwo(tail[0], tail[1]);
      var c := [Symbol(Carry(tail))];
      assert Encode(done) + (Partial(tail) + c + [PAD]) == Encode(done) + Partial(tail) + c + [PAD];
    }
  }

  /** The bit-carrying loop computes the encoding of section 4 of RFC 4648. */
  method EncodeBase64(pch: seq<byte>) returns (ret: seq<byte>)
    ensures ret == Encode(pch)
    ensures |ret| == (|pch| + 2) / 3 * 4
  {
    hide Symbol, BitOr, Encode, Printed, Carry;
    EncodedLength(pch);
    ret := [];
    var mode, left, i := 0, 0, 0;
    ghost var done, tail := [], [];
    NothingPrinted();
    while i < |pch|
      invariant 0 <= i <= |pch| && mode == |tail| < 3 && |done| % 3 == 0
      invariant pch[..i] == done + tail
      invariant ret == Printed(done, tail)
      invariant left >= 0 && (mode != 0 ==> left == Carry(tail))
    {
      var enc := pch[i] as int;
      assert pch[..i + 1] == done + (tail + [pch[i]]);
      if mode == 0 {
        PrintStarts(done, pch[i]);
        assert tail == [];
        ret := ret + [Symbol(enc / 4)];
        left := enc % 4 * 16;
        mode := 1;
        tail := [pch[i]];
      } else if mode == 1 {
        PrintGoesOn(done, tail[0], pch[i]);
        assert tail == [tail[0]];
        ret := ret + [Symbol(BitOr(left, enc / 16))];
        left := enc % 16 * 4;
        mode := 2;
        tail := [tail[0], pch[i]];
      } else {
        PrintFills(done, tail[0], tail[1], pch[i]);
        assert tail == [tail[0], tail[1]];
        ret := ret + [Symbol(BitOr(left, enc / 64))];
        ret := ret + [Symbol(enc % 64)];
        mode := 0;
        done, tail := done + [tail[0], tail[1], pch[i]], [];
      }
      i := i + 1;
    }
    assert pch == done + tail;
    PrintEnds(done, tail);
    if mode != 0 {
      ret := ret + [Symbol(left)];
      ret := ret + [PAD];
      if mode == 1 {
        ret := ret + [PAD];
      }
    }
  }

  // ---------------------------------------------------------------- what the decoder reads

  predicate IsSymbol(c: byte) {
    Table(c).Some?
  }

  /** The leading run of alphabet characters, as a length. */
  function SymbolRun(s: seq<byte>): (k: nat)
    ensures k <= |s|
    ensures forall i :: 0 <= i < k ==> IsSymbol(s[i])
    ensures !IsSymbol(At(s, k))
  {
    if s != [] && IsSymbol(s[0]) then 1 + SymbolRun(s[1..]) else 0
  }

  predicate AreSextets(x: seq<nat>) {
    forall i :: 0 <= i < |x| ==> x[i] < 64
  }

  /** The values of the leading run. */
  function Values(s: seq<byte>): (x: seq<nat>)
    ensures |x| == SymbolRun(s) && AreSextets(x)
  {
    seq(SymbolRun(s), i requires 0 <= i < SymbolRun(s) => Table(s[i]).value)
  }

  function Symbols(x: seq<nat>): (s: seq<byte>)
    requires AreSextets(x)
    ensures |s| == |x|
  {
    seq(|x|, i requires 0 <= i < |x| => Symbol(x[i]))
  }

  /** The octet that ends the `k`-th of three 6-bit boundaries: `push_back` of the joined bits. */
  function Octet(u: nat, v: nat, k: nat): (c: byte)
    requires u < 64 && v < 64 && k < 3
  {
    if k == 0 then (u * 4 + v / 16) as byte
    else if k == 1 then (u % 16 * 16 + v / 4) as byte
    else (u % 4 * 64 + v) as byte
  }

  /** Four 6-bit values make three octets; a rest of two makes one, of three two, of one none. */
  function Octets(x: seq<nat>): (b: seq<byte>)
    requires AreSextets(x)
    ensures |b| == |x| * 3 / 4
  {
    if |x| < 2 then []
    else if |x| == 2 then [Octet(x[0], x[1], 0)]
    else if |x| == 3 then [Octet(x[0], x[1], 0), Octet(x[1], x[2], 1)]
    else [Octet(x[0], x[1], 0), Octet(x[1], x[2], 1), Octet(x[2], x[3], 2)] + Octets(x[4..])
  }

  lemma {:induction false} OctetsUnfold(x: seq<nat>)
    requires AreSextets(x) && |x| >= 4
    ensures Octets(x) == [Octet(x[0], x[1], 0), Octet(x[1], x[2], 1), Octet(x[2], x[3], 2)] + Octets(x[4..])
  {
    hide Octet;
  }

  lemma NoOctets()
    ensures Octets([]) == []
  {
  }

  lemma {:induction false} OctetsConcat(x: seq<nat>, y: seq<nat>)
    requires |x| % 4 == 0 && AreSextets(x) && AreSextets(y)
    ensures AreSextets(x + y) && Octets(x + y) == Octets(x) + Octets(y)
  {
    hide Octet, Octets;
    if x == [] {
      assert x + y == y;
      NoOctets();
    } else {
      assert (x + y)[4..] == x[4..] + y;
      OctetsConcat(x[4..], y);
      OctetsUnfold(x);
      OctetsUnfold(x + y);
    }
  }

  /** The bits the last character leaves over. */
  function LeftOver(x: seq<nat>): nat {
    if |x| % 4 == 2 then x[|x| - 1] % 16 else if |x| % 4 == 3 then x[|x| - 1] % 4 else 0
  }

  /** When the flag stays false: no lone last character, no bits left over, and the padding
      there, followed by something outside the alphabet. */
  predicate Accepts(s: seq<byte>) {
    var k := SymbolRun(s);
    && k % 4 != 1
    && LeftOver(Values(s)) == 0
    && (k % 4 == 2 ==> At(s, k) == PAD && At(s, k + 1) == PAD && !IsSymbol(At(s, k + 2)))
    && (k % 4 == 3 ==> At(s, k) == PAD && !IsSymbol(At(s, k + 1)))
  }

  // ---------------------------------------------------------------- the decoder

  lemma DecoderBits(u: nat, v: nat)
    requires u < 64 && v < 64
    ensures BitOr(u * 4, v / 16) == Octet(u, v, 0) as int
    ensures BitOr(u % 16 * 16, v / 4) == Octet(u, v, 1) as int
    ensures BitOr(u % 4 * 64, v) == Octet(u, v, 2) as int
  {
    OrAligned(u, v / 16);
    OrAligned(u % 16, v / 4);
    OrAligned(u % 4, v);
  }

  /** The carried bits after a rest of `|tail|` values. */
  function DecodeCarry(tail: seq<nat>): nat
    requires 0 < |tail| < 4
  {
    if |tail| == 1 then tail[0] else if |tail| == 2 then tail[1] % 16 else tail[2] % 4
  }

  lemma DecodeStep(tail: seq<nat>, dec: nat)
    requires |tail| < 4 && AreSextets(tail) && dec < 64
    ensures AreSextets(tail + [dec])
    ensures |tail| == 0 ==> Octets(tail + [dec]) == []
    ensures |tail| == 1 ==> BitOr(DecodeCarry(tail) * 4, dec / 16) < 256
    ensures |tail| == 1 ==> Octets(tail + [dec]) == Octets(tail) + [BitOr(DecodeCarry(tail) * 4, dec / 16) as byte]
    ensures |tail| == 2 ==> BitOr(DecodeCarry(tail) * 16, dec / 4) < 256
    ensures |tail| == 2 ==> Octets(tail + [dec]) == Octets(tail) + [BitOr(DecodeCarry(tail) * 16, dec / 4) as byte]
    ensures |tail| == 3 ==> BitOr(DecodeCarry(tail) * 64, dec) < 256
    ensures |tail| == 3 ==> Octets(tail + [dec]) == Octets(tail) + [BitOr(DecodeCarry(tail) * 64, dec) as byte]
  {
    hide Octet, BitOr;
    if |tail| > 0 {
      DecoderBits(tail[|tail| - 1], dec);
    }
    if |tail| == 3 {
      assert (tail + [dec])[4..] == [];
    }
  }

  lemma NoneYet(done: seq<nat>)
    requires AreSextets(done)
    ensures Octets([]) == [] && Octets(done) + [] == Octets(done)
  {
  }

  lemma DecodeCarryStep(tail: seq<nat>, dec: nat)
    requires |tail| < 3
    ensures DecodeCarry(tail + [dec]) == if |tail| == 0 then dec else if |tail| == 1 then dec % 16 else dec % 4
  {
  }

  lemma LastCarry(x: seq<nat>, done: seq<nat>, tail: seq<nat>)
    requires x == done + tail && |done| % 4 == 0 && |tail| < 4
    ensures |x| % 4 == |tail|
    ensures |tail| >= 2 ==> LeftOver(x) == DecodeCarry(tail)
    ensures |tail| < 2 ==> LeftOver(x) == 0
  {
  }

  /** Where the loop stops, and what it reads before. */
  lemma ReadsValues(p: seq<byte>, i: nat)
    requires i <= SymbolRun(p)
    ensures Table(At(p, i)).None? <==> i == SymbolRun(p)
    ensures i < SymbolRun(p) ==> Table(At(p, i)) == Some(Values(p)[i])
  {
    hide Table;
  }

  /** What is decoded so far. */
  function Decoded(done: seq<nat>, tail: seq<nat>): seq<byte>
    requires AreSextets(done) && AreSextets(tail)
  {
    Octets(done) + Octets(tail)
  }

  lemma NothingDecoded()
    ensures Decoded([], []) == []
  {
    NoneYet([]);
  }

  /** One value more, by the state it is read in. */
  lemma DecodeTurn(done: seq<nat>, tail: seq<nat>, dec: nat)
    requires |done| % 4 == 0 && |tail| < 4 && AreSextets(done) && AreSextets(tail) && dec < 64
    ensures AreSextets(tail + [dec]) && AreSextets(done + (tail + [dec]))
    ensures |tail| == 0 ==> Decoded(done, tail + [dec]) == Decoded(done, tail) && DecodeCarry(tail + [dec]) == dec
    ensures |tail| == 1 ==>
              && BitOr(DecodeCarry(tail) * 4, dec / 16) < 256 && DecodeCarry(tail + [dec]) == dec % 16
              && Decoded(done, tail + [dec]) == Decoded(done, tail) + [BitOr(DecodeCarry(tail) * 4, dec / 16) as byte]
    ensures |tail| == 2 ==>
              && BitOr(DecodeCarry(tail) * 16, dec / 4) < 256 && DecodeCarry(tail + [dec]) == dec % 4
              && Decoded(done, tail + [dec]) == Decoded(done, tail) + [BitOr(DecodeCarry(tail) * 16, dec / 4) as byte]
    ensures |tail| == 3 ==>
              && BitOr(DecodeCarry(tail) * 64, dec) < 256
              && Decoded(done + (tail + [dec]), [])
                 == Decoded(done, tail) + [BitOr(DecodeCarry(tail) * 64, dec) as byte]
  {
    hide BitOr, Octets, DecodeCarry;
    DecodeStep(tail, dec);
    if |tail| < 3 {
      DecodeCarryStep(tail, dec);
      if |tail| == 0 {
        assert tail == [];
        NoneYet(done);
      }
    } else {
      OctetsConcat(done, tail + [dec]);
      NoneYet(done + (tail + [dec]));
    }
  }

  lemma DecodeEnds(x: seq<nat>, done: seq<nat>, tail: seq<nat>)
    requires x == done + tail && |done| % 4 == 0 && |tail| < 4 && AreSextets(done) && AreSextets(tail)
    ensures AreSextets(x) && Octets(x) == Decoded(done, tail) && |x| % 4 == |tail|
    ensures LeftOver(x) == if |tail| >= 2 then DecodeCarry(tail) else 0
  {
    hide Octets, DecodeCarry, LeftOver;
    OctetsConcat(done, tail);
    LastCarry(x, done, tail);
  }

  /** `asked` is false for a null `pfInvalid`: then there is no flag to set. */
  method DecodeBase64(p: seq<byte>, asked: bool) returns (ret: seq<byte>, pfInvalid: Option<bool>)
    ensures ret == Octets(Values(p))
    ensures |ret| == SymbolRun(p) * 3 / 4
    ensures pfInvalid == if asked then Some(!Accepts(p)) else None
  {
    hide BitOr, Table, SymbolRun, Octets, DecodeCarry, Decoded, LeftOver;
    pfInvalid := if asked then Some(false) else None;
    ret := [];
    var mode, left, i := 0, 0, 0;
    ghost var x, done, tail := Values(p), [], [];
    NothingDecoded();
    while true
      invariant 0 <= i <= |x| && mode == |tail| < 4 && |done| % 4 == 0
      invariant x[..i] == done + tail && AreSextets(done) && AreSextets(tail)
      invariant ret == Decoded(done, tail)
      invariant left >= 0 && (mode != 0 ==> left == DecodeCarry(tail))
      decreases |x| - i
    {
      var entry := Table(At(p, i));
      ReadsValues(p, i);
      if entry.None? {
        break;
      }
      var dec := entry.value;
      DecodeTurn(done, tail, dec);
      assert x[..i + 1] == done + (tail + [dec]);
      i := i + 1;
      if mode == 0 {
        left := dec;
        mode := 1;
        tail := tail + [dec];
      } else if mode == 1 {
        ret := ret + [BitOr(left * 4, dec / 16) as byte];
        left := dec % 16;
        mode := 2;
        tail := tail + [dec];
      } else if mode == 2 {
        ret := ret + [BitOr(left * 16, dec / 4) as byte];
        left := dec % 4;
        mode := 3;
        tail := tail + [dec];
      } else {
        ret := ret + [BitOr(left * 64, dec) as byte];
        mode := 0;
        done, tail := done + (tail + [dec]), [];
      }
    }
    assert x == done + tail;
    DecodeEnds(x, done, tail);
    if asked {
      if mode == 1 {
        pfInvalid := Some(true);
      } else if mode == 2 {
        if left != 0 || At(p, i) != PAD || At(p, i + 1) != PAD || Table(At(p, i + 2)).Some? {
          pfInvalid := Some(true);
        }
      } else if mode == 3 {
        if left != 0 || At(p, i) != PAD || Table(At(p, i + 1)).Some? {
          pfInvalid := Some(true);
        }
      }
    }
  }

  // ---------------------------------------------------------------- canonical decoding

  /** The 6-bit values of an encoding, without the padding. */
  function ToSextets(b: seq<byte>): (x: seq<nat>)
    ensures AreSextets(x)
    ensures |x| == |b| / 3 * 4 + (if |b| % 3 == 0 then 0 else |b| % 3 + 1)
  {
    if |b| == 0 then []
    else if |b| == 1 then [Sextet(Group(b[0], 0, 0), 0), Sextet(Group(b[0], 0, 0), 1)]
    else if |b| == 2 then
      var g := Group(b[0], b[1], 0);
      [Sextet(g, 0), Sextet(g, 1), Sextet(g, 2)]
    else
      var g := Group(b[0], b[1], b[2]);
      [Sextet(g, 0), Sextet(g, 1), Sextet(g, 2), Sextet(g, 3)] + ToSextets(b[3..])
  }

  function Padding(n: nat): seq<byte> {
    if n % 3 == 1 then [PAD, PAD] else if n % 3 == 2 then [PAD] else []
  }

  lemma {:induction false} ToSextetsUnfold(b: seq<byte>)
    requires |b| >= 3
    ensures var g := Group(b[0], b[1], b[2]);
            ToSextets(b) == [Sextet(g, 0), Sextet(g, 1), Sextet(g, 2), Sextet(g, 3)] + ToSextets(b[3..])
  {
    hide Group, Sextet;
  }

  lemma SymbolsOfQuad(g: nat, y: seq<nat>)
    requires AreSextets(y)
    ensures var x := [Sextet(g, 0), Sextet(g, 1), Sextet(g, 2), Sextet(g, 3)] + y;
            AreSextets(x) && Symbols(x) == Quad(g) + Symbols(y)
  {
    hide Sextet, Symbol;
  }

  lemma {:induction false} EncodeShape(b: seq<byte>)
    ensures Encode(b) == Symbols(ToSextets(b)) + Padding(|b|)
  {
    hide Group, Sextet, Symbol;
    if |b| >= 3 {
      EncodeShape(b[3..]);
      ToSextetsUnfold(b);
      SymbolsOfQuad(Group(b[0], b[1], b[2]), ToSextets(b[3..]));
      hide Quad, Symbols, ToSextets;
      assert Encode(b) == Quad(Group(b[0], b[1], b[2])) + Encode(b[3..]);
    }
  }

  lemma GroupBits(a: byte, b: byte, c: byte)
    ensures var g := Group(a, b, c);
            && Octet(Sextet(g, 0), Sextet(g, 1), 0) == a
            && Octet(Sextet(g, 1), Sextet(g, 2), 1) == b
            && Octet(Sextet(g, 2), Sextet(g, 3), 2) == c
    ensures Sextet(Group(a, b, 0), 2) % 4 == 0
    ensures Sextet(Group(a, 0, 0), 1) % 16 == 0
  {
    hide Group, Sextet;
    GroupSextets(a, b, c);
    GroupSextets(a, b, 0);
    GroupSextets(a, 0, 0);
  }

  lemma {:induction false} LeftOverOfTail(x: seq<nat>)
    requires |x| >= 4
    ensures LeftOver(x) == LeftOver(x[4..])
  {
    if |x| > 4 {
      assert x[4..][|x| - 5] == x[|x| - 1];
    }
  }

  /** Decoding what was encoded, at the level of 6-bit values, and nothing left over. */
  lemma {:induction false} OctetsOfSextets(b: seq<byte>)
    ensures Octets(ToSextets(b)) == b && LeftOver(ToSextets(b)) == 0
  {
    hide Group, Sextet, Octet;
    if 1 <= |b| <= 2 {
      GroupBits(b[0], if |b| == 1 then 0 else b[1], 0);
    } else if |b| >= 3 {
      OctetsOfSextets(b[3..]);
      OctetsOfGroup(b);
    }
  }

  lemma OctetsOfGroup(b: seq<byte>)
    requires |b| >= 3 && Octets(ToSextets(b[3..])) == b[3..]
    ensures Octets(ToSextets(b)) == b && LeftOver(ToSextets(b)) == LeftOver(ToSextets(b[3..]))
  {
    hide Group, Sextet, Octet, LeftOver, Octets, ToSextets;
    var g, y := Group(b[0], b[1], b[2]), ToSextets(b[3..]);
    var x := [Sextet(g, 0), Sextet(g, 1), Sextet(g, 2), Sextet(g, 3)] + y;
    ToSextetsUnfold(b);
    assert x[4..] == y;
    LeftOverOfTail(x);
    OctetsUnfold(x);
    GroupBits(b[0], b[1], b[2]);
    assert Octets(x) == [b[0], b[1], b[2]] + b[3..];
    SplitThree(b);
  }

  lemma SplitThree(b: seq<byte>)
    requires |b| >= 3
    ensures [b[0], b[1], b[2]] + b[3..] == b
  {
  }

  lemma SextetBits(u: nat, v: nat, w: nat, z: nat)
    requires u < 64 && v < 64 && w < 64 && z < 64
    ensures var g := Group(Octet(u, v, 0), Octet(v, w, 1), Octet(w, z, 2));
            Sextet(g, 0) == u && Sextet(g, 1) == v && Sextet(g, 2) == w && Sextet(g, 3) == z
    ensures w % 4 == 0 ==> Octet(w, 0, 2) == 0
    ensures v % 16 == 0 ==> Octet(v, 0, 1) == 0
    ensures Octet(0, 0, 2) == 0
  {
    hide Group, Sextet;
    GroupSextets(Octet(u, v, 0), Octet(v, w, 1), Octet(w, z, 2));
  }

  /** The converse: 6-bit values with nothing left over are those of the octets they decode to. */
  lemma ShortSextets(x: seq<nat>)
    requires AreSextets(x) && |x| in {0, 2, 3} && LeftOver(x) == 0
    ensures ToSextets(Octets(x)) == x
  {
    hide Group, Sextet, Octet;
    if |x| == 2 {
      SextetBits(x[0], x[1], 0, 0);
    } else if |x| == 3 {
      SextetBits(x[0], x[1], x[2], 0);
    }
  }

  lemma {:induction false} SextetsOfOctets(x: seq<nat>)
    requires AreSextets(x) && |x| % 4 != 1 && LeftOver(x) == 0
    ensures ToSextets(Octets(x)) == x
  {
    hide ToSextets, Octets, LeftOver;
    if |x| < 4 {
      ShortSextets(x);
    } else {
      LeftOverOfTail(x);
      assert |x[4..]| % 4 == |x| % 4;
      SextetsOfOctets(x[4..]);
      SextetsOfGroup(x);
    }
  }

  lemma OctetCount(n: nat)
    requires n % 4 != 1
    ensures n * 3 / 4 % 3 == if n % 4 == 0 then 0 else n % 4 - 1
  {
    var q, r := n / 4, n % 4;
    assert n * 3 / 4 == 3 * q + r * 3 / 4;
  }

  lemma SextetsOfGroup(x: seq<nat>)
    requires AreSextets(x) && |x| >= 4 && ToSextets(Octets(x[4..])) == x[4..]
    ensures ToSextets(Octets(x)) == x
  {
    hide Group, Sextet, Octet;
    SextetBits(x[0], x[1], x[2], x[3]);
    OctetsUnfold(x);
    assert Octets(x)[3..] == Octets(x[4..]);
    assert ToSextets(Octets(x)) == [x[0], x[1], x[2], x[3]] + x[4..];
  }

  /** `Encode(b)` stands at the front of `s`, its alphabet part is the whole leading run of `s`, and if it is
      padded no alphabet character follows. */
  predicate IsEncodingAtFront(b: seq<byte>, s: seq<byte>) {
    && Encode(b) <= s
    && |ToSextets(b)| == SymbolRun(s)
    && (|b| % 3 != 0 ==> !IsSymbol(At(s, |Encode(b)|)))
  }

  lemma SymbolsOfValues(s: seq<byte>)
    ensures Symbols(Values(s)) == s[..SymbolRun(s)]
  {
    forall i | 0 <= i < SymbolRun(s) ensures Symbol(Values(s)[i]) == s[i] {
      SymbolInvertsTable(s[i]);
    }
  }

  lemma ValuesOfEncoding(b: seq<byte>, s: seq<byte>)
    requires IsEncodingAtFront(b, s)
    ensures Values(s) == ToSextets(b)
  {
    EncodeShape(b);
    var x := ToSextets(b);
    forall i | 0 <= i < |x| ensures Values(s)[i] == x[i] {
      TableInvertsSymbol(x[i]);
      assert s[i] == Encode(b)[i] == Symbol(x[i]);
    }
  }

  lemma AcceptedIsEncoding(s: seq<byte>)
    requires Accepts(s)
    ensures IsEncodingAtFront(Octets(Values(s)), s)
  {
    hide Group, Sextet, Octet, Symbol, Table, Encode, ToSextets, Octets, SymbolRun;
    var d, k := Octets(Values(s)), SymbolRun(s);
    SextetsOfOctets(Values(s));
    OctetCount(k);
    EncodeShape(d);
    SymbolsOfValues(s);
    assert Encode(d) == s[..k] + Padding(|d|);
    assert s[..k] + Padding(|d|) <= s;
  }

  lemma EncodingIsAccepted(b: seq<byte>, s: seq<byte>)
    ensures IsEncodingAtFront(b, s) ==> Accepts(s) && Octets(Values(s)) == b
  {
    hide Group, Sextet, Octet, Symbol, Table, Encode, ToSextets, Octets, SymbolRun;
    if IsEncodingAtFront(b, s) {
      ValuesOfEncoding(b, s);
      OctetsOfSextets(b);
      EncodeShape(b);
      var k := SymbolRun(s);
      assert forall i :: k <= i < |Encode(b)| ==> At(s, i) == Encode(b)[i] == Padding(|b|)[i - k];
    }
  }

  /** The accepted inputs are exactly those that begin with an encoding, and the decoded octets are the only
      ones whose encoding that is: canonical encoding, section 3.5 of RFC 4648. */
  lemma AcceptsIffCanonical(s: seq<byte>)
    ensures Accepts(s) <==> exists b :: IsEncodingAtFront(b, s)
    ensures Accepts(s) <==> IsEncodingAtFront(Octets(Values(s)), s)
    ensures forall b :: IsEncodingAtFront(b, s) ==> b == Octets(Values(s))
  {
    hide IsEncodingAtFront, Accepts, Octets, Values;
    if Accepts(s) {
      AcceptedIsEncoding(s);
    }
    forall b | IsEncodingAtFront(b, s) ensures b == Octets(Values(s)) && Accepts(s) {
      EncodingIsAccepted(b, s);
    }
  }

  lemma RunOfEncoding(b: seq<byte>)
    ensures SymbolRun(Encode(b)) == |ToSextets(b)|
  {
    hide Group, Sextet, Symbol, Encode, ToSextets, SymbolRun;
    EncodeShape(b);
    var e, k := Encode(b), |ToSextets(b)|;
    forall i | 0 <= i < k ensures IsSymbol(e[i]) {
      TableInvertsSymbol(ToSextets(b)[i]);
    }
    assert k < |e| ==> e[k] == PAD;
    assert !IsSymbol(At(e, k));
  }

  /** The round trip, for every octet string: same octets, flag false. */
  lemma Base64RoundTrip(b: seq<byte>)
    ensures Octets(Values(Encode(b))) == b && Accepts(Encode(b))
  {
    RunOfEncoding(b);
    EncodingIsAccepted(b, Encode(b));
  }
}
