/** Bytes, C-string reads, white space and decimal numerals: what every other module shares. */
module Bytes {

  /** One element of a C++ `std::string`, as an unsigned value. */
  newtype byte = x: int | 0 <= x < 256

  const NUL: byte := 0
  const TAB: byte := 9
  const LF: byte := 10
  const CR: byte := 13
  const SPACE: byte := 32
  const QUOTE: byte := 34
  const HASH: byte := 35
  const PERCENT: byte := 37
  const STAR: byte := 42
  const PLUS: byte := 43
  const COMMA: byte := 44
  const MINUS: byte := 45
  const DOT: byte := 46
  const SLASH: byte := 47
  const ZERO: byte := 48
  const NINE: byte := 57
  const COLON: byte := 58
  const LBRACKET: byte := 91
  const BACKSLASH: byte := 92
  const RBRACKET: byte := 93
  const LBRACE: byte := 123
  const RBRACE: byte := 125

  datatype Option<+T> = None | Some(value: T)

  /** The bytes of a literal text. */
  function Ascii(s: string): (r: seq<byte>)
    ensures |r| == |s|
    ensures forall i :: 0 <= i < |s| ==> r[i] as int == s[i] as int % 256
  {
    seq(|s|, i requires 0 <= i < |s| => (s[i] as int % 256) as byte)
  }

  /** Reading through a `const char*`: past the last byte there is the terminator. */
  function At(s: seq<byte>, i: nat): byte {
    if i < |s| then s[i] else NUL
  }

  /** `std::isspace` in the C locale. */
  predicate IsSpace(c: byte) {
    c == SPACE || 9 <= c <= 13
  }

  predicate IsDigit(c: byte) {
    ZERO <= c <= NINE
  }

  predicate AllSpace(s: seq<byte>) {
    forall i :: 0 <= i < |s| ==> IsSpace(s[i])
  }

  predicate AllDigits(s: seq<byte>) {
    forall i :: 0 <= i < |s| ==> IsDigit(s[i])
  }

  /** What is left after the leading white space. */
  function Skip(s: seq<byte>): (r: seq<byte>)
    ensures |r| <= |s|
    ensures r != [] ==> !IsSpace(r[0])
    ensures s != [] && !IsSpace(s[0]) ==> r == s
  {
    if s != [] && IsSpace(s[0]) then Skip(s[1..]) else s
  }

  lemma {:induction false} SkipOver(w: seq<byte>, s: seq<byte>)
    requires AllSpace(w)
    ensures Skip(w + s) == Skip(s)
  {
    if w == [] {
      assert w + s == s;
    } else {
      assert (w + s)[1..] == w[1..] + s;
      SkipOver(w[1..], s);
    }
  }

  /** The longest prefix made of decimal digits, as a length. */
  function DigitRun(s: seq<byte>): (n: nat)
    ensures n <= |s|
    ensures forall i :: 0 <= i < n ==> IsDigit(s[i])
    ensures n < |s| ==> !IsDigit(s[n])
  {
    if s != [] && IsDigit(s[0]) then 1 + DigitRun(s[1..]) else 0
  }

  predicate StartsWithDigit(s: seq<byte>) {
    s != [] && IsDigit(s[0])
  }

  lemma {:induction false} DigitRunOf(ds: seq<byte>, rest: seq<byte>)
    requires AllDigits(ds) && !StartsWithDigit(rest)
    ensures DigitRun(ds + rest) == |ds|
  {
    assert forall i :: 0 <= i < |ds| ==> IsDigit((ds + rest)[i]);
    assert rest != [] ==> (ds + rest)[|ds|] == rest[0];
  }

  /** The number a run of decimal digits denotes. */
  function DigitsValue(ds: seq<byte>): (n: nat)
    requires AllDigits(ds)
  {
    if ds == [] then 0
    else 10 * DigitsValue(ds[..|ds| - 1]) + (ds[|ds| - 1] as int - 48)
  }

  function DigitByte(d: nat): (c: byte)
    requires d < 10
    ensures IsDigit(c) && c as int == 48 + d
  {
    (48 + d) as byte
  }

  /** The shortest decimal numeral of `n`, as an output stream prints it. */
  function Digits(n: nat): (ds: seq<byte>)
    ensures |ds| >= 1 && AllDigits(ds)
    ensures n > 0 ==> ds[0] != ZERO
  {
    if n < 10 then [DigitByte(n)] else Digits(n / 10) + [DigitByte(n % 10)]
  }

  lemma {:induction false} DigitsRoundTrip(n: nat)
    ensures DigitsValue(Digits(n)) == n
  {
    if n < 10 {
      assert Digits(n)[..0] == [];
    } else {
      DigitsRoundTrip(n / 10);
      assert Digits(n)[..|Digits(n)| - 1] == Digits(n / 10);
    }
  }

  function Pow10(k: nat): (p: nat)
    ensures p >= 1
  {
    if k == 0 then 1 else 10 * Pow10(k - 1)
  }

  /** Exactly `k` digits, zero filled on the left. */
  function Padded(n: nat, k: nat): (ds: seq<byte>)
    ensures |ds| == k && AllDigits(ds)
  {
    if k == 0 then [] else Padded(n / 10, k - 1) + [DigitByte(n % 10)]
  }

  lemma {:induction false} PaddedRoundTrip(n: nat, k: nat)
    requires n < Pow10(k)
    ensures DigitsValue(Padded(n, k)) == n
  {
    if k > 0 {
      PaddedRoundTrip(n / 10, k - 1);
      assert Padded(n, k)[..k - 1] == Padded(n / 10, k - 1);
    }
  }

  /** A signed decimal numeral. */
  function Decimal(n: int): (ds: seq<byte>)
    ensures |ds| >= 1
  {
    if n < 0 then [MINUS] + Digits(-n) else Digits(n)
  }

  lemma SliceOver(a: seq<byte>, b: seq<byte>)
    ensures (a + b)[..|a|] == a && (a + b)[|a|..] == b
  {
  }

  lemma Assoc(a: seq<byte>, b: seq<byte>, c: seq<byte>)
    ensures (a + b) + c == a + (b + c)
  {
  }

  lemma Assoc4(a: seq<byte>, b: seq<byte>, c: seq<byte>, d: seq<byte>)
    ensures a + b + c + d == a + (b + (c + d))
  {
  }

  lemma Assoc6(a: seq<byte>, b: seq<byte>, c: seq<byte>, d: seq<byte>, e: seq<byte>, f: seq<byte>)
    ensures a + b + c + d + e + f == a + (b + (c + (d + (e + f))))
  {
  }

  lemma Assoc3(o: seq<byte>, a: seq<byte>, b: seq<byte>, c: seq<byte>)
    ensures o + a + b + c == o + (a + b + c)
  {
  }

  lemma Assoc5(o: seq<byte>, a: seq<byte>, b: seq<byte>, c: seq<byte>, d: seq<byte>, e: seq<byte>)
    ensures o + a + b + c + d + e == o + (a + b + c + d + e)
  {
  }

  // ---------------------------------------------------------------- division

  lemma DivMod(n: nat, d: nat, q: nat, r: nat)
    requires r < d && n == q * d + r
    ensures n / d == q && n % d == r
  {
    var k := n / d - q;
    assert n == n / d * d + n % d;
    assert k * d == n / d * d - q * d;
    MultipleIsLarge(k, d);
  }

  lemma MultipleIsLarge(k: int, d: nat)
    ensures k >= 1 ==> k * d >= d
    ensures k <= -1 ==> k * d <= 0 - d
  {
    if k >= 1 {
      assert k * d == d + (k - 1) * d;
    } else if k <= -1 {
      assert k * d == (k + 1) * d - d;
    }
  }

  // ---------------------------------------------------------------- in characters

  const DECIMALS: string := "0123456789"
  const UPPER: string := "ABCDEFGHIJKLMNOPQRSTUVWXYZ"
  const LOWER: string := "abcdefghijklmnopqrstuvwxyz"

  lemma UpperCode(i: nat)
    requires i < 26
    ensures UPPER[i] as int == 65 + i
  {
  }

  lemma LowerCode(i: nat)
    requires i < 26
    ensures LOWER[i] as int == 97 + i
  {
  }

  /** The characters behind the names above. */
  lemma CodesOfCharacters()
    ensures [TAB, LF, CR, SPACE] == Ascii("\t\n\r ")
    ensures [QUOTE, HASH, PERCENT, STAR, PLUS, COMMA, MINUS, DOT, SLASH] == Ascii("\"#%*+,-./")
    ensures [ZERO, NINE, COLON, LBRACKET, BACKSLASH, RBRACKET, LBRACE, RBRACE] == Ascii("09:[\\]{}")
  {
  }

  /** White space is tab, line feed, vertical tab, form feed, carriage return and the space. */
  lemma SpaceCharacters(c: byte)
    ensures IsSpace(c) <==> c in Ascii("\t\n\U{000B}\U{000C}\r ")
  {
    var w := Ascii("\t\n\U{000B}\U{000C}\r ");
    assert w == [9, 10, 11, 12, 13, 32];
  }

  lemma DigitCharacter(d: nat)
    requires d < 10
    ensures DigitByte(d) as int == DECIMALS[d] as int
  {
  }

  lemma {:induction false} DigitByteAt(n: nat, k: nat)
    requires k < |Digits(n)|
    ensures Digits(n)[|Digits(n)| - 1 - k] == DigitByte(n / Pow10(k) % 10)
    decreases k
  {
    hide Digits, DigitByte, Pow10;
    DigitsUnfold(n);
    PowerSteps(n, k);
    if k > 0 {
      DigitByteAt(n / 10, k - 1);
    }
  }

  lemma PowerSteps(n: nat, k: nat)
    ensures k == 0 ==> n / Pow10(k) == n
    ensures k > 0 ==> n / 10 / Pow10(k - 1) == n / Pow10(k)
  {
    if k > 0 {
      TenthOf(n, Pow10(k - 1));
    }
  }

  /** The digit that counts the `k`-th power of ten, from the right. */
  lemma DigitAt(n: nat, k: nat)
    requires k < |Digits(n)|
    ensures Digits(n)[|Digits(n)| - 1 - k] as int == DECIMALS[n / Pow10(k) % 10] as int
  {
    hide Digits, Pow10;
    DigitByteAt(n, k);
    DigitCharacter(n / Pow10(k) % 10);
  }

  lemma DigitsUnfold(n: nat)
    ensures n < 10 ==> Digits(n) == [DigitByte(n)]
    ensures n >= 10 ==> Digits(n) == Digits(n / 10) + [DigitByte(n % 10)]
  {
  }

  lemma TenthOf(n: nat, p: nat)
    requires p >= 1
    ensures n / 10 / p == n / (10 * p)
  {
    var q, r, t := n / 10 / p, n / 10 % p, n % 10;
    assert n / 10 == p * q + r;
    assert n == 10 * (p * q + r) + t;
    assert 10 * (p * q) == q * (10 * p);
    DivMod(n, 10 * p, q, 10 * r + t);
  }

  /** Zeros in front do not count. */
  lemma {:induction false} LeadingZero(ds: seq<byte>)
    requires AllDigits(ds)
    ensures DigitsValue([ZERO] + ds) == DigitsValue(ds)
  {
    if ds == [] {
      assert ([ZERO] + ds)[..0] == [];
    } else {
      var init := ds[..|ds| - 1];
      LeadingZero(init);
      assert ([ZERO] + ds)[..|ds|] == [ZERO] + init;
    }
  }
}
