/** The 32-bit register of crc32 read as a polynomial, and the theorems about the code that follow. */
module CrcRegister {
  import opened Words
  import opened Crc
  import opened CrcDivision

  /** The n low bits of a number, low bit first. */
  function Coeffs(c: nat, n: nat): (r: Bits)
    ensures |r| == n
  {
    if n == 0 then [] else [c % 2 != 0] + Coeffs(c / 2, n - 1)
  }

  function Register(c: Word): (r: Bits)
    ensures |r| == 32
  {
    Coeffs(c, WORD_BITS)
  }

  /** The message polynomial: each byte low bit first. */
  function MessageBits(data: seq<Byte>): (m: Bits)
    ensures |m| == 8 * |data|
  {
    if data == [] then [] else MessageBits(data[..|data| - 1]) + Coeffs(data[|data| - 1], BYTE_BITS)
  }

  function Complement(r: Bits): (s: Bits)
    ensures |s| == |r|
  {
    seq(|r|, i requires 0 <= i < |r| => !r[i])
  }

  // Bits of numbers

  lemma XorCons(a: bool, u: Bits, b: bool, v: Bits)
    requires |u| == |v|
    ensures Plus([a] + u, [b] + v) == [a != b] + Plus(u, v)
  {
  }

  lemma {:induction false} CoeffsXor(x: nat, y: nat, n: nat)
    ensures Coeffs(Xor(x, y), n) == Plus(Coeffs(x, n), Coeffs(y, n))
    decreases n
  {
    if n > 0 {
      CoeffsXor(x / 2, y / 2, n - 1);
      XorCons(x % 2 != 0, Coeffs(x / 2, n - 1), y % 2 != 0, Coeffs(y / 2, n - 1));
    }
  }

  lemma {:induction false} CoeffsPad(c: nat, n: nat, m: nat)
    requires c < Pow2(n)
    ensures Coeffs(c, n + m) == Coeffs(c, n) + Zeros(m)
    decreases n + m
  {
    if n > 0 {
      CoeffsPad(c / 2, n - 1, m);
    } else if m > 0 {
      CoeffsPad(0, 0, m - 1);
    }
  }

  lemma {:induction false} CoeffsInjective(x: nat, y: nat, n: nat)
    requires x < Pow2(n) && y < Pow2(n) && Coeffs(x, n) == Coeffs(y, n)
    ensures x == y
    decreases n
  {
    if n > 0 {
      assert Coeffs(x, n)[0] == Coeffs(y, n)[0];
      assert Coeffs(x, n)[1..] == Coeffs(x / 2, n - 1) && Coeffs(y, n)[1..] == Coeffs(y / 2, n - 1);
      CoeffsInjective(x / 2, y / 2, n - 1);
    }
  }

  lemma RegisterHalf(c: Word)
    ensures Register(c / 2) == Register(c)[1..] + [false]
  {
    Pow2Values();
    CoeffsPad(c / 2, 31, 1);
    assert Coeffs(c / 2, WORD_BITS) == Coeffs(c / 2, 31) + [false];
  }

  function Unit(b: bool): nat {
    if b then 1 else 0
  }

  /** The number that a low-bit-first string spells. */
  function Value(bits: Bits): nat {
    if bits == [] then 0 else Unit(bits[0]) + 2 * Value(bits[1..])
  }

  lemma {:induction false} CoeffsOfValue(bits: Bits)
    ensures Coeffs(Value(bits), |bits|) == bits
    decreases |bits|
  {
    if bits != [] {
      CoeffsOfValue(bits[1..]);
    }
  }

  lemma ValueCons(b: bool, rest: Bits)
    ensures Value([b] + rest) == Unit(b) + 2 * Value(rest)
  {
  }

  lemma ValueNibble(a: bool, b: bool, c: bool, d: bool, rest: Bits)
    ensures Value([a, b, c, d] + rest) == Unit(a) + 2 * Unit(b) + 4 * Unit(c) + 8 * Unit(d) + 16 * Value(rest)
  {
    ValueCons(d, rest);
    ValueCons(c, [d] + rest);
    ValueCons(b, [c] + ([d] + rest));
    ValueCons(a, [b] + ([c] + ([d] + rest)));
    assert [a, b, c, d] + rest == [a] + ([b] + ([c] + ([d] + rest)));
  }

  function NibbleAt(s: Bits, i: nat): nat
    requires i + 4 <= |s|
  {
    Unit(s[i]) + 2 * Unit(s[i + 1]) + 4 * Unit(s[i + 2]) + 8 * Unit(s[i + 3])
  }

  lemma DropNibble(s: Bits, i: nat)
    requires i + 4 <= |s|
    ensures Value(s[i..]) == NibbleAt(s, i) + 16 * Value(s[i + 4..])
  {
    ValueNibble(s[i], s[i + 1], s[i + 2], s[i + 3], s[i + 4..]);
    assert s[i..] == [s[i], s[i + 1], s[i + 2], s[i + 3]] + s[i + 4..];
  }

  lemma DropTwoBytes(s: Bits, i: nat)
    requires i + 16 <= |s|
    ensures Value(s[i..]) == NibbleAt(s, i) + 0x10 * NibbleAt(s, i + 4) + 0x100 * NibbleAt(s, i + 8)
                           + 0x1000 * NibbleAt(s, i + 12) + 0x1_0000 * Value(s[i + 16..])
  {
    DropNibble(s, i + 12);
    DropNibble(s, i + 8);
    DropNibble(s, i + 4);
    DropNibble(s, i);
  }

  function TwoBytesAt(s: Bits, i: nat): nat
    requires i + 16 <= |s|
  {
    NibbleAt(s, i) + 0x10 * NibbleAt(s, i + 4) + 0x100 * NibbleAt(s, i + 8) + 0x1000 * NibbleAt(s, i + 12)
  }

  lemma ValueOfWord(s: Bits, i: nat, j: nat)
    requires |s| == 32 && i == 0 && j == 16
    ensures Value(s) == TwoBytesAt(s, i) + 0x1_0000 * TwoBytesAt(s, j)
  {
    DropTwoBytes(s, i);
    DropTwoBytes(s, j);
    assert s[i..] == s && s[j + 16..] == [];
  }

  lemma GeneratorLowBytes()
    ensures TwoBytesAt(GENERATOR, 0) == 0x8320
  {
    assert NibbleAt(GENERATOR, 0) == 0x0 && NibbleAt(GENERATOR, 4) == 0x2;
    assert NibbleAt(GENERATOR, 8) == 0x3 && NibbleAt(GENERATOR, 12) == 0x8;
  }

  lemma GeneratorHighBytes()
    ensures TwoBytesAt(GENERATOR, 16) == 0xedb8
  {
    assert NibbleAt(GENERATOR, 16) == 0x8 && NibbleAt(GENERATOR, 20) == 0xb;
    assert NibbleAt(GENERATOR, 24) == 0xd && NibbleAt(GENERATOR, 28) == 0xe;
  }

  lemma PolynomialIsGenerator()
    ensures Register(POLYNOMIAL) == GENERATOR
  {
    GeneratorLowBytes();
    GeneratorHighBytes();
    ValueOfWord(GENERATOR, 0, 16);
    CoeffsOfValue(GENERATOR);
  }

  lemma {:induction false} ValueOfOnes(n: nat)
    ensures Value(Complement(Zeros(n))) == Pow2(n) - 1
  {
    if n > 0 {
      assert Complement(Zeros(n))[1..] == Complement(Zeros(n - 1));
      ValueOfOnes(n - 1);
    }
  }

  lemma AllOnesRegister()
    ensures Register(ALL_ONES) == Complement(Zeros(32))
  {
    Pow2Values();
    ValueOfOnes(WORD_BITS);
    CoeffsOfValue(Complement(Zeros(WORD_BITS)));
  }

  // The register and the serial divider

  lemma ShiftBitIsClock(c: Word)
    ensures Register(ShiftBit(c)) == Clock(Register(c), false)
  {
    RegisterHalf(c);
    if c % 2 != 0 {
      CoeffsXor(c / 2, POLYNOMIAL, WORD_BITS);
      PolynomialIsGenerator();
    } else {
      XorWithZero(c / 2);
    }
  }

  lemma {:induction false} ShiftBitsIsSerial(c: Word, n: nat)
    ensures Register(ShiftBits(c, n)) == Serial(Register(c), Zeros(n))
    decreases n
  {
    if n > 0 {
      ShiftBitsIsSerial(c, n - 1);
      ShiftBitIsClock(ShiftBits(c, n - 1));
      assert Zeros(n) == Zeros(n - 1) + [false];
      SerialConcat(Register(c), Zeros(n - 1), [false]);
    }
  }

  lemma FeedByteIsSerial(c: Word, b: Byte)
    ensures Register(FeedByte(c, b)) == Serial(Register(c), Coeffs(b, BYTE_BITS))
  {
    ShiftBitsIsSerial(XorWord(c, b), BYTE_BITS);
    CoeffsXor(c, b, WORD_BITS);
    Pow2Values();
    CoeffsPad(b, BYTE_BITS, 24);
    SerialFeedForward(Register(c), Coeffs(b, BYTE_BITS));
  }

  lemma {:induction false} FeedIsSerial(c: Word, data: seq<Byte>)
    ensures Register(Feed(c, data)) == Serial(Register(c), MessageBits(data))
    decreases |data|
  {
    if data != [] {
      var init, last := data[..|data| - 1], data[|data| - 1];
      FeedIsSerial(c, init);
      FeedByteIsSerial(Feed(c, init), last);
      SerialConcat(Register(c), MessageBits(init), Coeffs(last, BYTE_BITS));
    }
  }

  lemma FinalComplement(c: Word)
    ensures Register(XorWord(c, ALL_ONES)) == Complement(Register(c))
  {
    AllOnesRegister();
    CoeffsXor(c, ALL_ONES, WORD_BITS);
    assert Plus(Register(c), Complement(Zeros(32))) == Complement(Register(c));
  }

  /** Section 3.2.9 of IEEE 802.3: complement the first 32 bits, divide by the generator, complement the remainder. */
  lemma Crc32IsPolynomialDivision(data: seq<Byte>)
    ensures Register(Crc32(data)) ==
            Complement(Remainder(Dividend(Complement(Zeros(32)), MessageBits(data))))
  {
    AllOnesRegister();
    FeedIsSerial(ALL_ONES, data);
    SerialIsRemainder(Register(ALL_ONES), MessageBits(data));
    FinalComplement(Feed(ALL_ONES, data));
  }

  // Error detection

  lemma {:induction false} MessageBitsConcat(a: seq<Byte>, b: seq<Byte>)
    ensures MessageBits(a + b) == MessageBits(a) + MessageBits(b)
    decreases |b|
  {
    if b == [] {
      assert a + b == a;
    } else {
      var n := |b| - 1;
      assert (a + b)[..|a + b| - 1] == a + b[..n];
      MessageBitsConcat(a, b[..n]);
    }
  }

  lemma {:induction false} MessageBitsInjective(a: seq<Byte>, b: seq<Byte>)
    requires |a| == |b| && MessageBits(a) == MessageBits(b)
    ensures a == b
    decreases |a|
  {
    if a != [] {
      var n := |a| - 1;
      assert MessageBits(a)[..8 * n] == MessageBits(a[..n]) && MessageBits(b)[..8 * n] == MessageBits(b[..n]);
      assert MessageBits(a)[8 * n..] == Coeffs(a[n], BYTE_BITS) && MessageBits(b)[8 * n..] == Coeffs(b[n], BYTE_BITS);
      MessageBitsInjective(a[..n], b[..n]);
      Pow2Values();
      CoeffsInjective(a[n], b[n], BYTE_BITS);
      assert a == a[..n] + [a[n]] && b == b[..n] + [b[n]];
    }
  }

  lemma FedAfterHead(head: seq<Byte>, u: seq<Byte>, tail: seq<Byte>)
    ensures Register(Feed(ALL_ONES, head + u + tail))
         == Serial(Register(Feed(ALL_ONES, head)), MessageBits(u) + MessageBits(tail))
  {
    assert head + u + tail == head + (u + tail);
    FeedConcat(ALL_ONES, head, u + tail);
    FeedIsSerial(Feed(ALL_ONES, head), u + tail);
    MessageBitsConcat(u, tail);
  }

  /** Messages that differ only within four consecutive bytes have different CRCs, whatever their length. */
  lemma Crc32DetectsBurst(head: seq<Byte>, u: seq<Byte>, v: seq<Byte>, tail: seq<Byte>)
    requires |u| == |v| == 4 && u != v
    ensures Crc32(head + u + tail) != Crc32(head + v + tail)
  {
    var r := Register(Feed(ALL_ONES, head));
    if MessageBits(u) == MessageBits(v) {
      MessageBitsInjective(u, v);
    }
    SerialDetectsBurst(r, MessageBits(u), MessageBits(v), MessageBits(tail));
    FedAfterHead(head, u, tail);
    FedAfterHead(head, v, tail);
    var x, y := Feed(ALL_ONES, head + u + tail), Feed(ALL_ONES, head + v + tail);
    FinalComplement(x);
    FinalComplement(y);
    var i :| 0 <= i < 32 && Register(x)[i] != Register(y)[i];
    assert Complement(Register(x))[i] != Complement(Register(y))[i];
  }
}
