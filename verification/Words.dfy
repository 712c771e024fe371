/** Bytes and unsigned 32-bit words as integers, with the little-endian layout and the bitwise xor used here. */
module Words {

  const BYTE_BITS: nat := 8
  const WORD_BITS: nat := 32
  const MODULUS := 0x1_0000_0000

  type Byte = b: int | 0 <= b < 0x100
  type Word = w: int | 0 <= w < 0x1_0000_0000

  /** Unsigned 32-bit addition and subtraction wrap around. */
  function AddWord(a: Word, b: Word): Word {
    (a + b) % MODULUS
  }

  function SubWord(a: Word, b: Word): Word {
    (a - b) % MODULUS
  }

  function LoadLe32(p: seq<Byte>): Word
    requires |p| >= 4
  {
    (p[0] as int) + 0x100 * (p[1] as int) + 0x1_0000 * (p[2] as int) + 0x100_0000 * (p[3] as int)
  }

  function StoreLe32(v: Word): (p: seq<Byte>)
    ensures |p| == 4
  {
    [v % 0x100, v / 0x100 % 0x100, v / 0x1_0000 % 0x100, v / 0x100_0000 % 0x100]
  }

  lemma LoadOfStore(v: Word)
    ensures LoadLe32(StoreLe32(v)) == v
  {
    LowByte(v);
    LowByte(v / 0x100);
    LowByte(v / 0x1_0000);
    NextBytes(v);
  }

  lemma LowByte(v: nat)
    ensures v == 0x100 * (v / 0x100) + v % 0x100
  {
  }

  lemma NextBytes(v: Word)
    ensures v / 0x1_0000 == v / 0x100 / 0x100 && v / 0x100_0000 == v / 0x1_0000 / 0x100
    ensures v / 0x100_0000 % 0x100 == v / 0x100_0000
  {
  }

  lemma StoreOfLoad(p: seq<Byte>)
    requires |p| == 4
    ensures StoreLe32(LoadLe32(p)) == p
  {
    var high := p[2] as int + 0x100 * (p[3] as int);
    var rest := p[1] as int + 0x100 * high;
    var v := LoadLe32(p);
    assert v == 0x100 * rest + p[0];
    SplitByte(rest, p[0]);
    SplitByte(high, p[1]);
    SplitByte(p[3], p[2]);
    NextBytes(v);
  }

  lemma SplitByte(rest: nat, low: Byte)
    ensures (0x100 * rest + low) / 0x100 == rest && (0x100 * rest + low) % 0x100 == low
  {
  }

  /** Distinct byte quadruples are distinct words. */
  lemma LoadIsInjective(p: seq<Byte>, q: seq<Byte>)
    requires |p| == |q| == 4
    requires LoadLe32(p) == LoadLe32(q)
    ensures p == q
  {
    StoreOfLoad(p);
    StoreOfLoad(q);
  }

  function Pow2(n: nat): (r: nat)
    ensures r > 0
  {
    if n == 0 then 1 else 2 * Pow2(n - 1)
  }

  lemma Pow2Add(m: nat, n: nat)
    ensures Pow2(m + n) == Pow2(m) * Pow2(n)
  {
    if m > 0 {
      Pow2Add(m - 1, n);
    }
  }

  lemma Pow2Values()
    ensures Pow2(BYTE_BITS) == 0x100 && Pow2(WORD_BITS) == MODULUS
  {
    assert Pow2(BYTE_BITS) == 0x100;
    Pow2Add(BYTE_BITS, BYTE_BITS);
    Pow2Add(16, 16);
  }

  /** Bitwise exclusive or. */
  function Xor(x: nat, y: nat): nat
    decreases x + y
  {
    if x == 0 && y == 0 then 0 else (if x % 2 == y % 2 then 0 else 1) + 2 * Xor(x / 2, y / 2)
  }

  lemma {:induction false} XorBound(x: nat, y: nat, n: nat)
    requires x < Pow2(n) && y < Pow2(n)
    ensures Xor(x, y) < Pow2(n)
    decreases n
  {
    if n > 0 {
      XorBound(x / 2, y / 2, n - 1);
    }
  }

  lemma {:induction false} XorWithZero(x: nat)
    ensures Xor(x, 0) == x
  {
    if x > 0 {
      XorWithZero(x / 2);
    }
  }

  function XorWord(x: Word, y: Word): Word {
    Pow2Values();
    XorBound(x, y, WORD_BITS);
    Xor(x, y)
  }

  /** store_le32: the byte at index i is v >> 8i, truncated. */
  method Store(p: array<Byte>, at: nat, v: Word)
    requires at + 4 <= p.Length
    modifies p
    ensures p[..] == old(p[..at]) + StoreLe32(v) + old(p[at + 4..])
  {
    var rest: nat := v;
    for i := 0 to 4
      invariant forall k :: 0 <= k < p.Length && !(at <= k < at + i) ==> p[k] == old(p[k])
      invariant forall k :: 0 <= k < i ==> p[at + k] == StoreLe32(v)[k]
      invariant rest == [v, v / 0x100, v / 0x1_0000, v / 0x100_0000, 0][i]
    {
      p[at + i] := rest % 0x100;
      rest := rest / 0x100;
    }
  }
}
