/** CRC-32/ISO-HDLC as the reflected shift register of crc32. */
module Crc {
  import opened Words

  const POLYNOMIAL: Word := 0xedb88320
  const ALL_ONES: Word := 0xffffffff

  function ShiftBit(c: Word): Word {
    XorWord(c / 2, if c % 2 != 0 then POLYNOMIAL else 0)
  }

  function ShiftBits(c: Word, n: nat): Word {
    if n == 0 then c else ShiftBit(ShiftBits(c, n - 1))
  }

  function FeedByte(c: Word, b: Byte): Word {
    ShiftBits(XorWord(c, b), BYTE_BITS)
  }

  function Feed(c: Word, data: seq<Byte>): Word {
    if data == [] then c else FeedByte(Feed(c, data[..|data| - 1]), data[|data| - 1])
  }

  function Crc32(data: seq<Byte>): Word {
    XorWord(Feed(ALL_ONES, data), ALL_ONES)
  }

  /** One byte of crc32: the inner loop. */
  method FeedIn(start: Word, b: Byte) returns (crc: Word)
    ensures crc == FeedByte(start, b)
  {
    crc := XorWord(start, b);
    ghost var mixed := crc;
    for bit := 0 to BYTE_BITS
      invariant crc == ShiftBits(mixed, bit)
    {
      crc := XorWord(crc / 2, if crc % 2 != 0 then POLYNOMIAL else 0);
    }
  }

  /** crc32: the bytes enter the register one at a time. */
  method Compute(p: array<Byte>, size: nat) returns (crc: Word)
    requires size <= p.Length
    ensures crc == Crc32(p[..size])
  {
    crc := ALL_ONES;
    for i := 0 to size
      invariant crc == Feed(ALL_ONES, p[..i])
    {
      crc := FeedIn(crc, p[i]);
      FeedNext(ALL_ONES, p[..], i);
    }
    crc := XorWord(crc, ALL_ONES);
  }

  lemma FeedNext(c: Word, data: seq<Byte>, i: nat)
    requires i < |data|
    ensures Feed(c, data[..i + 1]) == FeedByte(Feed(c, data[..i]), data[i])
  {
    assert data[..i + 1][..i] == data[..i];
  }

  lemma {:induction false} FeedConcat(c: Word, a: seq<Byte>, b: seq<Byte>)
    ensures Feed(c, a + b) == Feed(Feed(c, a), b)
    decreases |b|
  {
    if b == [] {
      assert a + b == a;
    } else {
      var n := |b| - 1;
      assert (a + b)[..|a + b| - 1] == a + b[..n];
      FeedConcat(c, a, b[..n]);
    }
  }
}
