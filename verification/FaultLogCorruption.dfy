/** Stored corruption that recovery is bound to notice. */
module FaultLogCorruption {
  import opened Words
  import opened Crc
  import opened CrcRegister
  import opened FaultLogSpec

  /** a and b agree everywhere but in [from, to). */
  ghost predicate AgreeOutside(a: seq<Byte>, b: seq<Byte>, from: nat, to: nat) {
    |a| == |b| && forall i :: 0 <= i < |a| && !(from <= i < to) ==> a[i] == b[i]
  }

  lemma SliceDiffers(a: seq<Byte>, b: seq<Byte>, from: nat, to: nat, i: nat)
    requires |a| == |b| && from <= i < to <= |a| && a[i] != b[i]
    ensures a[from..to] != b[from..to]
  {
  }

  /** Any change within four consecutive bytes of the checksummed payload makes a valid record invalid. */
  lemma PayloadBurstIsDetected(a: seq<Byte>, b: seq<Byte>, from: nat)
    requires |a| == SLOT_SIZE && from + 4 <= 12 && AgreeOutside(a, b, from, from + 4) && a != b
    requires RecordValid(a)
    ensures !RecordValid(b)
  {
    var head, tail := a[..from], a[from + 4..12];
    var u, v := a[from..from + 4], b[from..from + 4];
    assert a[0..12] == head + u + tail;
    assert b[0..12] == head + v + tail;
    var i :| 0 <= i < SLOT_SIZE && a[i] != b[i];
    SliceDiffers(a, b, from, from + 4, i);
    Crc32DetectsBurst(head, u, v, tail);
    assert a[12..16] == b[12..16];
  }

  /** Any change of one byte outside the spare page makes a valid record invalid. */
  lemma ByteChangeIsDetected(a: seq<Byte>, b: seq<Byte>, i: nat)
    requires |a| == SLOT_SIZE && i < SLOT_SIZE && !(16 <= i < 24) && AgreeOutside(a, b, i, i + 1) && a[i] != b[i]
    requires RecordValid(a)
    ensures !RecordValid(b)
  {
    if i < 12 {
      PayloadBurstIsDetected(a, b, if i <= 8 then i else 8);
    } else if i < 16 {
      SliceDiffers(a, b, 12, 16, i);
      assert a[0..12] == b[0..12];
      if LoadLe32(a[12..16]) == LoadLe32(b[12..16]) {
        LoadIsInjective(a[12..16], b[12..16]);
      }
    } else {
      SliceDiffers(a, b, 24, 32, i);
    }
  }

  /** The spare page carries nothing. */
  lemma SparePageIsIgnored(a: seq<Byte>, b: seq<Byte>)
    requires |a| == SLOT_SIZE && AgreeOutside(a, b, 16, 24)
    ensures View(a) == View(b)
  {
    assert a[24..32] == b[24..32] && a[0..4] == b[0..4] && a[4..8] == b[4..8];
    assert a[8..12] == b[8..12] && a[12..16] == b[12..16] && a[0..12] == b[0..12];
  }
}
