/** A byte-addressed EEPROM whose writes may tear at page granularity, lie about their outcome or fail. */
module EepromDevice {
  import opened Words

  const PAGE := 8

  datatype Errno = EINVAL | EIO | ENODEV | ENOSPC | EILSEQ | ENOENT | BusError(code: int)

  datatype Status = Ok | Err(errno: Errno)

  type Mask = m: seq<bool> | |m| == PAGE witness seq(PAGE, _ => false)

  /** What befalls one bus operation. A write programs `pages` whole pages, then leaves the next page a
      byte-by-byte mix of new (mask true) and old content, and reports `status`, truthfully or not. A read
      either returns the stored bytes or reports `status`. */
  datatype Fate = Fate(pages: nat, mask: Mask, status: Status)

  /** The stored bytes, whether the driver is ready, and the fates of the operations to come (none: fault-free). */
  datatype Device = Device(bytes: seq<Byte>, ready: bool, fates: seq<Fate>)

  datatype ReadResult = ReadResult(dev: Device, status: Status, data: seq<Byte>)

  datatype WriteResult = WriteResult(dev: Device, status: Status)

  function Mixed(prior: seq<Byte>, data: seq<Byte>, mask: Mask): (r: seq<Byte>)
    requires |prior| == |data| == PAGE
    ensures |r| == PAGE
  {
    seq(PAGE, i requires 0 <= i < PAGE => if mask[i] then data[i] else prior[i])
  }

  /** The bytes a write of data at off leaves behind. */
  function Landed(bytes: seq<Byte>, off: nat, data: seq<Byte>, fate: Fate): (r: seq<Byte>)
    requires off + |data| <= |bytes| && |data| % PAGE == 0
    ensures |r| == |bytes|
  {
    var done := PAGE * fate.pages;
    if done >= |data| then bytes[..off] + data + bytes[off + |data|..]
    else
      bytes[..off] + data[..done] + Mixed(bytes[off + done..off + done + PAGE], data[done..done + PAGE], fate.mask)
      + bytes[off + done + PAGE..]
  }

  /** What a write makes of the byte that data[i] is meant to replace: pages that were completed hold the data, the page
      under way is a mix, later pages are as they were. */
  function ByteAfter(prior: Byte, data: seq<Byte>, fate: Fate, i: nat): Byte
    requires i < |data|
  {
    if i / PAGE < fate.pages then data[i]
    else if i / PAGE == fate.pages && fate.mask[i % PAGE] then data[i]
    else prior
  }

  /** The image after a write, byte by byte. */
  ghost predicate LandsByPages(before: seq<Byte>, after: seq<Byte>, off: nat, data: seq<Byte>, fate: Fate) {
    && |after| == |before| && off + |data| <= |before|
    && (forall i :: off <= i < off + |data| ==> after[i] == ByteAfter(before[i], data, fate, i - off))
    && (forall i :: 0 <= i < |before| && !(off <= i < off + |data|) ==> after[i] == before[i])
  }

  lemma LandedInside(bytes: seq<Byte>, off: nat, data: seq<Byte>, fate: Fate, i: nat)
    requires off + |data| <= |bytes| && |data| % PAGE == 0 && i < |data|
    ensures Landed(bytes, off, data, fate)[off + i] == ByteAfter(bytes[off + i], data, fate, i)
  {
    var done := PAGE * fate.pages;
    if i < done {
    } else if i < done + PAGE {
      var at := off + done;
      assert Landed(bytes, off, data, fate)[at + (i - done)]
          == Mixed(bytes[at..at + PAGE], data[done..done + PAGE], fate.mask)[i - done];
      assert i / PAGE == fate.pages && i % PAGE == i - done;
    } else {
      assert Landed(bytes, off, data, fate)[off + i] == bytes[off + done + PAGE..][i - done - PAGE];
    }
  }

  lemma LandedOutside(bytes: seq<Byte>, off: nat, data: seq<Byte>, fate: Fate, i: nat)
    requires off + |data| <= |bytes| && |data| % PAGE == 0
    requires i < |bytes| && !(off <= i < off + |data|)
    ensures Landed(bytes, off, data, fate)[i] == bytes[i]
  {
  }

  /** A write completes its first pages, leaves a mix of old and new bytes in the next one, and touches nothing else. */
  lemma LandedByPages(bytes: seq<Byte>, off: nat, data: seq<Byte>, fate: Fate)
    requires off + |data| <= |bytes| && |data| % PAGE == 0
    ensures LandsByPages(bytes, Landed(bytes, off, data, fate), off, data, fate)
  {
    hide Landed, ByteAfter;
    var after := Landed(bytes, off, data, fate);
    forall i | off <= i < off + |data| ensures after[i] == ByteAfter(bytes[i], data, fate, i - off) {
      LandedInside(bytes, off, data, fate, i - off);
    }
    forall i | 0 <= i < |bytes| && !(off <= i < off + |data|) ensures after[i] == bytes[i] {
      LandedOutside(bytes, off, data, fate, i);
    }
  }

  function NextFate(d: Device, size: nat): Fate {
    if d.fates == [] then Fate(size, seq(PAGE, _ => false), Ok) else d.fates[0]
  }

  function Later(d: Device): seq<Fate> {
    if d.fates == [] then [] else d.fates[1..]
  }

  function Write(d: Device, off: nat, data: seq<Byte>): (r: WriteResult)
    requires off + |data| <= |d.bytes| && |data| % PAGE == 0
    ensures |r.dev.bytes| == |d.bytes| && r.dev.ready == d.ready
  {
    var fate := NextFate(d, |data|);
    WriteResult(d.(bytes := Landed(d.bytes, off, data, fate), fates := Later(d)), fate.status)
  }

  function Read(d: Device, off: nat, n: nat): (r: ReadResult)
    requires off + n <= |d.bytes|
    ensures r.dev.bytes == d.bytes && r.dev.ready == d.ready
    ensures r.status == Ok ==> r.data == d.bytes[off..off + n]
    ensures d.fates == [] ==> r.status == Ok && r.dev == d
  {
    var status := NextFate(d, n).status;
    ReadResult(d.(fates := Later(d)), status, if status == Ok then d.bytes[off..off + n] else [])
  }

  lemma QuietLanding(bytes: seq<Byte>, off: nat, data: seq<Byte>)
    requires off + |data| <= |bytes| && |data| % PAGE == 0
    ensures Landed(bytes, off, data, Fate(|data|, seq(PAGE, _ => false), Ok))[off..off + |data|] == data
  {
  }

  class Eeprom {
    var bytes: seq<Byte>
    var ready: bool
    var fates: seq<Fate>

    ghost function State(): Device
      reads this
    {
      Device(bytes, ready, fates)
    }

    constructor (bytes: seq<Byte>)
      ensures State() == Device(bytes, true, [])
    {
      this.bytes, ready, fates := bytes, true, [];
    }

    method ReadBytes(off: nat, n: nat) returns (status: Status, data: seq<Byte>)
      requires off + n <= |bytes|
      modifies this
      ensures var r := Read(old(State()), off, n);
              State() == r.dev && status == r.status && data == r.data
    {
      status, data := Ok, [];
      if fates != [] {
        status := fates[0].status;
        fates := fates[1..];
      }
      if status == Ok {
        data := bytes[off..off + n];
      }
    }

    method WriteBytes(off: nat, data: seq<Byte>) returns (status: Status)
      requires off + |data| <= |bytes| && |data| % PAGE == 0
      modifies this
      ensures var r := Write(old(State()), off, data);
              State() == r.dev && status == r.status
      ensures var fate := NextFate(old(State()), |data|);
              && LandsByPages(old(bytes), bytes, off, data, fate)
              && (old(fates) == [] ==> bytes[off..off + |data|] == data && status == Ok)
    {
      hide Landed, LandsByPages;
      LandedByPages(bytes, off, data, NextFate(State(), |data|));
      if fates == [] {
        QuietLanding(bytes, off, data);
      }
      var fate := Fate(|data|, seq(PAGE, _ => false), Ok);
      if fates != [] {
        fate := fates[0];
        fates := fates[1..];
      }
      bytes := Landed(bytes, off, data, fate);
      status := fate.status;
    }
  }
}
