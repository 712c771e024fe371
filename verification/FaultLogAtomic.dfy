/** What one append can do to the image, whatever befalls its six bus operations. */
module FaultLogAtomic {
  import opened Words
  import opened Crc
  import opened EepromDevice
  import opened FaultLogSpec

  // Writes are local to their slot

  lemma LandedByte(bytes: seq<Byte>, slot: seq<Byte>, base: nat, k: nat, data: seq<Byte>, fate: Fate, i: nat)
    requires |slot| == SLOT_SIZE && base + SLOT_SIZE <= |bytes| && i < SLOT_SIZE && slot[i] == bytes[base + i]
    requires k + |data| <= SLOT_SIZE && |data| % PAGE == 0
    ensures Landed(bytes, base + k, data, fate)[base + i] == Landed(slot, k, data, fate)[i]
  {
    hide Landed, ByteAfter;
    if k <= i < k + |data| {
      LandedInside(bytes, base + k, data, fate, i - k);
      LandedInside(slot, k, data, fate, i - k);
    } else {
      LandedOutside(bytes, base + k, data, fate, base + i);
      LandedOutside(slot, k, data, fate, i);
    }
  }

  lemma LandedInSlot(bytes: seq<Byte>, j: nat, k: nat, data: seq<Byte>, fate: Fate)
    requires |bytes| >= LOG_BYTES && j < SLOT_COUNT && k + |data| <= SLOT_SIZE && |data| % PAGE == 0
    ensures Slot(Landed(bytes, SLOT_SIZE * j + k, data, fate), j) == Landed(Slot(bytes, j), k, data, fate)
  {
    var base, slot := SLOT_SIZE * j, Slot(bytes, j);
    forall i | 0 <= i < SLOT_SIZE
      ensures Landed(bytes, base + k, data, fate)[base + i] == Landed(slot, k, data, fate)[i]
    {
      LandedByte(bytes, slot, base, k, data, fate, i);
    }
  }

  /** Every slot but j, and everything beyond the log, is as before. */
  ghost predicate OnlySlot(before: seq<Byte>, after: seq<Byte>, j: nat)
    requires j < SLOT_COUNT
  {
    && |after| == |before| >= LOG_BYTES
    && (forall i :: 0 <= i < SLOT_COUNT && i != j ==> Slot(after, i) == Slot(before, i))
    && after[LOG_BYTES..] == before[LOG_BYTES..]
  }

  lemma OutsideUnchanged(before: seq<Byte>, after: seq<Byte>, j: nat)
    requires |after| == |before| >= LOG_BYTES && j < SLOT_COUNT
    requires forall i :: 0 <= i < |after| && !(SLOT_SIZE * j <= i < SLOT_SIZE * j + SLOT_SIZE) ==> after[i] == before[i]
    ensures OnlySlot(before, after, j)
  {
  }

  lemma WriteOnlySlot(dev: Device, j: nat, k: nat, data: seq<Byte>)
    requires |dev.bytes| >= LOG_BYTES && j < SLOT_COUNT && k + |data| <= SLOT_SIZE && |data| % PAGE == 0
    ensures var after := Write(dev, SLOT_SIZE * j + k, data).dev.bytes;
            && OnlySlot(dev.bytes, after, j)
            && Slot(after, j) == Landed(Slot(dev.bytes, j), k, data, NextFate(dev, |data|))
  {
    hide Landed, Slot, NextFate, OnlySlot;
    var fate := NextFate(dev, |data|);
    var base := SLOT_SIZE * j;
    var after := Landed(dev.bytes, base + k, data, fate);
    LandedInSlot(dev.bytes, j, k, data, fate);
    forall i | 0 <= i < |after| && !(base <= i < base + SLOT_SIZE) ensures after[i] == dev.bytes[i] {
      LandedOutside(dev.bytes, base + k, data, fate, i);
    }
    OutsideUnchanged(dev.bytes, after, j);
  }

  lemma SlotParts(bytes: seq<Byte>, j: nat)
    requires |bytes| >= LOG_BYTES && j < SLOT_COUNT
    ensures var base := SLOT_SIZE * j;
            && Slot(bytes, j)[24..32] == bytes[base + COMMIT_OFFSET..base + COMMIT_OFFSET + COMMIT_SIZE]
            && Slot(bytes, j)[..BODY_SIZE] == bytes[base..base + BODY_SIZE]
  {
  }

  lemma PrefixPart(a: seq<Byte>, b: seq<Byte>, m: nat, from: nat, to: nat)
    requires from <= to <= m <= |a| && m <= |b| && a[..m] == b[..m]
    ensures a[from..to] == b[from..to]
  {
    assert a[from..to] == a[..m][from..to] && b[from..to] == b[..m][from..to];
  }

  // The three phases on the target slot

  /** A torn token is a token only if it was one before. */
  lemma InvalidateSlot(slot: seq<Byte>, fate: Fate)
    requires |slot| == SLOT_SIZE
    ensures var s := Landed(slot, COMMIT_OFFSET, INVALID, fate);
            && (View(s) == View(slot) || View(s) == None)
            && (s[24..32] == INVALID ==> View(s) == None)
  {
    var s := Landed(slot, COMMIT_OFFSET, INVALID, fate);
    assert s[..24] == slot[..24];
    assert INVALID[0] != COMMITTED[0];
    if s[24..32] == COMMITTED {
      forall i | 24 <= i < 32 ensures s[i] == slot[i] {
        assert s[24..32][i - 24] == COMMITTED[i - 24] != 0;
      }
      assert s == slot;
    }
  }

  lemma ProgramSlot(slot: seq<Byte>, body: seq<Byte>, fate: Fate)
    requires |slot| == SLOT_SIZE && |body| == BODY_SIZE && slot[24..32] == INVALID
    ensures var s := Landed(slot, 0, body, fate);
            s[24..32] == INVALID && View(s) == None
  {
  }

  lemma BodyReadsBack(slot: seq<Byte>, sequence: Word, code: Word)
    requires |slot| == SLOT_SIZE && slot[..BODY_SIZE] == Body(sequence, code)
    ensures View(slot) == if slot[24..32] == COMMITTED then Some(Record(sequence, code)) else None
  {
    var payload := Payload(sequence, code);
    var body := Body(sequence, code);
    assert slot[0..12] == body[0..12] == payload;
    assert slot[0..4] == body[0..4] == MAGIC;
    assert slot[4..8] == body[4..8] == StoreLe32(sequence);
    assert slot[8..12] == body[8..12] == StoreLe32(code);
    assert slot[12..16] == body[12..16] == StoreLe32(Crc32(payload));
    LoadOfStore(sequence);
    LoadOfStore(code);
    LoadOfStore(Crc32(payload));
  }

  lemma PublishSlot(slot: seq<Byte>, sequence: Word, code: Word, fate: Fate)
    requires |slot| == SLOT_SIZE && slot[..BODY_SIZE] == Body(sequence, code)
    ensures var s := Landed(slot, COMMIT_OFFSET, COMMITTED, fate);
            s[..BODY_SIZE] == Body(sequence, code) && (View(s) == None || View(s) == Some(Record(sequence, code)))
  {
    var s := Landed(slot, COMMIT_OFFSET, COMMITTED, fate);
    assert s[..16] == slot[..16];
    BodyReadsBack(s, sequence, code);
  }

  // Append

  /** The slot an append works on ends as it was seen before, unseen, or as the new record; a reported success
      means the new record, and anything else leaves the RAM context unusable until the next scan. */
  ghost predicate Atomic(dev: Device, o: Outcome, log: Log, j: nat, record: Record)
    requires |dev.bytes| >= LOG_BYTES && j < SLOT_COUNT
  {
    && OnlySlot(dev.bytes, o.dev.bytes, j)
    && o.dev.ready == dev.ready
    && View(Slot(o.dev.bytes, j)) in {View(Slot(dev.bytes, j)), None, Some(record)}
    && (o.status == Ok ==> View(Slot(o.dev.bytes, j)) == Some(record))
    && o.log == (if o.status == Ok then Log(log.attached, record.sequence, j, true) else log.(initialized := false))
  }

  lemma PublishIsAtomic(dev: Device, busy: Log, j: nat, record: Record)
    requires |dev.bytes| >= LOG_BYTES && j < SLOT_COUNT && !busy.initialized
    requires Slot(dev.bytes, j)[..BODY_SIZE] == Body(record.sequence, record.code)
    ensures var body := Body(record.sequence, record.code);
            Atomic(dev, Publish(dev, busy, j, record.sequence, body), busy, j, record)
  {
    WriteOnlySlot(dev, j, COMMIT_OFFSET, COMMITTED);
    PublishSlot(Slot(dev.bytes, j), record.sequence, record.code, NextFate(dev, COMMIT_SIZE));
    var w := Write(dev, SLOT_SIZE * j + COMMIT_OFFSET, COMMITTED);
    var r := Read(w.dev, SLOT_SIZE * j, SLOT_SIZE);
    if w.status == Ok && r.status == Ok {
      assert r.data == Slot(w.dev.bytes, j);
      ValidIsVisible(r.data);
    }
  }

  lemma ValidIsVisible(slot: seq<Byte>)
    requires |slot| == SLOT_SIZE
    ensures RecordValid(slot) <==> View(slot) != None
  {
  }

  lemma ProgramIsAtomic(dev: Device, busy: Log, j: nat, record: Record)
    requires |dev.bytes| >= LOG_BYTES && j < SLOT_COUNT && !busy.initialized
    requires Slot(dev.bytes, j)[24..32] == INVALID
    ensures var body := Body(record.sequence, record.code);
            Atomic(dev, Program(dev, busy, j, record.sequence, body), busy, j, record)
  {
    hide Landed, View, NextFate, Slot;
    var body := Body(record.sequence, record.code);
    WriteOnlySlot(dev, j, 0, body);
    ProgramSlot(Slot(dev.bytes, j), body, NextFate(dev, BODY_SIZE));
    var w := Write(dev, SLOT_SIZE * j, body);
    var r := Read(w.dev, SLOT_SIZE * j, BODY_SIZE);
    if w.status == Ok && r.status == Ok && r.data == body {
      SlotParts(w.dev.bytes, j);
      PublishIsAtomic(r.dev, busy, j, record);
    }
  }

  lemma InvalidateIsAtomic(dev: Device, busy: Log, j: nat, record: Record)
    requires |dev.bytes| >= LOG_BYTES && j < SLOT_COUNT && !busy.initialized
    ensures var body := Body(record.sequence, record.code);
            Atomic(dev, Invalidate(dev, busy, j, record.sequence, body), busy, j, record)
  {
    hide Landed, Body, View, NextFate, Slot;
    WriteOnlySlot(dev, j, COMMIT_OFFSET, INVALID);
    InvalidateSlot(Slot(dev.bytes, j), NextFate(dev, COMMIT_SIZE));
    var at := SLOT_SIZE * j + COMMIT_OFFSET;
    var w := Write(dev, at, INVALID);
    var r := Read(w.dev, at, COMMIT_SIZE);
    if w.status == Ok && r.status == Ok && r.data == INVALID {
      SlotParts(w.dev.bytes, j);
      ProgramIsAtomic(r.dev, busy, j, record);
    }
  }

  lemma AppendIsAtomic(dev: Device, log: Log, code: Word)
    requires |dev.bytes| >= LOG_BYTES && Usable(dev, log) == Ok
    ensures Atomic(dev, Append(dev, log, code), log, Target(log), Record(NextSequence(log), code))
  {
    InvalidateIsAtomic(dev, log.(initialized := false), Target(log), Record(NextSequence(log), code));
  }

  lemma QuietWrite(dev: Device, off: nat, data: seq<Byte>)
    requires off + |data| <= |dev.bytes| && |data| % PAGE == 0 && dev.fates == []
    ensures var r := Write(dev, off, data);
            && r.status == Ok && r.dev == dev.(bytes := r.dev.bytes)
            && r.dev.bytes[..off] == dev.bytes[..off] && r.dev.bytes[off..off + |data|] == data
  {
  }

  /** A phase of the append on a device without faults ahead. */
  lemma QuietInvalidate(dev: Device, busy: Log, j: nat, sequence: Word, body: seq<Byte>)
    requires |dev.bytes| >= LOG_BYTES && j < SLOT_COUNT && |body| == BODY_SIZE && dev.fates == []
    ensures var w := Write(dev, SLOT_SIZE * j + COMMIT_OFFSET, INVALID).dev;
            && |w.bytes| == |dev.bytes| && w.fates == []
            && Invalidate(dev, busy, j, sequence, body) == Program(w, busy, j, sequence, body)
  {
    QuietWrite(dev, SLOT_SIZE * j + COMMIT_OFFSET, INVALID);
    hide Write, Program;
  }

  lemma QuietProgram(dev: Device, busy: Log, j: nat, sequence: Word, body: seq<Byte>)
    requires |dev.bytes| >= LOG_BYTES && j < SLOT_COUNT && |body| == BODY_SIZE && dev.fates == []
    ensures var w := Write(dev, SLOT_SIZE * j, body).dev;
            && |w.bytes| == |dev.bytes| && w.fates == [] && Slot(w.bytes, j)[..BODY_SIZE] == body
            && Program(dev, busy, j, sequence, body) == Publish(w, busy, j, sequence, body)
  {
    QuietWrite(dev, SLOT_SIZE * j, body);
    hide Write, Publish;
    var w := Write(dev, SLOT_SIZE * j, body).dev;
    assert Slot(w.bytes, j)[..BODY_SIZE] == w.bytes[SLOT_SIZE * j..SLOT_SIZE * j + BODY_SIZE];
  }

  lemma QuietPublish(dev: Device, busy: Log, j: nat, sequence: Word, code: Word)
    requires |dev.bytes| >= LOG_BYTES && j < SLOT_COUNT && dev.fates == []
    requires Slot(dev.bytes, j)[..BODY_SIZE] == Body(sequence, code)
    ensures var o := Publish(dev, busy, j, sequence, Body(sequence, code)); o.status == Ok && o.dev.fates == []
  {
    hide Body, View, RecordValid;
    var base := SLOT_SIZE * j;
    QuietWrite(dev, base + COMMIT_OFFSET, COMMITTED);
    var w := Write(dev, base + COMMIT_OFFSET, COMMITTED).dev;
    SlotParts(w.bytes, j);
    SlotParts(dev.bytes, j);
    PrefixPart(w.bytes, dev.bytes, base + COMMIT_OFFSET, base, base + BODY_SIZE);
    hide Write;
    BodyReadsBack(Slot(w.bytes, j), sequence, code);
    ValidIsVisible(Slot(w.bytes, j));
  }

  /** With no fault ahead, a usable log accepts the record. */
  lemma FaultFreeAppendSucceeds(dev: Device, log: Log, code: Word)
    requires |dev.bytes| >= LOG_BYTES && Usable(dev, log) == Ok && dev.fates == []
    ensures Append(dev, log, code).status == Ok && Append(dev, log, code).dev.fates == []
  {
    hide Write, Body, View, RecordValid, Usable, Invalidate, Program, Publish, Slot;
    var j, sequence := Target(log), NextSequence(log);
    var busy, body := log.(initialized := false), Body(sequence, code);
    QuietInvalidate(dev, busy, j, sequence, body);
    var w1 := Write(dev, SLOT_SIZE * j + COMMIT_OFFSET, INVALID).dev;
    QuietProgram(w1, busy, j, sequence, body);
    QuietPublish(Write(w1, SLOT_SIZE * j, body).dev, busy, j, sequence, code);
  }
}
