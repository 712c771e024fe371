/** What the fault log answers call by call, and that it comes back to service after any faults. */
module FaultLogService {
  import opened Words
  import opened Crc
  import opened EepromDevice
  import opened FaultLogSpec
  import opened FaultLogAtomic
  import opened FaultLogRecovery
  import opened FaultLogRuns

  // Refusals

  /** A context without a device, without a scan or with a slot that is none is refused, and so is a device that is not
      ready; nothing is touched then. Otherwise the call goes on to the device. */
  lemma RefusalsAreExact(dev: Device, log: Log, code: Word)
    requires |dev.bytes| >= LOG_BYTES
    ensures var refusal :=
              if !log.attached then Err(EINVAL) else if !log.initialized then Err(EIO)
              else if 8 <= log.newest && log.newest != 255 then Err(EINVAL) else if !dev.ready then Err(ENODEV) else Ok;
            && Usable(dev, log) == refusal
            && (refusal != Ok ==>
                  && Append(dev, log, code) == Outcome(dev, log, refusal)
                  && Latest(dev, log) == LatestOutcome(dev, log, refusal, 0))
  {
  }

  // Scanning with faults

  predicate Failing(dev: Device, k: nat) {
    k < |dev.fates| && dev.fates[k].status != Ok
  }

  /** The k-th access of the device is the first to fail. */
  ghost predicate FirstFailure(dev: Device, k: nat) {
    Failing(dev, k) && forall i :: 0 <= i < k ==> !Failing(dev, i)
  }

  lemma {:induction false} ReadsUntilFailure(dev: Device, n: nat, k: nat)
    requires |dev.bytes| >= LOG_BYTES && n <= SLOT_COUNT
    ensures FirstFailure(dev, k) && k < SLOT_COUNT - n ==> ReadFrom(dev, n).1 == dev.fates[k].status
    ensures (forall i :: 0 <= i < SLOT_COUNT - n ==> !Failing(dev, i)) ==> ReadFrom(dev, n).1 == Ok
    decreases SLOT_COUNT - n
  {
    if n < SLOT_COUNT {
      var r := Read(dev, SLOT_SIZE * n, SLOT_SIZE);
      FirstRead(dev, SLOT_SIZE * n);
      hide Failing, Read;
      if !Failing(dev, 0) {
        forall i: nat ensures Failing(r.dev, i) <==> Failing(dev, i + 1) {
          NextRead(dev, SLOT_SIZE * n, i);
        }
        ReadsUntilFailure(r.dev, n + 1, if k > 0 then k - 1 else 0);
      }
    }
  }

  lemma FirstRead(dev: Device, at: nat)
    requires at + SLOT_SIZE <= |dev.bytes|
    ensures var r := Read(dev, at, SLOT_SIZE);
            if Failing(dev, 0) then r.status == dev.fates[0].status != Ok else r.status == Ok
  {
  }

  lemma NextRead(dev: Device, at: nat, i: nat)
    requires at + SLOT_SIZE <= |dev.bytes|
    ensures var d := Read(dev, at, SLOT_SIZE).dev;
            && (Failing(d, i) <==> Failing(dev, i + 1))
            && (Failing(d, i) ==> d.fates[i] == dev.fates[i + 1])
  {
  }

  /** A scan fails with the status of the first read that fails and leaves the context cleared; if none of its eight
      reads fails it answers as on a device without faults. */
  lemma ScanReportsFirstFailure(dev: Device, k: nat)
    ensures !dev.ready ==> Init(dev) == Outcome(dev, CLEARED, Err(ENODEV))
    ensures dev.ready && |dev.bytes| < 256 ==> Init(dev) == Outcome(dev, CLEARED, Err(ENOSPC))
    ensures dev.ready && |dev.bytes| >= 256 && FirstFailure(dev, k) && k < 8 ==>
              Init(dev).status == dev.fates[k].status && Init(dev).log == CLEARED
    ensures dev.ready && |dev.bytes| >= 256 && (forall i :: 0 <= i < 8 ==> !Failing(dev, i)) ==>
              var quiet := Init(Device(dev.bytes, true, []));
              Init(dev).status == quiet.status && Init(dev).log == quiet.log
  {
    hide ViewsOf, Fold, Coherent, ReadFrom;
    if |dev.bytes| >= LOG_BYTES {
      ReadsUntilFailure(dev, 0, k);
    }
  }

  // The latest record with faults

  /** On a log that stands for a history: nothing to report on an empty one, the status of a read that fails, and
      otherwise the last code; the context stays as it was. */
  lemma LatestIsExact(w: World, h: History)
    requires Consistent(w, h) && w.log.initialized && w.dev.ready
    ensures var l := Latest(w.dev, w.log);
            && l.log == w.log && l.dev.bytes == w.dev.bytes
            && (if h == [] then l.status == Err(ENOENT)
                else if Failing(w.dev, 0) then l.status == w.dev.fates[0].status
                else l.status == Ok && l.code == h[|h| - 1])
  {
    hide ViewsOf, View, Stores, Consistent;
    ConsistentContext(w, h);
    if h != [] {
      var j := (|h| - 1) % SLOT_COUNT;
      LastRecordIsVisible(w, h);
      VisibleRecord(Slot(w.dev.bytes, j), SequenceOf(|h|), h[|h| - 1]);
    }
  }

  lemma ConsistentContext(w: World, h: History)
    requires Consistent(w, h) && w.log.initialized
    ensures w.log == LogOf(h) && |w.dev.bytes| >= LOG_BYTES
  {
  }

  lemma LastRecordIsVisible(w: World, h: History)
    requires Consistent(w, h) && h != []
    ensures View(Slot(w.dev.bytes, (|h| - 1) % SLOT_COUNT)) == Some(Record(SequenceOf(|h|), h[|h| - 1]))
  {
    hide View;
    StoredIsRecoverable(ViewsOf(w.dev.bytes), h);
  }

  lemma VisibleRecord(slot: seq<Byte>, sequence: Word, code: Word)
    requires |slot| == SLOT_SIZE && View(slot) == Some(Record(sequence, code))
    ensures RecordValid(slot) && LoadLe32(slot[4..8]) == sequence && LoadLe32(slot[8..12]) == code
  {
  }

  /** The latest record is checked against the context: unless the newest slot is a valid record with the sequence
      number that the context remembers, the answer is an error and the context is lost. */
  lemma LatestChecksRecord(dev: Device, log: Log)
    requires |dev.bytes| >= LOG_BYTES && log.attached && log.initialized && dev.ready && log.newest < 8
    requires !Failing(dev, 0)
    ensures var l := Latest(dev, log); var view := View(Slot(dev.bytes, log.newest));
            if view.Some? && view.value.sequence == log.sequence then
              l.status == Ok && l.code == view.value.code && l.log == log
            else l.status == Err(EILSEQ) && !l.log.initialized
  {
    FirstRead(dev, SLOT_SIZE * log.newest);
    SlotIsRead(dev, log.newest);
    hide RecordValid, LoadLe32, Read, Failing;
  }

  lemma SlotIsRead(dev: Device, j: nat)
    requires |dev.bytes| >= LOG_BYTES && j < SLOT_COUNT && Read(dev, SLOT_SIZE * j, SLOT_SIZE).status == Ok
    ensures Read(dev, SLOT_SIZE * j, SLOT_SIZE).data == Slot(dev.bytes, j)
  {
  }

  /** A sequence number is newer than another if it lies less than half the circle ahead of it. */
  lemma NewerIsAhead(a: Word, b: Word)
    ensures Newer(a, b) <==> exists d :: 0 < d < 0x8000_0000 && a == AddWord(b, d)
  {
    if Newer(a, b) {
      assert a == AddWord(b, SubWord(a, b));
    }
    if d :| 0 < d < 0x8000_0000 && a == AddWord(b, d) {
      assert SubWord(a, b) == d;
    }
  }

  // The bytes of a record

  /** A 32-bit word, least significant byte first. */
  function Little(v: Word): seq<Byte> {
    [v % 0x100, (v / 0x100) % 0x100, (v / 0x1_0000) % 0x100, v / 0x100_0000]
  }

  /** Magic, sequence number, code and CRC in the first sixteen bytes, the commit token in the last eight. */
  predicate Formatted(slot: seq<Byte>, sequence: Word, code: Word) {
    && |slot| == 32
    && slot[..4] == [0x46, 0x4C, 0x54, 0x31] && slot[4..8] == Little(sequence) && slot[8..12] == Little(code)
    && slot[12..16] == Little(Crc32(slot[..12]))
    && slot[24..] == [0xA5, 0x5A, 0xC3, 0x3C, 0x96, 0x69, 0xF0, 0x0F]
  }

  /** What recovery sees in a slot is what the format says. */
  lemma ViewIsFormat(slot: seq<Byte>, sequence: Word, code: Word)
    requires |slot| == SLOT_SIZE
    ensures View(slot) == Some(Record(sequence, code)) <==> Formatted(slot, sequence, code)
  {
    LoadsAsLittle(slot[4..8], sequence);
    LoadsAsLittle(slot[8..12], code);
    LoadsAsLittle(slot[12..16], Crc32(slot[..12]));
    assert slot[0..12] == slot[..12] && slot[24..32] == slot[24..] && slot[0..4] == slot[..4];
  }

  lemma LoadsAsLittle(p: seq<Byte>, v: Word)
    requires |p| == 4
    ensures LoadLe32(p) == v <==> p == Little(v)
  {
    StoreOfLoad(p);
    LoadOfStore(v);
  }

  /** An append that reports success, whatever happened on the way, has left exactly the record in its slot. */
  lemma SuccessIsFormatted(dev: Device, log: Log, code: Word)
    requires |dev.bytes| >= LOG_BYTES && Append(dev, log, code).status == Ok
    ensures var o := Append(dev, log, code);
            && o.log.newest < 8 && o.log.initialized
            && Formatted(o.dev.bytes[32 * o.log.newest..32 * o.log.newest + 32], o.log.sequence, code)
            && (log.newest == 255 ==> o.log.newest == 0 && o.log.sequence == 1)
            && (log.newest != 255 ==>
                  o.log.newest == (log.newest + 1) % 8 && o.log.sequence == (log.sequence + 1) % 0x1_0000_0000)
  {
    hide Invalidate, View, Formatted, Body;
    AppendIsAtomic(dev, log, code);
    var j := Target(log);
    ViewIsFormat(Slot(Append(dev, log, code).dev.bytes, j), NextSequence(log), code);
  }

  // Back to service

  /** Power comes back, the bus works, and the log is scanned. */
  function Restart(w: World): World
    requires |w.dev.bytes| >= LOG_BYTES
  {
    Step(Step(Step(Step(w, PowerCycle), Fates([])), SetReady(true)), InitCall)
  }

  /** From any state that a run can reach: after a restart the next append succeeds, and its code is the latest. */
  lemma ServiceIsRestored(w: World, events: seq<Event>, code: Word)
    requires |w.dev.bytes| >= LOG_BYTES && NoneValid(ViewsOf(w.dev.bytes)) && !w.log.initialized
    ensures var up := Restart(Run(w, events));
            && up.log.initialized && |up.dev.bytes| >= LOG_BYTES
            && var o := Append(up.dev, up.log, code);
               && o.status == Ok && |o.dev.bytes| >= LOG_BYTES
               && Latest(o.dev, o.log).status == Ok && Latest(o.dev, o.log).code == code
  {
    hide Run, Explains, Consistent, Attempts;
    var h := RunIsConsistent(w, events);
    RestartServes(Run(w, events), h, code);
  }

  lemma RestartServes(w: World, h: History, code: Word)
    requires Consistent(w, h)
    ensures var up := Restart(w);
            && up.log == LogOf(h) && up.dev == Device(w.dev.bytes, true, []) && |up.dev.bytes| >= LOG_BYTES
            && var o := Append(up.dev, up.log, code);
               && o.status == Ok && |o.dev.bytes| >= LOG_BYTES
               && Latest(o.dev, o.log).status == Ok && Latest(o.dev, o.log).code == code
  {
    hide Init, Append, Latest, ViewsOf, Stores;
    var quiet := Device(w.dev.bytes, true, []);
    RecoveredLog(quiet, h);
    var up := Restart(w);
    assert up == World(quiet, LogOf(h));
    assert Consistent(up, h);
    RefusalsAreExact(quiet, up.log, code);
    FaultFreeAppendSucceeds(quiet, up.log, code);
    var h' := AppendIsConsistent(up, h, code);
    assert AttemptOf(up, code) == Succeeded(code);
    var after := Step(up, AppendCall(code));
    SuccessIsFormatted(quiet, up.log, code);
    AppendKeepsReady(quiet, up.log, code);
    LatestIsExact(after, h');
  }

  lemma AppendKeepsReady(dev: Device, log: Log, code: Word)
    requires |dev.bytes| >= LOG_BYTES && Usable(dev, log) == Ok && dev.fates == []
    ensures Append(dev, log, code).dev.ready == dev.ready && Append(dev, log, code).dev.fates == []
  {
    hide Append;
    AppendIsAtomic(dev, log, code);
    FaultFreeAppendSucceeds(dev, log, code);
  }

  /** An image of equal bytes, as an erased device has it, holds no record. */
  lemma ErasedHoldsNothing(bytes: seq<Byte>)
    requires |bytes| >= LOG_BYTES && forall i :: 0 <= i < |bytes| ==> bytes[i] == bytes[0]
    ensures NoneValid(ViewsOf(bytes))
  {
    forall j | 0 <= j < SLOT_COUNT ensures View(Slot(bytes, j)) == None {
      assert Slot(bytes, j)[24] == Slot(bytes, j)[25];
    }
  }
}
