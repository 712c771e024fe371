/** The fault log of lab 24 as functions of the EEPROM and the RAM context. */
module FaultLogSpec {
  import opened Words
  import opened Crc
  import opened EepromDevice

  const SLOT_COUNT := 8
  const SLOT_SIZE := 32
  const LOG_BYTES := 256
  const BODY_SIZE := 16
  const COMMIT_OFFSET := 24
  const COMMIT_SIZE := 8
  const NO_SLOT := 255

  const MAGIC: seq<Byte> := [0x46, 0x4c, 0x54, 0x31]
  const COMMITTED: seq<Byte> := [0xa5, 0x5a, 0xc3, 0x3c, 0x96, 0x69, 0xf0, 0x0f]
  const INVALID: seq<Byte> := [0, 0, 0, 0, 0, 0, 0, 0]

  datatype Option<T> = None | Some(value: T)

  datatype Record = Record(sequence: Word, code: Word)

  /** The RAM context; attached says that the device pointer is set. */
  datatype Log = Log(attached: bool, sequence: Word, newest: nat, initialized: bool)

  const CLEARED: Log := Log(false, 0, NO_SLOT, false)

  datatype Outcome = Outcome(dev: Device, log: Log, status: Status)

  datatype LatestOutcome = LatestOutcome(dev: Device, log: Log, status: Status, code: Word)

  function RecordValid(data: seq<Byte>): bool
    requires |data| == SLOT_SIZE
  {
    data[24..32] == COMMITTED && data[0..4] == MAGIC && LoadLe32(data[12..16]) == Crc32(data[0..12])
  }

  /** What recovery sees in a slot. */
  function View(data: seq<Byte>): Option<Record>
    requires |data| == SLOT_SIZE
  {
    if RecordValid(data) then Some(Record(LoadLe32(data[4..8]), LoadLe32(data[8..12]))) else None
  }

  function Slot(bytes: seq<Byte>, j: nat): (s: seq<Byte>)
    requires |bytes| >= LOG_BYTES && j < SLOT_COUNT
    ensures |s| == SLOT_SIZE
  {
    bytes[SLOT_SIZE * j..SLOT_SIZE * j + SLOT_SIZE]
  }

  type Views = v: seq<Option<Record>> | |v| == SLOT_COUNT witness seq(SLOT_COUNT, _ => None)

  function ViewsOf(bytes: seq<Byte>): Views
    requires |bytes| >= LOG_BYTES
  {
    seq(SLOT_COUNT, j requires 0 <= j < SLOT_COUNT => View(Slot(bytes, j)))
  }

  /** Serial number arithmetic, section 3.2 of RFC 1982. */
  predicate Newer(a: Word, b: Word) {
    var delta := SubWord(a, b);
    delta != 0 && delta < 0x8000_0000
  }

  // Recovery

  datatype Cursor = Cursor(newest: nat, sequence: Word)

  function Choose(c: Cursor, slot: nat, view: Option<Record>): Cursor {
    match view
    case None => c
    case Some(r) => if c.newest == NO_SLOT || Newer(r.sequence, c.sequence) then Cursor(slot, r.sequence) else c
  }

  /** The running choice of fault_log_init after the first n slots. */
  function Fold(v: Views, n: nat): (c: Cursor)
    requires n <= SLOT_COUNT
    ensures c.newest == NO_SLOT || (c.newest < n && v[c.newest].Some? && v[c.newest].value.sequence == c.sequence)
  {
    if n == 0 then Cursor(NO_SLOT, 0)
    else Choose(Fold(v, n - 1), n - 1, v[n - 1])
  }

  predicate AgeFits(v: Views, c: Cursor, j: nat)
    requires j < SLOT_COUNT
  {
    v[j].Some? && j != c.newest ==> 1 <= SubWord(c.sequence, v[j].value.sequence) < SLOT_COUNT
  }

  predicate Coherent(v: Views, c: Cursor) {
    forall j :: 0 <= j < SLOT_COUNT ==> AgeFits(v, c, j)
  }

  /** Slots n, n + 1, ... are read in order; the first failing read ends the scan. */
  function ReadFrom(dev: Device, n: nat): (r: (Device, Status))
    requires |dev.bytes| >= LOG_BYTES && n <= SLOT_COUNT
    ensures r.0.bytes == dev.bytes && r.0.ready == dev.ready
    ensures dev.fates == [] ==> r == (dev, Ok)
    decreases SLOT_COUNT - n
  {
    if n == SLOT_COUNT then (dev, Ok)
    else
      var r := Read(dev, SLOT_SIZE * n, SLOT_SIZE);
      if r.status != Ok then (r.dev, r.status) else ReadFrom(r.dev, n + 1)
  }

  function Init(dev: Device): (o: Outcome)
    ensures o.dev.bytes == dev.bytes && o.dev.ready == dev.ready
  {
    if !dev.ready then Outcome(dev, CLEARED, Err(ENODEV))
    else if |dev.bytes| < LOG_BYTES then Outcome(dev, CLEARED, Err(ENOSPC))
    else
      var (after, status) := ReadFrom(dev, 0);
      if status != Ok then Outcome(after, CLEARED, status)
      else
        var v := ViewsOf(dev.bytes);
        var c := Fold(v, SLOT_COUNT);
        if Coherent(v, c) then Outcome(after, Log(true, c.sequence, c.newest, true), Ok)
        else Outcome(after, CLEARED, Err(EILSEQ))
  }

  // Append

  function Usable(dev: Device, log: Log): Status {
    if !log.attached then Err(EINVAL)
    else if !log.initialized then Err(EIO)
    else if log.newest != NO_SLOT && log.newest >= SLOT_COUNT then Err(EINVAL)
    else if dev.ready then Ok else Err(ENODEV)
  }

  function Target(log: Log): (t: nat)
    ensures t < SLOT_COUNT
  {
    if log.newest == NO_SLOT then 0 else (log.newest + 1) % SLOT_COUNT
  }

  function NextSequence(log: Log): Word {
    if log.newest == NO_SLOT then 1 else AddWord(log.sequence, 1)
  }

  function Payload(sequence: Word, code: Word): (p: seq<Byte>)
    ensures |p| == 12
  {
    MAGIC + StoreLe32(sequence) + StoreLe32(code)
  }

  function Body(sequence: Word, code: Word): (b: seq<Byte>)
    ensures |b| == BODY_SIZE
  {
    Payload(sequence, code) + StoreLe32(Crc32(Payload(sequence, code)))
  }

  /** Phase 3: publish the token, then check the whole record. */
  function Publish(dev: Device, busy: Log, target: nat, sequence: Word, body: seq<Byte>): Outcome
    requires |dev.bytes| >= LOG_BYTES && target < SLOT_COUNT && |body| == BODY_SIZE
  {
    var base := SLOT_SIZE * target;
    var w := Write(dev, base + COMMIT_OFFSET, COMMITTED);
    if w.status != Ok then Outcome(w.dev, busy, w.status)
    else
      var r := Read(w.dev, base, SLOT_SIZE);
      if r.status != Ok then Outcome(r.dev, busy, r.status)
      else if !RecordValid(r.data) || r.data[..BODY_SIZE] != body then Outcome(r.dev, busy, Err(EIO))
      else Outcome(r.dev, busy.(sequence := sequence, newest := target, initialized := true), Ok)
  }

  /** Phase 2: program and verify the body, then publish. */
  function Program(dev: Device, busy: Log, target: nat, sequence: Word, body: seq<Byte>): Outcome
    requires |dev.bytes| >= LOG_BYTES && target < SLOT_COUNT && |body| == BODY_SIZE
  {
    var base := SLOT_SIZE * target;
    var w := Write(dev, base, body);
    if w.status != Ok then Outcome(w.dev, busy, w.status)
    else
      var r := Read(w.dev, base, BODY_SIZE);
      if r.status != Ok then Outcome(r.dev, busy, r.status)
      else if r.data != body then Outcome(r.dev, busy, Err(EIO))
      else Publish(r.dev, busy, target, sequence, body)
  }

  /** Phase 1: invalidate and verify the old token, then program. */
  function Invalidate(dev: Device, busy: Log, target: nat, sequence: Word, body: seq<Byte>): Outcome
    requires |dev.bytes| >= LOG_BYTES && target < SLOT_COUNT && |body| == BODY_SIZE
  {
    var at := SLOT_SIZE * target + COMMIT_OFFSET;
    var w := Write(dev, at, INVALID);
    if w.status != Ok then Outcome(w.dev, busy, w.status)
    else
      var r := Read(w.dev, at, COMMIT_SIZE);
      if r.status != Ok then Outcome(r.dev, busy, r.status)
      else if r.data != INVALID then Outcome(r.dev, busy, Err(EIO))
      else Program(r.dev, busy, target, sequence, body)
  }

  function Append(dev: Device, log: Log, code: Word): Outcome
    requires |dev.bytes| >= LOG_BYTES
  {
    var status := Usable(dev, log);
    if status != Ok then Outcome(dev, log, status)
    else
      var sequence := NextSequence(log);
      Invalidate(dev, log.(initialized := false), Target(log), sequence, Body(sequence, code))
  }

  /** The code is meaningful when the status is Ok. */
  function Latest(dev: Device, log: Log): LatestOutcome
    requires |dev.bytes| >= LOG_BYTES
  {
    var status := Usable(dev, log);
    if status != Ok then LatestOutcome(dev, log, status, 0)
    else if log.newest == NO_SLOT then LatestOutcome(dev, log, Err(ENOENT), 0)
    else
      var r := Read(dev, SLOT_SIZE * log.newest, SLOT_SIZE);
      if r.status != Ok then LatestOutcome(r.dev, log, r.status, 0)
      else if !RecordValid(r.data) || LoadLe32(r.data[4..8]) != log.sequence then
        LatestOutcome(r.dev, log.(initialized := false), Err(EILSEQ), 0)
      else LatestOutcome(r.dev, log, Ok, LoadLe32(r.data[8..12]))
  }
}
