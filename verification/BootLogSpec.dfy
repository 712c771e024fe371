/** The append-only boot log in flash (lab 23) as functions of the flash and of a handle. */
module BootLogSpec {
  import opened Words

  const RECORD_SIZE := 16
  const OFF_MAX := 0x7FFFFFFF

  datatype Code = EINVAL | ENODEV | ENOTSUP | EILSEQ | ENOSPC | EEXIST | EIO | ENOENT | EDRIVER

  datatype Status = Ok | Err(code: Code)

  /** What becomes of one flash access: whether the driver reports an error, and what a write leaves in its slot. */
  datatype Fate = Fate(failed: bool, landed: seq<Byte>)

  /** Fates are used up by the accesses in order; an access without one works. */
  datatype Flash = Flash(bytes: seq<Byte>, erased: Byte, ready: bool, block: nat, described: bool, fates: seq<Fate>)

  datatype Log = Log(dev: bool, base: nat, size: nat, next: nat, erased: Byte, initialized: bool)

  const CLEARED := Log(false, 0, 0, 0, 0, false)

  type Slot = s: seq<Byte> | |s| == RECORD_SIZE witness seq(RECORD_SIZE, _ => 0)

  // Flash accesses of one slot

  function Rest(f: Flash): Flash {
    if f.fates == [] then f else f.(fates := f.fates[1..])
  }

  predicate Fails(f: Flash) {
    f.fates != [] && f.fates[0].failed
  }

  predicate InRange(f: Flash, at: nat) {
    at + RECORD_SIZE <= |f.bytes|
  }

  /** flash_read: the true bytes or an error. */
  function Read(f: Flash, at: nat): (r: (Flash, Status, seq<Byte>))
    ensures r.1 == Ok ==> |r.2| == RECORD_SIZE
  {
    if !InRange(f, at) || Fails(f) then (Rest(f), Err(EDRIVER), [])
    else (Rest(f), Ok, f.bytes[at..at + RECORD_SIZE])
  }

  function Landing(f: Flash, record: Slot): Slot {
    if f.fates == [] || |f.fates[0].landed| != RECORD_SIZE then record else f.fates[0].landed
  }

  /** flash_write: the slot ends up with anything at all, whatever the driver reports. */
  function Write(f: Flash, at: nat, record: Slot): (Flash, Status) {
    if !InRange(f, at) then (Rest(f), Err(EDRIVER))
    else
      (Rest(f).(bytes := f.bytes[..at] + Landing(f, record) + f.bytes[at + RECORD_SIZE..]),
       if Fails(f) then Err(EDRIVER) else Ok)
  }

  predicate IsErased(data: seq<Byte>, erased: Byte) {
    forall i :: 0 <= i < |data| ==> data[i] == erased
  }

  function Offset(log: Log, index: nat): nat {
    log.base + index * RECORD_SIZE
  }

  function Capacity(log: Log): nat {
    log.size / RECORD_SIZE
  }

  // boot_log_init

  function CheckRegion(f: Flash, present: bool, base: int, size: nat): Status {
    if !present || base < 0 || size < RECORD_SIZE || size % RECORD_SIZE != 0 then Err(EINVAL)
    else if base > OFF_MAX || size > OFF_MAX - base then Err(EINVAL)
    else if !f.ready then Err(ENODEV)
    else if f.block == 0 || RECORD_SIZE % f.block != 0 || base % f.block != 0 then Err(ENOTSUP)
    else if !f.described then Err(ENOTSUP)
    else Ok
  }

  datatype Outcome = Outcome(flash: Flash, log: Log, status: Status)

  function Scan(f: Flash, log: Log, index: nat, foundEmpty: bool): Outcome
    decreases Capacity(log) - index
  {
    if index >= Capacity(log) then Outcome(f, log.(initialized := true), Ok)
    else
      var (g, rc, data) := Read(f, Offset(log, index));
      if rc != Ok then Outcome(g, log, rc)
      else if IsErased(data, log.erased) then Scan(g, log, index + 1, true)
      else if foundEmpty then Outcome(g, log, Err(EILSEQ))
      else Scan(g, log.(next := index + 1), index + 1, foundEmpty)
  }

  function Init(f: Flash, present: bool, base: int, size: nat): Outcome {
    var checked := CheckRegion(f, present, base, size);
    if checked != Ok then Outcome(f, CLEARED, checked)
    else Scan(f, Log(true, base, size, 0, f.erased, false), 0, false)
  }

  // boot_log_append

  function Usable(f: Flash, log: Log, record: Slot): Status {
    if !log.initialized || !log.dev then Err(EINVAL)
    else if !f.ready then Err(ENODEV)
    else if IsErased(record, log.erased) then Err(EINVAL)
    else if log.next >= Capacity(log) then Err(ENOSPC)
    else Ok
  }

  /** From the write on: the handle counts as lost until the readback has agreed. */
  function Commit(f: Flash, log: Log, record: Slot): Outcome {
    var at := Offset(log, log.next);
    var lost := log.(initialized := false);
    var (g, rc) := Write(f, at, record);
    if rc != Ok then Outcome(g, lost, rc)
    else
      var (h, rc, check) := Read(g, at);
      if rc != Ok then Outcome(h, lost, rc)
      else if check != record then Outcome(h, lost, Err(EIO))
      else Outcome(h, log.(next := log.next + 1), Ok)
  }

  function Append(f: Flash, log: Log, record: Slot): Outcome {
    var usable := Usable(f, log, record);
    if usable != Ok then Outcome(f, log, usable)
    else
      var (g, rc, check) := Read(f, Offset(log, log.next));
      if rc != Ok then Outcome(g, log, rc)
      else if !IsErased(check, log.erased) then Outcome(g, log.(initialized := false), Err(EEXIST))
      else Commit(g, log, record)
  }

  /** boot_log_read_last */
  function ReadLast(f: Flash, log: Log): (Flash, Status, seq<Byte>) {
    if !log.initialized || !log.dev then (f, Err(EINVAL), [])
    else if !f.ready then (f, Err(ENODEV), [])
    else if log.next == 0 then (f, Err(ENOENT), [])
    else
      var (g, rc, out) := Read(f, Offset(log, log.next - 1));
      if rc != Ok then (g, rc, []) else (g, if IsErased(out, log.erased) then Err(EIO) else Ok, out)
  }
}
