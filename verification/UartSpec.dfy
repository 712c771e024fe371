/** The asynchronous UART receive driver of lab 20 and its clients as functions of one state. */
module UartSpec {
  import opened Words

  const OVERRUN := 1
  const NULL := 0
  const BUFFER_SIZE := 8
  const RING_SIZE := 64

  /** A caller's buffer: a start address, 0 being the null pointer, and a length. */
  datatype Buffer = Buffer(addr: nat, len: nat)

  datatype RxState = Idle | Active | Stopping

  datatype Event =
    | Request
    | Ready(buf: nat, offset: nat, len: nat)
    | Released(buf: nat)
    | Stopped(reason: nat, buf: nat, offset: nat, len: nat)
    | Disabled

  datatype Call =
    | Enable(buffer: Buffer, forever: bool)
    | Respond(buffer: Buffer)
    | Disable
    | SetCallback(present: bool)

  datatype Result = OK | EINVAL | ENOTSUP | EBUSY | EACCES | EFAULT | EALREADY | ENOBUFS | EIO

  /** What an observer of the driver sees: events, accepted calls, stored bytes; Crash is a call through null. */
  datatype Item =
    | Saw(event: Event)
    | Enabled(buffer: Buffer)
    | Answered(buffer: Buffer)
    | StopAsked
    | Stored(addr: nat, byte: Byte)
    | Crash

  datatype Driver = Driver(
    state: RxState, callback: bool, inCallback: bool, initialRequest: bool, requestOutstanding: bool,
    current: nat, currentLen: nat, currentPos: nat, reported: nat, next: nat, nextLen: nat,
    irqPending: bool, irqEntries: Word, hardwareBytes: Word, overruns: Word)

  /** The driver's data after boot. */
  const OFF: Driver := Driver(Idle, false, false, false, false, NULL, 0, 0, 0, NULL, 0, false, 0, 0, 0)

  /** rx_manager: the owned flags, the queue, its counters, and the history of what was read and lost. */
  datatype Manager = Manager(
    bufs: seq<nat>, owned: seq<bool>, ring: seq<Byte>, enabled: bool,
    readyEvents: Word, requestEvents: Word, releasedEvents: Word, disabledEvents: Word, stoppedEvents: Word,
    received: Word, buffered: Word, read: Word, dropped: Word, lastStop: nat, lastError: Result,
    taken: seq<Byte>, lost: nat)

  /** Any client is the calls it makes in its successive callbacks; the manager is one particular client. */
  datatype Client = Script(calls: seq<seq<Call>>) | Managed(m: Manager)

  datatype Sys = Sys(d: Driver, mem: map<nat, Byte>, trace: seq<Item>, client: Client)

  predicate Overlap(a: Buffer, b: Buffer) {
    if a.addr <= b.addr then b.addr - a.addr < a.len else a.addr - b.addr < b.len
  }

  // Calls into the driver

  function CallResult(d: Driver, call: Call): Result {
    match call
    case Enable(b, forever) =>
      if b.addr == NULL || b.len == 0 then EINVAL
      else if !forever then ENOTSUP
      else if d.state != Idle then EBUSY
      else if !d.callback then EINVAL
      else OK
    case Respond(b) =>
      if b.addr == NULL || b.len == 0 then EINVAL
      else if d.state != Active then EACCES
      else if d.next != NULL || !d.requestOutstanding then EBUSY
      else if Overlap(b, Buffer(d.current, d.currentLen)) then EINVAL
      else OK
    case Disable =>
      if d.state == Idle then EFAULT else if d.state == Stopping then EALREADY else OK
    case SetCallback(_) =>
      if d.state != Idle || d.inCallback then EBUSY else OK
  }

  function AfterCall(d: Driver, call: Call): Driver
    requires CallResult(d, call) == OK
  {
    match call
    case Enable(b, _) =>
      d.(current := b.addr, currentLen := b.len, currentPos := 0, reported := 0, next := NULL, nextLen := 0,
         requestOutstanding := false, initialRequest := true, state := Active, irqPending := true)
    case Respond(b) => d.(next := b.addr, nextLen := b.len, requestOutstanding := false)
    case Disable => d.(state := Stopping, irqPending := true)
    case SetCallback(present) => d.(callback := present)
  }

  function CallItems(call: Call): seq<Item> {
    match call
    case Enable(b, _) => [Enabled(b)]
    case Respond(b) => [Answered(b)]
    case Disable => [StopAsked]
    case SetCallback(_) => []
  }

  function DoCall(s: Sys, call: Call): Sys {
    if CallResult(s.d, call) != OK then s
    else s.(d := AfterCall(s.d, call), trace := s.trace + CallItems(call))
  }

  function DoCalls(s: Sys, calls: seq<Call>): Sys
    decreases |calls|
  {
    if calls == [] then s else DoCalls(DoCall(s, calls[0]), calls[1..])
  }

  // The manager's side of an event

  function BufferIndex(m: Manager, buf: nat): (i: int)
    ensures i == -1 || 0 <= i < |m.bufs|
  {
    if |m.bufs| > 0 && m.bufs[0] == buf then 0 else if |m.bufs| > 1 && m.bufs[1] == buf then 1 else -1
  }

  predicate Owns(m: Manager, i: int) {
    0 <= i < |m.owned| && m.owned[i]
  }

  function Bytes(mem: map<nat, Byte>, addr: nat, len: nat): (b: seq<Byte>)
    ensures |b| == len
  {
    seq(len, i requires 0 <= i < len => if addr + i in mem then mem[addr + i] else 0)
  }

  function Room(m: Manager): nat {
    if |m.ring| >= RING_SIZE then 0 else RING_SIZE - |m.ring|
  }

  /** A 32-bit counter moved on. */
  function Advance(count: Word, n: nat): Word {
    (count + n) % MODULUS
  }

  function TakeSpan(m: Manager, span: seq<Byte>): Manager {
    var copied := if |span| <= Room(m) then |span| else Room(m);
    m.(ring := m.ring + span[..copied], readyEvents := AddWord(m.readyEvents, 1),
       received := Advance(m.received, |span|), buffered := Advance(m.buffered, copied),
       dropped := Advance(m.dropped, |span| - copied), lost := m.lost + (|span| - copied))
  }

  function FirstFree(m: Manager): int {
    if |m.owned| > 0 && !m.owned[0] then 0 else if |m.owned| > 1 && !m.owned[1] then 1 else -1
  }

  /** On a request the first free buffer is marked owned and offered; a refused offer is taken back. */
  function AnswerRequest(s: Sys, m: Manager): Sys {
    var i := FirstFree(m);
    var m := m.(requestEvents := AddWord(m.requestEvents, 1));
    if i < 0 || i >= |m.bufs| || i >= |m.owned| then s.(client := Managed(m.(lastError := ENOBUFS)))
    else
      var call := Respond(Buffer(m.bufs[i], BUFFER_SIZE));
      var result := CallResult(s.d, call);
      if result != OK then s.(client := Managed(m.(lastError := result)))
      else DoCall(s, call).(client := Managed(m.(owned := m.owned[i := true])))
  }

  /** rx_manager_event for every event but a buffer request. */
  function Notice(mem: map<nat, Byte>, m: Manager, e: Event): Manager {
    match e
    case Ready(buf, offset, len) =>
      var i := BufferIndex(m, buf);
      if i < 0 || !Owns(m, i) || offset > BUFFER_SIZE || len > BUFFER_SIZE - offset then m.(lastError := EINVAL)
      else TakeSpan(m, Bytes(mem, buf + offset, len))
    case Released(buf) =>
      var i := BufferIndex(m, buf);
      if i < 0 || !Owns(m, i) then m.(lastError := EINVAL)
      else m.(owned := m.owned[i := false], releasedEvents := AddWord(m.releasedEvents, 1))
    case Disabled => m.(enabled := false, disabledEvents := AddWord(m.disabledEvents, 1))
    case Stopped(reason, _, _, _) =>
      m.(stoppedEvents := AddWord(m.stoppedEvents, 1), lastStop := reason, lastError := EIO)
    case Request => m
  }

  function ManagerEvent(s: Sys, m: Manager, e: Event): Sys {
    if e == Request then AnswerRequest(s, m) else s.(client := Managed(Notice(s.mem, m, e)))
  }

  /** rx_manager_read */
  function ManagerRead(m: Manager, max: nat): (r: (Manager, seq<Byte>)) {
    var limit := if max <= RING_SIZE then max else RING_SIZE;
    var n := if limit <= |m.ring| then limit else |m.ring|;
    (m.(ring := m.ring[n..], read := Advance(m.read, n), taken := m.taken + m.ring[..n]), m.ring[..n])
  }

  /** A cleared manager with its two buffers. */
  function Blank(bufs: seq<nat>): Manager {
    Manager(bufs, [false, false], [], false, 0, 0, 0, 0, 0, 0, 0, 0, 0, 0, OK, [], 0)
  }

  /** rx_manager_init: the result of the call that failed, or of the last one. */
  function ManagerInit(s: Sys, bufs: seq<nat>): (Sys, Result)
    requires |bufs| == 2
  {
    var m := Blank(bufs);
    var registered := CallResult(s.d, SetCallback(true));
    if registered != OK then (s.(client := Managed(m.(lastError := registered))), registered)
    else
      var s := DoCall(s, SetCallback(true));
      var enable := Enable(Buffer(bufs[0], BUFFER_SIZE), true);
      var enabled := CallResult(s.d, enable);
      if enabled != OK then (DoCall(s, SetCallback(false)).(client := Managed(m.(lastError := enabled))), enabled)
      else (DoCall(s, enable).(client := Managed(m.(owned := [true, false], enabled := true))), OK)
  }

  // Events out of the driver

  function React(s: Sys, e: Event): Sys {
    match s.client
    case Script(calls) =>
      if calls == [] then s else DoCalls(s.(client := Script(calls[1..])), calls[0])
    case Managed(m) => ManagerEvent(s, m, e)
  }

  function Emit(s: Sys, e: Event): Sys {
    if !s.d.callback then s.(trace := s.trace + [Crash])
    else
      var r := React(s.(d := s.d.(inCallback := true), trace := s.trace + [Saw(e)]), e);
      r.(d := r.d.(inCallback := false))
  }

  function RequestBuffer(s: Sys): Sys {
    Emit(s.(d := s.d.(requestOutstanding := true)), Request)
  }

  function Unreported(d: Driver): nat {
    if d.reported <= d.currentPos then d.currentPos - d.reported else 0
  }

  function Report(s: Sys): Sys {
    var d := s.d;
    if d.currentPos == d.reported then s
    else Emit(s.(d := d.(reported := d.currentPos)), Ready(d.current, d.reported, Unreported(d)))
  }

  function Release(s: Sys, buf: nat): Sys {
    if buf == NULL then s else Emit(s, Released(buf))
  }

  function BeginStop(s: Sys, reason: nat): Sys {
    var s := s.(d := s.d.(state := Stopping, initialRequest := false, requestOutstanding := false));
    var d := s.d;
    Report(if reason == 0 then s else Emit(s, Stopped(reason, d.current, d.reported, Unreported(d))))
  }

  function NoBuffers(d: Driver): Driver {
    d.(current := NULL, next := NULL, currentLen := 0, currentPos := 0, reported := 0, nextLen := 0)
  }

  function Finish(s: Sys, reason: nat): Sys {
    var s1 := BeginStop(s, reason);
    var current, next := s1.d.current, s1.d.next;
    var s2 := s1.(d := NoBuffers(s1.d));
    var s3 := Release(Release(s2, current), next);
    Emit(s3.(d := s3.d.(state := Idle)), Disabled)
  }

  // The interrupt service routine

  function StoreByte(s: Sys, byte: Byte): Sys {
    var d := s.d;
    var at := d.current + d.currentPos;
    s.(d := d.(currentPos := d.currentPos + 1, hardwareBytes := AddWord(d.hardwareBytes, 1)),
       mem := s.mem[at := byte], trace := s.trace + [Stored(at, byte)])
  }

  function Switched(d: Driver): Driver {
    d.(current := d.next, currentLen := d.nextLen, currentPos := 0, reported := 0, next := NULL, nextLen := 0)
  }

  function SwitchBuffer(s: Sys): Sys {
    var d := s.d;
    var s1 := s.(d := Switched(d));
    var s2 := Release(s1, d.current);
    var s3 := if s2.d.state == Active then RequestBuffer(s2) else s2;
    if s3.d.state == Stopping then Finish(s3, 0) else s3
  }

  function BufferFull(s: Sys): Sys {
    var r := Report(s);
    if r.d.state == Stopping || r.d.next == NULL then Finish(r, 0) else SwitchBuffer(r)
  }

  /** The part after the first request: overrun, FIFO flag and data register as read. */
  function Receive(s: Sys, overrun: bool, full: bool, byte: Byte): Sys {
    if overrun then Finish(s.(d := s.d.(overruns := AddWord(s.d.overruns, 1))), OVERRUN)
    else if !full then s
    else
      var r := StoreByte(s, byte);
      if r.d.currentPos < r.d.currentLen then r else BufferFull(r)
  }

  function FirstRequest(s: Sys): Sys {
    RequestBuffer(s.(d := s.d.(initialRequest := false)))
  }

  /** A client may have asked for a stop while it was being asked for a buffer. */
  function Resume(s: Sys, overrun: bool, full: bool, byte: Byte): Sys {
    if s.d.state == Stopping then Finish(s, 0) else Receive(s, overrun, full, byte)
  }

  function Enter(d: Driver): Driver {
    d.(irqEntries := AddWord(d.irqEntries, 1), irqPending := false)
  }

  function Isr(s: Sys, overrun: bool, full: bool, byte: Byte): Sys {
    var s := s.(d := Enter(s.d));
    if s.d.state == Stopping then Finish(s, 0)
    else if s.d.state != Active then s
    else if s.d.initialRequest then Resume(FirstRequest(s), overrun, full, byte)
    else Receive(s, overrun, full, byte)
  }
}
