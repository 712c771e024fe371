/** The driver together with rx_manager: ownership of the two buffers and conservation of the bytes. */
module UartManaged {
  import opened Words
  import opened UartSpec
  import opened UartMonitor
  import opened UartDriver
  import opened UartWire

  /** Two different buffers that share no cell. */
  ghost predicate Config(m: Manager) {
    && |m.bufs| == |m.owned| == 2 && m.bufs[0] != NULL && m.bufs[1] != NULL
    && (m.bufs[0] + BUFFER_SIZE <= m.bufs[1] || m.bufs[1] + BUFFER_SIZE <= m.bufs[0])
  }

  /** The owned flags name exactly the buffers in the set. */
  ghost predicate OwnsExactly(m: Manager, held: set<nat>) {
    Config(m) && forall i :: 0 <= i < 2 ==> (m.owned[i] <==> m.bufs[i] in held)
  }

  ghost predicate FromManager(m: Manager, addr: nat, len: nat) {
    Config(m) && addr in m.bufs && len == BUFFER_SIZE
  }

  /** The driver's buffers come from the manager. */
  ghost predicate Supplied(s: Sys) {
    && s.client.Managed? && Config(s.client.m) && s.d.current != s.d.next
    && FromManager(s.client.m, s.d.current, s.d.currentLen)
    && (s.d.next != NULL ==> FromManager(s.client.m, s.d.next, s.d.nextLen))
  }

  /** The bytes that sit in the current buffer without having been reported. */
  function Tail(s: Sys): seq<Byte> {
    Bytes(s.mem, s.d.current + s.d.reported, Unreported(s.d))
  }

  /** Conservation, in the counters of the program (modulo 2^32) and in the bytes themselves. */
  ghost predicate Balanced(wire: seq<Byte>, m: Manager, tail: seq<Byte>, hardwareBytes: Word) {
    && m.read == |m.taken| % MODULUS
    && m.buffered == (|m.taken| + |m.ring|) % MODULUS
    && m.dropped == m.lost % MODULUS
    && m.received == (|m.taken| + |m.ring| + m.lost) % MODULUS
    && hardwareBytes == |wire| % MODULUS
    && |wire| == |m.taken| + |m.ring| + m.lost + |tail|
    && |m.ring| <= RING_SIZE
    && (m.lost == 0 ==> wire == m.taken + m.ring + tail)
  }

  ghost predicate Accounted(s: Sys) {
    s.client.Managed? && Balanced(StoredBytes(s.trace), s.client.m, Tail(s), s.d.hardwareBytes)
  }

  // The balance under the manager's own steps

  lemma AddMod(a: nat, b: nat)
    ensures (a % MODULUS + b) % MODULUS == (a + b) % MODULUS
  {
  }

  /** Queueing a span moves it from the tail to the ring, as far as there is room. */
  lemma SpanBalance(wire: seq<Byte>, m: Manager, tail: seq<Byte>, hardwareBytes: Word)
    requires Balanced(wire, m, tail, hardwareBytes)
    ensures Balanced(wire, TakeSpan(m, tail), [], hardwareBytes)
  {
    var copied := if |tail| <= Room(m) then |tail| else Room(m);
    AddMod(|m.taken| + |m.ring| + m.lost, |tail|);
    AddMod(|m.taken| + |m.ring|, copied);
    AddMod(m.lost, |tail| - copied);
    if TakeSpan(m, tail).lost == 0 {
      assert tail[..copied] == tail;
      assert m.taken + (m.ring + tail) + [] == m.taken + m.ring + tail;
    }
  }

  lemma ReadBalance(wire: seq<Byte>, m: Manager, tail: seq<Byte>, hardwareBytes: Word, max: nat)
    requires Balanced(wire, m, tail, hardwareBytes)
    ensures Balanced(wire, ManagerRead(m, max).0, tail, hardwareBytes)
    ensures var (after, out) := ManagerRead(m, max);
            m.ring == out + after.ring && |out| <= max && (|out| < max && |out| < RING_SIZE ==> after.ring == [])
  {
    var (after, out) := ManagerRead(m, max);
    AddMod(|m.taken|, |out|);
    assert m.ring == out + after.ring;
    assert m.taken + m.ring == after.taken + after.ring;
  }

  lemma StoreBalance(wire: seq<Byte>, m: Manager, tail: seq<Byte>, hardwareBytes: Word, byte: Byte)
    requires Balanced(wire, m, tail, hardwareBytes)
    ensures Balanced(wire + [byte], m, tail + [byte], AddWord(hardwareBytes, 1))
  {
    AddMod(|wire|, 1);
    assert m.taken + m.ring + (tail + [byte]) == m.taken + m.ring + tail + [byte];
  }

  // Events

  /** The manager knows the buffer and has it out. */
  predicate IsOut(m: Manager, buf: nat) {
    && |m.bufs| == |m.owned| == 2
    && if m.bufs[0] == buf then m.owned[0] else m.bufs[1] == buf && m.owned[1]
  }

  /** An event about a buffer that is not out, or a span outside it, is an error and changes nothing else; every event
      that is taken is counted, and a line error is remembered with its reason. */
  lemma EventsAreChecked(mem: map<nat, Byte>, m: Manager, e: Event)
    requires |m.bufs| == |m.owned| == 2 && e != Request
    ensures var n := Notice(mem, m, e);
            match e
            case Ready(buf, offset, len) =>
              if !IsOut(m, buf) || offset + len > 8 then n == m.(lastError := EINVAL)
              else n.readyEvents == AddWord(m.readyEvents, 1) && n.owned == m.owned && n.lastError == m.lastError
            case Released(buf) =>
              if !IsOut(m, buf) then n == m.(lastError := EINVAL)
              else
                && !IsOut(n, buf)
                && n == m.(owned := n.owned, releasedEvents := AddWord(m.releasedEvents, 1))
                && (forall b :: b in m.bufs && b != buf ==> IsOut(n, b) == IsOut(m, b))
            case Stopped(reason, _, _, _) =>
              n == m.(stoppedEvents := AddWord(m.stoppedEvents, 1), lastStop := reason, lastError := EIO)
            case Disabled => n == m.(enabled := false, disabledEvents := AddWord(m.disabledEvents, 1))
            case Request => true
  {
  }

  /** A request that cannot be met: without a free buffer, or if the driver refuses the one offered, nothing is handed
      out and the reason is kept. */
  lemma UnmetRequests(s: Sys, m: Manager)
    requires |m.bufs| == |m.owned| == 2
    ensures var n := AnswerRequest(s, m); var counted := m.(requestEvents := AddWord(m.requestEvents, 1));
            && (m.owned == [true, true] ==> n == s.(client := Managed(counted.(lastError := ENOBUFS))))
            && (m.owned != [true, true] && s.d.state != Active ==>
                  && n.client.Managed? && n == s.(client := Managed(n.client.m)) && n.client.m.lastError != OK
                  && n.client.m == counted.(lastError := n.client.m.lastError))
  {
    var i := FirstFree(m);
    assert m.owned == [m.owned[0], m.owned[1]];
  }

  /** With the manager as client, an event other than a request changes the manager alone. */
  lemma EmitToManager(s: Sys, e: Event)
    requires s.client.Managed? && s.d.callback && !s.d.inCallback && e != Request
    ensures Emit(s, e) == s.(trace := s.trace + [Saw(e)], client := Managed(Notice(s.mem, s.client.m, e)))
    ensures StoredBytes(Emit(s, e).trace) == StoredBytes(s.trace)
  {
  }

  lemma ReadyIsTaken(mem: map<nat, Byte>, m: Manager, held: set<nat>, buf: nat, offset: nat, len: nat)
    requires OwnsExactly(m, held) && buf in held && buf in m.bufs && offset + len <= BUFFER_SIZE
    ensures Notice(mem, m, Ready(buf, offset, len)) == TakeSpan(m, Bytes(mem, buf + offset, len))
  {
  }

  lemma ReleaseIsNoted(mem: map<nat, Byte>, m: Manager, held: set<nat>, buf: nat)
    requires OwnsExactly(m, held) && buf in held && buf in m.bufs
    ensures var r := Notice(mem, m, Released(buf));
            && OwnsExactly(r, held - {buf})
            && r == m.(owned := r.owned, releasedEvents := AddWord(m.releasedEvents, 1))
  {
  }

  /** What one step leaves alone in the manager: its buffers and its bytes. */
  ghost predicate SameBooks(m: Manager, r: Manager) {
    && r.bufs == m.bufs && r.ring == m.ring && r.taken == m.taken && r.lost == m.lost && r.lastError == m.lastError
    && r.received == m.received && r.buffered == m.buffered && r.read == m.read && r.dropped == m.dropped
  }

  lemma ReportToManager(s: Sys, held: set<nat>)
    requires s.client.Managed? && Accounted(s) && OwnsExactly(s.client.m, held) && s.d.current in held
    requires s.d.current in s.client.m.bufs
    requires s.d.callback && !s.d.inCallback && s.d.reported <= s.d.currentPos <= BUFFER_SIZE
    ensures var r := Report(s);
            && r.d == s.d.(reported := s.d.currentPos) && r.mem == s.mem && Accounted(r)
            && OwnsExactly(r.client.m, held) && r.client.m.lastError == s.client.m.lastError
            && r.client.m.bufs == s.client.m.bufs
  {
    hide Notice, React, Emit, Balanced, StoredBytes;
    var d := s.d;
    if d.currentPos == d.reported {
      assert d == d.(reported := d.currentPos);
    } else {
      var m := s.client.m;
      EmitToManager(s.(d := d.(reported := d.currentPos)), Ready(d.current, d.reported, d.currentPos - d.reported));
      ReadyIsTaken(s.mem, m, held, d.current, d.reported, d.currentPos - d.reported);
      SpanBalance(StoredBytes(s.trace), m, Tail(s), d.hardwareBytes);
      assert Tail(Report(s)) == [];
    }
  }

  lemma ReleaseToManager(s: Sys, buf: nat, held: set<nat>)
    requires s.client.Managed? && OwnsExactly(s.client.m, held) && buf in held && buf in s.client.m.bufs
    requires s.d.callback && !s.d.inCallback
    ensures var r := Release(s, buf);
            && r.d == s.d && r.mem == s.mem && StoredBytes(r.trace) == StoredBytes(s.trace)
            && r.client.Managed? && OwnsExactly(r.client.m, held - {buf}) && SameBooks(s.client.m, r.client.m)
  {
    assert buf != NULL;
    hide Notice, React, OwnsExactly, Emit;
    EmitToManager(s, Released(buf));
    ReleaseIsNoted(s.mem, s.client.m, held, buf);
  }

  lemma SameBooksBalance(s: Sys, r: Sys)
    requires Accounted(s) && r.client.Managed? && SameBooks(s.client.m, r.client.m)
    requires StoredBytes(r.trace) == StoredBytes(s.trace) && Tail(r) == Tail(s)
    requires r.d.hardwareBytes == s.d.hardwareBytes
    ensures Accounted(r)
  {
  }

  lemma FreeBuffer(m: Manager, a: nat)
    requires OwnsExactly(m, {a}) && a in m.bufs
    ensures var i := FirstFree(m);
            && 0 <= i < 2 && m.bufs[i] != a && m.bufs[i] != NULL
            && !Overlap(Buffer(m.bufs[i], BUFFER_SIZE), Buffer(a, BUFFER_SIZE))
            && OwnsExactly(m.(owned := m.owned[i := true]), {a, m.bufs[i]})
  {
  }

  lemma RespondAccepted(s: Sys, b: Buffer)
    requires CallResult(s.d, Respond(b)) == OK
    ensures DoCall(s, Respond(b)).trace == s.trace + [Answered(b)]
    ensures StoredBytes(DoCall(s, Respond(b)).trace) == StoredBytes(s.trace)
  {
  }

  /** Asked for a buffer while it holds one, the manager hands over the other. */
  lemma RequestToManager(s: Sys)
    requires Supplied(s) && OwnsExactly(s.client.m, {s.d.current}) && s.d.next == NULL && s.d.state == Active
    requires s.d.callback && !s.d.inCallback
    ensures var r := RequestBuffer(s);
            && r.mem == s.mem && StoredBytes(r.trace) == StoredBytes(s.trace)
            && Supplied(r) && r.d.next != NULL && OwnsExactly(r.client.m, {r.d.current, r.d.next})
            && r.d == s.d.(next := r.d.next, nextLen := BUFFER_SIZE, requestOutstanding := false)
            && SameBooks(s.client.m, r.client.m)
  {
    var m := s.client.m;
    FreeBuffer(m, s.d.current);
    var b := Buffer(m.bufs[FirstFree(m)], BUFFER_SIZE);
    var asked := s.(d := s.d.(requestOutstanding := true, inCallback := true), trace := s.trace + [Saw(Request)]);
    StoredBytesNext(s.trace, Saw(Request));
    assert StoredBytes(s.trace) + [] == StoredBytes(s.trace);
    RespondAccepted(asked, b);
    var counted := m.(requestEvents := AddWord(m.requestEvents, 1));
    assert FirstFree(counted) == FirstFree(m);
    assert AnswerRequest(asked, m) ==
           DoCall(asked, Respond(b)).(client := Managed(counted.(owned := m.owned[FirstFree(m) := true])));
  }

  // Between two events of one interrupt

  /** The books balance and exactly the buffers in the set are owned. */
  ghost predicate Kept(s: Sys, held: set<nat>) {
    s.client.Managed? && Accounted(s) && OwnsExactly(s.client.m, held) && s.client.m.lastError in {OK, EIO}
  }

  lemma OwnsSame(m: Manager, a: set<nat>, b: set<nat>)
    requires OwnsExactly(m, a) && forall x :: x in m.bufs ==> (x in a <==> x in b)
    ensures OwnsExactly(m, b)
  {
  }

  lemma StopToManager(s: Sys, held: set<nat>, reason: nat, buf: nat, offset: nat, len: nat)
    requires Kept(s, held) && s.d.callback && !s.d.inCallback
    ensures var r := Emit(s, Stopped(reason, buf, offset, len));
            r.d == s.d && r.mem == s.mem && Kept(r, held) && r.client.m.bufs == s.client.m.bufs
  {
  }

  lemma BeginStopToManager(s: Sys, reason: nat, held: set<nat>)
    requires Kept(s, held) && s.d.current in held && s.d.current in s.client.m.bufs
    requires s.d.callback && !s.d.inCallback && s.d.reported <= s.d.currentPos <= BUFFER_SIZE
    ensures var r := BeginStop(s, reason);
            && Kept(r, held) && r.client.m.bufs == s.client.m.bufs && r.mem == s.mem
            && r.d == s.d.(state := Stopping, initialRequest := false, requestOutstanding := false,
                           reported := s.d.currentPos)
  {
    hide OwnsExactly, Balanced, StoredBytes, Emit, Report;
    var s0 := s.(d := s.d.(state := Stopping, initialRequest := false, requestOutstanding := false));
    assert Kept(s0, held) by { assert Tail(s0) == Tail(s); }
    if reason != 0 {
      StopToManager(s0, held, reason, s0.d.current, s0.d.reported, Unreported(s0.d));
      ReportToManager(Emit(s0, Stopped(reason, s0.d.current, s0.d.reported, Unreported(s0.d))), held);
    } else {
      ReportToManager(s0, held);
    }
  }

  /** A release keeps the books: nothing is unreported when a buffer goes back. */
  lemma ReleaseKeeps(s: Sys, buf: nat, held: set<nat>)
    requires Kept(s, held) && (buf != NULL ==> buf in held && buf in s.client.m.bufs)
    requires s.d.callback && !s.d.inCallback && Tail(s) == []
    ensures var r := Release(s, buf);
            && r.d == s.d && r.mem == s.mem && Kept(r, held - {buf}) && r.client.m.bufs == s.client.m.bufs
  {
    if buf == NULL {
      OwnsSame(s.client.m, held, held - {buf});
    } else {
      hide OwnsExactly, Balanced, StoredBytes, Release;
      ReleaseToManager(s, buf, held);
      SameBooksBalance(s, Release(s, buf));
    }
  }

  lemma DisabledToManager(s: Sys)
    requires Kept(s, {}) && s.d.callback && !s.d.inCallback
    ensures var r := Emit(s, Disabled); r.d == s.d && r.mem == s.mem && Kept(r, {})
  {
    EmitToManager(s, Disabled);
  }

  /** Stopping hands every buffer back and reports every byte. */
  lemma FinishManaged(s: Sys, reason: nat)
    requires Supplied(s) && Kept(s, {s.d.current, s.d.next})
    requires s.d.callback && !s.d.inCallback && s.d.reported <= s.d.currentPos <= BUFFER_SIZE
    ensures var r := Finish(s, reason); Kept(r, {}) && r.d.state == Idle && !r.d.inCallback && Tail(r) == []
  {
    hide OwnsExactly, Balanced, StoredBytes, Release, Emit, BeginStop, Bytes;
    var held := {s.d.current, s.d.next};
    BeginStopToManager(s, reason, held);
    var s1 := BeginStop(s, reason);
    var s2 := s1.(d := NoBuffers(s1.d));
    assert Tail(s1) == [] == Tail(s2);
    ReleaseKeeps(s2, s1.d.current, held);
    var s3 := Release(s2, s1.d.current);
    ReleaseKeeps(s3, s1.d.next, held - {s1.d.current});
    var s4 := Release(s3, s1.d.next);
    assert held - {s1.d.current} - {s1.d.next} == {};
    var s5 := s4.(d := s4.d.(state := Idle));
    assert Kept(s5, {}) by { assert Tail(s5) == Tail(s4); }
    DisabledToManager(s5);
  }

  /** An active reception between interrupts, and during one: the other buffer is in reserve. */
  ghost predicate Flowing(s: Sys) {
    && Supplied(s) && Kept(s, {s.d.current, s.d.next}) && s.d.next != NULL
    && s.d.state == Active && s.d.callback && !s.d.inCallback && !s.d.initialRequest
    && s.d.reported <= s.d.currentPos <= s.d.currentLen
  }

  lemma RequestFlows(s: Sys)
    requires Supplied(s) && Kept(s, {s.d.current}) && s.d.next == NULL && s.d.state == Active && !s.d.initialRequest
    requires s.d.callback && !s.d.inCallback && s.d.reported <= s.d.currentPos <= s.d.currentLen
    ensures var r := RequestBuffer(s);
            Flowing(r) && r.d.current == s.d.current && r.d.currentPos == s.d.currentPos && r.d.reported == s.d.reported
  {
    hide OwnsExactly, Balanced, StoredBytes, RequestBuffer, FromManager;
    RequestToManager(s);
    var r := RequestBuffer(s);
    assert Tail(r) == Tail(s);
    SameBooksBalance(s, r);
  }

  lemma SwitchFlows(s: Sys)
    requires Flowing(s) && s.d.reported == s.d.currentPos
    ensures Flowing(SwitchBuffer(s)) && SwitchBuffer(s).d.currentPos == 0
  {
    hide Balanced, StoredBytes, Release, RequestBuffer, Bytes, Finish;
    var d := s.d;
    var held := {d.current, d.next};
    var s1 := s.(d := Switched(d));
    assert Tail(s) == [] == Tail(s1);
    ReleaseKeeps(s1, d.current, held);
    assert held - {d.current} == {d.next};
    RequestFlows(Release(s1, d.current));
  }

  /** A full buffer is reported and replaced; reception does not stop. */
  lemma FullFlows(s: Sys)
    requires Flowing(s)
    ensures Flowing(BufferFull(s)) && BufferFull(s).d.currentPos == 0
  {
    hide Balanced, StoredBytes, Report, SwitchBuffer, Bytes, Finish;
    ReportToManager(s, {s.d.current, s.d.next});
    SwitchFlows(Report(s));
  }

  lemma StoreFlows(s: Sys, byte: Byte)
    requires Flowing(s) && s.d.currentPos < s.d.currentLen
    ensures Flowing(StoreByte(s, byte))
  {
    hide OwnsExactly, Balanced, StoredBytes, FromManager;
    var r := StoreByte(s, byte);
    StoredBytesNext(s.trace, Stored(s.d.current + s.d.currentPos, byte));
    assert Tail(r) == Tail(s) + [byte];
    StoreBalance(StoredBytes(s.trace), s.client.m, Tail(s), s.d.hardwareBytes, byte);
  }

  /** A byte keeps an active reception going; only an overrun ends it. */
  lemma ReceiveFlows(s: Sys, overrun: bool, full: bool, byte: Byte)
    requires Flowing(s) && s.d.currentPos < s.d.currentLen
    ensures var r := Receive(s, overrun, full, byte);
            if overrun then Kept(r, {}) && r.d.state == Idle && !r.d.inCallback
            else Flowing(r) && r.d.currentPos < r.d.currentLen
  {
    hide OwnsExactly, Balanced, StoredBytes, StoreByte, BufferFull, Finish;
    if overrun {
      var counted := s.(d := s.d.(overruns := AddWord(s.d.overruns, 1)));
      assert Tail(counted) == Tail(s);
      FinishManaged(counted, OVERRUN);
    } else if full {
      StoreFlows(s, byte);
      if StoreByte(s, byte).d.currentPos >= StoreByte(s, byte).d.currentLen {
        FullFlows(StoreByte(s, byte));
      }
    }
  }

  /** Between interrupts: exactly current and next are owned, and an active reception has a buffer in reserve. */
  ghost predicate Steady(s: Sys) {
    && !s.d.inCallback && s.client.Managed?
    && match s.d.state
       case Idle => Kept(s, {})
       case Stopping => Supplied(s) && Kept(s, {s.d.current, s.d.next}) && Filling(s.d)
       case Active =>
         if s.d.initialRequest then Supplied(s) && Kept(s, {s.d.current}) && s.d.next == NULL && Filling(s.d)
         else Flowing(s) && Filling(s.d)
  }

  ghost predicate Filling(d: Driver) {
    d.callback && d.reported <= d.currentPos < d.currentLen
  }

  lemma FirstFlows(s: Sys)
    requires Supplied(s) && Kept(s, {s.d.current}) && s.d.next == NULL && Filling(s.d)
    requires s.d.state == Active && s.d.initialRequest && !s.d.inCallback
    ensures var r := FirstRequest(s); Flowing(r) && Filling(r.d)
  {
    hide Balanced, StoredBytes, RequestBuffer, OwnsExactly;
    var asking := s.(d := s.d.(initialRequest := false));
    assert Tail(asking) == Tail(s);
    RequestFlows(asking);
  }

  lemma EnterIsSteady(s: Sys)
    requires Steady(s)
    ensures Steady(s.(d := Enter(s.d)))
  {
    hide Balanced, StoredBytes, FromManager, OwnsExactly;
    assert Tail(s.(d := Enter(s.d))) == Tail(s);
  }

  lemma SteadyIsCallable(s: Sys)
    requires Steady(s)
    ensures (s.d.state != Idle ==> s.d.callback) && !s.d.inCallback && s.client.Managed?
  {
    hide Kept, Supplied;
  }

  /** An interrupt keeps the books, takes the byte that has arrived if reception is active, and ends reception exactly
      after a stop request or on an overrun. */
  lemma IsrIsSteady(s: Sys, overrun: bool, full: bool, byte: Byte)
    requires Steady(s)
    ensures var r := Isr(s, overrun, full, byte);
            && Steady(r)
            && r.d.state == (if s.d.state == Active && !overrun then Active else Idle)
            && StoredBytes(r.trace) == StoredBytes(s.trace)
               + (if s.d.state == Active && !overrun && full then [byte] else [])
  {
    hide Balanced, StoredBytes, OwnsExactly, Receive, Finish, FirstRequest, Tail;
    SteadyIsCallable(s);
    IsrTakes(s, overrun, full, byte);
    var entered := s.(d := Enter(s.d));
    EnterIsSteady(s);
    match s.d.state
    case Idle =>
    case Stopping => FinishManaged(entered, 0);
    case Active =>
      if s.d.initialRequest {
        FirstFlows(entered);
        ReceiveFlows(FirstRequest(entered), overrun, full, byte);
      } else {
        ReceiveFlows(entered, overrun, full, byte);
      }
  }

  // Whole runs

  datatype ManagedStep = Serve(overrun: bool, full: bool, byte: Byte) | StopReception | ReadQueue(max: nat)

  function ManagedTake(s: Sys, step: ManagedStep): Sys {
    match step
    case Serve(overrun, full, byte) => Isr(s, overrun, full, byte)
    case StopReception => DoCall(s, Disable)
    case ReadQueue(max) => if s.client.Managed? then s.(client := Managed(ManagerRead(s.client.m, max).0)) else s
  }

  function ManagedRun(s: Sys, steps: seq<ManagedStep>): Sys
    decreases |steps|
  {
    if steps == [] then s else ManagedTake(ManagedRun(s, steps[..|steps| - 1]), steps[|steps| - 1])
  }

  predicate EndsReception(step: ManagedStep) {
    step.StopReception? || (step.Serve? && step.overrun)
  }

  /** An accepted stop request changes the state and asks for an interrupt; accounts and ownership stay. */
  lemma StopKeeps(s: Sys, held: set<nat>)
    requires Kept(s, held) && s.d.state == Active
    ensures Kept(DoCall(s, Disable), held)
  {
    hide Balanced, OwnsExactly, StoredBytes;
    StoredBytesNext(s.trace, StopAsked);
    assert StoredBytes(s.trace) + [] == StoredBytes(s.trace);
    assert Tail(DoCall(s, Disable)) == Tail(s);
  }

  lemma StopWhileFlowing(s: Sys)
    requires Flowing(s) && Filling(s.d) && !s.d.inCallback
    ensures Steady(DoCall(s, Disable))
  {
    hide Kept, OwnsExactly, FromManager, Config;
    StopKeeps(s, {s.d.current, s.d.next});
  }

  lemma StopBeforeFirst(s: Sys)
    requires Supplied(s) && Kept(s, {s.d.current}) && s.d.next == NULL && Filling(s.d) && !s.d.inCallback
    requires s.d.state == Active
    ensures Steady(DoCall(s, Disable))
  {
    hide Balanced, FromManager, StoredBytes, Tail;
    StopKeeps(s, {s.d.current});
    OwnsSame(s.client.m, {s.d.current}, {s.d.current, s.d.next});
  }

  lemma StopIsSteady(s: Sys)
    requires Steady(s)
    ensures Steady(DoCall(s, Disable))
  {
    hide Kept, Flowing, Filling, Supplied;
    if s.d.state == Active {
      if s.d.initialRequest {
        StopBeforeFirst(s);
      } else {
        StopWhileFlowing(s);
      }
    }
  }

  lemma ReadIsSteady(s: Sys, max: nat)
    requires Steady(s)
    ensures Steady(ManagedTake(s, ReadQueue(max)))
  {
    hide StoredBytes, Balanced;
    ReadBalance(StoredBytes(s.trace), s.client.m, Tail(s), s.d.hardwareBytes, max);
    var r := ManagedTake(s, ReadQueue(max));
    assert Tail(r) == Tail(s);
  }

  /** The state in which rx_manager_init leaves the driver and the manager. */
  function Started(mem: map<nat, Byte>, bufs: seq<nat>): Sys
    requires |bufs| == 2
  {
    Sys(OFF.(state := Active, callback := true, initialRequest := true, current := bufs[0], currentLen := BUFFER_SIZE,
             irqPending := true),
        mem, [Enabled(Buffer(bufs[0], BUFFER_SIZE))],
        Managed(Blank(bufs).(owned := [true, false], enabled := true)))
  }

  lemma InitSucceeds(mem: map<nat, Byte>, client: Client, bufs: seq<nat>)
    requires |bufs| == 2 && bufs[0] != NULL
    ensures ManagerInit(Sys(OFF, mem, [], client), bufs) == (Started(mem, bufs), OK)
  {
    var none: seq<Item> := [];
    var enable := Enable(Buffer(bufs[0], BUFFER_SIZE), true);
    assert none + CallItems(SetCallback(true)) == none && none + CallItems(enable) == CallItems(enable);
    var registered := DoCall(Sys(OFF, mem, [], client), SetCallback(true));
    assert DoCall(registered, enable).(client := Started(mem, bufs).client) == Started(mem, bufs);
  }

  /** rx_manager_init in any state of the driver: it works on an idle driver with a first buffer that is not null; in
      every other case the driver is as before, without a callback if one was set on the way, and the manager owns
      nothing. */
  lemma InitIsExact(s: Sys, bufs: seq<nat>)
    requires |bufs| == 2
    ensures var (n, r) := ManagerInit(s, bufs);
            var fit := s.d.state == Idle && !s.d.inCallback;
            && n.mem == s.mem && n.client.Managed? && n.client.m.bufs == bufs
            && r == (if !fit then EBUSY else if bufs[0] == 0 then EINVAL else OK)
            && n.client.m.lastError == r && n.client.m.enabled == (r == OK)
            && n.client.m.owned == [r == OK, false] && n.client.m.ring == []
            && n.client.m.readyEvents == n.client.m.requestEvents == n.client.m.releasedEvents == 0
            && n.client.m.disabledEvents == n.client.m.stoppedEvents == n.client.m.received == n.client.m.buffered == 0
            && n.client.m.read == n.client.m.dropped == n.client.m.lastStop == 0
            && (!fit ==> n.d == s.d && n.trace == s.trace)
            && (fit && bufs[0] == 0 ==> n.d == s.d.(callback := false) && n.trace == s.trace)
            && (r == OK ==>
                  && n.d.state == Active && n.d.callback && n.d.current == bufs[0] && n.d.currentLen == 8
                  && n.trace == s.trace + [Enabled(Buffer(bufs[0], 8))])
  {
    var none: seq<Item> := s.trace;
    assert none + CallItems(SetCallback(true)) == none && none + CallItems(SetCallback(false)) == none;
  }

  lemma NoLossMeansAll(wire: seq<Byte>, s: Sys)
    requires s.client.Managed? && s.client.m.lost == 0
    ensures Balanced(wire, s.client.m, Tail(s), s.d.hardwareBytes) ==>
              s.client.m.dropped == 0 && wire == s.client.m.taken + s.client.m.ring + Tail(s)
  {
  }

  lemma StartedIsQuiet(mem: map<nat, Byte>, bufs: seq<nat>)
    requires |bufs| == 2
    ensures StoredBytes(Started(mem, bufs).trace) == []
  {
    var trace := Started(mem, bufs).trace;
    assert trace[..0] == [];
  }

  lemma StartIsSteady(mem: map<nat, Byte>, bufs: seq<nat>)
    requires |bufs| == 2 && 0 !in bufs
    requires bufs[0] + BUFFER_SIZE <= bufs[1] || bufs[1] + BUFFER_SIZE <= bufs[0]
    ensures Steady(Started(mem, bufs))
  {
  }

  lemma {:induction false} RunIsSteady(s: Sys, steps: seq<ManagedStep>)
    requires Steady(s) && s.d.state == Active
    ensures Steady(ManagedRun(s, steps))
    ensures (forall i :: 0 <= i < |steps| ==> !EndsReception(steps[i])) ==> ManagedRun(s, steps).d.state == Active
    decreases |steps|
  {
    hide Steady, Isr, CallResult, ManagerRead;
    if steps != [] {
      var before := ManagedRun(s, steps[..|steps| - 1]);
      RunIsSteady(s, steps[..|steps| - 1]);
      match steps[|steps| - 1]
      case Serve(overrun, full, byte) => IsrIsSteady(before, overrun, full, byte);
      case StopReception => StopIsSteady(before);
      case ReadQueue(max) => ReadIsSteady(before, max);
    }
  }

  // The wire

  /** The bytes that the steps offer: those that arrive before the first stop request or overrun. */
  function Wire(steps: seq<ManagedStep>): seq<Byte>
    decreases |steps|
  {
    if steps == [] then []
    else
      var last := steps[|steps| - 1];
      Wire(steps[..|steps| - 1])
      + if last.Serve? && last.full && !Ended(steps) then [last.byte] else []
  }

  predicate Ended(steps: seq<ManagedStep>) {
    exists i :: 0 <= i < |steps| && EndsReception(steps[i])
  }

  lemma EndedNext(steps: seq<ManagedStep>)
    requires steps != []
    ensures Ended(steps) <==> Ended(steps[..|steps| - 1]) || EndsReception(steps[|steps| - 1])
  {
    var rest := steps[..|steps| - 1];
    if i :| 0 <= i < |steps| && EndsReception(steps[i]) {
      assert i < |rest| ==> EndsReception(rest[i]);
    }
    if i :| 0 <= i < |rest| && EndsReception(rest[i]) {
      assert EndsReception(steps[i]);
    }
  }

  /** One step takes the byte it offers exactly if the reception is active and the step does not end it; a stop request
      or an overrun ends it, and nothing opens it again. */
  lemma StepTakes(s: Sys, step: ManagedStep)
    requires Steady(s)
    ensures var r := ManagedTake(s, step);
            && StoredBytes(r.trace) == StoredBytes(s.trace)
               + (if step.Serve? && step.full && s.d.state == Active && !step.overrun then [step.byte] else [])
            && (r.d.state == Active <==> s.d.state == Active && !EndsReception(step))
  {
    hide Steady, Isr, StoredBytes, ManagerRead;
    match step
    case Serve(overrun, full, byte) => IsrIsSteady(s, overrun, full, byte);
    case StopReception =>
      CallPasses(s, Disable);
    case ReadQueue(_) =>
  }

  /** The stored bytes are the bytes on the wire, in order and once each, as the steps alone tell. */
  lemma {:induction false} RunTakesWire(s: Sys, steps: seq<ManagedStep>)
    requires Steady(s) && s.d.state == Active && StoredBytes(s.trace) == []
    ensures var r := ManagedRun(s, steps);
            StoredBytes(r.trace) == Wire(steps) && (r.d.state == Active <==> !Ended(steps))
    decreases |steps|
  {
    hide Steady, StoredBytes, ManagedTake;
    if steps != [] {
      var rest := steps[..|steps| - 1];
      RunIsSteady(s, rest);
      RunTakesWire(s, rest);
      StepTakes(ManagedRun(s, rest), steps[|steps| - 1]);
      EndedNext(steps);
    }
  }

  /** The application has read all but at most 64 of the bytes that have arrived. */
  predicate KeepsUp(s: Sys, steps: seq<ManagedStep>) {
    ManagedRun(s, steps).client.Managed? && |Wire(steps)| <= 64 + |ManagedRun(s, steps).client.m.taken|
  }

  /** If the application never falls more than 64 bytes behind the wire, nothing is dropped. */
  lemma {:induction false} NothingIsDropped(s: Sys, steps: seq<ManagedStep>)
    requires Steady(s) && s.d.state == Active && StoredBytes(s.trace) == [] && s.client.m.lost == 0
    requires forall i :: 0 <= i <= |steps| ==> KeepsUp(s, steps[..i])
    ensures var r := ManagedRun(s, steps); r.client.Managed? && r.client.m.lost == 0
    decreases |steps|
  {
    hide Steady, StoredBytes, ManagedTake, Balanced, Wire, Tail, KeepsUp;
    SteadyIsCallable(s);
    if steps != [] {
      var rest := steps[..|steps| - 1];
      forall i | 0 <= i <= |rest| ensures KeepsUp(s, rest[..i]) {
        assert rest[..i] == steps[..i];
      }
      NothingIsDropped(s, rest);
      RunIsSteady(s, rest);
      RunIsSteady(s, steps);
      RunTakesWire(s, steps);
      StepDrops(ManagedRun(s, rest), steps[|steps| - 1]);
      assert steps[..|steps|] == steps;
      SteadyOwnership(ManagedRun(s, steps));
      DropsMeanBehind(s, steps);
    }
  }

  lemma DropsMeanBehind(s: Sys, steps: seq<ManagedStep>)
    requires KeepsUp(s, steps)
    requires var r := ManagedRun(s, steps);
             r.client.Managed? && Balanced(Wire(steps), r.client.m, Tail(r), r.d.hardwareBytes)
    ensures var r := ManagedRun(s, steps); |r.client.m.ring| == 64 ==> r.client.m.lost == 0
  {
    hide ManagedRun, Wire, Tail;
  }

  /** A step that drops bytes leaves the queue full. */
  lemma StepDrops(s: Sys, step: ManagedStep)
    requires Steady(s)
    ensures var r := ManagedTake(s, step);
            s.client.Managed? && r.client.Managed? && (r.client.m.lost > s.client.m.lost ==> |r.client.m.ring| == 64)
  {
    hide Steady, Isr, StoredBytes, OverrunsSeen;
    SteadyIsCallable(s);
    SteadyRing(s);
    match step
    case Serve(overrun, full, byte) => IsrTakes(s, overrun, full, byte);
    case StopReception =>
    case ReadQueue(_) =>
  }

  lemma SteadyRing(s: Sys)
    requires Steady(s)
    ensures |s.client.m.ring| <= 64
  {
  }

  lemma SteadyOwnership(s: Sys)
    requires Steady(s)
    ensures Accounted(s) && s.client.m.lastError in {OK, EIO}
    ensures OwnsExactly(s.client.m, if s.d.state == Idle then {} else {s.d.current, s.d.next} - {NULL})
    ensures s.d.state == Active && !s.d.initialRequest ==> s.d.next in s.client.m.bufs
  {
  }

  /** From power-up and over every run of interrupts, reads and stop requests: the owned flags name the driver's
      buffers, an active reception has its second buffer, exactly a stop or an overrun ends it, and no byte that arrives
      before that is lost but those counted as dropped. */
  lemma ReceptionConservesBytes(mem: map<nat, Byte>, client: Client, bufs: seq<nat>, steps: seq<ManagedStep>)
    requires |bufs| == 2 && 0 !in bufs
    requires bufs[0] + BUFFER_SIZE <= bufs[1] || bufs[1] + BUFFER_SIZE <= bufs[0]
    ensures var s := ManagedRun(ManagerInit(Sys(OFF, mem, [], client), bufs).0, steps);
            && s.client.Managed?
            && Balanced(Wire(steps), s.client.m, Tail(s), s.d.hardwareBytes)
            && OwnsExactly(s.client.m, if s.d.state == Idle then {} else {s.d.current, s.d.next} - {NULL})
            && (s.d.state == Active && !s.d.initialRequest ==> s.d.next in s.client.m.bufs)
            && s.client.m.lastError in {OK, EIO}
            && (s.d.state == Active <==> forall i :: 0 <= i < |steps| ==> !EndsReception(steps[i]))
  {
    StartedIsQuiet(mem, bufs);
    hide Balanced, ManagedRun, ManagerInit, StoredBytes, Tail, Steady, Wire;
    InitSucceeds(mem, client, bufs);
    StartIsSteady(mem, bufs);
    RunIsSteady(Started(mem, bufs), steps);
    RunTakesWire(Started(mem, bufs), steps);
    SteadyOwnership(ManagedRun(Started(mem, bufs), steps));
  }

  /** So an application that keeps up gets every byte: read, queued and unreported bytes together are the wire. */
  lemma KeepingUpLosesNothing(mem: map<nat, Byte>, client: Client, bufs: seq<nat>, steps: seq<ManagedStep>)
    requires |bufs| == 2 && 0 !in bufs
    requires bufs[0] + BUFFER_SIZE <= bufs[1] || bufs[1] + BUFFER_SIZE <= bufs[0]
    requires var up := ManagerInit(Sys(OFF, mem, [], client), bufs).0;
             forall i :: 0 <= i <= |steps| ==> KeepsUp(up, steps[..i])
    ensures var s := ManagedRun(ManagerInit(Sys(OFF, mem, [], client), bufs).0, steps);
            s.client.Managed? && s.client.m.dropped == 0 && Wire(steps) == s.client.m.taken + s.client.m.ring + Tail(s)
  {
    StartedIsQuiet(mem, bufs);
    hide Balanced, ManagedRun, ManagerInit, StoredBytes, Tail, Steady, Wire, KeepsUp;
    ReceptionConservesBytes(mem, client, bufs, steps);
    InitSucceeds(mem, client, bufs);
    StartIsSteady(mem, bufs);
    NothingIsDropped(Started(mem, bufs), steps);
    NoLossMeansAll(Wire(steps), ManagedRun(Started(mem, bufs), steps));
  }
}
