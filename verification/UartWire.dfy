/** What an interrupt takes from the receiver, whatever the client does in its callbacks. */
module UartWire {
  import opened Words
  import opened UartSpec
  import opened UartMonitor
  import opened UartDriver

  /** The manager has read nothing, its queue of at most 64 bytes has not shrunk, and it has dropped bytes only if the
      queue is full now. */
  ghost predicate Queues(c: Client, d: Client) {
    c.Managed? && |c.m.ring| <= 64 ==>
      && d.Managed? && d.m.taken == c.m.taken && |c.m.ring| <= |d.m.ring| <= 64 && c.m.lost <= d.m.lost
      && (d.m.lost > c.m.lost ==> |d.m.ring| == 64)
  }

  /** Nothing stored and nothing counted; so many overruns announced. */
  ghost predicate Passes(s: Sys, r: Sys, overruns: nat) {
    && r.mem == s.mem && r.d.hardwareBytes == s.d.hardwareBytes && r.d.overruns == s.d.overruns
    && r.d.irqEntries == s.d.irqEntries && Queues(s.client, r.client)
    && StoredBytes(r.trace) == StoredBytes(s.trace) && OverrunsSeen(r.trace) == OverrunsSeen(s.trace) + overruns
  }

  lemma ItemPasses(s: Sys, r: Sys, item: Item)
    requires r.trace == s.trace + [item] && !item.Stored?
    requires r.mem == s.mem && r.d.hardwareBytes == s.d.hardwareBytes && r.d.overruns == s.d.overruns
    requires r.d.irqEntries == s.d.irqEntries && r.client == s.client
    ensures Passes(s, r, if IsOverrun(item) then 1 else 0)
  {
    StoredBytesNext(s.trace, item);
    OverrunsSeenNext(s.trace, item);
  }

  lemma CallPasses(s: Sys, call: Call)
    ensures Passes(s, DoCall(s, call), 0)
  {
    hide StoredBytes, OverrunsSeen;
    if CallResult(s.d, call) == OK {
      if call.SetCallback? {
        assert s.trace + CallItems(call) == s.trace;
      } else {
        ItemPasses(s, DoCall(s, call), CallItems(call)[0]);
      }
    }
  }

  lemma {:induction false} CallsPass(s: Sys, calls: seq<Call>)
    ensures Passes(s, DoCalls(s, calls), 0)
    decreases |calls|
  {
    hide StoredBytes, OverrunsSeen, DoCall;
    if calls != [] {
      CallPasses(s, calls[0]);
      CallsPass(DoCall(s, calls[0]), calls[1..]);
    }
  }

  lemma NoticeQueues(mem: map<nat, Byte>, m: Manager, e: Event)
    ensures Queues(Managed(m), Managed(Notice(mem, m, e)))
  {
    hide AddWord, Advance, Bytes;
  }

  lemma ReactPasses(s: Sys, e: Event)
    ensures Passes(s, React(s, e), 0)
  {
    hide StoredBytes, OverrunsSeen, DoCalls, DoCall, CallResult, Notice;
    if s.client.Managed? { NoticeQueues(s.mem, s.client.m, e); }
    match s.client
    case Script(calls) =>
      if calls != [] {
        CallsPass(s.(client := Script(calls[1..])), calls[0]);
      }
    case Managed(m) =>
      var i := FirstFree(m);
      if e == Request && 0 <= i < |m.bufs| && i < |m.owned| {
        CallPasses(s, Respond(Buffer(m.bufs[i], BUFFER_SIZE)));
      }
  }

  /** No callback stores or counts a byte. */
  lemma EmitPasses(s: Sys, e: Event)
    requires s.d.callback
    ensures Passes(s, Emit(s, e), if e.Stopped? && e.reason == 1 then 1 else 0)
  {
    hide StoredBytes, OverrunsSeen, React;
    var inside := s.(d := s.d.(inCallback := true), trace := s.trace + [Saw(e)]);
    ItemPasses(s, inside, Saw(e));
    ReactPasses(inside, e);
  }

  // What the client can do to the state

  lemma {:induction false} CallsWhileActive(s: Sys, calls: seq<Call>)
    requires s.d.state == Active
    ensures var r := DoCalls(s, calls);
            && r.d.state == (if Disable in calls then Stopping else Active)
            && r.d.callback == s.d.callback && r.d.inCallback == s.d.inCallback
    decreases |calls|
  {
    if calls != [] {
      assert Disable in calls <==> calls[0] == Disable || Disable in calls[1..];
      var n := DoCall(s, calls[0]);
      if n.d.state == Active {
        CallsWhileActive(n, calls[1..]);
      } else {
        CallsWhileStopping(n, calls[1..]);
      }
    }
  }

  /** The client uses its next callback to ask for a stop. */
  predicate StopsNext(c: Client) {
    c.Script? && c.calls != [] && Disable in c.calls[0]
  }

  /** A callback of an active driver stops it exactly if the client asks for that. */
  lemma EmitWhileActive(s: Sys, e: Event)
    requires s.d.state == Active && s.d.callback && !s.d.inCallback
    ensures var r := Emit(s, e);
            r.d.callback && !r.d.inCallback && r.d.state == if StopsNext(s.client) then Stopping else Active
  {
    hide Overlap, Notice, FirstFree, DoCalls;
    var inside := s.(d := s.d.(inCallback := true), trace := s.trace + [Saw(e)]);
    match s.client
    case Script(calls) =>
      if calls != [] {
        CallsWhileActive(inside.(client := Script(calls[1..])), calls[0]);
      }
    case Managed(_) =>
  }

  /** In the middle of an interrupt: the client can be called. */
  ghost predicate Callable(s: Sys) {
    s.d.state != Idle && s.d.callback && !s.d.inCallback
  }

  lemma EmitKeepsCallable(s: Sys, e: Event)
    requires Callable(s)
    ensures Callable(Emit(s, e)) && Passes(s, Emit(s, e), if e.Stopped? && e.reason == 1 then 1 else 0)
    ensures s.d.state == Stopping ==> Emit(s, e).d == s.d
  {
    hide Emit, Passes;
    EmitPasses(s, e);
    if s.d.state == Active {
      EmitWhileActive(s, e);
    } else {
      EmitWhileStopping(s, e);
    }
  }

  // The parts of the interrupt routine

  lemma ReportPasses(s: Sys)
    requires Callable(s)
    ensures Callable(Report(s)) && Passes(s, Report(s), 0)
    ensures s.d.state == Stopping ==> Report(s).d.state == Stopping
  {
    hide Emit, StoredBytes, OverrunsSeen;
    var d := s.d;
    if d.currentPos != d.reported {
      EmitKeepsCallable(s.(d := d.(reported := d.currentPos)), Ready(d.current, d.reported, Unreported(d)));
    }
  }

  lemma ReleasePasses(s: Sys, buf: nat)
    requires Callable(s)
    ensures Callable(Release(s, buf)) && Passes(s, Release(s, buf), 0)
    ensures s.d.state == Stopping ==> Release(s, buf).d.state == Stopping
  {
    hide Emit, StoredBytes, OverrunsSeen;
    if buf != NULL {
      EmitKeepsCallable(s, Released(buf));
    }
  }

  lemma BeginStopPasses(s: Sys, reason: nat)
    requires Callable(s)
    ensures var r := BeginStop(s, reason);
            Callable(r) && r.d.state == Stopping && Passes(s, r, if reason == OVERRUN then 1 else 0)
  {
    hide Emit, Report, StoredBytes, OverrunsSeen;
    var s0 := s.(d := s.d.(state := Stopping, initialRequest := false, requestOutstanding := false));
    if reason != 0 {
      var e := Stopped(reason, s0.d.current, s0.d.reported, Unreported(s0.d));
      EmitKeepsCallable(s0, e);
      ReportPasses(Emit(s0, e));
    } else {
      ReportPasses(s0);
    }
  }

  lemma FinishPasses(s: Sys, reason: nat)
    requires Callable(s)
    ensures Passes(s, Finish(s, reason), if reason == OVERRUN then 1 else 0)
  {
    hide Emit, BeginStop, Release, StoredBytes, OverrunsSeen;
    BeginStopPasses(s, reason);
    var s1 := BeginStop(s, reason);
    var s2 := s1.(d := NoBuffers(s1.d));
    ReleasePasses(s2, s1.d.current);
    var s3 := Release(s2, s1.d.current);
    ReleasePasses(s3, s1.d.next);
    var s4 := Release(s3, s1.d.next);
    EmitPasses(s4.(d := s4.d.(state := Idle)), Disabled);
  }

  lemma RequestPasses(s: Sys)
    requires Callable(s)
    ensures Callable(RequestBuffer(s)) && Passes(s, RequestBuffer(s), 0)
    ensures s.d.state == Active ==> RequestBuffer(s).d.state == if StopsNext(s.client) then Stopping else Active
  {
    hide Emit, StoredBytes, OverrunsSeen;
    var asking := s.(d := s.d.(requestOutstanding := true));
    EmitKeepsCallable(asking, Request);
    if s.d.state == Active {
      EmitWhileActive(asking, Request);
    }
  }

  lemma SwitchPasses(s: Sys)
    requires Callable(s)
    ensures Passes(s, SwitchBuffer(s), 0)
  {
    hide Release, RequestBuffer, Finish, StoredBytes, OverrunsSeen;
    var s1 := s.(d := Switched(s.d));
    ReleasePasses(s1, s.d.current);
    var s2 := Release(s1, s.d.current);
    if s2.d.state == Active {
      RequestPasses(s2);
    }
    var s3 := if s2.d.state == Active then RequestBuffer(s2) else s2;
    if s3.d.state == Stopping {
      FinishPasses(s3, 0);
    }
  }

  lemma FullPasses(s: Sys)
    requires Callable(s)
    ensures Passes(s, BufferFull(s), 0)
  {
    hide Report, SwitchBuffer, Finish, StoredBytes, OverrunsSeen;
    ReportPasses(s);
    if Report(s).d.state == Stopping || Report(s).d.next == NULL {
      FinishPasses(Report(s), 0);
    } else {
      SwitchPasses(Report(s));
    }
  }

  // The whole routine

  /** What one interrupt takes: the byte is stored in the next cell and counted, or nothing is; an overrun is counted
      and announced. */
  ghost predicate Takes(s: Sys, r: Sys, stored: bool, overrun: bool, byte: Byte) {
    && StoredBytes(r.trace) == StoredBytes(s.trace) + (if stored then [byte] else [])
    && r.mem == (if stored then s.mem[s.d.current + s.d.currentPos := byte] else s.mem)
    && r.d.hardwareBytes == (if stored then AddWord(s.d.hardwareBytes, 1) else s.d.hardwareBytes)
    && OverrunsSeen(r.trace) == OverrunsSeen(s.trace) + (if overrun then 1 else 0)
    && r.d.overruns == (if overrun then AddWord(s.d.overruns, 1) else s.d.overruns)
    && Queues(s.client, r.client)
  }

  lemma ReceiveTakes(s: Sys, overrun: bool, full: bool, byte: Byte)
    requires Callable(s) && s.d.state == Active
    ensures Takes(s, Receive(s, overrun, full, byte), !overrun && full, overrun, byte)
    ensures Receive(s, overrun, full, byte).d.irqEntries == s.d.irqEntries
  {
    hide Finish, BufferFull, StoredBytes, OverrunsSeen;
    if overrun {
      FinishPasses(s.(d := s.d.(overruns := AddWord(s.d.overruns, 1))), OVERRUN);
    } else if full {
      var at := s.d.current + s.d.currentPos;
      StoredBytesNext(s.trace, Stored(at, byte));
      OverrunsSeenNext(s.trace, Stored(at, byte));
      if StoreByte(s, byte).d.currentPos >= StoreByte(s, byte).d.currentLen {
        FullPasses(StoreByte(s, byte));
      }
    }
  }

  /** The receiver is looked at by an active driver whose client does not use the first request to ask for a stop; then
      an overrun is counted and announced, and otherwise a byte that has arrived is stored, and only that. */
  lemma IsrTakes(s: Sys, overrun: bool, full: bool, byte: Byte)
    requires (s.d.state != Idle ==> s.d.callback) && !s.d.inCallback
    ensures var looks := s.d.state == Active && !(s.d.initialRequest && StopsNext(s.client));
            Takes(s, Isr(s, overrun, full, byte), looks && !overrun && full, looks && overrun, byte)
    ensures Isr(s, overrun, full, byte).d.irqEntries == AddWord(s.d.irqEntries, 1)
  {
    hide Finish, Receive, RequestBuffer, StoredBytes, OverrunsSeen;
    var entered := s.(d := Enter(s.d));
    match s.d.state
    case Idle =>
    case Stopping => FinishPasses(entered, 0);
    case Active =>
      if s.d.initialRequest {
        var asking := entered.(d := entered.d.(initialRequest := false));
        RequestPasses(asking);
        var asked := RequestBuffer(asking);
        if asked.d.state == Stopping {
          FinishPasses(asked, 0);
        } else {
          FirstCellStays(asking);
          ReceiveTakes(asked, overrun, full, byte);
        }
      } else {
        ReceiveTakes(entered, overrun, full, byte);
      }
  }

  /** The interrupt routine against the reference protocol and the receiver, for every client: driver and protocol stay
      together, the next cell gets the byte that has arrived, and nothing else is stored. */
  lemma IsrIsExact(s: Sys, overrun: bool, full: bool, byte: Byte)
    requires Sound(s) && Settled(s.d)
    ensures var r := Isr(s, overrun, full, byte);
            var looks := s.d.state == Active && !(s.d.initialRequest && StopsNext(s.client));
            Sound(r) && Settled(r.d) && Takes(s, r, looks && !overrun && full, looks && overrun, byte)
  {
    hide Isr, Takes, StopsNext;
    IsrIsSound(s, overrun, full, byte);
    IsrTakes(s, overrun, full, byte);
  }

  /** A request leaves the place for the next byte alone. */
  lemma FirstCellStays(s: Sys)
    requires Callable(s) && s.d.state == Active
    ensures RequestBuffer(s).d.current == s.d.current && RequestBuffer(s).d.currentPos == s.d.currentPos
  {
    hide Overlap, Notice, FirstFree, DoCalls;
    var inside := s.(d := s.d.(requestOutstanding := true, inCallback := true), trace := s.trace + [Saw(Request)]);
    match s.client
    case Script(calls) =>
      if calls != [] {
        CallsKeepPlace(inside.(client := Script(calls[1..])), calls[0]);
      }
    case Managed(_) =>
  }

  lemma {:induction false} CallsKeepPlace(s: Sys, calls: seq<Call>)
    requires s.d.state != Idle
    ensures DoCalls(s, calls).d.current == s.d.current && DoCalls(s, calls).d.currentPos == s.d.currentPos
    decreases |calls|
  {
    if calls != [] {
      CallsKeepPlace(DoCall(s, calls[0]), calls[1..]);
    }
  }

  /** An accepted stop request is carried out by the interrupt it asks for. */
  lemma StopTakesEffect(s: Sys, overrun: bool, full: bool, byte: Byte)
    requires Sound(s) && Settled(s.d) && s.d.state == Active
    ensures CallResult(s.d, Disable) == OK && DoCall(s, Disable).d.irqPending
    ensures var r := Isr(DoCall(s, Disable), overrun, full, byte);
            Closings(r.trace) == Closings(s.trace) + 1 && StoredBytes(r.trace) == StoredBytes(s.trace)
  {
    hide Isr, StoredBytes, OverrunsSeen, Closings, Judge, Overlap;
    CallIsSound(s, Disable);
    CallPasses(s, Disable);
    ClosingsNext(s.trace, StopAsked);
    StopEndsSession(DoCall(s, Disable), overrun, full, byte);
    IsrTakes(DoCall(s, Disable), overrun, full, byte);
  }

  // Which calls are accepted

  predicate Covers(b: Buffer, x: nat) {
    b.addr <= x < b.addr + b.len
  }

  /** Some cell belongs to both. */
  ghost predicate Meet(a: Buffer, b: Buffer) {
    exists x: nat :: Covers(a, x) && Covers(b, x)
  }

  lemma OverlapIsMeeting(a: Buffer, b: Buffer)
    requires a.len > 0 && b.len > 0
    ensures Overlap(a, b) <==> Meet(a, b)
  {
    if Overlap(a, b) {
      var x := if a.addr <= b.addr then b.addr else a.addr;
      assert Covers(a, x) && Covers(b, x);
    }
  }

  /** What each call returns, told from the trace so far: whether a session is open, a request unanswered and one buffer
      held; besides that it matters only whether a stop is under way and whether a callback is set or running. */
  lemma CallsAreAnswered(s: Sys, call: Call)
    requires Sound(s)
    ensures var m, r := Judge(s.trace).m, CallResult(s.d, call);
            match call
            case Enable(b, forever) =>
              r == (if b.addr == 0 || b.len == 0 then EINVAL else if !forever then ENOTSUP
                    else if m.open then EBUSY else if !s.d.callback then EINVAL else OK)
            case Respond(b) =>
              r == (if b.addr == 0 || b.len == 0 then EINVAL
                    else if !m.open || s.d.state == Stopping then EACCES
                    else if |m.held| != 1 || !m.asked then EBUSY
                    else if Meet(b, Range(m.held[0])) then EINVAL else OK)
            case Disable => r == (if !m.open then EFAULT else if s.d.state == Stopping then EALREADY else OK)
            case SetCallback(_) => r == (if m.open || s.d.inCallback then EBUSY else OK)
  {
    hide Judge, Overlap, Meet;
    if call.Respond? && s.d.current != NULL && call.buffer.len > 0 && s.d.currentLen > 0 {
      OverlapIsMeeting(call.buffer, Buffer(s.d.current, s.d.currentLen));
    }
  }
}
