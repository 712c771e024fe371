/** The driver follows the reference protocol for every client. */
module UartDriver {
  import opened Words
  import opened UartSpec
  import opened UartMonitor

  function HeldBy(d: Driver): seq<Holding> {
    if d.current == NULL then []
    else
      [Holding(d.current, d.currentLen, d.currentPos, d.reported)]
      + (if d.next == NULL then [] else [Holding(d.next, d.nextLen, 0, 0)])
  }

  /** The monitor state that the driver's fields stand for. */
  function Abs(d: Driver): Monitor {
    Monitor(d.state != Idle, d.requestOutstanding, HeldBy(d))
  }

  ghost predicate WellFormed(d: Driver) {
    && (d.state == Idle ==> d.current == NULL && d.next == NULL && !d.requestOutstanding && !d.initialRequest)
    && (d.state != Idle ==>
          && d.callback && d.current != NULL && d.reported <= d.currentPos <= d.currentLen && d.currentLen > 0
          && (d.next != NULL ==>
                && d.nextLen > 0 && !d.requestOutstanding
                && !Overlap(Buffer(d.next, d.nextLen), Buffer(d.current, d.currentLen)))
          && (d.initialRequest ==> d.next == NULL && !d.requestOutstanding))
  }

  ghost predicate Sound(s: Sys) {
    WellFormed(s.d) && Judge(s.trace) == Accepted(Abs(s.d))
  }

  /** Outside the driver a buffer is never full, and a wanted stop or first request has its interrupt pending. */
  ghost predicate Settled(d: Driver) {
    && !d.inCallback
    && (d.state != Idle ==> d.currentPos < d.currentLen)
    && (d.state == Stopping || d.initialRequest ==> d.irqPending)
  }

  /** What calls made by a client can change. */
  ghost predicate Reacted(s: Sys, r: Sys) {
    && r.mem == s.mem && r.d.inCallback == s.d.inCallback
    && (s.d.state == Stopping ==> r.d == s.d && r.trace == s.trace)
    && (s.d.state == Active ==>
          && r.d.state != Idle && r.d.current == s.d.current && r.d.currentLen == s.d.currentLen
          && r.d.currentPos == s.d.currentPos && r.d.reported == s.d.reported
          && r.d.initialRequest == s.d.initialRequest
          && (s.d.next != NULL || !s.d.requestOutstanding ==>
                r.d.next == s.d.next && r.d.nextLen == s.d.nextLen && !r.d.requestOutstanding))
    && (s.d.irqPending ==> r.d.irqPending)
    && (r.d.state == Stopping && s.d.state != Stopping ==> r.d.irqPending)
    && (s.d.state == Idle && r.d.state != Idle ==> r.d.currentPos == 0 && r.d.irqPending)
    && Closings(r.trace) == Closings(s.trace)
  }

  lemma ReactedIsTransitive(s: Sys, r: Sys, t: Sys)
    requires Reacted(s, r) && Reacted(r, t) && WellFormed(r.d)
    ensures Reacted(s, t)
  {
  }

  lemma CallIsSound(s: Sys, call: Call)
    requires Sound(s)
    ensures Sound(DoCall(s, call)) && Reacted(s, DoCall(s, call))
  {
    hide WellFormed, Judge, Closings, Watch, Abs;
    CallReacts(s, call);
    if CallResult(s.d, call) == OK {
      CallIsWatched(s.d, call);
      if call.SetCallback? {
        assert s.trace + CallItems(call) == s.trace;
      } else {
        JudgeNext(s.trace, CallItems(call)[0]);
      }
    }
  }

  lemma CallReacts(s: Sys, call: Call)
    requires WellFormed(s.d)
    ensures Reacted(s, DoCall(s, call))
  {
    hide Closings, Overlap;
    if CallResult(s.d, call) == OK {
      if call.SetCallback? {
        assert s.trace + CallItems(call) == s.trace;
      } else {
        ClosingsNext(s.trace, CallItems(call)[0]);
      }
    }
  }

  lemma ClosingsNext(trace: seq<Item>, item: Item)
    ensures Closings(trace + [item]) == Closings(trace) + if item == Saw(Disabled) then 1 else 0
  {
  }

  lemma CallIsWatched(d: Driver, call: Call)
    requires WellFormed(d) && CallResult(d, call) == OK
    ensures if call.SetCallback? then Abs(AfterCall(d, call)) == Abs(d)
            else Watch(Abs(d), CallItems(call)[0]) == Accepted(Abs(AfterCall(d, call)))
    ensures WellFormed(AfterCall(d, call))
  {
  }

  lemma {:induction false} CallsAreSound(s: Sys, calls: seq<Call>)
    requires Sound(s)
    ensures Sound(DoCalls(s, calls)) && Reacted(s, DoCalls(s, calls))
    decreases |calls|
  {
    if calls != [] {
      CallIsSound(s, calls[0]);
      CallsAreSound(DoCall(s, calls[0]), calls[1..]);
      ReactedIsTransitive(s, DoCall(s, calls[0]), DoCalls(s, calls));
    }
  }

  lemma ReactionIsSound(s: Sys, e: Event)
    requires Sound(s)
    ensures Sound(React(s, e)) && Reacted(s, React(s, e))
  {
    match s.client
    case Script(calls) =>
      if calls != [] {
        CallsAreSound(s.(client := Script(calls[1..])), calls[0]);
      }
    case Managed(m) => ManagerIsSound(s, m, e);
  }

  lemma ManagerIsSound(s: Sys, m: Manager, e: Event)
    requires Sound(s)
    ensures Sound(ManagerEvent(s, m, e)) && Reacted(s, ManagerEvent(s, m, e))
  {
    if e == Request {
      AnswerIsSound(s, m);
    } else {
      assert ManagerEvent(s, m, e).(client := s.client) == s;
    }
  }

  lemma AnswerIsSound(s: Sys, m: Manager)
    requires Sound(s)
    ensures Sound(AnswerRequest(s, m)) && Reacted(s, AnswerRequest(s, m))
  {
    var i := FirstFree(m);
    if 0 <= i < |m.bufs| && i < |m.owned| {
      CallIsSound(s, Respond(Buffer(m.bufs[i], BUFFER_SIZE)));
    }
  }

  /** Once the driver is stopping, no client can change anything but itself. */
  lemma {:induction false} CallsWhileStopping(s: Sys, calls: seq<Call>)
    requires s.d.state == Stopping
    ensures DoCalls(s, calls) == s
    decreases |calls|
  {
    if calls != [] {
      CallsWhileStopping(s, calls[1..]);
    }
  }

  lemma EmitWhileStopping(s: Sys, e: Event)
    requires s.d.state == Stopping && s.d.callback && !s.d.inCallback
    ensures Emit(s, e).d == s.d && Emit(s, e).mem == s.mem && Emit(s, e).trace == s.trace + [Saw(e)]
  {
    hide Notice, Overlap, FirstFree, DoCalls;
    var inside := s.(d := s.d.(inCallback := true), trace := s.trace + [Saw(e)]);
    match s.client
    case Script(calls) =>
      if calls != [] {
        CallsWhileStopping(inside.(client := Script(calls[1..])), calls[0]);
      }
    case Managed(_) =>
  }

  /** Emitting an event that leads the monitor to the driver's state keeps them together. */
  lemma EmitIsSound(s: Sys, m: Monitor, e: Event)
    requires Judge(s.trace) == Accepted(m) && Watch(m, Saw(e)) == Accepted(Abs(s.d))
    requires WellFormed(s.d) && s.d.callback && !s.d.inCallback
    ensures Sound(Emit(s, e)) && Reacted(s.(trace := s.trace + [Saw(e)]), Emit(s, e))
  {
    hide Watch, React, Judge, Closings;
    var inside := s.(d := s.d.(inCallback := true), trace := s.trace + [Saw(e)]);
    JudgeNext(s.trace, Saw(e));
    assert Abs(inside.d) == Abs(s.d);
    ReactionIsSound(inside, e);
    var r := React(inside, e);
    assert Abs(r.d.(inCallback := false)) == Abs(r.d);
  }

  // Stopping

  lemma ReportWhileStopping(s: Sys, m: Monitor)
    requires s.d.state == Stopping && WellFormed(s.d) && !s.d.inCallback
    requires Judge(s.trace) == Accepted(m) && m.held == HeldBy(s.d) && m.open
    ensures var r := Report(s);
            && r.d == s.d.(reported := s.d.currentPos) && r.mem == s.mem
            && Judge(r.trace) == Accepted(m.(held := HeldBy(r.d)))
            && Closings(r.trace) == Closings(s.trace)
  {
    var d := s.d;
    if d.currentPos != d.reported {
      var e := Ready(d.current, d.reported, d.currentPos - d.reported);
      EmitWhileStopping(s.(d := d.(reported := d.currentPos)), e);
      JudgeNext(s.trace, Saw(e));
      ClosingsNext(s.trace, Saw(e));
    }
  }

  lemma BeginStopIsWatched(s: Sys, reason: nat)
    requires s.d.state != Idle && WellFormed(s.d) && Judge(s.trace) == Accepted(Abs(s.d)) && !s.d.inCallback
    ensures var r := BeginStop(s, reason);
            && r.d == s.d.(state := Stopping, initialRequest := false, requestOutstanding := false,
                           reported := s.d.currentPos)
            && r.mem == s.mem
            && Judge(r.trace) == Accepted(Monitor(true, s.d.requestOutstanding, HeldBy(r.d)))
            && Closings(r.trace) == Closings(s.trace)
  {
    var m := Abs(s.d);
    var s0 := s.(d := s.d.(state := Stopping, initialRequest := false, requestOutstanding := false));
    if reason != 0 {
      var e := Stopped(reason, s0.d.current, s0.d.reported, Unreported(s0.d));
      EmitWhileStopping(s0, e);
      JudgeNext(s.trace, Saw(e));
      ClosingsNext(s.trace, Saw(e));
      ReportWhileStopping(Emit(s0, e), m);
    } else {
      ReportWhileStopping(s0, m);
    }
  }

  lemma ReleaseWhileStopping(s: Sys, m: Monitor)
    requires s.d.state == Stopping && s.d.callback && !s.d.inCallback && Judge(s.trace) == Accepted(m)
    requires m.held != [] && m.held[0].addr != NULL && m.held[0].reported == m.held[0].filled
    ensures var r := Release(s, m.held[0].addr);
            && r.d == s.d && r.mem == s.mem
            && Judge(r.trace) == Accepted(Monitor(m.open, false, m.held[1..]))
            && Closings(r.trace) == Closings(s.trace)
  {
    var e := Released(m.held[0].addr);
    EmitWhileStopping(s, e);
    JudgeNext(s.trace, Saw(e));
    ClosingsNext(s.trace, Saw(e));
  }

  /** Both buffers go back before DISABLED closes the session. */
  lemma FinishIsSound(s: Sys, reason: nat)
    requires s.d.state != Idle && WellFormed(s.d) && Judge(s.trace) == Accepted(Abs(s.d)) && !s.d.inCallback
    ensures Sound(Finish(s, reason)) && Settled(Finish(s, reason).d)
    ensures Closings(Finish(s, reason).trace) == Closings(s.trace) + 1
    ensures Finish(s, reason).mem == s.mem
  {
    BeginStopIsWatched(s, reason);
    var s1 := BeginStop(s, reason);
    var m1 := Judge(s1.trace).m;
    var s2 := s1.(d := NoBuffers(s1.d));
    ReleaseWhileStopping(s2, m1);
    var s3 := Release(s2, s1.d.current);
    var m3 := Judge(s3.trace).m;
    if s1.d.next != NULL {
      ReleaseWhileStopping(s3, m3);
    }
    var s4 := Release(s3, s1.d.next);
    assert Judge(s4.trace).m == Monitor(true, false, []);
    ClosingIsSound(s4.(d := s4.d.(state := Idle)));
  }

  lemma ClosingIsSound(s: Sys)
    requires WellFormed(s.d) && s.d.state == Idle && s.d.callback && !s.d.inCallback
    requires Judge(s.trace) == Accepted(Monitor(true, false, []))
    ensures Sound(Emit(s, Disabled)) && Settled(Emit(s, Disabled).d) && Emit(s, Disabled).mem == s.mem
    ensures Closings(Emit(s, Disabled).trace) == Closings(s.trace) + 1
  {
    EmitIsSound(s, Monitor(true, false, []), Disabled);
    ClosingsNext(s.trace, Saw(Disabled));
  }

  // Receiving

  lemma RequestIsSound(s: Sys)
    requires Sound(s) && s.d.state == Active && s.d.next == NULL && !s.d.inCallback && !s.d.initialRequest
    ensures var r := RequestBuffer(s);
            && Sound(r) && r.d.state != Idle && !r.d.inCallback && !r.d.initialRequest && r.mem == s.mem
            && r.d.current == s.d.current && r.d.currentLen == s.d.currentLen
            && r.d.currentPos == s.d.currentPos && r.d.reported == s.d.reported
  {
    EmitIsSound(s.(d := s.d.(requestOutstanding := true)), Abs(s.d), Request);
  }

  lemma StoreIsSound(s: Sys, byte: Byte)
    requires Sound(s) && s.d.state == Active && s.d.currentPos < s.d.currentLen
    ensures Sound(StoreByte(s, byte))
    ensures StoreByte(s, byte).mem == s.mem[s.d.current + s.d.currentPos := byte]
  {
  }

  lemma ReportIsSound(s: Sys)
    requires Sound(s) && s.d.state == Active && !s.d.inCallback
    ensures var r := Report(s);
            && Sound(r) && r.d.state != Idle && !r.d.inCallback && r.mem == s.mem
            && r.d.current == s.d.current && r.d.currentLen == s.d.currentLen
            && r.d.reported == r.d.currentPos == s.d.currentPos && r.d.initialRequest == s.d.initialRequest
            && (s.d.next != NULL ==> r.d.next == s.d.next && r.d.nextLen == s.d.nextLen)
  {
    var d := s.d;
    if d.currentPos != d.reported {
      EmitIsSound(s.(d := d.(reported := d.currentPos)), Abs(d), Ready(d.current, d.reported, Unreported(d)));
    }
  }

  lemma SwitchIsSound(s: Sys)
    requires Sound(s) && s.d.state == Active && s.d.next != NULL && s.d.reported == s.d.currentPos && !s.d.inCallback
    requires !s.d.initialRequest
    ensures Sound(SwitchBuffer(s)) && Settled(SwitchBuffer(s).d)
    ensures SwitchBuffer(s).mem == s.mem
  {
    var d := s.d;
    var s1 := s.(d := Switched(d));
    EmitIsSound(s1, Abs(d), Released(d.current));
    var s2 := Release(s1, d.current);
    assert s2.d.next == NULL;
    if s2.d.state == Active {
      RequestIsSound(s2);
    }
    var s3 := if s2.d.state == Active then RequestBuffer(s2) else s2;
    if s3.d.state == Stopping {
      FinishIsSound(s3, 0);
    }
  }

  lemma FullIsSound(s: Sys)
    requires Sound(s) && s.d.state == Active && !s.d.inCallback && !s.d.initialRequest
    ensures Sound(BufferFull(s)) && Settled(BufferFull(s).d) && BufferFull(s).mem == s.mem
  {
    ReportIsSound(s);
    var r := Report(s);
    if r.d.state == Stopping || r.d.next == NULL {
      FinishIsSound(r, 0);
    } else {
      SwitchIsSound(r);
    }
  }

  /** What an interrupt may leave behind: at most the cell where the current buffer is to grow is written. */
  ghost predicate Served(s: Sys, r: Sys, byte: Byte) {
    Sound(r) && Settled(r.d) && (r.mem == s.mem || r.mem == s.mem[s.d.current + s.d.currentPos := byte])
  }

  lemma ReceiveIsSound(s: Sys, overrun: bool, full: bool, byte: Byte)
    requires Sound(s) && s.d.state == Active && !s.d.inCallback && !s.d.initialRequest
    requires s.d.currentPos < s.d.currentLen
    ensures Served(s, Receive(s, overrun, full, byte), byte)
  {
    if overrun {
      var counted := s.(d := s.d.(overruns := AddWord(s.d.overruns, 1)));
      assert Abs(counted.d) == Abs(s.d);
      FinishIsSound(counted, OVERRUN);
    } else if full {
      StoreIsSound(s, byte);
      var r := StoreByte(s, byte);
      if r.d.currentPos >= r.d.currentLen {
        FullIsSound(r);
      }
    }
  }

  lemma FirstRequestIsSound(s: Sys)
    requires Sound(s) && s.d.state == Active && s.d.initialRequest && !s.d.inCallback
    ensures var r := FirstRequest(s);
            && Sound(r) && r.d.state != Idle && !r.d.inCallback && !r.d.initialRequest && r.mem == s.mem
            && r.d.current == s.d.current && r.d.currentLen == s.d.currentLen
            && r.d.currentPos == s.d.currentPos && r.d.reported == s.d.reported
  {
    var asking := s.(d := s.d.(initialRequest := false));
    assert Abs(asking.d) == Abs(s.d);
    RequestIsSound(asking);
  }

  lemma ResumeIsSound(s: Sys, overrun: bool, full: bool, byte: Byte)
    requires Sound(s) && s.d.state != Idle && !s.d.inCallback && !s.d.initialRequest
    requires s.d.currentPos < s.d.currentLen
    ensures Served(s, Resume(s, overrun, full, byte), byte)
  {
    if s.d.state == Stopping {
      FinishIsSound(s, 0);
    } else {
      ReceiveIsSound(s, overrun, full, byte);
    }
  }

  lemma FirstIsrIsSound(s: Sys, overrun: bool, full: bool, byte: Byte)
    requires Sound(s) && s.d.state == Active && s.d.initialRequest && !s.d.inCallback && s.d.currentPos < s.d.currentLen
    ensures Served(s, Resume(FirstRequest(s), overrun, full, byte), byte)
  {
    hide FirstRequest, Resume, Judge, HeldBy, Overlap;
    FirstRequestIsSound(s);
    ResumeIsSound(FirstRequest(s), overrun, full, byte);
  }

  lemma EnterIsSound(s: Sys)
    requires Sound(s)
    ensures Sound(s.(d := Enter(s.d)))
  {
  }

  /** The interrupt service routine keeps driver and protocol together. */
  lemma IsrIsSound(s: Sys, overrun: bool, full: bool, byte: Byte)
    requires Sound(s) && Settled(s.d)
    ensures Served(s, Isr(s, overrun, full, byte), byte)
  {
    hide FirstRequest, Resume, Receive, Finish, Judge, HeldBy, Overlap;
    var entered := s.(d := Enter(s.d));
    EnterIsSound(s);
    match s.d.state
    case Stopping => FinishIsSound(entered, 0);
    case Idle =>
    case Active =>
      if s.d.initialRequest {
        FirstIsrIsSound(entered, overrun, full, byte);
      } else {
        ReceiveIsSound(entered, overrun, full, byte);
      }
  }

  /** A stop that was wanted on entry has closed its session on return. */
  lemma StopEndsSession(s: Sys, overrun: bool, full: bool, byte: Byte)
    requires Sound(s) && Settled(s.d) && s.d.state == Stopping
    ensures Closings(Isr(s, overrun, full, byte).trace) == Closings(s.trace) + 1
  {
    EnterIsSound(s);
    FinishIsSound(s.(d := Enter(s.d)), 0);
  }

  // Whole runs

  datatype Step = MainCall(call: Call) | Interrupt(overrun: bool, full: bool, byte: Byte)

  function Take(s: Sys, step: Step): Sys {
    match step
    case MainCall(call) => DoCall(s, call)
    case Interrupt(overrun, full, byte) => Isr(s, overrun, full, byte)
  }

  function Run(s: Sys, steps: seq<Step>): Sys
    decreases |steps|
  {
    if steps == [] then s else Take(Run(s, steps[..|steps| - 1]), steps[|steps| - 1])
  }

  lemma {:induction false} RunIsSound(s: Sys, steps: seq<Step>)
    requires Sound(s) && Settled(s.d)
    ensures Sound(Run(s, steps)) && Settled(Run(s, steps).d)
    decreases |steps|
  {
    if steps != [] {
      var before := Run(s, steps[..|steps| - 1]);
      RunIsSound(s, steps[..|steps| - 1]);
      match steps[|steps| - 1]
      case MainCall(call) => CallIsSound(before, call);
      case Interrupt(overrun, full, byte) => IsrIsSound(before, overrun, full, byte);
    }
  }

  /** From power-up, for every client and every sequence of calls and interrupts: buffers are released once each
      in order, the spans tile what was stored, and every session that is over ended in one DISABLED. */
  lemma DriverKeepsProtocol(mem: map<nat, Byte>, client: Client, steps: seq<Step>)
    ensures var s := Run(Sys(OFF, mem, [], client), steps);
            && Judge(s.trace) == Accepted(Abs(s.d))
            && Taken(s.trace) == GivenBack(s.trace) + Addresses(HeldBy(s.d))
            && StoredCells(s.trace) == ReportedCells(s.trace) + PendingCells(Abs(s.d))
            && Sessions(s.trace) == Closings(s.trace) + (if s.d.state == Idle then 0 else 1)
            && Tidy(HeldBy(s.d))
  {
    var start := Sys(OFF, mem, [], client);
    var s := Run(start, steps);
    RunIsSound(start, steps);
    EachBufferReleasedOnce(s.trace);
    SpansTileStored(s.trace);
    EachSessionClosedOnce(s.trace);
    AcceptedIsTidy(s.trace);
  }
}
