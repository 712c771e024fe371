/** The receive driver and rx_manager as the programs they are: objects whose fields the calls update. */
module UartProgram {
  import opened Words
  import opened UartSpec
  import opened UartWire

  class RxManager {
    const bufs: seq<nat>
    var owned: seq<bool>
    var ring: seq<Byte>
    var enabled: bool
    var readyEvents: Word
    var requestEvents: Word
    var releasedEvents: Word
    var disabledEvents: Word
    var stoppedEvents: Word
    var received: Word
    var buffered: Word
    var read: Word
    var dropped: Word
    var lastStop: nat
    var lastError: Result
    ghost var taken: seq<Byte>
    ghost var lost: nat

    ghost function Value(): Manager
      reads this
    {
      Manager(bufs, owned, ring, enabled, readyEvents, requestEvents, releasedEvents, disabledEvents, stoppedEvents,
              received, buffered, read, dropped, lastStop, lastError, taken, lost)
    }

    constructor (bufs: seq<nat>)
      ensures Value() == Blank(bufs)
    {
      this.bufs, owned, ring, enabled := bufs, [false, false], [], false;
      readyEvents, requestEvents, releasedEvents, disabledEvents, stoppedEvents := 0, 0, 0, 0, 0;
      received, buffered, read, dropped, lastStop, lastError := 0, 0, 0, 0, 0, OK;
      taken, lost := [], 0;
    }

    /** rx_manager_init on a cleared manager: register, hand over the first buffer, enable. */
    method Start(uart: Uart) returns (result: Result)
      requires uart.manager == this && |bufs| == 2 && Value() == Blank(bufs)
      modifies this, uart
      ensures (uart.State(), result) == ManagerInit(old(uart.State()), bufs) && |owned| == 2
    {
      hide CallResult, AfterCall, CallItems;
      result := uart.SetReceiveCallback(true);
      if result != OK {
        lastError := result;
        return;
      }
      owned, enabled := owned[0 := true], true;
      assert owned == [true, false];
      result := uart.EnableReceive(bufs[0], BUFFER_SIZE, true);
      if result != OK {
        owned, enabled, lastError := owned[0 := false], false, result;
        assert owned == [false, false];
        var ignored := uart.SetReceiveCallback(false);
      }
    }

    method FindBuffer(buf: nat) returns (index: int)
      requires |bufs| == 2
      ensures index == BufferIndex(Value(), buf)
    {
      for i := 0 to 2
        invariant forall j :: 0 <= j < i ==> bufs[j] != buf
      {
        if buf == bufs[i] { return i; }
      }
      return -1;
    }

    method FindFree() returns (index: int)
      requires |owned| == 2
      ensures index == FirstFree(Value())
    {
      for i := 0 to 2
        invariant forall j :: 0 <= j < i ==> owned[j]
      {
        if !owned[i] { return i; }
      }
      return -1;
    }

    /** ring_buf_put: as much of the front of the span as there is room for. */
    method Put(span: seq<Byte>) returns (copied: nat)
      modifies `ring
      ensures copied == if |span| <= Room(old(Value())) then |span| else Room(old(Value()))
      ensures Value() == old(Value()).(ring := old(ring) + span[..copied])
    {
      var room := if |ring| >= RING_SIZE then 0 else RING_SIZE - |ring|;
      copied := if |span| <= room then |span| else room;
      ring := ring + span[..copied];
    }

    method Count(length: nat, copied: nat)
      requires copied <= length
      modifies `readyEvents, `received, `buffered
      ensures Value() == old(Value()).(readyEvents := AddWord(old(readyEvents), 1),
                                       received := Advance(old(received), length),
                                       buffered := Advance(old(buffered), copied))
    {
      hide Advance, AddWord;
      readyEvents := AddWord(readyEvents, 1);
      received, buffered := Advance(received, length), Advance(buffered, copied);
    }

    method Drop(count: nat)
      modifies `dropped, `lost
      ensures Value() == old(Value()).(dropped := Advance(old(dropped), count), lost := old(lost) + count)
    {
      hide Advance, AddWord;
      dropped, lost := Advance(dropped, count), lost + count;
    }

    method QueueSpan(span: seq<Byte>)
      modifies this
      ensures Value() == TakeSpan(old(Value()), span)
    {
      hide Advance, AddWord, Room;
      var copied := Put(span);
      Count(|span|, copied);
      Drop(|span| - copied);
    }

    method OnReady(uart: Uart, buf: nat, offset: nat, len: nat)
      requires |bufs| == 2
      modifies this
      ensures Value() == Notice(uart.mem, old(Value()), Ready(buf, offset, len)) && owned == old(owned)
    {
      var index := FindBuffer(buf);
      if index < 0 || index >= |owned| || !owned[index] || offset > BUFFER_SIZE || len > BUFFER_SIZE - offset {
        lastError := EINVAL;
      } else {
        QueueSpan(Bytes(uart.mem, buf + offset, len));
      }
    }

    method OnReleased(mem: map<nat, Byte>, buf: nat)
      requires |bufs| == 2
      modifies this
      ensures Value() == Notice(mem, old(Value()), Released(buf)) && |owned| == |old(owned)|
    {
      var index := FindBuffer(buf);
      if index < 0 || index >= |owned| || !owned[index] {
        lastError := EINVAL;
      } else {
        owned := owned[index := false];
        releasedEvents := AddWord(releasedEvents, 1);
      }
    }

    method CountRequest()
      modifies `requestEvents
      ensures Value() == old(Value()).(requestEvents := AddWord(old(requestEvents), 1))
    {
      requestEvents := AddWord(requestEvents, 1);
    }

    method SetOwned(i: nat, flag: bool)
      requires i < |owned|
      modifies `owned
      ensures Value() == old(Value()).(owned := old(owned)[i := flag])
    {
      owned := owned[i := flag];
    }

    method SetError(result: Result)
      modifies `lastError
      ensures Value() == old(Value()).(lastError := result)
    {
      lastError := result;
    }

    /** The buffer is marked owned before it is offered; a refused offer is taken back. */
    method OnRequest(uart: Uart)
      requires uart.manager == this && |bufs| == |owned| == 2
      modifies this, uart
      ensures uart.State() == AnswerRequest(old(uart.State()), old(Value())) && |owned| == 2
    {
      hide CallResult, AfterCall, AddWord, CallItems;
      CountRequest();
      var available := FindFree();
      if available < 0 {
        SetError(ENOBUFS);
        return;
      }
      SetOwned(available, true);
      var result := uart.RespondBuffer(bufs[available], BUFFER_SIZE);
      if result != OK {
        assert owned[available := false] == old(owned);
        SetOwned(available, false);
        SetError(result);
      }
    }

    method OnDisabled()
      modifies `enabled, `disabledEvents
      ensures Value() == old(Value()).(enabled := false, disabledEvents := AddWord(old(disabledEvents), 1))
    {
      enabled := false;
      disabledEvents := AddWord(disabledEvents, 1);
    }

    method OnStopped(reason: nat)
      modifies `stoppedEvents, `lastStop, `lastError
      ensures Value() == old(Value()).(stoppedEvents := AddWord(old(stoppedEvents), 1),
                                       lastStop := reason, lastError := EIO)
    {
      stoppedEvents := AddWord(stoppedEvents, 1);
      lastStop, lastError := reason, EIO;
    }

    /** rx_manager_event */
    method HandleEvent(uart: Uart, e: Event)
      requires uart.manager == this && |bufs| == |owned| == 2
      modifies this, uart
      ensures uart.State() == ManagerEvent(old(uart.State()), old(Value()), e) && |owned| == 2
    {
      hide AnswerRequest, TakeSpan, Bytes, AddWord, BufferIndex;
      match e
      case Request => OnRequest(uart);
      case Ready(buf, offset, len) => OnReady(uart, buf, offset, len);
      case Released(buf) => OnReleased(uart.mem, buf);
      case Disabled => OnDisabled();
      case Stopped(reason, _, _, _) => OnStopped(reason);
    }

    /** rx_manager_read: the queue gives its oldest bytes. */
    method Read(max: nat) returns (out: seq<Byte>)
      modifies this
      ensures (Value(), out) == ManagerRead(old(Value()), max)
    {
      var limit := if max <= RING_SIZE then max else RING_SIZE;
      var count := if limit <= |ring| then limit else |ring|;
      out := ring[..count];
      taken := taken + out;
      ring := ring[count..];
      read := Advance(read, count);
    }
  }

  /** The device: its run-time data (dev->data), the memory its buffers lie in, and its client. */
  class Uart {
    const manager: RxManager?
    var script: seq<seq<Call>>
    var data: Driver
    var mem: map<nat, Byte>
    ghost var trace: seq<Item>

    constructor (manager: RxManager?, script: seq<seq<Call>>, mem: map<nat, Byte>)
      requires manager != null ==> |manager.bufs| == |manager.owned| == 2
      ensures Valid() && this.manager == manager
      ensures State() == Sys(OFF, mem, [], if manager == null then Script(script) else Managed(manager.Value()))
    {
      this.manager, this.script, this.mem := manager, script, mem;
      data, trace := OFF, [];
    }

    ghost function State(): Sys
      reads this, manager
    {
      Sys(data, mem, trace, if manager == null then Script(script) else Managed(manager.Value()))
    }

    ghost predicate Valid()
      reads this, manager
    {
      manager != null ==> |manager.bufs| == |manager.owned| == 2
    }

    // The calls of the asynchronous API

    method SetReceiveCallback(present: bool) returns (result: Result)
      modifies this
      ensures result == CallResult(old(data), SetCallback(present))
      ensures State() == DoCall(old(State()), SetCallback(present))
    {
      assert trace + CallItems(SetCallback(present)) == trace;
      if data.state != Idle || data.inCallback { return EBUSY; }
      data := data.(callback := present);
      return OK;
    }

    method EnableReceive(buf: nat, len: nat, forever: bool) returns (result: Result)
      modifies this
      ensures result == CallResult(old(data), Enable(Buffer(buf, len), forever))
      ensures State() == DoCall(old(State()), Enable(Buffer(buf, len), forever))
    {
      if buf == NULL || len == 0 { return EINVAL; }
      if !forever { return ENOTSUP; }
      if data.state != Idle || !data.callback { return if data.state != Idle then EBUSY else EINVAL; }
      data := data.(current := buf, currentLen := len, currentPos := 0, reported := 0);
      data := data.(next := NULL, nextLen := 0, requestOutstanding := false, initialRequest := true);
      data := data.(state := Active, irqPending := true);
      trace := trace + [Enabled(Buffer(buf, len))];
      return OK;
    }

    method RespondBuffer(buf: nat, len: nat) returns (result: Result)
      modifies this
      ensures result == CallResult(old(data), Respond(Buffer(buf, len)))
      ensures State() == DoCall(old(State()), Respond(Buffer(buf, len)))
    {
      if buf == NULL || len == 0 { return EINVAL; }
      if data.state != Active { return EACCES; }
      if data.next != NULL || !data.requestOutstanding { return EBUSY; }
      if Overlap(Buffer(buf, len), Buffer(data.current, data.currentLen)) { return EINVAL; }
      data := data.(next := buf, nextLen := len, requestOutstanding := false);
      trace := trace + [Answered(Buffer(buf, len))];
      return OK;
    }

    method DisableReceive() returns (result: Result)
      modifies this
      ensures result == CallResult(old(data), Disable)
      ensures State() == DoCall(old(State()), Disable)
    {
      if data.state == Idle { return EFAULT; }
      if data.state == Stopping { return EALREADY; }
      data := data.(state := Stopping, irqPending := true);
      trace := trace + [StopAsked];
      return OK;
    }

    // Events and what the client does with them

    method Perform(call: Call)
      modifies this
      ensures State() == DoCall(old(State()), call)
    {
      hide CallResult, AfterCall, CallItems;
      var ignored;
      match call
      case Enable(b, forever) => ignored := EnableReceive(b.addr, b.len, forever);
      case Respond(b) => ignored := RespondBuffer(b.addr, b.len);
      case Disable => ignored := DisableReceive();
      case SetCallback(present) => ignored := SetReceiveCallback(present);
    }

    method PerformAll(calls: seq<Call>)
      modifies this
      ensures State() == DoCalls(old(State()), calls)
    {
      hide DoCall, State;
      for i := 0 to |calls|
        invariant DoCalls(State(), calls[i..]) == DoCalls(old(State()), calls)
      {
        assert calls[i..][0] == calls[i] && calls[i..][1..] == calls[i + 1..];
        Perform(calls[i]);
      }
    }

    /** lab20_uart_emit; without a callback the call goes through null. */
    method EmitEvent(e: Event)
      requires Valid()
      modifies this, manager
      ensures Valid() && State() == Emit(old(State()), e)
    {
      hide DoCalls, ManagerEvent, AfterCall;
      if !data.callback {
        trace := trace + [Crash];
        return;
      }
      data := data.(inCallback := true);
      trace := trace + [Saw(e)];
      if manager != null {
        manager.HandleEvent(this, e);
      } else if script != [] {
        var calls := script[0];
        script := script[1..];
        PerformAll(calls);
      }
      data := data.(inCallback := false);
    }

    method RequestNext()
      requires Valid()
      modifies this, manager
      ensures Valid() && State() == RequestBuffer(old(State()))
    {
      hide Emit;
      data := data.(requestOutstanding := true);
      EmitEvent(Request);
    }

    method ReportCurrent()
      requires Valid()
      modifies this, manager
      ensures Valid() && State() == Report(old(State()))
    {
      hide Emit;
      if data.currentPos == data.reported { return; }
      var e := Ready(data.current, data.reported, Unreported(data));
      data := data.(reported := data.currentPos);
      EmitEvent(e);
    }

    method ReleaseBuffer(buf: nat)
      requires Valid()
      modifies this, manager
      ensures Valid() && State() == Release(old(State()), buf)
    {
      hide Emit;
      if buf != NULL {
        EmitEvent(Released(buf));
      }
    }

    /** The first half of finish_rx. */
    method AnnounceStop(reason: nat)
      requires Valid()
      modifies this, manager
      ensures Valid() && State() == BeginStop(old(State()), reason)
    {
      hide Emit, Report;
      data := data.(state := Stopping, initialRequest := false, requestOutstanding := false);
      if reason != 0 {
        EmitEvent(Stopped(reason, data.current, data.reported, Unreported(data)));
      }
      ReportCurrent();
    }

    /** finish_rx */
    method FinishReceive(reason: nat)
      requires Valid()
      modifies this, manager
      ensures Valid() && State() == Finish(old(State()), reason)
    {
      hide Emit, BeginStop, Release;
      AnnounceStop(reason);
      var held, spare := data.current, data.next;
      data := data.(current := NULL, next := NULL, currentLen := 0, currentPos := 0, reported := 0, nextLen := 0);
      ReleaseBuffer(held);
      ReleaseBuffer(spare);
      data := data.(state := Idle);
      EmitEvent(Disabled);
    }

    // The interrupt service routine

    method ReplaceBuffer()
      requires Valid()
      modifies this, manager
      ensures Valid() && State() == SwitchBuffer(old(State()))
    {
      hide Release, RequestBuffer, Finish;
      var completed := data.current;
      data := data.(current := data.next, currentLen := data.nextLen, currentPos := 0, reported := 0,
                    next := NULL, nextLen := 0);
      ReleaseBuffer(completed);
      if data.state == Active { RequestNext(); }
      if data.state == Stopping { FinishReceive(0); }
    }

    method KeepByte(byte: Byte)
      requires Valid()
      modifies this
      ensures Valid() && State() == StoreByte(old(State()), byte)
    {
      var at := data.current + data.currentPos;
      mem := mem[at := byte];
      data := data.(currentPos := data.currentPos + 1, hardwareBytes := AddWord(data.hardwareBytes, 1));
      trace := trace + [Stored(at, byte)];
    }

    method ReceiveByte(overrun: bool, full: bool, byte: Byte)
      requires Valid()
      modifies this, manager
      ensures Valid() && State() == Receive(old(State()), overrun, full, byte)
    {
      hide Report, SwitchBuffer, Finish, StoreByte, AddWord;
      if overrun {
        data := data.(overruns := AddWord(data.overruns, 1));
        FinishReceive(OVERRUN);
        return;
      }
      if !full { return; }
      KeepByte(byte);
      if data.currentPos < data.currentLen { return; }
      ReportCurrent();
      if data.state == Stopping || data.next == NULL {
        FinishReceive(0);
      } else {
        ReplaceBuffer();
      }
    }

    /** lab20_uart_isr, with the status and data registers as it reads them. */
    method Interrupt(overrun: bool, full: bool, byte: Byte)
      requires Valid()
      modifies this, manager
      ensures Valid() && State() == Isr(old(State()), overrun, full, byte)
      ensures (old(data).state != Idle ==> old(data).callback) && !old(data).inCallback ==>
                var looks := old(data).state == Active
                             && !(old(data).initialRequest && StopsNext(old(State()).client));
                Takes(old(State()), State(), looks && !overrun && full, looks && overrun, byte)
    {
      hide Isr, StopsNext, Takes;
      if (data.state != Idle ==> data.callback) && !data.inCallback {
        IsrTakes(State(), overrun, full, byte);
      }
      ServeLocked(overrun, full, byte);
    }

    /** What the routine does between irq_lock and irq_unlock. */
    method ServeLocked(overrun: bool, full: bool, byte: Byte)
      requires Valid()
      modifies this, manager
      ensures Valid() && State() == Isr(old(State()), overrun, full, byte)
    {
      hide Finish, Receive, RequestBuffer, AddWord;
      data := data.(irqEntries := AddWord(data.irqEntries, 1), irqPending := false);
      if data.state == Stopping {
        FinishReceive(0);
        return;
      }
      if data.state != Active { return; }
      if data.initialRequest {
        data := data.(initialRequest := false);
        RequestNext();
        if data.state == Stopping {
          FinishReceive(0);
          return;
        }
      }
      ReceiveByte(overrun, full, byte);
    }
  }
}
