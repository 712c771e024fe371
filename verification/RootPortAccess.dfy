/** What the masters of the root port see: answers of loads and stores, and how long they wait. */
module RootPortAccess {
  import opened Words
  import H = HostBridge
  import M = MmioBridge
  import A = VendorAdapter
  import opened RootPort
  import opened RootPortHistory

  // Loads and stores on the AHB side

  /** Where the last memory event of a history is, or -1. */
  function LastMemory(events: seq<Event>): (i: int)
    ensures -1 <= i < |events|
    decreases |events|
  {
    if events == [] then -1
    else if !events[|events| - 1].Configured? then |events| - 1
    else LastMemory(events[..|events| - 1])
  }

  lemma LastMemoryNext(events: seq<Event>, e: Event)
    ensures LastMemory(events + [e]) == if e.Configured? then LastMemory(events) else |events|
  {
  }

  ghost predicate LastWas(events: seq<Event>, e: Event) {
    LastMemory(events) >= 0 && events[LastMemory(events)] == e
  }

  /** The response that the bridge is giving is the outcome of the last memory event, or of no event at all. */
  ghost predicate Responds(r: M.Registers, events: seq<Event>) {
    && (r.phase in {M.Issue, M.Wait, M.Resp} ==> M.Acceptable(r))
    && (r.phase == M.Resp ==>
          LastWas(events, if r.write then Stored(M.RequestAddress(r), r.wdata)
                          else Loaded(M.RequestAddress(r), 0, r.rdata)))
    && (M.HResp(r) && M.Acceptable(r) ==>
          !r.write && exists s: nat, v: Word :: s != 0 && LastWas(events, Loaded(M.RequestAddress(r), s, v)))
  }

  lemma AcceptableIsStable(r: M.Registers, n: M.Registers)
    ensures n.addr == r.addr && n.size == r.size ==>
              M.Acceptable(n) == M.Acceptable(r) && M.RequestAddress(n) == M.RequestAddress(r)
  {
  }

  predicate MemoryHandshake(p: Port) {
    || (p.mmio.phase == M.Wait && A.MemCompletes(p.adapter))
    || (p.mmio.phase == M.Issue && p.mmio.write && A.MemReady(p.adapter, p.csr.state == H.Issue))
  }

  lemma HandshakeShows(p: Port)
    requires Routed(p)
    ensures MemoryHandshake(p) <==> Happens(p) != [] && !Happens(p)[0].Configured?
  {
  }

  /** A clock without a memory event gives no new answer. */
  lemma SilentStepResponds(p: Port, t: Tick, events: seq<Event>)
    requires Routed(p) && Responds(p.mmio, events)
    requires !MemoryHandshake(p)
    ensures Responds(Step(p, t).mmio, events)
  {
    hide H.Step, A.Step, AddWord, SubWord, M.Acceptable, M.RequestAddress, LastMemory;
    AcceptableIsStable(p.mmio, Step(p, t).mmio);
  }

  lemma ConfiguredKeepsAnswers(r: M.Registers, events: seq<Event>, e: Event)
    requires Responds(r, events) && e.Configured?
    ensures Responds(r, events + [e])
  {
  }

  /** A memory event is answered in the next clock. */
  lemma MemoryStepResponds(p: Port, t: Tick, events: seq<Event>, e: Event)
    requires Routed(p) && Responds(p.mmio, events) && Happens(p) == [e] && !e.Configured?
    ensures Responds(Step(p, t).mmio, events + [e])
  {
    hide H.Step, A.Step, AddWord, SubWord, M.Acceptable, M.RequestAddress, LastMemory;
    AcceptableIsStable(p.mmio, Step(p, t).mmio);
    LastMemoryNext(events, e);
    assert LastWas(events + [e], e);
  }

  lemma {:induction false} RunResponds(ticks: seq<Tick>)
    ensures Responds(After(ticks).mmio, Events(ticks))
    decreases |ticks|
  {
    if ticks != [] {
      hide Step, Happens, Responds, Matches, Answers, Next;
      var before, t := ticks[..|ticks| - 1], ticks[|ticks| - 1];
      var p, events := After(before), Events(before);
      RunResponds(before);
      RunsAreRouted(before);
      PortIsSequential(before);
      StepIsSequential(p, t, Replay(events));
      HandshakeShows(p);
      if Happens(p) == [] {
        SilentStepResponds(p, t, events);
        assert events + [] == events;
      } else {
        var e := Happens(p)[0];
        assert Happens(p) == [e];
        if e.Configured? {
          SilentStepResponds(p, t, events);
          ConfiguredKeepsAnswers(Step(p, t).mmio, events, e);
        } else {
          MemoryStepResponds(p, t, events, e);
        }
      }
    }
  }

  lemma {:induction false} LastMemoryIsLast(events: seq<Event>)
    ensures forall j :: LastMemory(events) < j < |events| ==> events[j].Configured?
    decreases |events|
  {
    if events != [] && events[|events| - 1].Configured? {
      LastMemoryIsLast(events[..|events| - 1]);
    }
  }

  // The transfers as the master of the memory port sees them

  datatype Transfer = Transfer(addr: Word, write: bool, size: nat, data: Word)

  /** The slave takes the address phase of a transfer in this clock. */
  predicate TakesTransfer(p: Port, t: Tick) {
    && (p.mmio.phase == M.Ready || p.mmio.phase == M.Resp)
    && t.mmio.sel && t.mmio.ready && (t.mmio.trans / 2) % 2 == 1
  }

  /** The last transfer taken; its data is on the bus in the clock after the address. */
  function LastTransfer(ticks: seq<Tick>): Transfer
    decreases |ticks|
  {
    if ticks == [] then Transfer(0, false, 0, 0)
    else
      var before, t := ticks[..|ticks| - 1], ticks[|ticks| - 1];
      if TakesTransfer(After(before), t) then Transfer(t.mmio.addr, t.mmio.write, t.mmio.size, 0)
      else if After(before).mmio.phase == M.DataPhase then LastTransfer(before).(data := t.mmio.wdata)
      else LastTransfer(before)
  }

  ghost predicate Holds(r: M.Registers, x: Transfer) {
    && (r.phase != M.Ready ==> r.addr == x.addr && r.write == x.write && r.size == x.size)
    && (r.phase in {M.Issue, M.Wait, M.Resp} && r.write ==> r.wdata == x.data)
  }

  lemma {:induction false} BridgeHoldsTransfer(ticks: seq<Tick>)
    ensures Holds(After(ticks).mmio, LastTransfer(ticks))
    decreases |ticks|
  {
    if ticks != [] {
      BridgeHoldsTransfer(ticks[..|ticks| - 1]);
      hide H.Step, A.Step, M.Acceptable, M.RequestAddress;
    }
  }

  /** An aligned word access in the aperture, the 256 MiB from 0x60000000 on. */
  predicate InAperture(x: Transfer) {
    x.size == 2 && x.addr % 4 == 0 && 0x60000000 <= x.addr < 0x70000000
  }

  lemma ApertureIsIdentity(r: M.Registers, x: Transfer)
    requires r.addr == x.addr && r.size == x.size
    ensures M.Acceptable(r) <==> InAperture(x)
    ensures M.RequestAddress(r) == x.addr
  {
  }

  /** The transfer ends with OKAY: it was a good access; a store has been accepted with its address and data, and a load
      hit the scratch register and returns the last store that did; nothing but configuration has happened since. */
  ghost predicate EndsOkay(x: Transfer, rdata: Word, events: seq<Event>) {
    && InAperture(x) && LastMemory(events) >= 0
    && var before := events[..LastMemory(events)];
       if x.write then LastWas(events, Stored(x.addr, x.data))
       else LastWas(events, Loaded(x.addr, 0, rdata)) && Hits(before, x.addr) && rdata == LastStored(before)
  }

  /** The transfer ends with ERROR: it was no good access, or a load that did not hit. */
  ghost predicate EndsInError(x: Transfer, events: seq<Event>) {
    InAperture(x) ==>
      && !x.write && LastMemory(events) >= 0
      && LastWas(events, Loaded(x.addr, 1, 0xFFFFFFFF)) && !Hits(events[..LastMemory(events)], x.addr)
  }

  /** Every response on the memory port, whatever both masters do: HRESP low with a transfer outstanding and HREADYOUT
      high is a true OKAY, HRESP high a true ERROR. */
  lemma ResponsesAreTrue(ticks: seq<Tick>)
    ensures var r, x, events := After(ticks).mmio, LastTransfer(ticks), Events(ticks);
            && (r.phase != M.Ready && M.HReadyOut(r) && !M.HResp(r) ==> EndsOkay(x, r.rdata, events))
            && (M.HResp(r) ==> EndsInError(x, events))
            && forall j :: LastMemory(events) < j < |events| ==> events[j].Configured?
  {
    hide M.RequestAddress, LastMemory, M.Acceptable, Hits, LastStored, Holds, Responds, LastTransfer, True;
    var r, x, events := After(ticks).mmio, LastTransfer(ticks), Events(ticks);
    RunResponds(ticks);
    BridgeHoldsTransfer(ticks);
    LastMemoryIsLast(events);
    if LastMemory(events) >= 0 {
      AnswersAreTrue(ticks, LastMemory(events));
    }
    if r.phase == M.Resp {
      RespIsOkay(r, x, events);
    } else if M.HResp(r) {
      RespIsError(r, x, events);
    }
  }

  /** In particular an OKAY load. */
  lemma OkayLoadReturnsLastStore(ticks: seq<Tick>)
    requires After(ticks).mmio.phase == M.Resp && !After(ticks).mmio.write
    ensures var r, x, events := After(ticks).mmio, LastTransfer(ticks), Events(ticks);
            exists i ::
              && 0 <= i < |events| && events[i] == Loaded(x.addr, 0, r.rdata)
              && Hits(events[..i], x.addr) && r.rdata == LastStored(events[..i])
              && forall j :: i < j < |events| ==> events[j].Configured?
  {
    hide LastMemory, Hits, LastStored, LastTransfer;
    ResponsesAreTrue(ticks);
    BridgeHoldsTransfer(ticks);
    assert Events(ticks)[LastMemory(Events(ticks))].Loaded?;
  }

  /** In particular an OKAY store, and an ERROR of a good access. */
  lemma OtherResponsesAreTrue(ticks: seq<Tick>)
    ensures var r, x, events := After(ticks).mmio, LastTransfer(ticks), Events(ticks);
            && (r.phase == M.Resp && r.write ==> LastWas(events, Stored(x.addr, x.data)))
            && (M.HResp(r) && InAperture(x) ==>
                  && !r.write && LastMemory(events) >= 0
                  && !Hits(events[..LastMemory(events)], x.addr))
  {
    hide LastMemory, Hits, LastStored, LastTransfer;
    ResponsesAreTrue(ticks);
    BridgeHoldsTransfer(ticks);
  }

  lemma RespIsOkay(r: M.Registers, x: Transfer, events: seq<Event>)
    requires Responds(r, events) && Holds(r, x) && r.phase == M.Resp
    requires LastMemory(events) >= 0 ==> True(events[..LastMemory(events)], events[LastMemory(events)])
    ensures EndsOkay(x, r.rdata, events)
  {
    hide M.RequestAddress, LastMemory, M.Acceptable, Hits, LastStored;
    ApertureIsIdentity(r, x);
  }

  lemma RespIsError(r: M.Registers, x: Transfer, events: seq<Event>)
    requires Responds(r, events) && Holds(r, x) && M.HResp(r) && r.phase != M.Ready
    requires LastMemory(events) >= 0 ==> True(events[..LastMemory(events)], events[LastMemory(events)])
    ensures EndsInError(x, events)
  {
    hide M.RequestAddress, LastMemory, M.Acceptable, Hits, LastStored;
    ApertureIsIdentity(r, x);
  }

  // Waiting

  /** How many clocks a memory request in ISSUE is from its acceptance, the accepting clock included. */
  function ClocksToAccept(p: Port): nat {
    match p.adapter.phase
    case Ready => if p.csr.state == H.Issue then 6 else 1
    case Delay => p.adapter.delay + 3
    case Completing => 2
  }

  lemma WaitShrinks(p: Port, t: Tick)
    requires Routed(p) && p.mmio.phase == M.Issue
    ensures 1 <= ClocksToAccept(p) <= 6
    ensures ClocksToAccept(p) == 1 <==> A.MemReady(p.adapter, p.csr.state == H.Issue)
    ensures ClocksToAccept(p) > 1 ==>
              Step(p, t).mmio == p.mmio && ClocksToAccept(Step(p, t)) == ClocksToAccept(p) - 1
    ensures ClocksToAccept(p) == 1 ==> Step(p, t).mmio.phase == if p.mmio.write then M.Resp else M.Wait
  {
  }

  function Continue(p: Port, ticks: seq<Tick>): Port
    decreases |ticks|
  {
    if ticks == [] then p else Continue(Step(p, ticks[0]), ticks[1..])
  }

  /** No starvation: the request is accepted in exactly the clock foretold, at most the sixth, whatever the masters
      of both ports do meanwhile. */
  lemma {:induction false} RequestIsAccepted(p: Port, ticks: seq<Tick>)
    requires Routed(p) && p.mmio.phase == M.Issue && |ticks| < ClocksToAccept(p)
    ensures ClocksToAccept(p) <= 6
    ensures var q := Continue(p, ticks);
            && q.mmio == p.mmio
            && (A.MemReady(q.adapter, q.csr.state == H.Issue) <==> |ticks| == ClocksToAccept(p) - 1)
    decreases |ticks|
  {
    var any := if ticks == [] then IDLE_TICK else ticks[0];
    WaitShrinks(p, any);
    if ticks != [] {
      hide Step, ClocksToAccept, Routed;
      StepKeepsRouting(p, ticks[0]);
      RequestIsAccepted(Step(p, ticks[0]), ticks[1..]);
    }
  }

  const IDLE_BUS := H.Bus(false, 0, 0, false, 0, 0, true)
  const IDLE_TICK := Tick(IDLE_BUS, IDLE_BUS)

  /** At most how many more clocks the bridge holds HREADYOUT low. */
  function StallLeft(p: Port): nat {
    match p.mmio.phase
    case DataPhase => 12
    case Issue => ClocksToAccept(p) + if p.mmio.write then 0 else 5
    case Wait => if p.adapter.phase == A.Completing then 2 else p.adapter.delay + 3
    case Err1 => 1
    case _ => 0
  }

  lemma StallShrinks(p: Port, t: Tick)
    requires Routed(p) && !M.HReadyOut(p.mmio)
    ensures 0 < StallLeft(p) <= 12 && StallLeft(Step(p, t)) < StallLeft(p)
  {
    hide A.CfgAnswer, A.AfterCfg, A.Decodes, A.AfterStore, A.LoadAnswer, A.LoadStatus, M.RequestAddress, H.AddressPhase;
    hide H.Captured, ClocksToAccept, M.Acceptable;
    StepKeepsRouting(p, t);
    if p.mmio.phase == M.Issue {
      WaitShrinks(p, t);
    }
    if Step(p, t).mmio.phase == M.Issue {
      WaitShrinks(Step(p, t), t);
    }
  }

  /** A transfer in the aperture ends within twelve clocks of its data phase, whatever the CSR port does. */
  lemma {:induction false} TransferEnds(p: Port, ticks: seq<Tick>)
    requires Routed(p) && |ticks| >= StallLeft(p)
    ensures StallLeft(p) <= 12
    ensures exists i :: 0 <= i <= StallLeft(p) && i <= |ticks| && M.HReadyOut(Continue(p, ticks[..i]).mmio)
    decreases |ticks|
  {
    if M.HReadyOut(p.mmio) {
      assert M.HReadyOut(Continue(p, ticks[..0]).mmio);
    } else {
      hide StallLeft, Routed, M.HReadyOut;
      var t := if ticks == [] then IDLE_TICK else ticks[0];
      StallShrinks(p, t);
      StepKeepsRouting(p, t);
      TransferEnds(Step(p, t), ticks[1..]);
      var q := Step(p, t);
      var i :| 0 <= i <= StallLeft(q) && i <= |ticks| - 1 && M.HReadyOut(Continue(q, ticks[1..][..i]).mmio);
      assert ticks[..i + 1][0] == t && ticks[..i + 1][1..] == ticks[1..][..i];
      assert M.HReadyOut(Continue(p, ticks[..i + 1]).mmio);
    }
  }

  /** How many clocks a load is from its answer. */
  function ClocksToAnswer(p: Port): nat {
    if p.adapter.phase == A.Completing then 1 else p.adapter.delay + 2
  }

  lemma AnswerComesCloser(p: Port, t: Tick)
    requires Routed(p) && p.mmio.phase == M.Wait
    ensures if ClocksToAnswer(p) > 1 then
              Step(p, t).mmio.phase == M.Wait && ClocksToAnswer(Step(p, t)) == ClocksToAnswer(p) - 1
            else Step(p, t).mmio.phase in {M.Resp, M.Err1}
  {
    hide H.Step, A.CfgAnswer, A.AfterCfg, A.Decodes, A.LoadAnswer, A.LoadStatus;
  }

  /** A load that has been accepted is answered after exactly four clocks more, whatever both masters do. */
  lemma {:induction false} LoadIsAnswered(p: Port, ticks: seq<Tick>)
    requires Routed(p) && p.mmio.phase == M.Wait && |ticks| <= ClocksToAnswer(p)
    ensures if |ticks| < ClocksToAnswer(p) then Continue(p, ticks).mmio.phase == M.Wait
            else Continue(p, ticks).mmio.phase in {M.Resp, M.Err1}
    decreases |ticks|
  {
    if ticks != [] {
      hide Step, ClocksToAnswer, Routed;
      AnswerComesCloser(p, ticks[0]);
      StepKeepsRouting(p, ticks[0]);
      if |ticks| > 1 {
        LoadIsAnswered(Step(p, ticks[0]), ticks[1..]);
      } else {
        assert ticks[1..] == [];
        assert Continue(Step(p, ticks[0]), []) == Step(p, ticks[0]);
      }
    }
  }

  lemma AcceptedLoadWaits(p: Port, t: Tick)
    requires Routed(p) && p.mmio.phase == M.Issue && !p.mmio.write && A.MemReady(p.adapter, p.csr.state == H.Issue)
    ensures Step(p, t).mmio.phase == M.Wait && ClocksToAnswer(Step(p, t)) == 4
  {
  }

  // Completions

  /** Memory reads taken by the adapter. */
  function ReadsAccepted(ticks: seq<Tick>): nat
    decreases |ticks|
  {
    if ticks == [] then 0
    else
      var before := ticks[..|ticks| - 1];
      var p := After(before);
      ReadsAccepted(before)
      + if p.mmio.phase == M.Issue && !p.mmio.write && A.MemReady(p.adapter, p.csr.state == H.Issue) then 1 else 0
  }

  function LoadsCompleted(events: seq<Event>): nat
    decreases |events|
  {
    if events == [] then 0
    else LoadsCompleted(events[..|events| - 1]) + if events[|events| - 1].Loaded? then 1 else 0
  }

  lemma LoadsCompletedNext(events: seq<Event>, made: seq<Event>)
    requires |made| <= 1
    ensures LoadsCompleted(events + made) == LoadsCompleted(events) + if made != [] && made[0].Loaded? then 1 else 0
  {
    if made == [] {
      assert events + made == events;
    } else {
      assert (events + made)[..|events|] == events;
    }
  }

  lemma ReadStep(p: Port, t: Tick)
    requires Routed(p)
    ensures |Happens(p)| <= 1
    ensures var accepted :=
              p.mmio.phase == M.Issue && !p.mmio.write && A.MemReady(p.adapter, p.csr.state == H.Issue);
            var finished := Happens(p) != [] && Happens(p)[0].Loaded?;
            (Step(p, t).mmio.phase == M.Wait) == (accepted || (p.mmio.phase == M.Wait && !finished))
            && (finished ==> p.mmio.phase == M.Wait)
  {
  }

  /** Each accepted read has one completion or is waiting for it; posted writes have none. */
  lemma {:induction false} OneCompletionPerRead(ticks: seq<Tick>)
    ensures ReadsAccepted(ticks) == LoadsCompleted(Events(ticks)) + if After(ticks).mmio.phase == M.Wait then 1 else 0
    decreases |ticks|
  {
    if ticks != [] {
      hide Step, Happens, Routed;
      var before, t := ticks[..|ticks| - 1], ticks[|ticks| - 1];
      OneCompletionPerRead(before);
      RunsAreRouted(before);
      ReadStep(After(before), t);
      LoadsCompletedNext(Events(before), Happens(After(before)));
    }
  }
}
