/** Both bridges on the shared adapter (labh3_pcie_root_port_wrapper.v), driven by any two AHB masters. */
module RootPort {
  import opened Words
  import H = HostBridge
  import M = MmioBridge
  import A = VendorAdapter

  datatype Port = Port(csr: H.Registers, mmio: M.Registers, adapter: A.Registers)

  /** The two buses in one clock. */
  datatype Tick = Tick(csr: H.Bus, mmio: H.Bus)

  const RESET := Port(H.RESET, M.RESET, A.RESET)

  function ToCsr(a: A.Registers): H.Backend {
    H.Backend(A.CfgReady(a), A.CfgCompletes(a), a.status, a.rdata)
  }

  function ToMmio(a: A.Registers, cfgValid: bool): M.Memory {
    M.Memory(A.MemReady(a, cfgValid), A.MemCompletes(a), a.status, a.rdata)
  }

  function ToAdapter(csr: H.Registers, mmio: M.Registers): A.Inputs {
    A.Inputs(csr.state == H.Issue, csr.req, csr.state == H.WaitCpl,
             mmio.phase == M.Issue, mmio.write, M.RequestAddress(mmio), mmio.wdata, mmio.phase == M.Wait)
  }

  /** One clock of everything. */
  function Step(p: Port, t: Tick): Port {
    Port(H.Step(p.csr, t.csr, ToCsr(p.adapter)),
         M.Step(p.mmio, t.mmio, ToMmio(p.adapter, p.csr.state == H.Issue)),
         A.Step(p.adapter, ToAdapter(p.csr, p.mmio)))
  }

  /** The wrapper: three modules on one clock. */
  class Wrapper {
    const csr: H.Bridge
    const mmio: M.Bridge
    const adapter: A.Adapter

    constructor ()
      ensures State() == RESET && fresh(csr) && fresh(mmio) && fresh(adapter)
    {
      csr := new H.Bridge();
      mmio := new M.Bridge();
      adapter := new A.Adapter();
    }

    ghost function State(): Port
      reads csr, mmio, adapter
    {
      Port(csr.regs, mmio.State(), adapter.regs)
    }

    method Clock(t: Tick)
      modifies csr, mmio, adapter
      ensures State() == Step(old(State()), t)
    {
      hide H.Step, M.Step, A.Step, A.CfgReady, A.MemReady, A.CfgCompletes, A.MemCompletes, M.RequestAddress;
      var mmioNow := M.Registers(mmio.phase, mmio.addr, mmio.write, mmio.size, mmio.wdata, mmio.rdata);
      var toCsr := ToCsr(adapter.regs);
      var toMmio := ToMmio(adapter.regs, csr.regs.state == H.Issue);
      var toAdapter := ToAdapter(csr.regs, mmioNow);
      csr.Clock(t.csr, toCsr);
      mmio.Clock(t.mmio, toMmio);
      adapter.Clock(toAdapter);
    }
  }

  function After(ticks: seq<Tick>): Port
    decreases |ticks|
  {
    if ticks == [] then RESET else Step(After(ticks[..|ticks| - 1]), ticks[|ticks| - 1])
  }

  // Routing

  /** The adapter works for a bridge exactly when that bridge waits for it, and on what that bridge asked. */
  ghost predicate Routed(p: Port) {
    && (p.csr.state == H.WaitCpl <==> p.adapter.phase != A.Ready && p.adapter.channel == A.Configuration)
    && (p.mmio.phase == M.Wait <==> p.adapter.phase != A.Ready && p.adapter.channel == A.Memory)
    && (p.csr.state == H.WaitCpl ==> p.adapter.cfg == p.csr.req)
    && (p.mmio.phase == M.Wait ==> !p.mmio.write && p.adapter.memAddr == M.RequestAddress(p.mmio))
    && p.adapter.delay <= A.LATENCY
  }

  lemma StepKeepsRouting(p: Port, t: Tick)
    requires Routed(p)
    ensures Routed(Step(p, t))
  {
    hide A.CfgAnswer, A.AfterCfg, A.Decodes, AddWord, SubWord, H.AddressPhase, M.Acceptable, H.Captured;
  }

  lemma {:induction false} RunsAreRouted(ticks: seq<Tick>)
    ensures Routed(After(ticks))
    decreases |ticks|
  {
    if ticks != [] {
      RunsAreRouted(ticks[..|ticks| - 1]);
      StepKeepsRouting(After(ticks[..|ticks| - 1]), ticks[|ticks| - 1]);
    }
  }

  // What the device did, in order

  datatype Event =
    | Configured(req: H.Request, status: nat, value: Word)
    | Stored(addr: Word, value: Word)
    | Loaded(addr: Word, status: nat, value: Word)

  /** The handshake of a clock, if there is one: a completion taken by its bridge, or a posted write accepted. */
  function Happens(p: Port): seq<Event> {
    (if p.csr.state == H.WaitCpl && A.CfgCompletes(p.adapter)
     then [Configured(p.csr.req, p.adapter.status, p.adapter.rdata)] else [])
    + (if p.mmio.phase == M.Wait && A.MemCompletes(p.adapter)
       then [Loaded(M.RequestAddress(p.mmio), p.adapter.status, p.adapter.rdata)] else [])
    + (if p.mmio.phase == M.Issue && p.mmio.write && A.MemReady(p.adapter, p.csr.state == H.Issue)
       then [Stored(M.RequestAddress(p.mmio), p.mmio.wdata)] else [])
  }

  function Events(ticks: seq<Tick>): seq<Event>
    decreases |ticks|
  {
    if ticks == [] then [] else Events(ticks[..|ticks| - 1]) + Happens(After(ticks[..|ticks| - 1]))
  }

  /** A sequential device: one event at a time, each answered from the state it finds. */
  predicate Answers(d: A.Device, e: Event) {
    match e
    case Configured(q, status, value) => status == 0 && value == A.CfgAnswer(d, q)
    case Stored(_, _) => true
    case Loaded(addr, status, value) => status == A.LoadStatus(d, addr) && value == A.LoadAnswer(d, addr)
  }

  function Next(d: A.Device, e: Event): A.Device {
    match e
    case Configured(q, _, _) => A.AfterCfg(d, q)
    case Stored(addr, value) => A.AfterStore(d, addr, value)
    case Loaded(_, _, _) => d
  }

  function Replay(events: seq<Event>): A.Device
    decreases |events|
  {
    if events == [] then A.BLANK else Next(Replay(events[..|events| - 1]), events[|events| - 1])
  }

  ghost predicate Sequential(events: seq<Event>) {
    forall i :: 0 <= i < |events| ==> Answers(Replay(events[..i]), events[i])
  }

  /** The device that the history has made, as the adapter's registers show it. */
  ghost predicate Matches(a: A.Registers, d: A.Device) {
    if a.phase != A.Completing then a.dev == d
    else if a.channel == A.Memory then
      a.dev == d && a.status == A.LoadStatus(d, a.memAddr) && a.rdata == A.LoadAnswer(d, a.memAddr)
    else a.dev == A.AfterCfg(d, a.cfg) && a.status == 0 && a.rdata == A.CfgAnswer(d, a.cfg)
  }

  lemma ReplayNext(events: seq<Event>, e: Event)
    ensures Replay(events + [e]) == Next(Replay(events), e)
  {
  }

  lemma SequentialNext(events: seq<Event>, e: Event)
    requires Sequential(events) && Answers(Replay(events), e)
    ensures Sequential(events + [e])
  {
    var longer := events + [e];
    forall i | 0 <= i < |longer| ensures Answers(Replay(longer[..i]), longer[i]) {
      assert longer[..i] == events[..i];
      if i == |events| { assert events[..i] == events; }
    }
  }

  /** A clock makes at most one event, and it is the one the sequential device would make. */
  lemma StepIsSequential(p: Port, t: Tick, d: A.Device)
    requires Routed(p) && Matches(p.adapter, d)
    ensures Happens(p) == [] ==> Matches(Step(p, t).adapter, d)
    ensures |Happens(p)| <= 1
    ensures Happens(p) != [] ==> Answers(d, Happens(p)[0]) && Matches(Step(p, t).adapter, Next(d, Happens(p)[0]))
  {
  }

  /** Both ports at once, whatever their masters do: the history of the device is one that a sequential device
      answers in the same way, and completions are never crossed. */
  lemma {:induction false} PortIsSequential(ticks: seq<Tick>)
    ensures Sequential(Events(ticks)) && Matches(After(ticks).adapter, Replay(Events(ticks)))
    decreases |ticks|
  {
    if ticks != [] {
      hide Step, Happens, Matches, Answers, Next;
      var before := ticks[..|ticks| - 1];
      PortIsSequential(before);
      RunsAreRouted(before);
      StepIsSequential(After(before), ticks[|ticks| - 1], Replay(Events(before)));
      var made := Happens(After(before));
      if made == [] {
        assert Events(before) + [] == Events(before);
      } else {
        assert made == [made[0]];
        SequentialNext(Events(before), made[0]);
        ReplayNext(Events(before), made[0]);
      }
    }
  }
}
