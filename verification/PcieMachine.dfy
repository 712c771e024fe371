/** Bridge, packets and endpoint wired together, and a transaction on its way through them. */
module PcieMachine {
  import opened Words
  import opened HostBridge
  import opened Tlp
  import Endpoint

  const HOST_BASE: Word := 0xA0000000

  /** All registers, and the store data the AHB master still has to drive. */
  datatype Machine = Machine(bridge: Registers, endpoint: Endpoint.Registers, wdata: Word)

  function BackendOf(e: Endpoint.Registers): Backend {
    Backend(Endpoint.Ready(e), e.cplValid, StatusOf(e.cpl), e.cpl.dw1)
  }

  function Clock(m: Machine, bus: Bus): Machine {
    m.(bridge := Step(m.bridge, bus, BackendOf(m.endpoint)),
       endpoint := Endpoint.Step(m.endpoint, m.bridge.state == Issue, Encode(m.bridge.req), m.bridge.state == WaitCpl))
  }

  /** A clock without a transfer for the bridge, whatever else the bus does; a data phase it owns is driven and
      is not stretched. */
  function GapBus(m: Machine, other: Bus): Bus {
    Bus(other.sel && (other.trans / 2) % 2 == 0, other.addr, other.trans, other.write, other.size,
        if m.bridge.dphase.valid then m.wdata else other.wdata, other.ready || m.bridge.dphase.valid)
  }

  function Wait(m: Machine, others: seq<Bus>): Machine
    decreases |others|
  {
    if others == [] then m
    else
      var before := Wait(m, others[..|others| - 1]);
      Clock(before, GapBus(before, others[|others| - 1]))
  }

  /** The clock in which an aligned word access puts its address on the bus. */
  function Transfer(m: Machine, offset: Word, write: bool): Bus
    requires offset < 0x10000
  {
    Bus(true, HOST_BASE + offset, 2, write, WORD_SIZE, m.wdata, true)
  }

  /** Some clocks of waiting, then the address phase of an access. */
  function Access(m: Machine, others: seq<Bus>, offset: Word, write: bool): Machine
    requires offset < 0x10000
  {
    var ready := Wait(m, others);
    Clock(ready, Transfer(ready, offset, write))
  }

  // The configuration space as the program is meant to see it

  datatype Op = Read(bdf: Word, reg: Word) | Write(bdf: Word, reg: Word, value: Word)

  /** One function, at bus 0, device 1, with an identity and a scratch register; all else reads as ones. */
  function SpaceRead(scratch: Word, bdf: Word, reg: Word): Word {
    if bdf == 0x800 && reg % 1024 == 0x000 then 0x56781234
    else if bdf == 0x800 && reg % 1024 == 0x040 then scratch
    else 0xFFFFFFFF
  }

  function SpaceWrite(scratch: Word, bdf: Word, reg: Word, value: Word): Word {
    if bdf == 0x800 && reg % 1024 == 0x040 then value else scratch
  }

  function AfterOp(scratch: Word, op: Op): Word {
    match op
    case Read(_, _) => scratch
    case Write(bdf, reg, value) => SpaceWrite(scratch, bdf, reg, value)
  }

  // The life of one transaction

  predicate WritePending(m: Machine) {
    m.bridge.dphase.valid && m.bridge.dphase.write
  }

  /** Nothing is in progress and the scratch register holds the value. */
  ghost predicate Quiet(m: Machine, scratch: Word) {
    && m.bridge.state == Idle && !m.bridge.busy
    && Endpoint.Ready(m.endpoint) && m.endpoint.scratch == scratch
  }

  function Command(op: Op): Word {
    if op.Read? then CMD_CFG_READ else CMD_CFG_WRITE
  }

  ghost predicate Programmed(r: Registers, op: Op) {
    r.cfgBdf == op.bdf && r.cfgReg == op.reg && (op.Write? ==> r.cfgWdata == op.value)
  }

  ghost predicate Carries(q: Request, op: Op) {
    && q.kind == (if op.Read? then CfgRead else CfgWrite) && q.bdf == op.bdf && q.reg == op.reg % 1024
    && (op.Write? ==> q.wdata == op.value)
  }

  ghost predicate Serves(s: Endpoint.Saved, op: Op) {
    && s.opcode == (if op.Read? then TLP_CFG_READ else TLP_CFG_WRITE) && s.bdf == op.bdf && s.reg == op.reg % 1024
    && (op.Write? ==> s.wdata == op.value)
  }

  /** The command sits in its data phase; whatever done says is about an older one. */
  ghost predicate Posted(m: Machine, op: Op, scratch: Word) {
    && Quiet(m, scratch) && Programmed(m.bridge, op)
    && m.bridge.dphase == DataPhase(true, true, REG_CFG_COMMAND, WORD_SIZE) && m.wdata == Command(op)
  }

  ghost predicate InBridge(m: Machine, op: Op, scratch: Word) {
    && m.bridge.state == Issue && Carries(m.bridge.req, op)
    && Endpoint.Ready(m.endpoint) && m.endpoint.scratch == scratch
  }

  ghost predicate InEndpoint(m: Machine, op: Op, scratch: Word) {
    && m.bridge.state == WaitCpl && Carries(m.bridge.req, op)
    && m.endpoint.pending && !m.endpoint.cplValid && m.endpoint.delay <= Endpoint.LATENCY
    && Serves(m.endpoint.saved, op) && m.endpoint.scratch == scratch
  }

  ghost predicate Returning(m: Machine, op: Op, scratch: Word) {
    && m.bridge.state == WaitCpl && Carries(m.bridge.req, op)
    && !m.endpoint.pending && m.endpoint.cplValid && m.endpoint.scratch == AfterOp(scratch, op)
    && StatusOf(m.endpoint.cpl) == CPL_SUCCESS
    && (op.Read? ==> m.endpoint.cpl.dw1 == SpaceRead(scratch, op.bdf, op.reg))
  }

  ghost predicate Finished(m: Machine, op: Op, scratch: Word) {
    && Quiet(m, AfterOp(scratch, op)) && m.bridge.done && m.bridge.errors == NO_ERRORS
    && (op.Read? ==> m.bridge.cfgRdata == SpaceRead(scratch, op.bdf, op.reg))
  }

  /** The transaction is somewhere between the bridge and its end. */
  ghost predicate Underway(m: Machine, op: Op, scratch: Word) {
    && !WritePending(m) && m.bridge.busy && !m.bridge.done && m.bridge.errors == NO_ERRORS
    && (InBridge(m, op, scratch) || InEndpoint(m, op, scratch) || Returning(m, op, scratch))
  }

  ghost predicate InProgress(m: Machine, op: Op, scratch: Word) {
    Posted(m, op, scratch) || Underway(m, op, scratch) || (Finished(m, op, scratch) && !WritePending(m))
  }

  /** How many clocks are left. */
  function Remaining(m: Machine): nat {
    if WritePending(m) then 7
    else if m.bridge.state == Issue then 6
    else if m.bridge.state == WaitCpl then (if m.endpoint.cplValid then 1 else 2 + m.endpoint.delay)
    else 0
  }

  lemma PostedAdvances(m: Machine, bus: Bus, op: Op, scratch: Word)
    requires Posted(m, op, scratch) && bus.wdata == m.wdata && bus.ready && !(AddressPhase(bus) && bus.write)
    ensures Underway(Clock(m, bus), op, scratch) && Remaining(Clock(m, bus)) < Remaining(m)
  {
  }

  lemma BridgeHandsOver(m: Machine, bus: Bus, op: Op, scratch: Word)
    requires InBridge(m, op, scratch) && Underway(m, op, scratch) && !(AddressPhase(bus) && bus.write)
    ensures Underway(Clock(m, bus), op, scratch) && Remaining(Clock(m, bus)) < Remaining(m)
  {
  }

  lemma EndpointWorks(m: Machine, bus: Bus, op: Op, scratch: Word)
    requires InEndpoint(m, op, scratch) && Underway(m, op, scratch) && !(AddressPhase(bus) && bus.write)
    ensures Underway(Clock(m, bus), op, scratch) && Remaining(Clock(m, bus)) < Remaining(m)
  {
  }

  lemma CompletionArrives(m: Machine, bus: Bus, op: Op, scratch: Word)
    requires Returning(m, op, scratch) && Underway(m, op, scratch) && !(AddressPhase(bus) && bus.write)
    ensures Finished(Clock(m, bus), op, scratch) && !WritePending(Clock(m, bus))
  {
  }

  lemma FinishedStays(m: Machine, bus: Bus, op: Op, scratch: Word)
    requires Finished(m, op, scratch) && !WritePending(m) && !(AddressPhase(bus) && bus.write)
    ensures Finished(Clock(m, bus), op, scratch) && !WritePending(Clock(m, bus))
  {
  }

  /** A clock in which no new store is begun moves the transaction on, and only its own completion ends it. */
  lemma ClockAdvances(m: Machine, bus: Bus, op: Op, scratch: Word)
    requires InProgress(m, op, scratch) && !(AddressPhase(bus) && bus.write)
    requires m.bridge.dphase.valid ==> bus.ready && bus.wdata == m.wdata
    ensures var n := Clock(m, bus); InProgress(n, op, scratch) && !WritePending(n) && n.wdata == m.wdata
    ensures Remaining(Clock(m, bus)) <= Remaining(m) && (Remaining(m) > 0 ==> Remaining(Clock(m, bus)) < Remaining(m))
  {
    hide Step, Endpoint.Step, Encode, AddressPhase, BackendOf;
    if Posted(m, op, scratch) { PostedAdvances(m, bus, op, scratch); }
    else if Finished(m, op, scratch) { FinishedStays(m, bus, op, scratch); }
    else if InBridge(m, op, scratch) { BridgeHandsOver(m, bus, op, scratch); }
    else if InEndpoint(m, op, scratch) { EndpointWorks(m, bus, op, scratch); }
    else { CompletionArrives(m, bus, op, scratch); }
  }
}
