/** The CSR front end of the PCIe host (labh1_ahb_pcie_host_bridge.v): one clock as a function of the registers. */
module HostBridge {
  import opened Words

  const CMD_CFG_READ := 1
  const CMD_CFG_WRITE := 2
  const VERSION_VALUE := 0x00010000
  const WORD_SIZE := 2

  const REG_VERSION := 0x00
  const REG_CONTROL := 0x04
  const REG_STATUS := 0x08
  const REG_CFG_BDF := 0x10
  const REG_CFG_REG := 0x14
  const REG_CFG_WDATA := 0x18
  const REG_CFG_RDATA := 0x1C
  const REG_CFG_COMMAND := 0x20
  const REG_ERROR_STATUS := 0x24

  /** A ten-bit register number. */
  type Reg10 = x: int | 0 <= x < 1024

  datatype State = Idle | Issue | WaitCpl

  datatype Kind = CfgRead | CfgWrite

  /** What is held for the backend from acceptance to completion. */
  datatype Request = Request(kind: Kind, bdf: Word, reg: Reg10, wdata: Word)

  /** The AHB transfer whose data phase this clock is. */
  datatype DataPhase = DataPhase(valid: bool, write: bool, addr: nat, size: nat)

  /** The bits of error_status that the hardware ever sets. */
  datatype Errors = Errors(badCommand: bool, backend: bool, whileBusy: bool, badAccess: bool)

  datatype Registers = Registers(
    state: State, busy: bool, done: bool, control: Word,
    cfgBdf: Word, cfgReg: Word, cfgWdata: Word, cfgRdata: Word, cfgCommand: Word,
    errors: Errors, dphase: DataPhase, req: Request)

  /** The AHB inputs of one clock. */
  datatype Bus = Bus(sel: bool, addr: Word, trans: nat, write: bool, size: nat, wdata: Word, ready: bool)

  /** The backend's outputs in one clock. */
  datatype Backend = Backend(reqReady: bool, cplValid: bool, cplStatus: nat, cplRdata: Word)

  const NO_ERRORS := Errors(false, false, false, false)

  const RESET := Registers(Idle, false, false, 0, 0, 0, 0, 0, 0, NO_ERRORS, DataPhase(false, false, 0, 0),
                           Request(CfgRead, 0, 0, 0))

  predicate AddressPhase(bus: Bus) {
    bus.sel && bus.ready && (bus.trans / 2) % 2 == 1
  }

  // The three groups of assignments, in source order; r holds the registers before the clock

  function BackendStage(r: Registers, k: Backend): Registers {
    match r.state
    case Idle => r
    case Issue => if k.reqReady then r.(state := WaitCpl) else r
    case WaitCpl =>
      if !k.cplValid then r
      else if k.cplStatus != 0 then
        r.(state := Idle, busy := false, done := true, errors := NO_ERRORS.(backend := true))
      else r.(state := Idle, busy := false, done := true, errors := NO_ERRORS,
              cfgRdata := if r.req.kind == CfgRead then k.cplRdata else r.cfgRdata)
  }

  function Captured(r: Registers, bus: Bus): DataPhase {
    if !bus.ready then r.dphase
    else if !AddressPhase(bus) then r.dphase.(valid := false)
    else DataPhase(true, bus.write, bus.addr % 0x10000, bus.size)
  }

  predicate CommandWritten(r: Registers) {
    r.dphase.valid && r.dphase.write && r.dphase.size == WORD_SIZE && r.dphase.addr == REG_CFG_COMMAND
  }

  predicate Accepts(r: Registers, wdata: Word) {
    CommandWritten(r) && !r.busy && r.state == Idle && (wdata == CMD_CFG_READ || wdata == CMD_CFG_WRITE)
  }

  function Snapshot(r: Registers, wdata: Word): Request {
    Request(if wdata == CMD_CFG_READ then CfgRead else CfgWrite, r.cfgBdf, r.cfgReg % 1024, r.cfgWdata)
  }

  function CommandStage(r: Registers, n: Registers, wdata: Word): Registers {
    if r.busy || r.state != Idle then n.(cfgCommand := wdata, errors := r.errors.(whileBusy := true))
    else if wdata == CMD_CFG_READ || wdata == CMD_CFG_WRITE then
      n.(cfgCommand := wdata, state := Issue, busy := true, done := false, errors := NO_ERRORS,
         req := Snapshot(r, wdata))
    else n.(cfgCommand := wdata, busy := false, done := true, errors := NO_ERRORS.(badCommand := true))
  }

  function WriteStage(r: Registers, n: Registers, wdata: Word): Registers {
    if !r.dphase.valid || !r.dphase.write then n
    else if r.dphase.size != WORD_SIZE || r.dphase.addr % 4 != 0 then n.(errors := r.errors.(badAccess := true))
    else if r.dphase.addr == REG_CONTROL then n.(control := wdata % 2)
    else if r.dphase.addr == REG_CFG_BDF then n.(cfgBdf := wdata)
    else if r.dphase.addr == REG_CFG_REG then n.(cfgReg := wdata)
    else if r.dphase.addr == REG_CFG_WDATA then n.(cfgWdata := wdata)
    else if r.dphase.addr == REG_CFG_COMMAND then CommandStage(r, n, wdata)
    else n.(errors := r.errors.(badAccess := true))
  }

  /** One clock. */
  function Step(r: Registers, bus: Bus, k: Backend): Registers {
    WriteStage(r, BackendStage(r, k).(dphase := Captured(r, bus)), bus.wdata)
  }

  function Bit(b: bool, weight: Word): Word {
    if b then weight else 0
  }

  function ErrorWord(e: Errors): Word {
    Bit(e.badCommand, 2) + Bit(e.backend, 4) + Bit(e.whileBusy, 8) + Bit(e.badAccess, 16)
  }

  function StatusWord(r: Registers): Word {
    Bit(r.busy, 1) + Bit(r.done, 2) + Bit(r.errors != NO_ERRORS, 4)
  }

  /** HRDATA: what a read in its data phase sees. */
  function ReadData(r: Registers): Word {
    if !r.dphase.valid || r.dphase.write then 0
    else if r.dphase.addr == REG_VERSION then VERSION_VALUE
    else if r.dphase.addr == REG_CONTROL then r.control
    else if r.dphase.addr == REG_STATUS then StatusWord(r)
    else if r.dphase.addr == REG_CFG_BDF then r.cfgBdf
    else if r.dphase.addr == REG_CFG_REG then r.cfgReg
    else if r.dphase.addr == REG_CFG_WDATA then r.cfgWdata
    else if r.dphase.addr == REG_CFG_RDATA then r.cfgRdata
    else if r.dphase.addr == REG_CFG_COMMAND then r.cfgCommand
    else if r.dphase.addr == REG_ERROR_STATUS then ErrorWord(r.errors)
    else 0
  }

  // The module itself: every right-hand side reads the old registers, the last assignment wins

  class Bridge {
    var regs: Registers

    constructor ()
      ensures regs == RESET
    {
      regs := RESET;
    }

    method Clock(bus: Bus, k: Backend)
      modifies this
      ensures regs == Step(old(regs), bus, k)
    {
      var next := FinishBackend(k);
      if bus.ready {
        next := next.(dphase := next.dphase.(valid := AddressPhase(bus)));
        if AddressPhase(bus) {
          next := next.(dphase := DataPhase(true, bus.write, bus.addr % 0x10000, bus.size));
        }
      }
      if regs.dphase.valid && regs.dphase.write {
        next := WriteCsr(next, bus.wdata);
      }
      regs := next;
    }

    method FinishBackend(k: Backend) returns (next: Registers)
      ensures next == BackendStage(regs, k)
    {
      next := regs;
      match regs.state
      case Idle =>
      case Issue =>
        if k.reqReady { next := next.(state := WaitCpl); }
      case WaitCpl =>
        if k.cplValid {
          next := next.(state := Idle, busy := false, done := true);
          if k.cplStatus != 0 {
            next := next.(errors := NO_ERRORS.(backend := true));
          } else {
            next := next.(errors := NO_ERRORS);
            if regs.req.kind == CfgRead { next := next.(cfgRdata := k.cplRdata); }
          }
        }
    }

    method WriteCsr(n: Registers, wdata: Word) returns (next: Registers)
      requires regs.dphase.valid && regs.dphase.write
      ensures next == WriteStage(regs, n, wdata)
    {
      next := n;
      if regs.dphase.size != WORD_SIZE || regs.dphase.addr % 4 != 0 {
        next := next.(errors := regs.errors.(badAccess := true));
      } else {
        match regs.dphase.addr
        case 0x04 => next := next.(control := wdata % 2);
        case 0x10 => next := next.(cfgBdf := wdata);
        case 0x14 => next := next.(cfgReg := wdata);
        case 0x18 => next := next.(cfgWdata := wdata);
        case 0x20 => next := WriteCommand(next, wdata);
        case _ => next := next.(errors := regs.errors.(badAccess := true));
      }
    }

    method WriteCommand(n: Registers, wdata: Word) returns (next: Registers)
      ensures next == CommandStage(regs, n, wdata)
    {
      next := n.(cfgCommand := wdata);
      if regs.busy || regs.state != Idle {
        next := next.(errors := regs.errors.(whileBusy := true));
      } else if wdata == CMD_CFG_READ || wdata == CMD_CFG_WRITE {
        next := next.(state := Issue, busy := true, done := false, errors := NO_ERRORS);
        next := next.(req := next.req.(kind := if wdata == CMD_CFG_READ then CfgRead else CfgWrite));
        next := next.(req := next.req.(bdf := regs.cfgBdf, reg := regs.cfgReg % 1024, wdata := regs.cfgWdata));
      } else {
        next := next.(busy := false, done := true, errors := NO_ERRORS.(badCommand := true));
      }
    }
  }
}

/** What the bridge keeps for every AHB master and every backend. */
module HostBridgeRuns {
  import opened Words
  import opened HostBridge

  datatype Tick = Tick(bus: Bus, backend: Backend)

  function After(ticks: seq<Tick>): Registers
    decreases |ticks|
  {
    if ticks == [] then RESET
    else Step(After(ticks[..|ticks| - 1]), ticks[|ticks| - 1].bus, ticks[|ticks| - 1].backend)
  }

  ghost predicate Inv(r: Registers) {
    (r.busy <==> r.state != Idle) && !(r.busy && r.done)
  }

  function Count(b: bool): nat {
    if b then 1 else 0
  }

  /** Commands taken, requests handed to the backend and completions consumed up to a point of the run. */
  function Accepted(ticks: seq<Tick>): nat
    decreases |ticks|
  {
    if ticks == [] then 0
    else
      var before := ticks[..|ticks| - 1];
      Accepted(before) + Count(Accepts(After(before), ticks[|ticks| - 1].bus.wdata))
  }

  function Handed(ticks: seq<Tick>): nat
    decreases |ticks|
  {
    if ticks == [] then 0
    else
      var before := ticks[..|ticks| - 1];
      Handed(before) + Count(After(before).state == Issue && ticks[|ticks| - 1].backend.reqReady)
  }

  function Completed(ticks: seq<Tick>): nat
    decreases |ticks|
  {
    if ticks == [] then 0
    else
      var before := ticks[..|ticks| - 1];
      Completed(before) + Count(After(before).state == WaitCpl && ticks[|ticks| - 1].backend.cplValid)
  }

  /** What the last accepted command asked for, as programmed when it was accepted. */
  function LastAccepted(ticks: seq<Tick>): Request
    decreases |ticks|
  {
    if ticks == [] then RESET.req
    else
      var before, wdata := ticks[..|ticks| - 1], ticks[|ticks| - 1].bus.wdata;
      if Accepts(After(before), wdata) then Snapshot(After(before), wdata) else LastAccepted(before)
  }

  lemma StepKeepsInv(r: Registers, bus: Bus, k: Backend)
    requires Inv(r)
    ensures Inv(Step(r, bus, k))
  {
  }

  /** The payload changes only when a command is accepted, which needs an idle bridge. */
  lemma PayloadIsStable(r: Registers, bus: Bus, k: Backend)
    ensures Step(r, bus, k).req == if Accepts(r, bus.wdata) then Snapshot(r, bus.wdata) else r.req
    ensures r.state != Idle ==> !Accepts(r, bus.wdata)
  {
  }

  lemma StateFollows(r: Registers, bus: Bus, k: Backend)
    requires Inv(r)
    ensures var n := Step(r, bus, k);
            && Count(n.busy) + Count(r.state == WaitCpl && k.cplValid) == Count(r.busy) + Count(Accepts(r, bus.wdata))
            && Count(n.state == WaitCpl) + Count(r.state == WaitCpl && k.cplValid)
               == Count(r.state == WaitCpl) + Count(r.state == Issue && k.reqReady)
  {
  }

  /** Whatever the master writes and however the backend behaves: busy exactly while a request is open, never
      together with done; the request is the one accepted; every accepted command is handed over once and consumes
      one completion. */
  lemma {:induction false} BridgeKeepsAccounts(ticks: seq<Tick>)
    ensures var r := After(ticks);
            && (r.busy <==> r.state != Idle) && !(r.busy && r.done)
            && r.req == LastAccepted(ticks)
            && Accepted(ticks) == Completed(ticks) + Count(r.busy)
            && Handed(ticks) == Completed(ticks) + Count(r.state == WaitCpl)
    decreases |ticks|
  {
    if ticks != [] {
      var before, tick := ticks[..|ticks| - 1], ticks[|ticks| - 1];
      BridgeKeepsAccounts(before);
      StepKeepsInv(After(before), tick.bus, tick.backend);
      PayloadIsStable(After(before), tick.bus, tick.backend);
      StateFollows(After(before), tick.bus, tick.backend);
      hide Step, Accepts, Snapshot;
    }
  }

  // What software sees in the registers

  /** The store whose data is on the bus in this clock is an aligned word. */
  predicate GoodStore(r: Registers) {
    r.dphase.valid && r.dphase.write && r.dphase.size == 2 && r.dphase.addr % 4 == 0
  }

  /** What a word load at an offset returns. */
  function LoadAt(r: Registers, offset: nat): Word {
    ReadData(r.(dphase := DataPhase(true, false, offset, 2)))
  }

  lemma FieldsAfterStep(r: Registers, bus: Bus, k: Backend)
    ensures var n, good := Step(r, bus, k), GoodStore(r);
            && n.cfgBdf == (if good && r.dphase.addr == 0x10 then bus.wdata else r.cfgBdf)
            && n.cfgReg == (if good && r.dphase.addr == 0x14 then bus.wdata else r.cfgReg)
            && n.cfgWdata == (if good && r.dphase.addr == 0x18 then bus.wdata else r.cfgWdata)
            && n.cfgCommand == (if good && r.dphase.addr == 0x20 then bus.wdata else r.cfgCommand)
            && n.control == (if good && r.dphase.addr == 0x04 then bus.wdata % 2 else r.control)
            && n.cfgRdata == (if r.state == WaitCpl && k.cplValid && k.cplStatus == 0 && r.req.kind == CfgRead
                              then k.cplRdata else r.cfgRdata)
  {
    hide Captured, WriteStage, BackendStage, GoodStore;
    BackendFields(r, k);
    WriteFields(r, BackendStage(r, k).(dphase := Captured(r, bus)), bus.wdata);
  }

  lemma WriteFields(r: Registers, m: Registers, wdata: Word)
    ensures var n, good := WriteStage(r, m, wdata), GoodStore(r);
            && n.cfgBdf == (if good && r.dphase.addr == 0x10 then wdata else m.cfgBdf)
            && n.cfgReg == (if good && r.dphase.addr == 0x14 then wdata else m.cfgReg)
            && n.cfgWdata == (if good && r.dphase.addr == 0x18 then wdata else m.cfgWdata)
            && n.cfgCommand == (if good && r.dphase.addr == 0x20 then wdata else m.cfgCommand)
            && n.control == (if good && r.dphase.addr == 0x04 then wdata % 2 else m.control)
            && n.cfgRdata == m.cfgRdata
  {
    hide Snapshot;
  }

  lemma BackendFields(r: Registers, k: Backend)
    ensures var n := BackendStage(r, k);
            && n == r.(state := n.state, busy := n.busy, done := n.done, errors := n.errors, cfgRdata := n.cfgRdata)
            && n.cfgRdata == (if r.state == WaitCpl && k.cplValid && k.cplStatus == 0 && r.req.kind == CfgRead
                              then k.cplRdata else r.cfgRdata)
  {
  }

  lemma LoadedFields(r: Registers)
    ensures LoadAt(r, 0x00) == 0x00010000 && LoadAt(r, 0x04) == r.control && LoadAt(r, 0x10) == r.cfgBdf
    ensures LoadAt(r, 0x14) == r.cfgReg && LoadAt(r, 0x18) == r.cfgWdata && LoadAt(r, 0x1C) == r.cfgRdata
    ensures LoadAt(r, 0x20) == r.cfgCommand && LoadAt(r, 0x24) == ErrorWord(r.errors)
    ensures LoadAt(r, 0x08) == StatusWord(r)
  {
    hide ErrorWord;
  }

  /** Outside a load, and at an offset where nothing is, zero is driven. */
  lemma NothingElseIsRead(r: Registers, offset: nat)
    ensures !r.dphase.valid || r.dphase.write ==> ReadData(r) == 0
    ensures offset !in {0x00, 0x04, 0x08, 0x10, 0x14, 0x18, 0x1C, 0x20, 0x24} ==> LoadAt(r, offset) == 0
  {
  }

  /** A register that is stored reads back, the others keep what they were; the version is fixed, and of the control
      word one bit is kept. */
  lemma StoredIsReadBack(r: Registers, bus: Bus, k: Backend, offset: nat)
    ensures LoadAt(r, 0x00) == 0x00010000
    ensures offset in {0x10, 0x14, 0x18, 0x20} ==>
              LoadAt(Step(r, bus, k), offset) ==
              if GoodStore(r) && r.dphase.addr == offset then bus.wdata else LoadAt(r, offset)
    ensures LoadAt(Step(r, bus, k), 0x04) ==
            if GoodStore(r) && r.dphase.addr == 0x04 then bus.wdata % 2 else LoadAt(r, 0x04)
    ensures LoadAt(Step(r, bus, k), 0x1C) ==
            if r.state == WaitCpl && k.cplValid && k.cplStatus == 0 && r.req.kind == CfgRead then k.cplRdata
            else LoadAt(r, 0x1C)
  {
    hide Step, LoadAt;
    FieldsAfterStep(r, bus, k);
    LoadedFields(r);
    LoadedFields(Step(r, bus, k));
  }

  /** Why an error may be reported in a clock: a store that is no aligned word or meets no writable register, a command
      while one is open, a command that is none, a completion with an error. */
  datatype Cause = Nothing | BadAccess | WhileBusy | BadCommand | Taken | Failed | Succeeded

  function CauseOf(r: Registers, bus: Bus, k: Backend): Cause {
    if r.dphase.valid && r.dphase.write && (!GoodStore(r) || r.dphase.addr !in {0x04, 0x10, 0x14, 0x18, 0x20}) then
      BadAccess
    else if GoodStore(r) && r.dphase.addr == 0x20 then
      if r.state != Idle then WhileBusy else if bus.wdata in {1, 2} then Taken else BadCommand
    else if r.state == WaitCpl && k.cplValid then if k.cplStatus != 0 then Failed else Succeeded
    else Nothing
  }

  lemma ErrorsAfterStep(r: Registers, bus: Bus, k: Backend)
    requires Inv(r)
    ensures Step(r, bus, k).errors ==
            match CauseOf(r, bus, k)
            case BadAccess => r.errors.(badAccess := true)
            case WhileBusy => r.errors.(whileBusy := true)
            case BadCommand => Errors(true, false, false, false)
            case Failed => Errors(false, true, false, false)
            case Taken => NO_ERRORS
            case Succeeded => NO_ERRORS
            case Nothing => r.errors
  {
    hide Captured, Snapshot;
  }

  lemma DoneAfterStep(r: Registers, bus: Bus, k: Backend)
    requires Inv(r)
    ensures Step(r, bus, k).done <==>
              match CauseOf(r, bus, k)
              case Taken => false
              case BadCommand => true
              case _ => (r.state == WaitCpl && k.cplValid) || r.done
  {
    hide Captured, Snapshot;
  }

  lemma ErrorBits(e: Errors)
    ensures (ErrorWord(e) / 16) % 2 == (if e.badAccess then 1 else 0)
    ensures (ErrorWord(e) / 8) % 2 == (if e.whileBusy then 1 else 0)
    ensures ErrorWord(e.(badAccess := true)) == ErrorWord(e) + if e.badAccess then 0 else 16
    ensures ErrorWord(e.(whileBusy := true)) == ErrorWord(e) + if e.whileBusy then 0 else 8
    ensures ErrorWord(Errors(true, false, false, false)) == 2 && ErrorWord(Errors(false, true, false, false)) == 4
    ensures ErrorWord(e) == 0 <==> e == NO_ERRORS
  {
  }

  lemma StatusBits(r: Registers)
    ensures StatusWord(r) % 2 == (if r.busy then 1 else 0)
    ensures (StatusWord(r) / 2) % 2 == (if r.done then 1 else 0)
    ensures StatusWord(r) / 4 == (if r.errors != NO_ERRORS then 1 else 0)
  {
  }

  /** ERROR_STATUS in numbers: bit 1 for a bad command, 2 for the backend, 3 for a command while busy, 4 for a bad
      access. An accepted command and a completion clear it; a store that goes wrong adds its bit. */
  lemma ErrorStatusTells(r: Registers, bus: Bus, k: Backend)
    requires Inv(r)
    ensures var e, was := LoadAt(Step(r, bus, k), 0x24), LoadAt(r, 0x24);
            match CauseOf(r, bus, k)
            case BadAccess => e == if was / 16 % 2 == 1 then was else was + 16
            case WhileBusy => e == if was / 8 % 2 == 1 then was else was + 8
            case BadCommand => e == 2
            case Failed => e == 4
            case Taken => e == 0
            case Succeeded => e == 0
            case Nothing => e == was
  {
    hide Step, LoadAt, ErrorWord, CauseOf, StatusWord;
    ErrorsAfterStep(r, bus, k);
    LoadedFields(r);
    LoadedFields(Step(r, bus, k));
    ErrorBits(r.errors);
    ErrorBits(NO_ERRORS);
  }

  /** STATUS in numbers: bit 0 while a command is open, bit 1 once one has ended and until the next is accepted, bit 2
      while ERROR_STATUS is not zero. */
  lemma StatusTells(r: Registers, bus: Bus, k: Backend)
    requires Inv(r)
    ensures var n := Step(r, bus, k);
            && LoadAt(n, 0x08) % 2 == (if n.state != Idle then 1 else 0)
            && LoadAt(n, 0x08) / 4 == (if LoadAt(n, 0x24) != 0 then 1 else 0)
            && ((LoadAt(n, 0x08) / 2) % 2 == 1 <==>
                  match CauseOf(r, bus, k)
                  case Taken => false
                  case BadCommand => true
                  case _ => (r.state == WaitCpl && k.cplValid) || (LoadAt(r, 0x08) / 2) % 2 == 1)
  {
    hide Step, LoadAt, ErrorWord, CauseOf, StatusWord;
    StepKeepsInv(r, bus, k);
    DoneAfterStep(r, bus, k);
    var n := Step(r, bus, k);
    LoadedFields(r);
    LoadedFields(n);
    StatusBits(r);
    StatusBits(n);
    ErrorBits(n.errors);
  }
}
