/** The outbound memory aperture as an AHB slave (labh3_ahb_pcie_mmio_bridge.v). */
module MmioBridge {
  import opened Words
  import H = HostBridge

  const APERTURE_BASE: Word := 0x60000000
  const APERTURE_NIBBLE := 6
  const PCIE_BUS_BASE: Word := 0x60000000

  datatype Phase = Ready | DataPhase | Issue | Wait | Resp | Err1 | Err2

  datatype Registers = Registers(phase: Phase, addr: Word, write: bool, size: nat, wdata: Word, rdata: Word)

  const RESET := Registers(Ready, 0, false, 0, 0, 0)

  /** The adapter's memory-side outputs in one clock. */
  datatype Memory = Memory(reqReady: bool, cplValid: bool, cplStatus: nat, cplRdata: Word)

  predicate HReadyOut(r: Registers) {
    r.phase == Ready || r.phase == Resp || r.phase == Err2
  }

  predicate HResp(r: Registers) {
    r.phase == Err1 || r.phase == Err2
  }

  function RequestAddress(r: Registers): Word {
    AddWord(PCIE_BUS_BASE, SubWord(r.addr, APERTURE_BASE))
  }

  /** Only aligned word accesses inside the aperture go on. */
  predicate Acceptable(r: Registers) {
    r.size == H.WORD_SIZE && r.addr % 4 == 0 && r.addr / 0x10000000 == APERTURE_NIBBLE
  }

  function Begin(r: Registers, bus: H.Bus): Registers {
    r.(phase := DataPhase, addr := bus.addr, write := bus.write, size := bus.size)
  }

  /** One clock. */
  function Step(r: Registers, bus: H.Bus, k: Memory): Registers {
    match r.phase
    case Ready => if H.AddressPhase(bus) then Begin(r, bus) else r
    case DataPhase =>
      if !Acceptable(r) then r.(phase := Err1)
      else r.(phase := Issue, wdata := if r.write then bus.wdata else r.wdata)
    case Issue => if !k.reqReady then r else r.(phase := if r.write then Resp else Wait)
    case Wait =>
      if !k.cplValid then r
      else if k.cplStatus != 0 then r.(phase := Err1)
      else r.(phase := Resp, rdata := k.cplRdata)
    case Resp => if H.AddressPhase(bus) then Begin(r, bus) else r.(phase := Ready)
    case Err1 => r.(phase := Err2)
    case Err2 => r.(phase := Ready)
  }

  class Bridge {
    var phase: Phase
    var addr: Word
    var write: bool
    var size: nat
    var wdata: Word
    var rdata: Word

    ghost function State(): Registers
      reads this
    {
      Registers(phase, addr, write, size, wdata, rdata)
    }

    constructor ()
      ensures State() == RESET
    {
      phase, addr, write, size, wdata, rdata := Ready, 0, false, 0, 0, 0;
    }

    method Latch(bus: H.Bus)
      modifies this
      ensures State() == Begin(old(State()), bus)
    {
      phase, addr, write, size := DataPhase, bus.addr, bus.write, bus.size;
    }

    method Clock(bus: H.Bus, k: Memory)
      modifies this
      ensures State() == Step(old(State()), bus, k)
    {
      hide Begin, H.AddressPhase;
      match phase
      case Ready =>
        if H.AddressPhase(bus) { Latch(bus); }
      case DataPhase =>
        if size != H.WORD_SIZE || addr % 4 != 0 || addr / 0x10000000 != APERTURE_NIBBLE {
          phase := Err1;
        } else {
          phase := Issue;
          if write { wdata := bus.wdata; }
        }
      case Issue =>
        if k.reqReady { phase := if write then Resp else Wait; }
      case Wait =>
        if k.cplValid {
          if k.cplStatus != 0 {
            phase := Err1;
          } else {
            phase, rdata := Resp, k.cplRdata;
          }
        }
      case Resp =>
        if H.AddressPhase(bus) { Latch(bus); } else { phase := Ready; }
      case Err1 => phase := Err2;
      case Err2 => phase := Ready;
    }
  }
}
