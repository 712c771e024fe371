/** The one backend that both AHB ports share (labh3_pcie_vendor_adapter_model.v). */
module VendorAdapter {
  import opened Words
  import H = HostBridge

  const ENDPOINT_BDF := 0x800
  const DEVICE_ID: Word := 0x56781234
  const CFG_VENDOR_DEVICE := 0x000
  const CFG_COMMAND_STATUS := 0x004
  const CFG_BAR0 := 0x010
  const BAR0_SIZE := 0x10000
  const BAR0_MASK: Word := 0xFFFF0000
  const ALL_ONES: Word := 0xFFFFFFFF
  const SCRATCH_OFFSET: Word := 0x1000
  const LATENCY := 2

  datatype Phase = Ready | Delay | Completing

  datatype Channel = Configuration | Memory

  /** The registers that software can reach. */
  datatype Device = Device(command: nat, bar0: Word, probe: bool, scratch: Word)

  datatype Registers = Registers(
    phase: Phase, channel: Channel, delay: nat, cfg: H.Request, memAddr: Word, dev: Device, status: nat, rdata: Word)

  const BLANK := Device(0, 0, false, 0)

  const RESET := Registers(Ready, Configuration, 0, H.Request(H.CfgRead, 0, 0, 0), 0, BLANK, 0, 0)

  /** What the two bridges drive in one clock. */
  datatype Inputs = Inputs(
    cfgValid: bool, cfg: H.Request, cfgTakes: bool,
    memValid: bool, memWrite: bool, memAddr: Word, memWdata: Word, memTakes: bool)

  predicate CfgReady(r: Registers) {
    r.phase == Ready
  }

  /** Configuration has priority. */
  predicate MemReady(r: Registers, cfgValid: bool) {
    r.phase == Ready && !cfgValid
  }

  predicate CfgCompletes(r: Registers) {
    r.phase == Completing && r.channel == Configuration
  }

  predicate MemCompletes(r: Registers) {
    r.phase == Completing && r.channel == Memory
  }

  // The device that the adapter stands for

  function CfgAnswer(d: Device, q: H.Request): Word {
    if q.bdf != ENDPOINT_BDF then ALL_ONES
    else if q.kind == H.CfgWrite then 0
    else if q.reg == CFG_VENDOR_DEVICE then DEVICE_ID
    else if q.reg == CFG_COMMAND_STATUS then d.command % 0x10000
    else if q.reg == CFG_BAR0 then (if d.probe then BAR0_MASK else d.bar0)
    else 0
  }

  function AfterCfg(d: Device, q: H.Request): Device {
    if q.bdf != ENDPOINT_BDF || q.kind == H.CfgRead then d
    else if q.reg == CFG_COMMAND_STATUS then d.(command := q.wdata % 0x10000)
    else if q.reg == CFG_BAR0 then
      if q.wdata == ALL_ONES then d.(probe := true) else d.(bar0 := q.wdata - q.wdata % BAR0_SIZE, probe := false)
    else d
  }

  /** Memory space enabled and the one decoded address. */
  predicate Decodes(d: Device, addr: Word) {
    (d.command / 2) % 2 == 1 && addr == AddWord(d.bar0, SCRATCH_OFFSET)
  }

  function AfterStore(d: Device, addr: Word, value: Word): Device {
    if Decodes(d, addr) then d.(scratch := value) else d
  }

  function LoadStatus(d: Device, addr: Word): nat {
    if Decodes(d, addr) then 0 else 1
  }

  function LoadAnswer(d: Device, addr: Word): Word {
    if Decodes(d, addr) then d.scratch else ALL_ONES
  }

  // One clock

  function Accept(r: Registers, i: Inputs): Registers {
    if i.cfgValid then r.(phase := Delay, channel := Configuration, delay := LATENCY, cfg := i.cfg)
    else if !i.memValid then r
    else if i.memWrite then r.(dev := AfterStore(r.dev, i.memAddr, i.memWdata))
    else r.(phase := Delay, channel := Memory, delay := LATENCY, memAddr := i.memAddr)
  }

  function Perform(r: Registers): Registers {
    match r.channel
    case Configuration =>
      r.(phase := Completing, status := 0, rdata := CfgAnswer(r.dev, r.cfg), dev := AfterCfg(r.dev, r.cfg))
    case Memory =>
      r.(phase := Completing, status := LoadStatus(r.dev, r.memAddr), rdata := LoadAnswer(r.dev, r.memAddr))
  }

  function Step(r: Registers, i: Inputs): Registers {
    match r.phase
    case Ready => Accept(r, i)
    case Delay => if r.delay != 0 then r.(delay := r.delay - 1) else Perform(r)
    case Completing =>
      if (CfgCompletes(r) && i.cfgTakes) || (MemCompletes(r) && i.memTakes) then r.(phase := Ready) else r
  }

  class Adapter {
    var regs: Registers

    constructor ()
      ensures regs == RESET
    {
      regs := RESET;
    }

    method Clock(i: Inputs)
      modifies this
      ensures regs == Step(old(regs), i)
    {
      match regs.phase
      case Ready =>
        if i.cfgValid && CfgReady(regs) {
          regs := regs.(phase := Delay, channel := Configuration, delay := LATENCY, cfg := i.cfg);
        } else if i.memValid && MemReady(regs, i.cfgValid) {
          if i.memWrite {
            if (regs.dev.command / 2) % 2 == 1 && i.memAddr == AddWord(regs.dev.bar0, SCRATCH_OFFSET) {
              regs := regs.(dev := regs.dev.(scratch := i.memWdata));
            }
          } else {
            regs := regs.(phase := Delay, channel := Memory, delay := LATENCY, memAddr := i.memAddr);
          }
        }
      case Delay =>
        if regs.delay != 0 {
          regs := regs.(delay := regs.delay - 1);
        } else {
          Work();
        }
      case Completing =>
        if (CfgCompletes(regs) && i.cfgTakes) || (MemCompletes(regs) && i.memTakes) {
          regs := regs.(phase := Ready);
        }
    }

    /** The clock in which the delay is over; every right-hand side reads the old registers. */
    method Work()
      modifies this
      ensures regs == Perform(old(regs))
    {
      var next := regs.(phase := Completing, status := 0, rdata := 0);
      if regs.channel == Configuration {
        if regs.cfg.bdf != ENDPOINT_BDF {
          next := next.(rdata := ALL_ONES);
        } else if regs.cfg.kind == H.CfgRead {
          next := next.(rdata := ReadConfig());
        } else {
          next := next.(dev := WriteConfig());
        }
      } else if (regs.dev.command / 2) % 2 == 1 && regs.memAddr == AddWord(regs.dev.bar0, SCRATCH_OFFSET) {
        next := next.(rdata := regs.dev.scratch);
      } else {
        next := next.(status := 1, rdata := ALL_ONES);
      }
      regs := next;
    }

    function ReadConfig(): Word
      reads this
    {
      match regs.cfg.reg
      case 0x000 => DEVICE_ID
      case 0x004 => regs.dev.command % 0x10000
      case 0x010 => if regs.dev.probe then BAR0_MASK else regs.dev.bar0
      case _ => 0
    }

    function WriteConfig(): Device
      reads this
    {
      match regs.cfg.reg
      case 0x004 => regs.dev.(command := regs.cfg.wdata % 0x10000)
      case 0x010 =>
        if regs.cfg.wdata == ALL_ONES then regs.dev.(probe := true)
        else regs.dev.(bar0 := regs.cfg.wdata - regs.cfg.wdata % BAR0_SIZE, probe := false)
      case _ => regs.dev
    }
  }
}
