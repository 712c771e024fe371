/** The four-word packets between host and endpoint (labh2_pcie_tlp_tx.v, labh2_pcie_tlp_rx.v). */
module Tlp {
  import opened Words
  import opened HostBridge

  const TLP_CFG_READ := 0x01
  const TLP_CFG_WRITE := 0x02
  const TLP_CPL := 0x80
  const CPL_SUCCESS := 0
  const CPL_ERROR := 1

  const OPCODE_SHIFT := 0x1000000

  datatype Packet = Packet(dw0: Word, dw1: Word, dw2: Word, dw3: Word)

  function Opcode(kind: Kind): nat {
    match kind
    case CfgRead => TLP_CFG_READ
    case CfgWrite => TLP_CFG_WRITE
  }

  /** Opcode in the top byte, register number in the low ten bits. */
  function Encode(q: Request): Packet {
    Packet(Opcode(q.kind) * OPCODE_SHIFT + q.reg, q.bdf, q.wdata, 0)
  }

  function OpcodeOf(p: Packet): nat {
    p.dw0 / OPCODE_SHIFT
  }

  function RegisterOf(p: Packet): nat {
    p.dw0 % 1024
  }

  function Completion(status: nat, data: Word): Packet
    requires status < 4
  {
    Packet(TLP_CPL * OPCODE_SHIFT + status, data, 0, 0)
  }

  /** cpl_status: anything that is not a completion reads as an error. */
  function StatusOf(p: Packet): nat {
    if OpcodeOf(p) == TLP_CPL then p.dw0 % 4 else CPL_ERROR
  }

  /** The receiver gets back what the sender put in. */
  lemma RequestRoundTrip(q: Request)
    ensures OpcodeOf(Encode(q)) == Opcode(q.kind) && RegisterOf(Encode(q)) == q.reg
    ensures Encode(q).dw1 == q.bdf && Encode(q).dw2 == q.wdata
  {
  }

  /** The words on the wire. */
  lemma PacketLayout(q: Request, status: nat, data: Word)
    requires status < 4
    ensures Encode(q) == Packet((if q.kind == CfgRead then 0x01000000 else 0x02000000) + q.reg, q.bdf, q.wdata, 0)
    ensures Completion(status, data) == Packet(0x80000000 + status, data, 0, 0)
    ensures forall p: Packet :: p.dw0 / 0x1000000 != 0x80 ==> StatusOf(p) == 1
  {
  }

  lemma EncodeIsInjective(p: Request, q: Request)
    requires Encode(p) == Encode(q)
    ensures p == q
  {
  }

  lemma CompletionRoundTrip(status: nat, data: Word)
    requires status < 4
    ensures StatusOf(Completion(status, data)) == status && Completion(status, data).dw1 == data
  {
  }
}

/** The endpoint with its two-clock latency and held completion (labh2_pcie_endpoint_model.v). */
module Endpoint {
  import opened Words
  import opened Tlp

  const ENDPOINT_BDF := 0x800
  const CFG_ID := 0x000
  const CFG_SCRATCH := 0x040
  const DEVICE_ID := 0x56781234
  const ALL_ONES: Word := 0xFFFFFFFF
  const LATENCY := 2

  /** The request being worked on. */
  datatype Saved = Saved(opcode: nat, bdf: Word, reg: nat, wdata: Word)

  datatype Registers = Registers(scratch: Word, pending: bool, delay: nat, saved: Saved, cplValid: bool, cpl: Packet)

  const RESET := Registers(0, false, 0, Saved(0, 0, 0, 0), false, Packet(0, 0, 0, 0))

  predicate Ready(e: Registers) {
    !e.pending && !e.cplValid
  }

  function ReadValue(bdf: Word, reg: nat, scratch: Word): Word {
    if bdf != ENDPOINT_BDF then ALL_ONES
    else if reg == CFG_ID then DEVICE_ID
    else if reg == CFG_SCRATCH then scratch
    else ALL_ONES
  }

  function Written(bdf: Word, reg: nat, wdata: Word, scratch: Word): Word {
    if bdf == ENDPOINT_BDF && reg == CFG_SCRATCH then wdata else scratch
  }

  function Answer(e: Registers): Registers {
    var n := e.(pending := false, cplValid := true);
    if e.saved.opcode == TLP_CFG_READ then
      n.(cpl := Completion(CPL_SUCCESS, ReadValue(e.saved.bdf, e.saved.reg, e.scratch)))
    else if e.saved.opcode == TLP_CFG_WRITE then
      n.(cpl := Completion(CPL_SUCCESS, 0), scratch := Written(e.saved.bdf, e.saved.reg, e.saved.wdata, e.scratch))
    else n.(cpl := Completion(CPL_ERROR, ALL_ONES))
  }

  function WorkStage(e: Registers, reqValid: bool, p: Packet): Registers {
    if reqValid && Ready(e) then
      e.(saved := Saved(OpcodeOf(p), p.dw1, RegisterOf(p), p.dw2), pending := true, delay := LATENCY)
    else if !e.pending then e
    else if e.delay != 0 then e.(delay := e.delay - 1)
    else Answer(e)
  }

  /** One clock; taking the completion is the last assignment. */
  function Step(e: Registers, reqValid: bool, p: Packet, cplReady: bool): Registers {
    var n := WorkStage(e, reqValid, p);
    if e.cplValid && cplReady then n.(cplValid := false) else n
  }

  class Device {
    var regs: Registers

    constructor ()
      ensures regs == RESET
    {
      regs := RESET;
    }

    method Clock(reqValid: bool, p: Packet, cplReady: bool)
      modifies this
      ensures regs == Step(old(regs), reqValid, p, cplReady)
    {
      var next := regs;
      if reqValid && Ready(regs) {
        next := next.(saved := Saved(OpcodeOf(p), p.dw1, RegisterOf(p), p.dw2), pending := true, delay := LATENCY);
      } else if regs.pending {
        if regs.delay != 0 {
          next := next.(delay := regs.delay - 1);
        } else {
          next := Complete();
        }
      }
      if regs.cplValid && cplReady { next := next.(cplValid := false); }
      regs := next;
    }

    method Complete() returns (next: Registers)
      ensures next == Answer(regs)
    {
      next := regs.(pending := false, cplValid := true);
      if regs.saved.opcode == TLP_CFG_READ {
        next := next.(cpl := Completion(CPL_SUCCESS, 0));
        if regs.saved.bdf != ENDPOINT_BDF {
          next := next.(cpl := next.cpl.(dw1 := ALL_ONES));
        } else {
          match regs.saved.reg
          case 0x000 => next := next.(cpl := next.cpl.(dw1 := DEVICE_ID));
          case 0x040 => next := next.(cpl := next.cpl.(dw1 := regs.scratch));
          case _ => next := next.(cpl := next.cpl.(dw1 := ALL_ONES));
        }
      } else if regs.saved.opcode == TLP_CFG_WRITE {
        next := next.(cpl := Completion(CPL_SUCCESS, 0));
        if regs.saved.bdf == ENDPOINT_BDF && regs.saved.reg == CFG_SCRATCH {
          next := next.(scratch := regs.saved.wdata);
        }
      } else {
        next := next.(cpl := Completion(CPL_ERROR, ALL_ONES));
      }
    }
  }
}
