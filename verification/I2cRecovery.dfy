/** Freeing a bus whose target stopped in the middle of a byte (mps2_i2c_recover_bus). */
module I2cRecovery {
  import opened Words
  import opened I2cBits
  import opened I2cWires
  import opened I2cBytes
  import opened I2cTransfer

  /** Clock pulses until SDA is seen high. */
  function ClockOut(w: Wires, e: Env, left: nat): (Wires, Status)
    decreases left
  {
    if left == 0 then (w, OK)
    else
      var (n, r) := WaitScl(PullScl(w), e);
      if r != OK || Sda(n) then (n, r) else ClockOut(n, e, left - 1)
  }

  function Recover(w: Wires, e: Env): (Wires, Status) {
    if e.timeout == 0 then (w, ERR_ARGUMENT)
    else
      var (n, r) := WaitScl(SetSda(w, true), e);
      if r != OK || Sda(n) then (n, r)
      else
        var (n, r) := ClockOut(n, e, 9);
        if r != OK then (n, r) else GenerateStop(n, e)
  }

  lemma {:induction false} ClockOutReleases(w: Wires, e: Env, left: nat)
    requires w.mSda && w.mScl
    ensures Released(ClockOut(w, e, left).0)
    decreases left
  {
    hide OnFall, OnRise;
    if left > 0 {
      var (n, r) := WaitScl(PullScl(w), e);
      if r == OK && !Sda(n) {
        ClockOutReleases(n, e, left - 1);
      }
    }
  }

  /** Whatever happens, the controller lets go of both wires. */
  lemma RecoverReleases(w: Wires, e: Env)
    ensures Released(Recover(w, e).0) || e.timeout == 0
  {
    hide OnFall, OnRise, OnStart, OnStop, ClockOut, GenerateStop;
    if e.timeout != 0 {
      var (n, r) := WaitScl(SetSda(w, true), e);
      ClockOutReleases(n, e, 9);
      StopReleases(ClockOut(n, e, 9).0, e);
    }
  }

  /** Both wires are let go by the controller and SCL is high. */
  predicate Up(w: Wires) {
    w.scl && w.mScl && w.mSda
  }

  lemma PulseWhileUp(w: Wires, e: Env)
    requires Up(w) && Patient(e)
    ensures var (n, r) := WaitScl(PullScl(w), e);
            r == OK && Up(n) && n.target == OnRise(OnFall(w.target), OnFall(w.target).sda)
  {
  }

  /** The STOP comes out only if the target lets SDA go at the falling edge that precedes it. */
  lemma StopWhileUp(w: Wires, e: Env)
    requires Up(w) && Patient(e)
    ensures var (n, r) := GenerateStop(w, e);
            if OnFall(w.target).sda then r == OK && Up(n) && n.target.mode == Asleep && n.target.sda
            else r == ERR_BUS_BUSY && Up(n) && !Sda(n)
  {
  }

  /** In the rest of the byte, the first 1 is followed by a 0. */
  predicate Slips(left: seq<bool>)
    decreases |left|
  {
    |left| >= 2 && if left[0] then !left[1] else Slips(left[1..])
  }

  lemma {:induction false} ClockOutTalking(w: Wires, e: Env, left: seq<bool>, pulses: nat)
    requires Up(w) && Patient(e) && w.target.mode == Talking(left) && |left| > 0 && pulses >= |left|
    requires w.target.sda == left[0] == false
    ensures var (n, r) := ClockOut(w, e, pulses);
            && r == OK && Up(n) && (OnFall(n.target).sda <==> !Slips(left))
    decreases |left|
  {
    hide Patient, PullScl, WaitScl;
    PulseWhileUp(w, e);
    var n := WaitScl(PullScl(w), e).0;
    if |left| > 1 && !left[1] {
      ClockOutTalking(n, e, left[1..], pulses - 1);
    }
  }

  /** What a target can be in the middle of: in every other state it leaves SDA alone. */
  ghost predicate Coherent(g: Engine) {
    match g.mode
    case Talking(left) => 0 < |left| <= 8 && g.sda == left[0]
    case Answering(ack, _) => g.sda == !ack
    case Listening(_, bits) => |bits| <= 8 && g.sda
    case _ => g.sda
  }

  /** A target between two bytes is in one of these states, and nothing on the bus takes it out of them. */
  lemma AlwaysCoherent(g: Engine, sda: bool)
    requires Coherent(g) || exists p :: g == EngineOf(p)
    ensures Coherent(OnStart(g)) && Coherent(OnStop(g)) && Coherent(OnRise(g, sda)) && Coherent(OnFall(g))
  {
    hide BitsOf, ByteOf, Called, Take, Give, Stopped, Begun;
  }

  /** The bits, the present one first, that a target puts on SDA before it waits for the controller. */
  function Coming(g: Engine): seq<bool> {
    match g.mode
    case Talking(left) => left
    case Answering(ack, sending) => [!ack] + if ack && sending then BitsOf(Give(g.dev).1) else []
    case _ => [true]
  }

  /** Clocking out a target that holds SDA low. */
  lemma ClockOutHolding(w: Wires, e: Env)
    requires Up(w) && Patient(e) && Coherent(w.target) && !w.target.sda
    ensures var (n, r) := ClockOut(w, e, 9);
            && r == OK && Up(n) && (OnFall(n.target).sda <==> !Slips(Coming(w.target)))
  {
    match w.target.mode
    case Talking(left) => ClockOutTalking(w, e, left, 9);
    case Answering(_, sending) => ClockOutAnswering(w, e, sending);
    case _ => assert false;
  }

  lemma ClockOutAnswering(w: Wires, e: Env, sending: bool)
    requires Up(w) && Patient(e) && w.target.mode == Answering(true, sending) && !w.target.sda
    ensures var (n, r) := ClockOut(w, e, 9);
            && r == OK && Up(n) && (OnFall(n.target).sda <==> !Slips(Coming(w.target)))
  {
    PulseWhileUp(w, e);
    var n := WaitScl(PullScl(w), e).0;
    hide PullScl, WaitScl, Patient;
    if sending {
      hide BitsOf, Give;
      var bits := BitsOf(Give(w.target.dev).1);
      SlipsAfterLow(bits);
      if !bits[0] {
        ClockOutTalking(n, e, bits, 8);
      }
    }
  }

  lemma SlipsAfterLow(bits: seq<bool>)
    requires |bits| > 0
    ensures Slips([false] + bits) == Slips(bits)
  {
    assert ([false] + bits)[1..] == bits;
  }

  /** Once both wires are let go: recovery reports OK if and only if SDA is high at once, or the first 1 that the target
      still has to send is not followed by a 0; the loop stops at that 1 and the STOP clocks out one bit more. After OK
      the bus is free, and a target that held it is asleep; otherwise the target still holds it. */
  lemma RecoverIsExact(w: Wires, e: Env)
    requires Up(w) && Patient(e) && Coherent(w.target)
    ensures var (n, r) := Recover(w, e);
            && (r == OK <==> w.target.sda || !Slips(Coming(w.target)))
            && (r == OK ==> Sda(n) && n.scl && Released(n))
            && (r == OK && !w.target.sda ==> n.target.mode == Asleep)
            && (w.target.sda ==> n.target == w.target)
            && (r != OK ==> r == ERR_BUS_BUSY && !Sda(n) && Released(n))
  {
    hide OnFall, Stopped, ClockOut, GenerateStop, Slips, Coming, Coherent;
    PatientTimeout(e);
    var n := SetSda(w, true);
    assert WaitScl(n, e) == (n, OK) && n.target == w.target && Up(n);
    if !w.target.sda {
      ClockOutHolding(n, e);
      StopWhileUp(ClockOut(n, e, 9).0, e);
    }
  }

  /** In whatever state the wires were: the first two writes of the call let them go, and may be a STOP or a clock edge
      to the target; from there on the exact condition applies. */
  lemma RecoverFromAnywhere(w: Wires, e: Env)
    requires Patient(e) && Coherent(w.target)
    ensures var n := WaitScl(SetSda(w, true), e).0;
            Up(n) && Coherent(n.target) && (Recover(w, e).1 == OK <==> n.target.sda || !Slips(Coming(n.target)))
  {
    hide OnFall, Stopped, ClockOut, GenerateStop, Slips, Coming, Coherent, OnStart, OnStop, OnRise;
    PatientTimeout(e);
    assert e.stretch(SetSda(w, true).releases) < e.timeout;
    var n := WaitScl(SetSda(w, true), e).0;
    AlwaysCoherent(w.target, true);
    var s := SetSda(w, true);
    AlwaysCoherent(s.target, Sda(s));
    if !n.target.sda {
      ClockOutHolding(n, e);
      StopWhileUp(ClockOut(n, e, 9).0, e);
    }
  }

  /** In the middle of a byte. */
  lemma RecoverFreesTalking(w: Wires, e: Env, left: seq<bool>)
    requires Up(w) && Patient(e) && w.target.mode == Talking(left) && 0 < |left| <= 8
    requires w.target.sda == left[0] == false
    ensures var (n, r) := Recover(w, e);
            && (r == OK <==> !Slips(left))
            && (r == OK ==> n.target.mode == Asleep && Sda(n) && n.scl)
            && (r != OK ==> r == ERR_BUS_BUSY && !Sda(n))
  {
    hide Recover, Slips;
    RecoverIsExact(w, e);
  }

  /** A failing case in the middle of a byte: a target with the bits 0, 1, 0 left leaves the bus busy. */
  lemma RecoverCanFail(w: Wires, e: Env)
    requires Up(w) && Patient(e) && w.target.mode == Talking([false, true, false]) && !w.target.sda
    ensures Recover(w, e).1 == ERR_BUS_BUSY
  {
    hide Recover;
    var left := [false, true, false];
    assert left[1..] == [true, false];
    RecoverIsExact(w, e);
  }

  /** A failing case in an acknowledge bit: a target that answers its read address and will send 0xA0. */
  lemma RecoverCanFailAnswering(w: Wires, e: Env)
    requires Up(w) && Patient(e) && w.target.mode == Answering(true, true) && !w.target.sda
    requires w.target.dev == Script([], [0xA0])
    ensures Recover(w, e).1 == ERR_BUS_BUSY
  {
    hide Recover;
    RecoverIsExact(w, e);
    BitsOfA0();
    SlipsAfterLow(BitsOf(0xA0));
  }

  lemma BitsOfA0()
    ensures BitsOf(0xA0)[0] && !BitsOf(0xA0)[1]
  {
    assert LowBits(0xA0 / 64, 2) == LowBits(1, 1) + [false];
    assert LowBits(0xA0 / 16, 4)[..2] == LowBits(0xA0 / 64, 2);
    assert LowBits(0xA0 / 4, 6)[..4] == LowBits(0xA0 / 16, 4);
    assert LowBits(0xA0, 8)[..6] == LowBits(0xA0 / 4, 6);
  }

  /** A target that acknowledges a byte written to it is always freed. */
  lemma RecoverFreesAnswering(w: Wires, e: Env)
    requires Up(w) && Patient(e) && w.target.mode == Answering(true, false) && !w.target.sda
    ensures var (n, r) := Recover(w, e); r == OK && n.target.mode == Asleep && Sda(n) && n.scl
  {
    hide Recover;
    RecoverIsExact(w, e);
  }
}
