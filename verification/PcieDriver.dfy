/** The polling driver of lab H2 (main.c) on the machine, for every behaviour of the rest of the bus. */
module PcieDriver {
  import opened Words
  import opened HostBridge
  import opened Tlp
  import Endpoint
  import opened PcieMachine

  const POLL_LIMIT: nat := 100000

  datatype Result = OK | ERR_BUSY | ERR_BACKEND | ERR_TIMEOUT

  /** What the bus does before each of the driver's accesses. */
  type Environment = nat -> seq<Bus>

  /** Where a call leaves the machine, how many accesses it has used, what it returns and what it read. */
  datatype Outcome = Outcome(m: Machine, used: nat, result: Result, value: Word)

  // The calls as functions of the machine and the environment

  function LoadFrom(m: Machine, others: seq<Bus>, offset: Word): Machine
    requires offset < 0x10000
  {
    Access(m, others, offset, false)
  }

  function StoreTo(m: Machine, others: seq<Bus>, offset: Word, value: Word): Machine
    requires offset < 0x10000
  {
    Access(m, others, offset, true).(wdata := value)
  }

  /** wait_completion with a number of polls left. */
  function Poll(m: Machine, env: Environment, k: nat, left: nat, wanted: bool): Outcome
    decreases left
  {
    if left == 0 then Outcome(m, k, ERR_TIMEOUT, 0)
    else
      var p := LoadFrom(m, env(k), REG_STATUS);
      var status := ReadData(p.bridge);
      if (status / 2) % 2 == 0 then Poll(p, env, k + 1, left - 1, wanted)
      else if (status / 4) % 2 != 0 then Outcome(p, k + 1, ERR_BACKEND, 0)
      else if !wanted then Outcome(p, k + 1, OK, 0)
      else
        var q := LoadFrom(p, env(k + 1), REG_CFG_RDATA);
        Outcome(q, k + 2, OK, ReadData(q.bridge))
  }

  /** The registers a call programs before it rings the doorbell. */
  function Program(m: Machine, env: Environment, k: nat, op: Op): (r: (Machine, nat)) {
    var m1 := StoreTo(m, env(k), REG_CFG_BDF, op.bdf);
    var m2 := StoreTo(m1, env(k + 1), REG_CFG_REG, op.reg);
    if op.Read? then (m2, k + 2) else (StoreTo(m2, env(k + 2), REG_CFG_WDATA, op.value), k + 3)
  }

  /** config_read32 and config_write32 */
  function Perform(m: Machine, env: Environment, k: nat, op: Op): Outcome {
    var p := LoadFrom(m, env(k), REG_STATUS);
    if ReadData(p.bridge) % 2 != 0 then Outcome(p, k + 1, ERR_BUSY, 0)
    else
      var (programmed, next) := Program(p, env, k + 1, op);
      Poll(StoreTo(programmed, env(next), REG_CFG_COMMAND, Command(op)), env, next + 1, POLL_LIMIT, op.Read?)
  }

  // Programming the registers

  ghost predicate Programming(m: Machine, scratch: Word) {
    && Quiet(m, scratch)
    && (WritePending(m) ==>
          m.bridge.dphase.size == WORD_SIZE && m.bridge.dphase.addr in {REG_CFG_BDF, REG_CFG_REG, REG_CFG_WDATA})
  }

  /** A register's value once the store in its data phase has landed. */
  function Upcoming(m: Machine, offset: nat, value: Word): Word {
    if WritePending(m) && m.bridge.dphase.addr == offset then m.wdata else value
  }

  datatype Programmables = Programmables(bdf: Word, reg: Word, wdata: Word)

  function Settings(m: Machine): Programmables {
    Programmables(Upcoming(m, REG_CFG_BDF, m.bridge.cfgBdf), Upcoming(m, REG_CFG_REG, m.bridge.cfgReg),
                  Upcoming(m, REG_CFG_WDATA, m.bridge.cfgWdata))
  }

  lemma QuietClock(m: Machine, bus: Bus, scratch: Word)
    requires Programming(m, scratch) && (m.bridge.dphase.valid ==> bus.ready && bus.wdata == m.wdata)
    ensures var n := Clock(m, bus);
            && Quiet(n, scratch) && n.wdata == m.wdata && n.bridge.dphase == Captured(m.bridge, bus)
            && Programmables(n.bridge.cfgBdf, n.bridge.cfgReg, n.bridge.cfgWdata) == Settings(m)
  {
  }

  lemma {:induction false} QuietWait(m: Machine, others: seq<Bus>, scratch: Word)
    requires Programming(m, scratch)
    ensures Programming(Wait(m, others), scratch) && Settings(Wait(m, others)) == Settings(m)
    decreases |others|
  {
    if others != [] {
      var before := Wait(m, others[..|others| - 1]);
      QuietWait(m, others[..|others| - 1], scratch);
      QuietClock(before, GapBus(before, others[|others| - 1]), scratch);
      hide Clock, Quiet;
    }
  }

  lemma QuietAccess(m: Machine, others: seq<Bus>, offset: Word, write: bool, scratch: Word)
    requires Programming(m, scratch) && offset < 0x10000
    ensures var n := Access(m, others, offset, write);
            && Quiet(n, scratch) && n.bridge.dphase == DataPhase(true, write, offset, WORD_SIZE)
            && Programmables(n.bridge.cfgBdf, n.bridge.cfgReg, n.bridge.cfgWdata) == Settings(m)
  {
    hide Clock, Quiet, Settings;
    QuietWait(m, others, scratch);
    var ready := Wait(m, others);
    QuietClock(ready, Transfer(ready, offset, write), scratch);
  }

  lemma StoreIsUpcoming(m: Machine, others: seq<Bus>, offset: Word, value: Word, scratch: Word)
    requires Programming(m, scratch) && offset in {REG_CFG_BDF, REG_CFG_REG, REG_CFG_WDATA}
    ensures var n := StoreTo(m, others, offset, value);
            && Programming(n, scratch)
            && Settings(n) == (if offset == REG_CFG_BDF then Settings(m).(bdf := value)
                               else if offset == REG_CFG_REG then Settings(m).(reg := value)
                               else Settings(m).(wdata := value))
  {
    hide Access;
    QuietAccess(m, others, offset, true, scratch);
  }

  lemma ProgramIsUpcoming(m: Machine, env: Environment, k: nat, op: Op, scratch: Word)
    requires Programming(m, scratch)
    ensures var (n, _) := Program(m, env, k, op);
            && Programming(n, scratch) && Settings(n).bdf == op.bdf && Settings(n).reg == op.reg
            && (op.Write? ==> Settings(n).wdata == op.value)
  {
    hide StoreTo, Settings, Programming;
    var m1 := StoreTo(m, env(k), REG_CFG_BDF, op.bdf);
    var m2 := StoreTo(m1, env(k + 1), REG_CFG_REG, op.reg);
    StoreIsUpcoming(m, env(k), REG_CFG_BDF, op.bdf, scratch);
    StoreIsUpcoming(m1, env(k + 1), REG_CFG_REG, op.reg, scratch);
    if op.Write? {
      StoreIsUpcoming(m2, env(k + 2), REG_CFG_WDATA, op.value, scratch);
    }
  }

  lemma DoorbellPosts(m: Machine, others: seq<Bus>, op: Op, scratch: Word)
    requires Programming(m, scratch) && Settings(m).bdf == op.bdf && Settings(m).reg == op.reg
    requires op.Write? ==> Settings(m).wdata == op.value
    ensures Posted(StoreTo(m, others, REG_CFG_COMMAND, Command(op)), op, scratch)
  {
    hide Access, Settings;
    QuietAccess(m, others, REG_CFG_COMMAND, true, scratch);
  }

  // Polling

  lemma {:induction false} WaitAdvances(m: Machine, others: seq<Bus>, op: Op, scratch: Word)
    requires InProgress(m, op, scratch)
    ensures InProgress(Wait(m, others), op, scratch) && Remaining(Wait(m, others)) <= Remaining(m)
    decreases |others|
  {
    hide InProgress, Remaining, Clock;
    if others != [] {
      var before := Wait(m, others[..|others| - 1]);
      WaitAdvances(m, others[..|others| - 1], op, scratch);
      ClockAdvances(before, GapBus(before, others[|others| - 1]), op, scratch);
    }
  }

  lemma LoadDataPhase(m: Machine, others: seq<Bus>, offset: Word)
    requires offset < 0x10000
    ensures LoadFrom(m, others, offset).bridge.dphase == DataPhase(true, false, offset, WORD_SIZE)
  {
  }

  /** A load does not disturb the transaction, and takes at least one of its clocks. */
  lemma LoadAdvances(m: Machine, others: seq<Bus>, offset: Word, op: Op, scratch: Word)
    requires InProgress(m, op, scratch) && offset < 0x10000
    ensures var p := LoadFrom(m, others, offset);
            && (Finished(p, op, scratch) || Underway(p, op, scratch)) && !WritePending(p) && InProgress(p, op, scratch)
            && (Remaining(m) > 0 ==> Remaining(p) < Remaining(m)) && (Remaining(m) == 0 ==> Remaining(p) == 0)
  {
    hide Clock, Finished, Underway, Posted;
    WaitAdvances(m, others, op, scratch);
    var ready := Wait(m, others);
    ClockAdvances(ready, Transfer(ready, offset, false), op, scratch);
    LoadDataPhase(m, others, offset);
    PostedIsPending(LoadFrom(m, others, offset), op, scratch);
  }

  lemma PostedIsPending(m: Machine, op: Op, scratch: Word)
    ensures Posted(m, op, scratch) ==> WritePending(m)
  {
  }

  /** The status word never shows an older transaction's DONE: the bit is set exactly when this one has finished. */
  lemma StatusTellsProgress(m: Machine, others: seq<Bus>, op: Op, scratch: Word)
    requires InProgress(m, op, scratch)
    ensures var p := LoadFrom(m, others, REG_STATUS);
            && (ReadData(p.bridge) == if Remaining(p) == 0 then 2 else 1)
            && (Remaining(p) == 0 ==> Finished(p, op, scratch))
  {
    hide LoadFrom, InBridge, InEndpoint, Returning;
    LoadAdvances(m, others, REG_STATUS, op, scratch);
    LoadDataPhase(m, others, REG_STATUS);
    UnderwayTakesTime(LoadFrom(m, others, REG_STATUS), op, scratch);
  }

  lemma UnderwayTakesTime(m: Machine, op: Op, scratch: Word)
    ensures Underway(m, op, scratch) ==> Remaining(m) > 0
    ensures Finished(m, op, scratch) && !WritePending(m) ==> Remaining(m) == 0
  {
  }

  lemma RdataIsRead(m: Machine, others: seq<Bus>, op: Op, scratch: Word)
    requires Finished(m, op, scratch) && !WritePending(m) && op.Read?
    ensures var q := LoadFrom(m, others, REG_CFG_RDATA);
            && Finished(q, op, scratch) && !WritePending(q)
            && ReadData(q.bridge) == SpaceRead(scratch, op.bdf, op.reg)
  {
    hide LoadFrom, InBridge, InEndpoint, Returning;
    LoadAdvances(m, others, REG_CFG_RDATA, op, scratch);
    LoadDataPhase(m, others, REG_CFG_RDATA);
    UnderwayTakesTime(m, op, scratch);
    UnderwayTakesTime(LoadFrom(m, others, REG_CFG_RDATA), op, scratch);
  }

  ghost predicate Succeeded(o: Outcome, op: Op, scratch: Word) {
    && o.result == OK && Finished(o.m, op, scratch) && !WritePending(o.m)
    && (op.Read? ==> o.value == SpaceRead(scratch, op.bdf, op.reg))
  }

  /** More polls than remaining clocks are always enough. */
  lemma {:induction false} PollSucceeds(m: Machine, env: Environment, k: nat, left: nat, op: Op, scratch: Word)
    requires InProgress(m, op, scratch) && Remaining(m) < left
    ensures Succeeded(Poll(m, env, k, left, op.Read?), op, scratch)
    decreases left
  {
    hide LoadFrom, InProgress, Finished, ReadData, Remaining;
    var p := LoadFrom(m, env(k), REG_STATUS);
    LoadAdvances(m, env(k), REG_STATUS, op, scratch);
    StatusTellsProgress(m, env(k), op, scratch);
    if Remaining(p) > 0 {
      PollSucceeds(p, env, k + 1, left - 1, op, scratch);
    } else if op.Read? {
      RdataIsRead(p, env(k + 1), op, scratch);
    }
  }

  // Each call is one atomic step of the configuration space

  ghost predicate Resting(m: Machine, scratch: Word) {
    Quiet(m, scratch) && !WritePending(m)
  }

  lemma RemainingAtMostSeven(m: Machine, op: Op, scratch: Word)
    requires Posted(m, op, scratch)
    ensures Remaining(m) < POLL_LIMIT && InProgress(m, op, scratch)
  {
  }

  lemma FinishedIsResting(m: Machine, op: Op, scratch: Word)
    requires Finished(m, op, scratch) && !WritePending(m)
    ensures Resting(m, AfterOp(scratch, op))
  {
  }

  lemma CallIsAtomic(m: Machine, env: Environment, k: nat, op: Op, scratch: Word)
    requires Resting(m, scratch)
    ensures var o := Perform(m, env, k, op);
            && o.result == OK && Resting(o.m, AfterOp(scratch, op))
            && (op.Read? ==> o.value == SpaceRead(scratch, op.bdf, op.reg))
  {
    hide Access, Poll, Program, Finished, Posted, InProgress, Remaining, Settings, StoreTo;
    QuietAccess(m, env(k), REG_STATUS, false, scratch);
    var p := LoadFrom(m, env(k), REG_STATUS);
    assert Programming(p, scratch) && ReadData(p.bridge) % 2 == 0;
    ProgramIsUpcoming(p, env, k + 1, op, scratch);
    var (programmed, next) := Program(p, env, k + 1, op);
    DoorbellPosts(programmed, env(next), op, scratch);
    var posted := StoreTo(programmed, env(next), REG_CFG_COMMAND, Command(op));
    RemainingAtMostSeven(posted, op, scratch);
    PollSucceeds(posted, env, next + 1, POLL_LIMIT, op, scratch);
    FinishedIsResting(Poll(posted, env, next + 1, POLL_LIMIT, op.Read?).m, op, scratch);
  }

  /** The results of a program of calls on the machine. */
  function RunCalls(m: Machine, env: Environment, k: nat, ops: seq<Op>): seq<(Result, Word)>
    decreases |ops|
  {
    if ops == [] then []
    else
      var o := Perform(m, env, k, ops[0]);
      [(o.result, if ops[0].Read? then o.value else 0)] + RunCalls(o.m, env, o.used, ops[1..])
  }

  /** The same program on an atomic configuration space. */
  function SpaceResults(scratch: Word, ops: seq<Op>): seq<(Result, Word)>
    decreases |ops|
  {
    if ops == [] then []
    else
      [(OK, if ops[0].Read? then SpaceRead(scratch, ops[0].bdf, ops[0].reg) else 0)]
      + SpaceResults(AfterOp(scratch, ops[0]), ops[1..])
  }

  lemma {:induction false} CallsRefineSpace(m: Machine, env: Environment, k: nat, ops: seq<Op>, scratch: Word)
    requires Resting(m, scratch)
    ensures RunCalls(m, env, k, ops) == SpaceResults(scratch, ops)
    decreases |ops|
  {
    hide Perform, Resting, SpaceRead, AfterOp;
    if ops != [] {
      CallIsAtomic(m, env, k, ops[0], scratch);
      var o := Perform(m, env, k, ops[0]);
      CallsRefineSpace(o.m, env, o.used, ops[1..], AfterOp(scratch, ops[0]));
    }
  }

  const POWER_ON := Machine(RESET, Endpoint.RESET, 0)

  /** From reset, whatever else happens on the bus: every program of calls gets the answers of an atomic
      configuration space. */
  lemma DriverRefinesSpace(env: Environment, ops: seq<Op>)
    ensures RunCalls(POWER_ON, env, 0, ops) == SpaceResults(0, ops)
  {
    CallsRefineSpace(POWER_ON, env, 0, ops, 0);
  }

  /** No write to the scratch register among these calls. */
  predicate LeavesScratch(ops: seq<Op>) {
    forall i :: 0 <= i < |ops| ==>
      ops[i].Read? || ops[i].bdf != Endpoint.ENDPOINT_BDF || ops[i].reg % 1024 != Endpoint.CFG_SCRATCH
  }

  lemma {:induction false} SpaceReturnsLastWrite(scratch: Word, before: seq<Op>, value: Word, between: seq<Op>)
    requires LeavesScratch(between)
    ensures var write := Write(Endpoint.ENDPOINT_BDF, Endpoint.CFG_SCRATCH, value);
            var read := Read(Endpoint.ENDPOINT_BDF, Endpoint.CFG_SCRATCH);
            var results := SpaceResults(scratch, before + [write] + between + [read]);
            |results| == |before| + |between| + 2 && results[|results| - 1] == (OK, value)
    decreases |before|, |between|
  {
    var write := Write(Endpoint.ENDPOINT_BDF, Endpoint.CFG_SCRATCH, value);
    var read := Read(Endpoint.ENDPOINT_BDF, Endpoint.CFG_SCRATCH);
    var ops := before + [write] + between + [read];
    if before != [] {
      assert ops[1..] == before[1..] + [write] + between + [read];
      SpaceReturnsLastWrite(AfterOp(scratch, before[0]), before[1..], value, between);
    } else {
      assert ops[1..] == between + [read];
      ReadAfterOthers(value, between);
    }
  }

  lemma {:induction false} ReadAfterOthers(scratch: Word, between: seq<Op>)
    requires LeavesScratch(between)
    ensures var read := Read(Endpoint.ENDPOINT_BDF, Endpoint.CFG_SCRATCH);
            var results := SpaceResults(scratch, between + [read]);
            |results| == |between| + 1 && results[|results| - 1] == (OK, scratch)
    decreases |between|
  {
    var read := Read(Endpoint.ENDPOINT_BDF, Endpoint.CFG_SCRATCH);
    if between != [] {
      assert (between + [read])[1..] == between[1..] + [read];
      ReadAfterOthers(scratch, between[1..]);
    }
  }

  /** In particular, from reset and with anything else on the bus, a read of the scratch register succeeds with the last
      value that a call has written there, whatever calls came before and between. */
  lemma ReadReturnsLastWrite(env: Environment, before: seq<Op>, value: Word, between: seq<Op>)
    requires LeavesScratch(between)
    ensures var write := Write(Endpoint.ENDPOINT_BDF, Endpoint.CFG_SCRATCH, value);
            var read := Read(Endpoint.ENDPOINT_BDF, Endpoint.CFG_SCRATCH);
            var results := RunCalls(POWER_ON, env, 0, before + [write] + between + [read]);
            |results| == |before| + |between| + 2 && results[|results| - 1] == (OK, value)
  {
    hide RunCalls, SpaceResults;
    var write := Write(Endpoint.ENDPOINT_BDF, Endpoint.CFG_SCRATCH, value);
    var read := Read(Endpoint.ENDPOINT_BDF, Endpoint.CFG_SCRATCH);
    DriverRefinesSpace(env, before + [write] + between + [read]);
    SpaceReturnsLastWrite(0, before, value, between);
  }

  /** The last value that a call has written to the scratch register. */
  function LastWritten(ops: seq<Op>): Word
    decreases |ops|
  {
    if ops == [] then 0
    else
      var op := ops[|ops| - 1];
      if op.Write? && op.bdf == 0x800 && op.reg % 1024 == 0x040 then op.value else LastWritten(ops[..|ops| - 1])
  }

  /** What a call is to return after the calls before it. */
  function Answer(before: seq<Op>, op: Op): (Result, Word) {
    if op.Write? then (OK, 0)
    else if op.bdf == 0x800 && op.reg % 1024 == 0x000 then (OK, 0x56781234)
    else if op.bdf == 0x800 && op.reg % 1024 == 0x040 then (OK, LastWritten(before))
    else (OK, 0xFFFFFFFF)
  }

  /** The scratch register after some calls. */
  function ScratchAfter(scratch: Word, ops: seq<Op>): Word
    decreases |ops|
  {
    if ops == [] then scratch else ScratchAfter(AfterOp(scratch, ops[0]), ops[1..])
  }

  lemma {:induction false} ScratchNext(scratch: Word, ops: seq<Op>, op: Op)
    ensures ScratchAfter(scratch, ops + [op]) == AfterOp(ScratchAfter(scratch, ops), op)
    decreases |ops|
  {
    if ops == [] {
      assert ([] + [op])[1..] == [];
    } else {
      assert (ops + [op])[1..] == ops[1..] + [op];
      ScratchNext(AfterOp(scratch, ops[0]), ops[1..], op);
    }
  }

  lemma {:induction false} ScratchIsLastWritten(ops: seq<Op>)
    ensures ScratchAfter(0, ops) == LastWritten(ops)
    decreases |ops|
  {
    if ops != [] {
      var rest, op := ops[..|ops| - 1], ops[|ops| - 1];
      ScratchIsLastWritten(rest);
      ScratchNext(0, rest, op);
      assert rest + [op] == ops;
    }
  }

  lemma {:induction false} SpaceResultAt(scratch: Word, ops: seq<Op>, i: nat)
    requires i < |ops|
    ensures |SpaceResults(scratch, ops)| == |ops|
    ensures SpaceResults(scratch, ops)[i] ==
            (OK, if ops[i].Read? then SpaceRead(ScratchAfter(scratch, ops[..i]), ops[i].bdf, ops[i].reg) else 0)
    decreases |ops|
  {
    if i > 0 {
      SpaceResultAt(AfterOp(scratch, ops[0]), ops[1..], i - 1);
      assert ops[..i][1..] == ops[1..][..i - 1];
    } else if |ops| > 1 {
      SpaceResultAt(AfterOp(scratch, ops[0]), ops[1..], 0);
    }
  }

  /** From reset and with anything else on the bus, call by call: writes succeed; the identity register, the scratch
      register with the last value written, and all ones for any other register and any other function are read. */
  lemma CallsAreAnswered(env: Environment, ops: seq<Op>, i: nat)
    requires i < |ops|
    ensures |RunCalls(POWER_ON, env, 0, ops)| == |ops|
    ensures RunCalls(POWER_ON, env, 0, ops)[i] == Answer(ops[..i], ops[i])
  {
    hide RunCalls, SpaceResults, ScratchAfter;
    DriverRefinesSpace(env, ops);
    SpaceResultAt(0, ops, i);
    ScratchIsLastWritten(ops[..i]);
  }

  // Failures

  /** The machine after some polls, each of which leaves the access to STATUS behind. */
  function AfterPolls(m: Machine, env: Environment, k: nat, n: nat): Machine
    decreases n
  {
    if n == 0 then m else AfterPolls(LoadFrom(m, env(k), REG_STATUS), env, k + 1, n - 1)
  }

  /** The status word that the n-th poll sees. */
  function StatusSeen(m: Machine, env: Environment, k: nat, n: nat): Word {
    ReadData(AfterPolls(m, env, k, n + 1).bridge)
  }

  /** DONE is bit 1 and ERROR bit 2. */
  predicate SeesDone(m: Machine, env: Environment, k: nat, n: nat) {
    (StatusSeen(m, env, k, n) / 2) % 2 == 1
  }

  /** The n-th poll is the first to see DONE, and sees ERROR with it. */
  ghost predicate FailsAt(m: Machine, env: Environment, k: nat, n: nat) {
    && SeesDone(m, env, k, n) && (StatusSeen(m, env, k, n) / 4) % 2 == 1
    && forall i: nat :: i < n ==> !SeesDone(m, env, k, i)
  }

  lemma SeesNext(m: Machine, env: Environment, k: nat, n: nat)
    ensures var p := LoadFrom(m, env(k), REG_STATUS);
            && StatusSeen(p, env, k + 1, n) == StatusSeen(m, env, k, n + 1)
            && (SeesDone(p, env, k + 1, n) <==> SeesDone(m, env, k, n + 1))
  {
    hide LoadFrom, ReadData;
  }

  lemma FailsNext(m: Machine, env: Environment, k: nat, n: nat)
    requires !SeesDone(m, env, k, 0)
    ensures FailsAt(LoadFrom(m, env(k), REG_STATUS), env, k + 1, n) <==> FailsAt(m, env, k, n + 1)
  {
    hide LoadFrom, SeesDone, StatusSeen;
    var p, next := LoadFrom(m, env(k), REG_STATUS), k + 1;
    SeesNext(m, env, k, n);
    forall i | 0 <= i < n ensures SeesDone(p, env, next, i) <==> SeesDone(m, env, k, i + 1) {
      SeesNext(m, env, k, i);
    }
    if FailsAt(p, env, next, n) {
      forall i | 0 <= i < n + 1 ensures !SeesDone(m, env, k, i) {
        if i > 0 { assert !SeesDone(p, env, next, i - 1); }
      }
    }
  }

  /** Whatever the hardware does: polling gives up exactly if none of its reads sees DONE, and otherwise the first one
      that does decides by its ERROR bit. */
  lemma {:induction false} PollIsExact(m: Machine, env: Environment, k: nat, left: nat, wanted: bool)
    ensures var r := Poll(m, env, k, left, wanted).result;
            && r in {OK, ERR_BACKEND, ERR_TIMEOUT}
            && (r == ERR_TIMEOUT <==>
                  forall n: nat :: n < left ==> !SeesDone(m, env, k, n))
            && (r == ERR_BACKEND <==> exists n: nat :: n < left && FailsAt(m, env, k, n))
    decreases left
  {
    hide LoadFrom, ReadData, FailsAt, SeesDone;
    if left > 0 {
      FirstPoll(m, env, k, left, wanted);
      if !SeesDone(m, env, k, 0) {
        var p, next := LoadFrom(m, env(k), REG_STATUS), k + 1;
        PollIsExact(p, env, next, left - 1, wanted);
        if n: nat :| n < left && SeesDone(m, env, k, n) { SeesNext(m, env, k, n - 1); }
        if n: nat :| n < left - 1 && SeesDone(p, env, next, n) { SeesNext(m, env, k, n); }
        if n: nat :| n < left && FailsAt(m, env, k, n) {
          FailsSeesDone(m, env, k, n);
          FailsNext(m, env, k, n - 1);
        }
        if n: nat :| n < left - 1 && FailsAt(p, env, next, n) { FailsNext(m, env, k, n); }
      } else if n: nat :| n < left && FailsAt(m, env, k, n) {
        FailsSeesDone(m, env, k, n);
      }
    }
  }

  lemma FailsSeesDone(m: Machine, env: Environment, k: nat, n: nat)
    requires FailsAt(m, env, k, n)
    ensures SeesDone(m, env, k, n) && (SeesDone(m, env, k, 0) ==> n == 0)
  {
  }

  lemma FirstPoll(m: Machine, env: Environment, k: nat, left: nat, wanted: bool)
    requires left > 0
    ensures var p, r := LoadFrom(m, env(k), REG_STATUS), Poll(m, env, k, left, wanted).result;
            if !SeesDone(m, env, k, 0) then r == Poll(p, env, k + 1, left - 1, wanted).result
            else r == (if FailsAt(m, env, k, 0) then ERR_BACKEND else OK)
  {
    hide LoadFrom, ReadData;
    assert AfterPolls(m, env, k, 1) == LoadFrom(m, env(k), REG_STATUS);
  }

  /** A call while an earlier transaction is still under way is refused, and the transaction goes on. */
  lemma CallWhileBusy(m: Machine, env: Environment, k: nat, op: Op, pending: Op, scratch: Word)
    requires InProgress(m, pending, scratch) && Remaining(LoadFrom(m, env(k), REG_STATUS)) > 0
    ensures var o := Perform(m, env, k, op);
            o.result == ERR_BUSY && o.used == k + 1 && InProgress(o.m, pending, scratch)
  {
    hide LoadFrom, InProgress, Poll, Program, StoreTo, Remaining;
    StatusTellsProgress(m, env(k), pending, scratch);
    LoadAdvances(m, env(k), REG_STATUS, pending, scratch);
  }

  // The program

  /** The bridge and the endpoint of m3ds_pcie_backend.v, the bus they sit on, and the driver's calls. */
  class Host {
    const bridge: Bridge
    const device: Endpoint.Device
    const env: Environment
    var wdata: Word
    var used: nat

    constructor (env: Environment)
      ensures State() == POWER_ON && used == 0 && this.env == env && fresh(bridge) && fresh(device)
    {
      bridge := new Bridge();
      device := new Endpoint.Device();
      this.env, wdata, used := env, 0, 0;
    }

    ghost function State(): Machine
      reads this, bridge, device
    {
      Machine(bridge.regs, device.regs, wdata)
    }

    /** One clock edge: both modules see the outputs of before the edge. */
    method Tick(bus: Bus)
      modifies bridge, device
      ensures State() == Clock(old(State()), bus)
    {
      hide Step, Endpoint.Step, Encode, BackendOf;
      var backend, packet := BackendOf(device.regs), Encode(bridge.regs.req);
      var reqValid, cplReady := bridge.regs.state == Issue, bridge.regs.state == WaitCpl;
      bridge.Clock(bus, backend);
      device.Clock(reqValid, packet, cplReady);
    }

    method Pause(others: seq<Bus>)
      modifies bridge, device
      ensures State() == Wait(old(State()), others)
    {
      hide Clock;
      for i := 0 to |others|
        invariant State() == Wait(old(State()), others[..i])
      {
        var bus := GapBus(Machine(bridge.regs, device.regs, wdata), others[i]);
        Tick(bus);
        assert others[..i + 1][..i] == others[..i] && others[..i + 1][i] == others[i];
      }
      assert others[..|others|] == others;
    }

    method Reach(offset: Word, write: bool)
      requires offset < 0x10000
      modifies this`used, bridge, device
      ensures State() == Access(old(State()), env(old(used)), offset, write) && used == old(used) + 1
    {
      hide Clock, Wait;
      Pause(env(used));
      Tick(Transfer(Machine(bridge.regs, device.regs, wdata), offset, write));
      used := used + 1;
    }

    method LoadWord(offset: Word) returns (value: Word)
      requires offset < 0x10000
      modifies this`used, bridge, device
      ensures State() == LoadFrom(old(State()), env(old(used)), offset) && value == ReadData(State().bridge)
      ensures used == old(used) + 1
    {
      Reach(offset, false);
      value := ReadData(bridge.regs);
    }

    method StoreWord(offset: Word, value: Word)
      requires offset < 0x10000
      modifies this, bridge, device
      ensures State() == StoreTo(old(State()), env(old(used)), offset, value) && used == old(used) + 1
    {
      Reach(offset, true);
      wdata := value;
    }

    /** wait_completion */
    method WaitCompletion(wanted: bool) returns (result: Result, value: Word)
      modifies this, bridge, device
      ensures Outcome(State(), used, result, value) == Poll(old(State()), env, old(used), POLL_LIMIT, wanted)
    {
      hide LoadFrom, ReadData;
      value := 0;
      for timeout := 0 to POLL_LIMIT
        invariant value == 0
        invariant Poll(State(), env, used, POLL_LIMIT - timeout, wanted) ==
                  Poll(old(State()), env, old(used), POLL_LIMIT, wanted)
      {
        var status := LoadWord(REG_STATUS);
        if (status / 2) % 2 == 0 { continue; }
        if (status / 4) % 2 != 0 { return ERR_BACKEND, 0; }
        if wanted { value := LoadWord(REG_CFG_RDATA); }
        return OK, value;
      }
      return ERR_TIMEOUT, 0;
    }

    /** config_read32 */
    method ConfigRead32(bdf: Word, reg: Word) returns (result: Result, value: Word)
      modifies this, bridge, device
      ensures Outcome(State(), used, result, value) == Perform(old(State()), env, old(used), Read(bdf, reg))
    {
      hide LoadFrom, StoreTo, Poll, ReadData;
      var status := LoadWord(REG_STATUS);
      if status % 2 != 0 { return ERR_BUSY, 0; }
      StoreWord(REG_CFG_BDF, bdf);
      StoreWord(REG_CFG_REG, reg);
      StoreWord(REG_CFG_COMMAND, CMD_CFG_READ);
      result, value := WaitCompletion(true);
    }

    /** config_write32 */
    method ConfigWrite32(bdf: Word, reg: Word, value: Word) returns (result: Result)
      modifies this, bridge, device
      ensures var o := Perform(old(State()), env, old(used), Write(bdf, reg, value));
              State() == o.m && used == o.used && result == o.result
    {
      hide LoadFrom, StoreTo, Poll, ReadData;
      var status := LoadWord(REG_STATUS);
      if status % 2 != 0 { return ERR_BUSY; }
      StoreWord(REG_CFG_BDF, bdf);
      StoreWord(REG_CFG_REG, reg);
      StoreWord(REG_CFG_WDATA, value);
      StoreWord(REG_CFG_COMMAND, CMD_CFG_WRITE);
      var ignored;
      result, ignored := WaitCompletion(false);
    }
  }
}
