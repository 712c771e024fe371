/** The bit-banged controller and the EEPROM driver as programs. */
module I2cProgram {
  import opened Words
  import opened I2cBits
  import opened I2cWires
  import opened I2cBytes
  import opened I2cTransfer
  import opened I2cRecovery
  import E = I2cEeprom

  // Shifting a byte out

  /** The bits that leave at the top when a byte is shifted left. */
  function TopBits(v: Byte, n: nat): (b: seq<bool>)
    ensures |b| == n
    decreases n
  {
    if n == 0 then [] else [v / 128 == 1] + TopBits((2 * v) % 256, n - 1)
  }

  lemma LowBitsNext(v: nat, n: nat)
    requires n > 0
    ensures LowBits(v, n) == LowBits(v / 2, n - 1) + [v % 2 == 1]
  {
  }

  lemma Halves(b: bool, y: nat, n: nat)
    requires n > 1
    ensures var x := y + if b then Pow2(n - 1) else 0;
            x / 2 == y / 2 + (if b then Pow2(n - 2) else 0) && x % 2 == y % 2
    ensures y < Pow2(n - 1) ==> y / 2 < Pow2(n - 2)
  {
    assert Pow2(n - 1) == 2 * Pow2(n - 2);
    hide Pow2;
  }

  lemma {:induction false} LowBitsFront(b: bool, y: nat, n: nat)
    requires n > 0 && y < Pow2(n - 1)
    ensures LowBits(y + (if b then Pow2(n - 1) else 0), n) == [b] + LowBits(y, n - 1)
    decreases n
  {
    var x := y + if b then Pow2(n - 1) else 0;
    LowBitsNext(x, n);
    if n == 1 {
      Pow2Small();
      assert LowBits(x / 2, 0) == [] && LowBits(y, 0) == [];
    } else {
      hide LowBits, Pow2;
      LowBitsNext(y, n - 1);
      Halves(b, y, n);
      LowBitsFront(b, y / 2, n - 1);
      assert [b] + LowBits(y / 2, n - 2) + [y % 2 == 1] == [b] + (LowBits(y / 2, n - 2) + [y % 2 == 1]);
    }
  }

  /** Doubled some times. */
  function Shifted(x: nat, k: nat): (v: nat)
    decreases k
  {
    if k == 0 then x else 2 * Shifted(x, k - 1)
  }

  lemma {:induction false} ShiftedSum(x: nat, y: nat, k: nat)
    ensures Shifted(x + y, k) == Shifted(x, k) + Shifted(y, k)
    ensures x < y ==> Shifted(x, k) < Shifted(y, k)
    decreases k
  {
    if k > 0 { ShiftedSum(x, y, k - 1); }
  }

  lemma {:induction false} ShiftedPower(n: nat, k: nat)
    ensures Shifted(Pow2(n), k) == Pow2(n + k)
    decreases k
  {
    if k > 0 { ShiftedPower(n, k - 1); }
  }

  lemma {:induction false} TopBitsShifted(x: nat, n: nat)
    requires n <= 8 && x < Pow2(n)
    ensures Shifted(x, 8 - n) < 256 && TopBits(Shifted(x, 8 - n), n) == LowBits(x, n)
    decreases n
  {
    hide LowBits, Shifted, Pow2, TopBits;
    if n == 0 {
      NothingShifted(x, 8);
    } else {
      var y, b := HeadAndRest(x, n);
      var ys := Shifted(y, 8 - n);
      ShiftedHead(y, b, n);
      LowBitsFront(b, y, n);
      TopBitsShifted(y, n - 1);
      ShiftedTwice(y, 8 - n);
      TopBitsHead(ys, b, n);
    }
  }

  lemma NothingShifted(x: nat, k: nat)
    requires x < Pow2(0)
    ensures Shifted(x, k) == 0 && TopBits(0, 0) == LowBits(x, 0)
  {
  }

  lemma ShiftedHead(y: nat, b: bool, n: nat)
    requires 0 < n <= 8 && y < Pow2(n - 1)
    ensures Shifted(y, 8 - n) < 128
    ensures Shifted(y + (if b then Pow2(n - 1) else 0), 8 - n) == Shifted(y, 8 - n) + if b then 128 else 0
  {
    hide Shifted, Pow2;
    ShiftedSum(y, Pow2(n - 1), 8 - n);
    ShiftedPower(n - 1, 8 - n);
    Pow2Small();
  }

  lemma Pow2Small()
    ensures Pow2(0) == 1 && Pow2(7) == 128
  {
  }

  lemma HeadAndRest(x: nat, n: nat) returns (y: nat, b: bool)
    requires n > 0 && x < Pow2(n)
    ensures y < Pow2(n - 1) && x == y + if b then Pow2(n - 1) else 0
  {
    b := x >= Pow2(n - 1);
    y := if b then x - Pow2(n - 1) else x;
  }

  lemma TopBitsHead(rest: nat, b: bool, n: nat)
    requires n > 0 && rest < 128
    ensures TopBits(rest + (if b then 128 else 0), n) == [b] + TopBits(2 * rest, n - 1)
  {
    var v := rest + if b then 128 else 0;
    TopBitsNext(v, n);
    hide TopBits;
    TopBit(rest);
  }

  lemma TopBit(rest: nat)
    requires rest < 128
    ensures rest / 128 == 0 && (2 * rest) % 256 == 2 * rest
    ensures (rest + 128) / 128 == 1 && (2 * (rest + 128)) % 256 == 2 * rest
  {
  }

  lemma TopBitsNext(v: Byte, n: nat)
    requires n > 0
    ensures TopBits(v, n) == [v / 128 == 1] + TopBits((2 * v) % 256, n - 1)
  {
  }

  lemma ShiftedTwice(y: nat, k: nat)
    ensures Shifted(y, k + 1) == 2 * Shifted(y, k)
  {
  }

  /** Shifting out at the top sends the most significant bit first. */
  lemma TopBitsAreBits(v: Byte)
    ensures TopBits(v, 8) == BitsOf(v)
  {
    hide TopBits, LowBits;
    Pow2Values();
    TopBitsShifted(v, 8);
    assert Shifted(v, 0) == v;
  }

  lemma WriteTopBits(w: Wires, e: Env, v: Byte, n: nat)
    ensures WriteBits(w, e, TopBits(v, n)) ==
            if n == 0 then (w, OK)
            else
              var (m, r) := WriteBit(w, e, v / 128 == 1);
              if r != OK then (m, r) else WriteBits(m, e, TopBits((2 * v) % 256, n - 1))
  {
  }

  // Gathering a byte

  /** A read of some bits has got the first few and goes on from here. */
  ghost predicate Gotten(first: Wires, now: Wires, e: Env, got: seq<bool>, count: nat) {
    && |got| <= count
    && var (m, s, rest) := ReadBits(now, e, count - |got|);
       ReadBits(first, e, count) == (m, s, if s == OK then got + rest else [])
  }

  lemma GottenFirst(w: Wires, e: Env, count: nat)
    ensures Gotten(w, w, e, [], count)
  {
    var (m, s, rest) := ReadBits(w, e, count);
    assert [] + rest == rest;
    if s != OK { FailedRead(w, e, count); }
  }

  lemma {:induction false} FailedRead(w: Wires, e: Env, count: nat)
    ensures var (m, s, bits) := ReadBits(w, e, count); s != OK ==> bits == []
    decreases count
  {
  }

  lemma GottenNext(first: Wires, now: Wires, e: Env, got: seq<bool>, count: nat)
    requires Gotten(first, now, e, got, count) && |got| < count
    ensures var (n, r, b) := ReadBit(now, e);
            if r == OK then Gotten(first, n, e, got + [b], count) else ReadBits(first, e, count) == (n, r, [])
  {
    hide ReadBit;
    var (n, r, b) := ReadBit(now, e);
    if r == OK {
      var (m, s, rest) := ReadBits(n, e, count - |got| - 1);
      assert got + ([b] + rest) == got + [b] + rest;
    }
  }

  lemma GottenLast(first: Wires, now: Wires, e: Env, got: seq<bool>, count: nat)
    requires Gotten(first, now, e, got, count) && |got| == count
    ensures ReadBits(first, e, count) == (now, OK, got)
  {
    assert got + [] == got;
  }

  lemma ValueNext(got: seq<bool>, b: bool)
    ensures Value(got + [b]) == 2 * Value(got) + if b then 1 else 0
    ensures |got| < 8 ==> Value(got + [b]) < 256
  {
    assert (got + [b])[..|got|] == got;
    ValueBound(got + [b]);
    Pow2Values();
    if |got| < 8 { Pow2Grows(|got| + 1, 8); }
  }

  lemma {:induction false} Pow2Grows(m: nat, n: nat)
    requires m <= n
    ensures Pow2(m) <= Pow2(n)
    decreases n
  {
    if m < n { Pow2Grows(m, n - 1); }
  }

  // The caller's buffers

  ghost function Contents(bufs: seq<array<Byte>>): (c: Buffers)
    reads set i | 0 <= i < |bufs| :: bufs[i]
    ensures |c| == |bufs| && forall i :: 0 <= i < |bufs| ==> c[i] == bufs[i][..]
    decreases |bufs|
  {
    if bufs == [] then [] else Contents(bufs[..|bufs| - 1]) + [bufs[|bufs| - 1][..]]
  }

  ghost predicate Separate(bufs: seq<array<Byte>>) {
    forall i, j :: 0 <= i < j < |bufs| ==> bufs[i] != bufs[j]
  }

  predicate InBounds(bufs: seq<array<Byte>>, m: Message) {
    m.buf.Some? ==> m.buf.value < |bufs| && m.len <= bufs[m.buf.value].Length
  }

  class Controller {
    const env: Env
    var mSda: bool
    var mScl: bool
    var scl: bool
    var target: Engine
    var releases: nat
    ghost var wave: seq<Level>

    ghost function State(): Wires
      reads this
    {
      Wires(mSda, mScl, scl, target, releases, wave)
    }

    constructor (env: Env, target: Engine)
      ensures State() == Wires(true, true, true, target, 0, []) && this.env == env
    {
      this.env, this.target := env, target;
      mSda, mScl, scl, releases, wave := true, true, true, 0, [];
    }

    // The pins

    method SetSdaPin(high: bool)
      modifies this
      ensures State() == SetSda(old(State()), high)
    {
      hide OnStart, OnStop;
      var before := mSda && target.sda;
      mSda := high;
      var after := mSda && target.sda;
      wave := wave + [Level(after, scl)];
      if scl && before != after {
        target := if after then OnStop(target) else OnStart(target);
      }
    }

    method DriveSclLow()
      modifies this
      ensures State() == PullScl(old(State()))
    {
      hide OnFall;
      mScl := false;
      if scl {
        scl := false;
        wave := wave + [Level(mSda && target.sda, false)];
        target := OnFall(target);
        wave := wave + [Level(mSda && target.sda, false)];
      }
    }

    /** Let SCL go and poll it until the target does too. */
    method WaitSclHigh() returns (result: Status)
      requires env.timeout > 0
      modifies this
      ensures (State(), result) == WaitScl(old(State()), env)
    {
      hide OnRise;
      mScl := true;
      if scl { return OK; }
      var held := env.stretch(releases);
      releases := releases + 1;
      for poll := 0 to env.timeout
        invariant State() == old(State()).(mScl := true, releases := releases) && releases == old(releases) + 1
        invariant poll <= held
      {
        if held == poll {
          scl := true;
          wave := wave + [Level(mSda && target.sda, true)];
          target := OnRise(target, mSda && target.sda);
          return OK;
        }
      }
      return ERR_TIMEOUT;
    }

    // START, STOP and bits

    method Start() returns (result: Status)
      requires env.timeout > 0
      modifies this
      ensures (State(), result) == GenerateStart(old(State()), env)
    {
      hide SetSda, WaitScl, PullScl;
      SetSdaPin(true);
      result := WaitSclHigh();
      if result != OK { return; }
      if !(mSda && target.sda) { return ERR_BUS_BUSY; }
      SetSdaPin(false);
      DriveSclLow();
    }

    method Stop() returns (result: Status)
      requires env.timeout > 0
      modifies this
      ensures (State(), result) == GenerateStop(old(State()), env)
    {
      hide SetSda, WaitScl, PullScl;
      DriveSclLow();
      SetSdaPin(false);
      result := WaitSclHigh();
      SetSdaPin(true);
      if result != OK { return; }
      return if scl && mSda && target.sda then OK else ERR_BUS_BUSY;
    }

    method PutBit(b: bool) returns (result: Status)
      requires env.timeout > 0
      modifies this
      ensures (State(), result) == WriteBit(old(State()), env, b)
    {
      hide SetSda, WaitScl, PullScl;
      SetSdaPin(b);
      result := WaitSclHigh();
      if result == OK { DriveSclLow(); }
    }

    method GetBit() returns (result: Status, b: bool)
      requires env.timeout > 0
      modifies this
      ensures (State(), result, b) == ReadBit(old(State()), env)
    {
      hide SetSda, WaitScl, PullScl;
      SetSdaPin(true);
      result := WaitSclHigh();
      if result != OK { return result, false; }
      b := mSda && target.sda;
      DriveSclLow();
    }

    method PutByte(byte: Byte) returns (result: Status)
      requires env.timeout > 0
      modifies this
      ensures (State(), result) == WriteByte(old(State()), env, byte)
    {
      hide WriteBit, ReadBit, BitsOf, WriteBits, TopBits;
      TopBitsAreBits(byte);
      var value: int := byte;
      for bit := 0 to 8
        invariant 0 <= value < 256
        invariant WriteBits(State(), env, TopBits(value, 8 - bit)) == WriteBits(old(State()), env, BitsOf(byte))
      {
        WriteTopBits(State(), env, value, 8 - bit);
        result := PutBit(value / 128 == 1);
        if result != OK { return; }
        value := (2 * value) % 256;
      }
      WriteTopBits(State(), env, value, 0);
      var nack;
      result, nack := GetBit();
      if result == OK && nack { result := ERR_NACK; }
    }

    method GetByte(ack: bool) returns (result: Status, byte: Byte)
      requires env.timeout > 0
      modifies this
      ensures (State(), result, byte) == ReadByte(old(State()), env, ack)
    {
      hide WriteBit, ReadBit, ReadBits, Gotten;
      var received: nat := 0;
      ghost var got: seq<bool> := [];
      GottenFirst(State(), env, 8);
      for bit := 0 to 8
        invariant |got| == bit && received == Value(got) < 256
        invariant Gotten(old(State()), State(), env, got, 8)
      {
        GottenNext(old(State()), State(), env, got, 8);
        var b;
        result, b := GetBit();
        if result != OK { return result, 0; }
        ValueNext(got, b);
        got := got + [b];
        received := 2 * received + if b then 1 else 0;
      }
      GottenLast(old(State()), State(), env, got, 8);
      result := PutBit(!ack);
      return result, if result == OK then received else 0;
    }

    // Messages

    method MoveOne(bufs: seq<array<Byte>>, m: Message, k: nat) returns (result: Status)
      requires env.timeout > 0 && Separate(bufs) && m.buf.Some? && InBounds(bufs, m) && k < m.len
      modifies this, set i | 0 <= i < |bufs| :: bufs[i]
      ensures Line(State(), Contents(bufs), result) ==
              MoveByte(Line(old(State()), old(Contents(bufs)), OK), env, m, k)
    {
      hide ReadByte, WriteByte;
      ghost var was := Contents(bufs);
      var buf := bufs[m.buf.value];
      if m.read {
        var byte;
        result, byte := GetByte(k + 1 < m.len);
        assert Contents(bufs) == was;
        if result == OK {
          buf[k] := byte;
          assert buf[..] == was[m.buf.value][k := byte];
          assert Contents(bufs) == Put(was, m, k, byte);
        }
      } else {
        assert was[m.buf.value][k] == buf[k];
        result := PutByte(buf[k]);
        assert Contents(bufs) == was;
      }
    }

    method MoveAll(bufs: seq<array<Byte>>, m: Message) returns (result: Status)
      requires env.timeout > 0 && Separate(bufs) && m.buf.Some? && InBounds(bufs, m)
      modifies this, set i | 0 <= i < |bufs| :: bufs[i]
      ensures Line(State(), Contents(bufs), result) ==
              MoveBytes(Line(old(State()), old(Contents(bufs)), OK), env, m, 0)
    {
      hide MoveByte, Contents;
      for byte := 0 to m.len
        invariant MoveBytes(Line(State(), Contents(bufs), OK), env, m, byte) ==
                  MoveBytes(Line(old(State()), old(Contents(bufs)), OK), env, m, 0)
      {
        result := MoveOne(bufs, m, byte);
        if result != OK { return; }
      }
      result := OK;
    }

    /** The end of a message: a STOP after an error, or where the message asks for one. */
    method Conclude(m: Message, status: Status, ghost bufs: Buffers) returns (result: Status)
      requires env.timeout > 0
      modifies this
      ensures Line(State(), bufs, result) == CloseMessage(Line(old(State()), bufs, status), env, m)
    {
      hide GenerateStop;
      result := status;
      if status != OK {
        var ignored := Stop();
      } else if m.stop {
        result := Stop();
      }
    }

    method SendOne(bufs: seq<array<Byte>>, m: Message, addr: Byte, active: bool) returns (result: Status)
      requires env.timeout > 0 && Separate(bufs) && m.buf.Some? && InBounds(bufs, m)
      modifies this, set i | 0 <= i < |bufs| :: bufs[i]
      ensures Line(State(), Contents(bufs), result) ==
              SendMessage(Line(old(State()), old(Contents(bufs)), OK), env, m, addr, active)
    {
      hide GenerateStart, GenerateStop, WriteByte, MoveBytes;
      ghost var was := Contents(bufs);
      var ignored;
      result := Start();
      assert Contents(bufs) == was;
      if result != OK {
        if active { ignored := Stop(); assert Contents(bufs) == was; }
        return;
      }
      result := PutByte(AddressByte(addr, m.read));
      assert Contents(bufs) == was;
      if result == OK {
        result := MoveAll(bufs, m);
      }
      ghost var moved := Contents(bufs);
      result := Conclude(m, result, moved);
      assert Contents(bufs) == moved;
    }

    /** mps2_i2c_transfer */
    method Transmit(bufs: seq<array<Byte>>, msgs: seq<Message>, addr: Byte) returns (result: Status)
      requires Separate(bufs) && forall i :: 0 <= i < |msgs| ==> InBounds(bufs, msgs[i])
      modifies this, set i | 0 <= i < |bufs| :: bufs[i]
      ensures Line(State(), Contents(bufs), result) == Transfer(old(State()), env, old(Contents(bufs)), msgs, addr)
    {
      if env.timeout == 0 || msgs == [] { return ERR_ARGUMENT; }
      if addr == 0x7F { return ERR_ADDRESS; }
      for index := 0 to |msgs|
        invariant forall i :: 0 <= i < index ==> MessageOk(msgs, i)
      {
        if !MessageOk(msgs, index) { return ERR_ARGUMENT; }
      }
      assert forall i :: 0 <= i < |msgs| ==> MessageOk(msgs, i);
      result := TransmitAll(bufs, msgs, addr);
    }

    method TransmitAll(bufs: seq<array<Byte>>, msgs: seq<Message>, addr: Byte) returns (result: Status)
      requires env.timeout > 0 && Separate(bufs)
      requires forall i :: 0 <= i < |msgs| ==> MessageOk(msgs, i) && InBounds(bufs, msgs[i])
      modifies this, set i | 0 <= i < |bufs| :: bufs[i]
      ensures Line(State(), Contents(bufs), result) ==
              SendMessages(Line(old(State()), old(Contents(bufs)), OK), env, msgs, addr, false)
    {
      hide SendMessage, Contents;
      var active := false;
      for index := 0 to |msgs|
        invariant SendMessages(Line(State(), Contents(bufs), OK), env, msgs[index..], addr, active) ==
                  SendMessages(Line(old(State()), old(Contents(bufs)), OK), env, msgs, addr, false)
      {
        assert MessageOk(msgs, index);
        assert msgs[index..][0] == msgs[index] && msgs[index..][1..] == msgs[index + 1..];
        result := SendOne(bufs, msgs[index], addr, active);
        if result != OK { return; }
        active := true;
      }
      result := OK;
    }

    /** mps2_i2c_probe */
    method ProbeTarget(addr: Byte) returns (result: Status)
      modifies this
      ensures (State(), result) == Probe(old(State()), env, addr)
    {
      hide GenerateStart, GenerateStop, WriteByte;
      if env.timeout == 0 { return ERR_ARGUMENT; }
      if addr > 0x7F { return ERR_ADDRESS; }
      result := Start();
      if result != OK { return; }
      result := PutByte(AddressByte(addr, false));
      var stopped := Stop();
      if result == OK { result := stopped; }
    }

    /** mps2_i2c_recover_bus */
    method RecoverBus() returns (result: Status)
      modifies this
      ensures (State(), result) == Recover(old(State()), env)
    {
      hide GenerateStop, SetSda, WaitScl, PullScl;
      if env.timeout == 0 { return ERR_ARGUMENT; }
      SetSdaPin(true);
      result := WaitSclHigh();
      if result != OK || (mSda && target.sda) { return; }
      result := PulseUntilHigh(9);
      if result != OK { return; }
      result := Stop();
    }

    method PulseUntilHigh(pulses: nat) returns (result: Status)
      requires env.timeout > 0
      modifies this
      ensures (State(), result) == ClockOut(old(State()), env, pulses)
    {
      hide WaitScl, PullScl;
      for pulse := 0 to pulses
        invariant ClockOut(State(), env, pulses - pulse) == ClockOut(old(State()), env, pulses)
      {
        DriveSclLow();
        result := WaitSclHigh();
        if result != OK || (mSda && target.sda) { return; }
      }
      result := OK;
    }
  }

  /** An EEPROM at the end of a bus. */
  class Eeprom {
    const bus: Controller
    const config: E.Config

    constructor (bus: Controller, config: E.Config)
      ensures this.bus == bus && this.config == config
    {
      this.bus, this.config := bus, config;
    }

    method Range(addr: nat, length: nat) returns (result: E.Result)
      ensures result == E.ValidateRange(config, addr, length)
    {
      var limit;
      if config.width == 1 { limit := 256; }
      else if config.width == 2 { limit := 65536; }
      else { return E.BadWidth; }
      return if addr >= limit || length > limit - addr then E.BadArgument else E.Done;
    }

    /** build_memory_address; returns how many bytes it has put into the buffer. */
    method BuildAddress(addr: nat, buffer: array<Byte>) returns (used: nat)
      requires addr < 65536 && buffer.Length >= (if config.width == 1 then 1 else 2)
      modifies buffer
      ensures used == |E.MemoryAddress(config, addr)| <= buffer.Length
      ensures buffer[..used] == E.MemoryAddress(config, addr)
    {
      if config.width == 1 {
        buffer[0] := addr % 256;
        return 1;
      }
      buffer[0], buffer[1] := addr / 256, addr % 256;
      return 2;
    }

    /** eeprom_write */
    method WriteBytes(addr: nat, data: array<Byte>) returns (result: E.Result)
      requires addr < 65536 && E.PayloadFits(config, addr, data.Length)
      modifies bus
      ensures (bus.State(), result) == E.Write(old(bus.State()), bus.env, config, addr, old(data[..]))
      ensures var verdict := E.WriteVerdict(config, addr, data.Length);
              verdict != E.Done ==> result == verdict && bus.State() == old(bus.State())
    {
      hide Transfer, E.PollReady, E.WriteVerdict;
      E.VerdictsAreExact(config, addr, data.Length);
      if data.Length == 0 || config.page == 0 || config.page > E.NEGATIVE_ARGUMENT || data.Length > config.page {
        return E.BadArgument;
      }
      result := Range(addr, data.Length);
      if result != E.Done { return; }
      if data.Length > config.page - addr % config.page { return E.PageBoundary; }
      E.DoneIsStorable(config, addr, data.Length);
      var tx := BuildPayload(addr, data);
      assert Contents([tx]) == [tx[..]];
      var status := bus.Transmit([tx], [E.WriteMessage(tx.Length)], config.target);
      if status != OK { return E.TransferFailed; }
      result := AwaitReady();
    }

    method BuildPayload(addr: nat, data: array<Byte>) returns (tx: array<Byte>)
      requires addr < 65536 && |E.MemoryAddress(config, addr)| + data.Length <= E.TX_BUFFER
      ensures fresh(tx) && tx[..] == E.MemoryAddress(config, addr) + data[..]
    {
      tx := new Byte[(if config.width == 1 then 1 else 2) + data.Length];
      var used := BuildAddress(addr, tx);
      for index := 0 to data.Length
        invariant tx[..used] == E.MemoryAddress(config, addr)
        invariant tx[used..used + index] == data[..index]
      {
        tx[used + index] := data[index];
      }
      assert tx[..] == tx[..used] + tx[used..used + data.Length];
      assert data[..data.Length] == data[..];
    }

    /** eeprom_read */
    method ReadBytes(addr: nat, data: array<Byte>) returns (result: E.Result)
      requires addr < 65536
      modifies bus, data
      ensures (bus.State(), result, data[..]) == E.Read(old(bus.State()), bus.env, config, addr, old(data[..]))
      ensures var verdict := E.ReadVerdict(config, addr, data.Length);
              verdict != E.Done ==> result == verdict && bus.State() == old(bus.State()) && data[..] == old(data[..])
    {
      hide Transfer, E.ReadVerdict;
      E.VerdictsAreExact(config, addr, data.Length);
      E.EmptyReadIsRefused(config, addr);
      if data.Length == 0 { return E.BadArgument; }
      result := Range(addr, data.Length);
      if result != E.Done { return; }
      var address := new Byte[if config.width == 1 then 1 else 2];
      var used := BuildAddress(addr, address);
      var bufs := [address, data];
      assert address[..] == address[..used];
      assert Contents(bufs) == [address[..], data[..]];
      assert data[..] == old(data[..]);
      var status := bus.Transmit(bufs, E.ReadMessages(used, data.Length), config.target);
      result := if status == OK then E.Done else E.TransferFailed;
    }

    /** eeprom_wait_ready */
    method AwaitReady() returns (result: E.Result)
      modifies bus
      ensures (bus.State(), result) == E.WaitReady(old(bus.State()), bus.env, config)
    {
      hide Probe;
      if config.pollLimit == 0 { return E.BadArgument; }
      for attempt := 0 to config.pollLimit
        invariant E.PollReady(bus.State(), bus.env, config.target, config.pollLimit - attempt) ==
                  E.PollReady(old(bus.State()), bus.env, config.target, config.pollLimit)
      {
        var status := bus.ProbeTarget(config.target);
        if status == OK { return E.Done; }
        if status != ERR_NACK { return E.TransferFailed; }
      }
      return E.NotReady;
    }
  }
}
