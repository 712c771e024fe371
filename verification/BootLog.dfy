/** The boot log as a program: handles on a flash device. */
module BootLogProgram {
  import opened Words
  import S = BootLogSpec

  class Flash {
    var state: S.Flash

    constructor (state: S.Flash)
      ensures this.state == state
    {
      this.state := state;
    }

    method ReadSlot(at: nat) returns (status: S.Status, data: seq<Byte>)
      modifies this
      ensures (state, status, data) == S.Read(old(state), at)
      ensures status == S.Ok ==> |data| == S.RECORD_SIZE
    {
      if !S.InRange(state, at) || S.Fails(state) {
        status, data := S.Err(S.EDRIVER), [];
      } else {
        status, data := S.Ok, state.bytes[at..at + S.RECORD_SIZE];
      }
      state := S.Rest(state);
    }

    method WriteSlot(at: nat, record: S.Slot) returns (status: S.Status)
      modifies this
      ensures (state, status) == S.Write(old(state), at, record)
    {
      if !S.InRange(state, at) {
        status := S.Err(S.EDRIVER);
        state := S.Rest(state);
      } else {
        status := if S.Fails(state) then S.Err(S.EDRIVER) else S.Ok;
        var landed := S.Landing(state, record);
        state := S.Rest(state).(bytes := state.bytes[..at] + landed + state.bytes[at + S.RECORD_SIZE..]);
      }
    }
  }

  /** is_erased */
  method FindErased(data: seq<Byte>, erased: Byte) returns (result: bool)
    ensures result == S.IsErased(data, erased)
  {
    for i := 0 to |data|
      invariant forall j :: 0 <= j < i ==> data[j] == erased
    {
      if data[i] != erased { return false; }
    }
    return true;
  }

  class BootLog {
    var dev: Flash?
    var base: nat
    var size: nat
    var next: nat
    var erased: Byte
    var initialized: bool

    ghost function State(): S.Log
      reads this
    {
      S.Log(dev != null, base, size, next, erased, initialized)
    }

    constructor ()
      ensures State() == S.CLEARED
    {
      dev, base, size, next, erased, initialized := null, 0, 0, 0, 0, false;
    }

    method Clear()
      modifies this
      ensures State() == S.CLEARED && dev == null
    {
      dev, base, size, next, erased, initialized := null, 0, 0, 0, 0, false;
    }

    /** boot_log_init */
    method Open(flash: Flash?, where: int, length: nat) returns (status: S.Status)
      modifies this, flash
      ensures flash == null ==> status == S.Err(S.EINVAL) && State() == S.CLEARED
      ensures flash != null ==>
                S.Outcome(flash.state, State(), status) == S.Init(old(flash.state), true, where, length)
                && (status == S.Ok ==> dev == flash)
    {
      Clear();
      if flash == null || where < 0 || length < S.RECORD_SIZE || length % S.RECORD_SIZE != 0 { return S.Err(S.EINVAL); }
      if where > S.OFF_MAX || length > S.OFF_MAX - where { return S.Err(S.EINVAL); }
      if !flash.state.ready { return S.Err(S.ENODEV); }
      if flash.state.block == 0 || S.RECORD_SIZE % flash.state.block != 0 || where % flash.state.block != 0 {
        return S.Err(S.ENOTSUP);
      }
      if !flash.state.described { return S.Err(S.ENOTSUP); }
      dev, base, size, erased := flash, where, length, flash.state.erased;
      status := FindEnd(flash);
    }

    /** The scan of boot_log_init. */
    method FindEnd(flash: Flash) returns (status: S.Status)
      requires !initialized && dev == flash
      modifies this`next, this`initialized, flash
      ensures S.Outcome(flash.state, State(), status) == S.Scan(old(flash.state), old(State()), 0, false)
    {
      hide S.Read, S.IsErased;
      var foundEmpty := false;
      for index := 0 to size / S.RECORD_SIZE
        invariant !initialized
        invariant S.Scan(flash.state, State(), index, foundEmpty) == S.Scan(old(flash.state), old(State()), 0, false)
      {
        var data;
        status, data := flash.ReadSlot(base + index * S.RECORD_SIZE);
        if status != S.Ok { return; }
        var empty := FindErased(data, erased);
        if empty {
          foundEmpty := true;
        } else {
          if foundEmpty { return S.Err(S.EILSEQ); }
          next := index + 1;
        }
      }
      initialized := true;
      return S.Ok;
    }

    /** boot_log_append */
    method Append(record: S.Slot) returns (status: S.Status)
      modifies this, dev
      ensures dev == old(dev)
      ensures dev == null ==> status == S.Err(S.EINVAL) && State() == old(State())
      ensures dev != null ==>
                S.Outcome(dev.state, State(), status) == S.Append(old(dev.state), old(State()), record)
    {
      hide S.Read, S.Write, S.IsErased, S.Commit;
      if dev == null || !initialized { return S.Err(S.EINVAL); }
      if !dev.state.ready { return S.Err(S.ENODEV); }
      var blank := FindErased(record, erased);
      if blank { return S.Err(S.EINVAL); }
      if next >= size / S.RECORD_SIZE { return S.Err(S.ENOSPC); }
      var check;
      status, check := dev.ReadSlot(base + next * S.RECORD_SIZE);
      if status != S.Ok { return; }
      var free := FindErased(check, erased);
      if !free {
        initialized := false;
        return S.Err(S.EEXIST);
      }
      status := Program(dev, record);
    }

    method Program(flash: Flash, record: S.Slot) returns (status: S.Status)
      requires initialized && dev == flash
      modifies this`next, this`initialized, flash
      ensures S.Outcome(flash.state, State(), status) == S.Commit(old(flash.state), old(State()), record)
    {
      hide S.Read, S.Write;
      var at := base + next * S.RECORD_SIZE;
      initialized := false;
      status := flash.WriteSlot(at, record);
      if status != S.Ok { return; }
      var check;
      status, check := flash.ReadSlot(at);
      if status != S.Ok { return; }
      if check != record { return S.Err(S.EIO); }
      next, initialized := next + 1, true;
      return S.Ok;
    }

    /** boot_log_read_last */
    method ReadLast() returns (status: S.Status, out: seq<Byte>)
      modifies dev
      ensures dev == null ==> status == S.Err(S.EINVAL)
      ensures dev != null ==> (dev.state, status, out) == S.ReadLast(old(dev.state), State())
    {
      hide S.Read, S.IsErased;
      if dev == null || !initialized { return S.Err(S.EINVAL), []; }
      if !dev.state.ready { return S.Err(S.ENODEV), []; }
      if next == 0 { return S.Err(S.ENOENT), []; }
      status, out := dev.ReadSlot(base + (next - 1) * S.RECORD_SIZE);
      if status != S.Ok { return status, []; }
      var blank := FindErased(out, erased);
      if blank { status := S.Err(S.EIO); }
    }
  }
}
