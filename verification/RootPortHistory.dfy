/** What the device behind the root port must answer, told from the history of its events alone. */
module RootPortHistory {
  import opened Words
  import H = HostBridge
  import M = MmioBridge
  import A = VendorAdapter
  import opened RootPort

  /** A configuration write to a register of the one function present: bus 0, device 1, function 0. */
  predicate Writes(e: Event, reg: nat) {
    e.Configured? && e.req.kind == H.CfgWrite && e.req.bdf == 0x800 && e.req.reg == reg
  }

  /** The last command word written. */
  function LastCommand(events: seq<Event>): (c: nat)
    ensures c < 0x10000
    decreases |events|
  {
    if events == [] then 0
    else
      var e := events[|events| - 1];
      if Writes(e, 0x004) then e.req.wdata % 0x10000 else LastCommand(events[..|events| - 1])
  }

  /** The last base written, a multiple of 64 KiB; all ones asks for the size and is no base. */
  function LastBase(events: seq<Event>): Word
    decreases |events|
  {
    if events == [] then 0
    else
      var e := events[|events| - 1];
      if Writes(e, 0x010) && e.req.wdata != 0xFFFFFFFF then e.req.wdata / 0x10000 * 0x10000
      else LastBase(events[..|events| - 1])
  }

  /** The last write to the base register asked for the size. */
  predicate Sizing(events: seq<Event>)
    decreases |events|
  {
    events != [] &&
    var e := events[|events| - 1];
    if Writes(e, 0x010) then e.req.wdata == 0xFFFFFFFF else Sizing(events[..|events| - 1])
  }

  /** Memory space is on and the address is the scratch register behind the base. */
  predicate Hits(events: seq<Event>, addr: Word) {
    (LastCommand(events) / 2) % 2 == 1 && addr == (LastBase(events) + 0x1000) % 0x1_0000_0000
  }

  /** The value of the last store that hit. */
  function LastStored(events: seq<Event>): Word
    decreases |events|
  {
    if events == [] then 0
    else
      var before, e := events[..|events| - 1], events[|events| - 1];
      if e.Stored? && Hits(before, e.addr) then e.value else LastStored(before)
  }

  /** What a configuration access is to return. */
  function ConfigValue(events: seq<Event>, q: H.Request): Word {
    if q.bdf != 0x800 then 0xFFFFFFFF
    else if q.kind == H.CfgWrite then 0
    else if q.reg == 0x000 then 0x56781234
    else if q.reg == 0x004 then LastCommand(events)
    else if q.reg == 0x010 then (if Sizing(events) then 0xFFFF0000 else LastBase(events))
    else 0
  }

  lemma BaseOf(value: Word)
    ensures value - value % 0x10000 == value / 0x10000 * 0x10000
  {
  }

  lemma {:induction false} ReplayIsHistory(events: seq<Event>)
    ensures Replay(events) == A.Device(LastCommand(events), LastBase(events), Sizing(events), LastStored(events))
    decreases |events|
  {
    if events != [] {
      var rest, e := events[..|events| - 1], events[|events| - 1];
      ReplayIsHistory(rest);
      match e
      case Configured(q, _, _) => BaseOf(q.wdata);
      case Stored(_, _) =>
      case Loaded(_, _, _) =>
    }
  }

  /** The event is answered as the history before it demands. */
  predicate True(before: seq<Event>, e: Event) {
    match e
    case Configured(q, status, value) => status == 0 && value == ConfigValue(before, q)
    case Stored(_, _) => true
    case Loaded(addr, status, value) =>
      if Hits(before, addr) then status == 0 && value == LastStored(before) else status == 1 && value == 0xFFFFFFFF
  }

  lemma AnswerIsTrue(before: seq<Event>, e: Event)
    requires Answers(Replay(before), e)
    ensures True(before, e)
  {
    ReplayIsHistory(before);
    hide Replay, LastCommand, LastBase, Sizing, LastStored;
  }

  /** Both ports at once, whatever their masters do: a load is OK exactly if the last command word written has the
      memory bit and the address is the last base written plus 0x1000, and then returns the last store accepted under
      the same conditions; a configuration read returns the identity, the last command, the last base or the size mask,
      and all ones from a function that is not there. */
  lemma AnswersAreTrue(ticks: seq<Tick>, i: nat)
    requires i < |Events(ticks)|
    ensures True(Events(ticks)[..i], Events(ticks)[i])
  {
    hide Events, Replay, Answers, True;
    PortIsSequential(ticks);
    AnswerIsTrue(Events(ticks)[..i], Events(ticks)[i]);
  }
}
