/** A reference protocol for asynchronous reception: which observations may follow which. */
module UartMonitor {
  import opened Words
  import opened UartSpec

  /** A buffer in the driver's hands: how far it is filled and how far that has been reported. */
  datatype Holding = Holding(addr: nat, len: nat, filled: nat, reported: nat)

  /** A session is open from an accepted enable to DISABLED; asked says that an answer is invited. */
  datatype Monitor = Monitor(open: bool, asked: bool, held: seq<Holding>)

  datatype Verdict = Rejected | Accepted(m: Monitor)

  const CLOSED: Monitor := Monitor(false, false, [])

  function Range(h: Holding): Buffer {
    Buffer(h.addr, h.len)
  }

  function Watch(m: Monitor, item: Item): Verdict {
    match item
    case Crash => Rejected
    case Enabled(b) =>
      if m.open || m.held != [] || b.len == 0 then Rejected
      else Accepted(Monitor(true, false, [Holding(b.addr, b.len, 0, 0)]))
    case Answered(b) =>
      if !m.open || !m.asked || |m.held| != 1 || b.len == 0 || Overlap(b, Range(m.held[0])) then Rejected
      else Accepted(Monitor(true, false, m.held + [Holding(b.addr, b.len, 0, 0)]))
    case StopAsked => if m.open && m.held != [] then Accepted(m) else Rejected
    case Stored(addr, _) =>
      if m.held == [] || m.held[0].filled >= m.held[0].len || addr != m.held[0].addr + m.held[0].filled then Rejected
      else Accepted(m.(held := [m.held[0].(filled := m.held[0].filled + 1)] + m.held[1..]))
    case Saw(Request) => if m.open && |m.held| == 1 then Accepted(m.(asked := true)) else Rejected
    case Saw(Ready(buf, offset, len)) =>
      if m.held == [] || len == 0 || m.held[0].reported + len != m.held[0].filled
         || buf != m.held[0].addr || offset != m.held[0].reported then Rejected
      else Accepted(m.(held := [m.held[0].(reported := m.held[0].filled)] + m.held[1..]))
    case Saw(Released(buf)) =>
      if m.held == [] || buf != m.held[0].addr || m.held[0].reported != m.held[0].filled then Rejected
      else Accepted(m.(asked := false, held := m.held[1..]))
    case Saw(Stopped(_, buf, offset, len)) =>
      if m.held == [] || buf != m.held[0].addr || offset != m.held[0].reported || offset + len != m.held[0].filled
      then Rejected else Accepted(m)
    case Saw(Disabled) => if m.open && m.held == [] then Accepted(CLOSED) else Rejected
  }

  function Judge(trace: seq<Item>): Verdict
    decreases |trace|
  {
    if trace == [] then Accepted(CLOSED)
    else
      match Judge(trace[..|trace| - 1])
      case Rejected => Rejected
      case Accepted(m) => Watch(m, trace[|trace| - 1])
  }

  lemma JudgeNext(trace: seq<Item>, item: Item)
    ensures Judge(trace + [item]) ==
            match Judge(trace) case Rejected => Rejected case Accepted(m) => Watch(m, item)
  {
  }

  // What acceptance means

  function Taken(trace: seq<Item>): seq<nat>
    decreases |trace|
  {
    if trace == [] then [] else Taken(trace[..|trace| - 1]) + NewlyTaken(trace[|trace| - 1])
  }

  function GivenBack(trace: seq<Item>): seq<nat>
    decreases |trace|
  {
    if trace == [] then [] else GivenBack(trace[..|trace| - 1]) + NewlyGiven(trace[|trace| - 1])
  }

  function Addresses(held: seq<Holding>): (a: seq<nat>)
    ensures |a| == |held|
  {
    seq(|held|, i requires 0 <= i < |held| => held[i].addr)
  }

  function NewlyTaken(item: Item): seq<nat> {
    if item.Enabled? || item.Answered? then [item.buffer.addr] else []
  }

  function NewlyGiven(item: Item): seq<nat> {
    if item.Saw? && item.event.Released? then [item.event.buf] else []
  }

  lemma Rebalance(out: seq<nat>, before: seq<nat>, arrived: seq<nat>, left: seq<nat>, after: seq<nat>)
    requires before + arrived == left + after
    ensures (out + before) + arrived == (out + left) + after
  {
    assert (out + before) + arrived == out + (before + arrived);
    assert (out + left) + after == out + (left + after);
  }

  lemma HoldingStep(m: Monitor, item: Item)
    requires Watch(m, item).Accepted?
    ensures Addresses(m.held) + NewlyTaken(item) == NewlyGiven(item) + Addresses(Watch(m, item).m.held)
  {
    var after := Watch(m, item).m.held;
    if item.Enabled? || item.Answered? {
      assert Addresses(after) == Addresses(m.held) + [item.buffer.addr];
    } else if item.Saw? && item.event.Released? {
      assert Addresses(m.held) == [item.event.buf] + Addresses(after);
    } else {
      assert Addresses(m.held) == Addresses(after);
    }
  }

  /** Buffers come back in the order they were taken, each once; those not yet back are the ones held. */
  lemma {:induction false} EachBufferReleasedOnce(trace: seq<Item>)
    requires Judge(trace).Accepted?
    ensures Taken(trace) == GivenBack(trace) + Addresses(Judge(trace).m.held)
    decreases |trace|
  {
    if trace != [] {
      var rest, item := trace[..|trace| - 1], trace[|trace| - 1];
      EachBufferReleasedOnce(rest);
      HoldingStep(Judge(rest).m, item);
      var before, after := Addresses(Judge(rest).m.held), Addresses(Judge(trace).m.held);
      Rebalance(GivenBack(rest), before, NewlyTaken(item), NewlyGiven(item), after);
    }
  }

  lemma {:induction false} HeldWithoutSession(trace: seq<Item>)
    requires Judge(trace).Accepted? && !Judge(trace).m.open
    ensures Judge(trace).m.held == []
    decreases |trace|
  {
    if trace != [] {
      var rest := trace[..|trace| - 1];
      if !Judge(rest).m.open {
        HeldWithoutSession(rest);
      }
    }
  }

  function Cells(addr: nat, len: nat): (c: seq<nat>)
    ensures |c| == len
  {
    seq(len, i requires 0 <= i < len => addr + i)
  }

  /** Where the received bytes were stored, in order of arrival. */
  function StoredCells(trace: seq<Item>): seq<nat>
    decreases |trace|
  {
    if trace == [] then [] else StoredCells(trace[..|trace| - 1]) + NewlyStored(trace[|trace| - 1])
  }

  /** The cells covered by the RX_RDY spans, in order of report. */
  function ReportedCells(trace: seq<Item>): seq<nat>
    decreases |trace|
  {
    if trace == [] then [] else ReportedCells(trace[..|trace| - 1]) + NewlyReported(trace[|trace| - 1])
  }

  function PendingCells(m: Monitor): seq<nat> {
    if m.held == [] || m.held[0].reported > m.held[0].filled then []
    else Cells(m.held[0].addr + m.held[0].reported, m.held[0].filled - m.held[0].reported)
  }

  ghost predicate Tidy(held: seq<Holding>) {
    && |held| <= 2
    && (forall i :: 0 <= i < |held| ==> held[i].reported <= held[i].filled <= held[i].len && held[i].len > 0)
    && (|held| == 2 ==> held[1].filled == 0 && !Overlap(Range(held[1]), Range(held[0])))
  }

  lemma {:induction false} AcceptedIsTidy(trace: seq<Item>)
    requires Judge(trace).Accepted?
    ensures Tidy(Judge(trace).m.held)
    decreases |trace|
  {
    if trace != [] {
      var rest, item := trace[..|trace| - 1], trace[|trace| - 1];
      AcceptedIsTidy(rest);
      hide Tidy, Watch;
      WatchKeepsTidy(Judge(rest).m, item);
    }
  }

  lemma WatchKeepsTidy(m: Monitor, item: Item)
    requires Watch(m, item).Accepted? && Tidy(m.held)
    ensures Tidy(Watch(m, item).m.held)
  {
    hide Overlap;
    AnsweredIsApart(m, item);
  }

  lemma AnsweredIsApart(m: Monitor, item: Item)
    ensures item.Answered? && |m.held| == 1 && Watch(m, item).Accepted? ==>
              !Overlap(item.buffer, Range(m.held[0])) && Watch(m, item).m.held[0] == m.held[0]
  {
  }

  function NewlyStored(item: Item): seq<nat> {
    if item.Stored? then [item.addr] else []
  }

  function NewlyReported(item: Item): seq<nat> {
    if item.Saw? && item.event.Ready? then Cells(item.event.buf + item.event.offset, item.event.len) else []
  }

  lemma StoredSpan(m: Monitor, item: Item)
    requires item.Stored? && Watch(m, item).Accepted? && Tidy(m.held)
    ensures PendingCells(Watch(m, item).m) == PendingCells(m) + [item.addr]
  {
    var h := m.held[0];
    assert h.addr + h.reported + (h.filled - h.reported) == item.addr;
    CellsNext(h.addr + h.reported, h.filled - h.reported);
    hide Tidy, Cells;
  }

  lemma CellsNext(addr: nat, len: nat)
    ensures Cells(addr, len + 1) == Cells(addr, len) + [addr + len]
  {
  }

  lemma SpanStep(m: Monitor, item: Item)
    requires Watch(m, item).Accepted? && Tidy(m.held)
    ensures PendingCells(m) + NewlyStored(item) == NewlyReported(item) + PendingCells(Watch(m, item).m)
  {
    if item.Stored? {
      StoredSpan(m, item);
    } else if item.Saw? && item.event.Ready? {
      assert PendingCells(m) == Cells(item.event.buf + item.event.offset, item.event.len);
      assert PendingCells(Watch(m, item).m) == [];
    } else if item.Saw? && item.event.Released? {
      assert PendingCells(m) == [] == PendingCells(Watch(m, item).m);
    } else if item.Enabled? {
      assert PendingCells(m) == [] == PendingCells(Watch(m, item).m);
    } else if item.Answered? {
      assert Watch(m, item).m.held[0] == m.held[0];
    }
  }

  /** The spans tile what was stored: every cell is reported once, in order, without a gap. */
  lemma {:induction false} SpansTileStored(trace: seq<Item>)
    requires Judge(trace).Accepted?
    ensures StoredCells(trace) == ReportedCells(trace) + PendingCells(Judge(trace).m)
    decreases |trace|
  {
    if trace != [] {
      var rest, item := trace[..|trace| - 1], trace[|trace| - 1];
      SpansTileStored(rest);
      AcceptedIsTidy(rest);
      SpanStep(Judge(rest).m, item);
      var before, after := PendingCells(Judge(rest).m), PendingCells(Judge(trace).m);
      Rebalance(ReportedCells(rest), before, NewlyStored(item), NewlyReported(item), after);
    }
  }

  function Sessions(trace: seq<Item>): nat
    decreases |trace|
  {
    if trace == [] then 0
    else Sessions(trace[..|trace| - 1]) + if trace[|trace| - 1].Enabled? then 1 else 0
  }

  function Closings(trace: seq<Item>): nat
    decreases |trace|
  {
    if trace == [] then 0
    else Closings(trace[..|trace| - 1]) + if trace[|trace| - 1] == Saw(Disabled) then 1 else 0
  }

  lemma {:induction false} SessionsAndClosings(trace: seq<Item>)
    requires Judge(trace).Accepted?
    ensures Sessions(trace) == Closings(trace) + if Judge(trace).m.open then 1 else 0
    decreases |trace|
  {
    if trace != [] {
      hide Watch;
      SessionsAndClosings(trace[..|trace| - 1]);
      SessionStep(Judge(trace[..|trace| - 1]).m, trace[|trace| - 1]);
    }
  }

  lemma SessionStep(m: Monitor, item: Item)
    requires Watch(m, item).Accepted?
    ensures (if m.open then 1 else 0) + (if item.Enabled? then 1 else 0) ==
            (if item == Saw(Disabled) then 1 else 0) + if Watch(m, item).m.open then 1 else 0
  {
  }

  /** Every session but an open one has ended in exactly one DISABLED, and with no buffer outstanding. */
  lemma EachSessionClosedOnce(trace: seq<Item>)
    requires Judge(trace).Accepted?
    ensures Sessions(trace) == Closings(trace) + if Judge(trace).m.open then 1 else 0
    ensures !Judge(trace).m.open ==> Taken(trace) == GivenBack(trace)
  {
    SessionsAndClosings(trace);
    EachBufferReleasedOnce(trace);
    if !Judge(trace).m.open {
      HeldWithoutSession(trace);
      assert Addresses([]) == [];
    }
  }

  // The bytes and the line errors in a trace

  function StoredBytes(trace: seq<Item>): seq<Byte>
    decreases |trace|
  {
    if trace == [] then []
    else
      StoredBytes(trace[..|trace| - 1])
      + (if trace[|trace| - 1].Stored? then [trace[|trace| - 1].byte] else [])
  }

  lemma StoredBytesNext(trace: seq<Item>, item: Item)
    ensures StoredBytes(trace + [item]) == StoredBytes(trace) + if item.Stored? then [item.byte] else []
  {
  }

  /** How often the client was told of an overrun. */
  function OverrunsSeen(trace: seq<Item>): nat
    decreases |trace|
  {
    if trace == [] then 0 else OverrunsSeen(trace[..|trace| - 1]) + if IsOverrun(trace[|trace| - 1]) then 1 else 0
  }

  predicate IsOverrun(item: Item) {
    item.Saw? && item.event.Stopped? && item.event.reason == 1
  }

  lemma OverrunsSeenNext(trace: seq<Item>, item: Item)
    ensures OverrunsSeen(trace + [item]) == OverrunsSeen(trace) + if IsOverrun(item) then 1 else 0
  {
  }
}
