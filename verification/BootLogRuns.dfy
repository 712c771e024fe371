/** The log over whole runs: any number of handles, any faults. */
module BootLogRuns {
  import opened Words
  import opened BootLogSpec

  /** The slots of a region. */
  function SlotsOf(bytes: seq<Byte>, base: nat, count: nat): (s: seq<Slot>)
    requires base + count * RECORD_SIZE <= |bytes|
    ensures |s| == count
  {
    seq(count, i requires 0 <= i < count => bytes[base + i * RECORD_SIZE..base + (i + 1) * RECORD_SIZE])
  }

  /** Where the occupied slots end. */
  function Frontier(slots: seq<Slot>, erased: Byte): (n: nat)
    ensures n <= |slots|
    ensures forall i :: 0 <= i < n ==> !IsErased(slots[i], erased)
    ensures n < |slots| ==> IsErased(slots[n], erased)
    decreases |slots|
  {
    if slots == [] || IsErased(slots[0], erased) then 0
    else
      var n := Frontier(slots[1..], erased);
      assert forall i :: 0 < i <= n ==> slots[i] == slots[1..][i - 1];
      n + 1
  }

  /** Occupied slots form a prefix. */
  ghost predicate Tight(slots: seq<Slot>, erased: Byte) {
    forall i :: Frontier(slots, erased) <= i < |slots| ==> IsErased(slots[i], erased)
  }

  /** The region that all handles are opened on. */
  datatype Region = Region(base: nat, size: nat)

  /** A device that is ready and can write slots at these places, and a region of whole slots inside it and inside the
      32-bit offsets. */
  ghost predicate Fits(f: Flash, r: Region) {
    && f.ready && f.described && f.block in {1, 2, 4, 8, 16} && r.base % f.block == 0
    && r.size >= 16 && r.size % 16 == 0 && r.base + r.size <= 0x7FFFFFFF && r.base + r.size <= |f.bytes|
  }

  lemma DivisorsOfSixteen(block: nat)
    ensures block > 0 && 16 % block == 0 <==> block in {1, 2, 4, 8, 16}
  {
    if block > 16 {
      assert 16 % block == 16;
    }
  }

  /** Which regions are refused, and with what. */
  lemma RegionIsChecked(f: Flash, present: bool, base: int, size: nat)
    ensures var c := CheckRegion(f, present, base, size);
            && (c == Ok <==>
                  && present && base >= 0 && size >= 16 && size % 16 == 0 && base + size <= 0x7FFFFFFF
                  && f.ready && f.described && f.block in {1, 2, 4, 8, 16} && base % f.block == 0)
            && (c == Err(EINVAL) <==> !(present && base >= 0 && size >= 16 && size % 16 == 0
                                        && base + size <= 0x7FFFFFFF))
            && (c == Err(ENODEV) <==> c != Err(EINVAL) && !f.ready)
            && (c in {Ok, Err(EINVAL), Err(ENODEV), Err(ENOTSUP)})
            && (c != Ok ==> Init(f, present, base, size) == Outcome(f, CLEARED, c))
  {
    hide Scan;
    DivisorsOfSixteen(f.block);
  }

  function RegionSlots(f: Flash, r: Region): (s: seq<Slot>)
    requires r.base + r.size <= |f.bytes|
    ensures |s| == r.size / RECORD_SIZE
  {
    SlotsOf(f.bytes, r.base, r.size / RECORD_SIZE)
  }

  /** A handle that thinks it is good may be stale, but never ahead of the log. */
  ghost predicate Honest(f: Flash, r: Region, log: Log)
    requires r.base + r.size <= |f.bytes|
  {
    log.initialized ==>
      && log.dev && log.base == r.base && log.size == r.size && log.erased == f.erased
      && log.next <= Frontier(RegionSlots(f, r), f.erased)
  }

  lemma ReadIsSlot(f: Flash, r: Region, i: nat)
    requires Fits(f, r) && i < r.size / RECORD_SIZE && !Fails(f)
    ensures Read(f, r.base + i * RECORD_SIZE) == (Rest(f), Ok, RegionSlots(f, r)[i])
  {
  }

  lemma WriteIsUpdate(f: Flash, r: Region, i: nat, record: Slot)
    requires Fits(f, r) && i < r.size / RECORD_SIZE
    ensures var g := Write(f, r.base + i * RECORD_SIZE, record).0;
            && |g.bytes| == |f.bytes| && g == f.(bytes := g.bytes, fates := g.fates)
            && Fits(g, r) && RegionSlots(g, r) == RegionSlots(f, r)[i := Landing(f, record)]
            && g.bytes[..r.base] == f.bytes[..r.base] && g.bytes[r.base + r.size..] == f.bytes[r.base + r.size..]
  {
    hide Landing, SlotsOf;
    var at := r.base + i * RECORD_SIZE;
    SpliceFrame(f.bytes, at, Landing(f, record), r.base, r.base + r.size);
    SlotsOfSplice(f.bytes, at, Landing(f, record), r.base, r.size / RECORD_SIZE, i);
  }

  lemma SlotsOfSplice(bytes: seq<Byte>, at: nat, landed: Slot, base: nat, count: nat, i: nat)
    requires at == base + i * RECORD_SIZE && i < count && base + count * RECORD_SIZE <= |bytes|
    ensures var after := bytes[..at] + landed + bytes[at + RECORD_SIZE..];
            |after| == |bytes| && SlotsOf(after, base, count) == SlotsOf(bytes, base, count)[i := landed]
  {
    var after := bytes[..at] + landed + bytes[at + RECORD_SIZE..];
    var was, now := SlotsOf(bytes, base, count), SlotsOf(after, base, count);
    forall j | 0 <= j < count ensures now[j] == was[i := landed][j] {
      SlotOfUpdate(bytes, at, landed, base, i, j);
    }
  }

  lemma SpliceFrame(bytes: seq<Byte>, at: nat, landed: Slot, from: nat, to: nat)
    requires from <= at && at + RECORD_SIZE <= to <= |bytes|
    ensures var after := bytes[..at] + landed + bytes[at + RECORD_SIZE..];
            |after| == |bytes| && after[..from] == bytes[..from] && after[to..] == bytes[to..]
  {
  }

  lemma SlotOfUpdate(bytes: seq<Byte>, at: nat, landed: Slot, base: nat, i: nat, j: nat)
    requires at == base + i * RECORD_SIZE && at + RECORD_SIZE <= |bytes| && base + (j + 1) * RECORD_SIZE <= |bytes|
    ensures var after := bytes[..at] + landed + bytes[at + RECORD_SIZE..];
            && |after| == |bytes|
            && after[base + j * RECORD_SIZE..base + (j + 1) * RECORD_SIZE] ==
               if i == j then landed else bytes[base + j * RECORD_SIZE..base + (j + 1) * RECORD_SIZE]
  {
    var after, from := bytes[..at] + landed + bytes[at + RECORD_SIZE..], base + j * RECORD_SIZE;
    assert i < j ==> at + RECORD_SIZE <= from;
    assert j < i ==> from + RECORD_SIZE <= at;
    forall k | 0 <= k < RECORD_SIZE ensures after[from + k] == if i == j then landed[k] else bytes[from + k] {
    }
    assert i == j ==> after[from..from + RECORD_SIZE] == landed;
    assert i != j ==> after[from..from + RECORD_SIZE] == bytes[from..from + RECORD_SIZE];
  }

  // The slots under one append

  lemma FrontierOfUpdate(slots: seq<Slot>, erased: Byte, landed: Slot)
    requires Tight(slots, erased) && Frontier(slots, erased) < |slots|
    ensures var n := Frontier(slots, erased); var after := slots[n := landed];
            && Tight(after, erased) && Frontier(after, erased) == if IsErased(landed, erased) then n else n + 1
  {
    var n := Frontier(slots, erased);
    FrontierIs(slots[n := landed], erased, if IsErased(landed, erased) then n else n + 1);
  }

  lemma {:induction false} FrontierIs(slots: seq<Slot>, erased: Byte, n: nat)
    requires n <= |slots| && forall i :: 0 <= i < n ==> !IsErased(slots[i], erased)
    requires n < |slots| ==> IsErased(slots[n], erased)
    ensures Frontier(slots, erased) == n
    decreases |slots|
  {
  }

  /** What an append may do to the slots: nothing, or put something into the first free one. */
  ghost predicate Appended(f: Flash, g: Flash, r: Region)
    requires r.base + r.size <= |f.bytes| && r.base + r.size <= |g.bytes|
  {
    var was, now, n := RegionSlots(f, r), RegionSlots(g, r), Frontier(RegionSlots(f, r), f.erased);
    now == was || (n < |was| && now == was[n := now[n]])
  }

  ghost predicate SameElsewhere(f: Flash, g: Flash, r: Region) {
    && r.base + r.size <= |f.bytes| == |g.bytes| && g == f.(bytes := g.bytes, fates := g.fates)
    && g.bytes[..r.base] == f.bytes[..r.base] && g.bytes[r.base + r.size..] == f.bytes[r.base + r.size..]
  }

  /** Whatever the readback says, the write has been made; only agreement counts as success. */
  lemma CommitLands(f: Flash, r: Region, log: Log, record: Slot)
    requires Fits(f, r) && log.base == r.base && log.next < r.size / RECORD_SIZE
    ensures var o, g := Commit(f, log, record), Write(f, r.base + log.next * RECORD_SIZE, record).0;
            && o.flash == g.(fates := o.flash.fates)
            && (if o.status == Ok then Landing(f, record) == record && o.log == log.(next := log.next + 1)
                else o.log == log.(initialized := false))
  {
  }

  lemma CommitIsAppend(f: Flash, r: Region, log: Log, record: Slot)
    requires Fits(f, r) && Tight(RegionSlots(f, r), f.erased) && log.dev && log.base == r.base && log.size == r.size
    requires log.erased == f.erased && !IsErased(record, f.erased) && log.initialized
    requires log.next == Frontier(RegionSlots(f, r), f.erased) < r.size / RECORD_SIZE
    ensures Grown(f, r, log, record, Commit(f, log, record))
  {
    hide Frontier, IsErased, Landing, Write, Commit, SlotsOf, Tight;
    var n := log.next;
    WriteIsUpdate(f, r, n, record);
    FrontierOfUpdate(RegionSlots(f, r), f.erased, Landing(f, record));
    CommitLands(f, r, log, record);
    var g, o := Write(f, r.base + n * RECORD_SIZE, record).0, Commit(f, log, record);
    assert RegionSlots(o.flash, r) == RegionSlots(g, r);
  }

  /** The outcome of an append: at most the first free slot has changed, and on success it holds the record. */
  ghost predicate Grown(f: Flash, r: Region, log: Log, record: Slot, o: Outcome)
    requires Fits(f, r)
  {
    && SameElsewhere(f, o.flash, r) && Fits(o.flash, r) && Tight(RegionSlots(o.flash, r), f.erased)
    && Appended(f, o.flash, r) && Honest(o.flash, r, o.log)
    && Frontier(RegionSlots(o.flash, r), f.erased) >= Frontier(RegionSlots(f, r), f.erased)
    && (o.status == Ok ==>
          && log.next == Frontier(RegionSlots(f, r), f.erased) < r.size / RECORD_SIZE
          && RegionSlots(o.flash, r) == RegionSlots(f, r)[log.next := record]
          && o.log == log.(next := log.next + 1) && o.log.initialized
          && Frontier(RegionSlots(o.flash, r), f.erased) == log.next + 1)
  }

  lemma AtFrontier(slots: seq<Slot>, erased: Byte, n: nat)
    requires n <= Frontier(slots, erased) && n < |slots| && IsErased(slots[n], erased)
    ensures n == Frontier(slots, erased)
  {
  }

  /** Any handle, stale or not: an append touches no occupied slot, and succeeds only in the first free one. */
  lemma AppendGrows(f: Flash, r: Region, log: Log, record: Slot)
    requires Fits(f, r) && Tight(RegionSlots(f, r), f.erased) && Honest(f, r, log)
    ensures Grown(f, r, log, record, Append(f, log, record))
  {
    hide Frontier, IsErased, SlotsOf, Commit, Grown, Tight;
    if Usable(f, log, record) == Ok {
      var n := log.next;
      if Fails(f) {
        UntouchedGrows(f, r, log, record, Append(f, log, record));
      } else {
        ReadIsSlot(f, r, n);
        assert RegionSlots(Rest(f), r) == RegionSlots(f, r);
        if IsErased(RegionSlots(f, r)[n], f.erased) {
          AtFrontier(RegionSlots(f, r), f.erased, n);
          CommitIsAppend(Rest(f), r, log, record);
          GrownAfterRest(f, r, log, record, Commit(Rest(f), log, record));
        } else {
          UntouchedGrows(f, r, log, record, Append(f, log, record));
        }
      }
    } else {
      UntouchedGrows(f, r, log, record, Append(f, log, record));
    }
  }

  lemma UntouchedGrows(f: Flash, r: Region, log: Log, record: Slot, o: Outcome)
    requires Fits(f, r) && Tight(RegionSlots(f, r), f.erased) && Honest(f, r, log)
    requires o.flash == f.(fates := o.flash.fates) && o.status != Ok
    requires o.log == log || o.log == log.(initialized := false)
    ensures Grown(f, r, log, record, o)
  {
  }

  lemma GrownAfterRest(f: Flash, r: Region, log: Log, record: Slot, o: Outcome)
    requires Fits(f, r) && Fits(Rest(f), r) && Grown(Rest(f), r, log, record, o)
    ensures Grown(f, r, log, record, o)
  {
  }

  // Opening

  /** How far a scan has come: everything so far occupied, or a frontier passed and only erased slots since. */
  ghost predicate Scanned(f: Flash, r: Region, log: Log, i: nat, foundEmpty: bool)
    requires Fits(f, r)
  {
    var slots := RegionSlots(f, r);
    && i <= |slots| && log.base == r.base && log.size == r.size && log.erased == f.erased && !log.initialized
    && (if foundEmpty then
          log.next == Frontier(slots, f.erased) < i
          && forall k :: log.next <= k < i ==> IsErased(slots[k], f.erased)
        else log.next == i && forall k :: 0 <= k < i ==> !IsErased(slots[k], f.erased))
  }

  /** A scan that gets through finds the log tight and its frontier; EILSEQ means that it is not tight. */
  ghost predicate Exact(f: Flash, r: Region, log: Log, o: Outcome)
    requires Fits(f, r)
  {
    && o.flash == f.(fates := o.flash.fates)
    && (if o.status == Ok then
          Tight(RegionSlots(f, r), f.erased)
          && o.log == log.(next := Frontier(RegionSlots(f, r), f.erased), initialized := true)
        else !o.log.initialized)
    && (o.status == Err(EILSEQ) ==> !Tight(RegionSlots(f, r), f.erased))
    && (f.fates == [] ==> o.flash == f && (o.status == Ok || o.status == Err(EILSEQ)))
  }

  lemma ScanStops(f: Flash, r: Region, log: Log, foundEmpty: bool)
    requires Fits(f, r) && Scanned(f, r, log, r.size / RECORD_SIZE, foundEmpty)
    ensures Exact(f, r, log, Outcome(f, log.(initialized := true), Ok))
  {
    hide SlotsOf;
    assert Tight(RegionSlots(f, r), f.erased) && log.next == Frontier(RegionSlots(f, r), f.erased);
  }

  lemma ScanMoves(f: Flash, r: Region, log: Log, i: nat, foundEmpty: bool)
    requires Fits(f, r) && Scanned(f, r, log, i, foundEmpty) && i < r.size / RECORD_SIZE
    ensures var slot := RegionSlots(f, r)[i];
            && (IsErased(slot, f.erased) ==> Scanned(f, r, log, i + 1, true))
            && (!IsErased(slot, f.erased) && foundEmpty ==> !Tight(RegionSlots(f, r), f.erased))
            && (!IsErased(slot, f.erased) && !foundEmpty ==> Scanned(f, r, log.(next := i + 1), i + 1, false))
  {
  }

  /** A read that works uses up a fate and moves the scan on; what the rest of the scan finds, the whole scan finds. */
  lemma ExactAfterRead(f: Flash, r: Region, log: Log, next: nat, o: Outcome)
    requires Fits(f, r) && Fits(Rest(f), r) && !Fails(f) && Exact(Rest(f), r, log.(next := next), o)
    ensures Exact(f, r, log, o)
  {
    hide IsErased, Frontier, Tight, SlotsOf;
    assert RegionSlots(Rest(f), r) == RegionSlots(f, r);
  }

  lemma ScannedAfterRead(f: Flash, r: Region, log: Log, i: nat, foundEmpty: bool)
    requires Fits(f, r) && Scanned(f, r, log, i, foundEmpty)
    ensures Fits(Rest(f), r) && Scanned(Rest(f), r, log, i, foundEmpty)
  {
    hide IsErased, Frontier, SlotsOf;
    assert RegionSlots(Rest(f), r) == RegionSlots(f, r);
  }

  lemma ScanFails(f: Flash, r: Region, log: Log, i: nat, foundEmpty: bool)
    requires Fits(f, r) && Scanned(f, r, log, i, foundEmpty) && i < r.size / RECORD_SIZE && Fails(f)
    ensures Exact(f, r, log, Scan(f, log, i, foundEmpty))
  {
    hide IsErased, Frontier, Tight, SlotsOf;
    assert RegionSlots(Rest(f), r) == RegionSlots(f, r);
  }

  lemma {:induction false} ScanIsExact(f: Flash, r: Region, log: Log, i: nat, foundEmpty: bool)
    requires Fits(f, r) && Scanned(f, r, log, i, foundEmpty)
    ensures Exact(f, r, log, Scan(f, log, i, foundEmpty))
    decreases r.size / RECORD_SIZE - i
  {
    hide IsErased, Frontier, Tight, RegionSlots, Exact;
    if i >= r.size / RECORD_SIZE {
      ScanStops(f, r, log, foundEmpty);
    } else if Fails(f) {
      ScanFails(f, r, log, i, foundEmpty);
    } else {
      ScanMoves(f, r, log, i, foundEmpty);
      ReadIsSlot(f, r, i);
      ScannedAfterRead(f, r, log, i, foundEmpty);
      var slot, g := RegionSlots(f, r)[i], Rest(f);
      if IsErased(slot, f.erased) {
        ScannedAfterRead(f, r, log, i + 1, true);
        ScanIsExact(g, r, log, i + 1, true);
        ExactAfterRead(f, r, log, log.next, Scan(g, log, i + 1, true));
      } else if foundEmpty {
        ScanStopsShort(f, r, log);
      } else {
        var moved := log.(next := i + 1);
        ScannedAfterRead(f, r, moved, i + 1, false);
        ScanIsExact(g, r, moved, i + 1, false);
        ExactAfterRead(f, r, log, i + 1, Scan(g, moved, i + 1, false));
      }
    }
  }

  lemma ScanStopsShort(f: Flash, r: Region, log: Log)
    requires Fits(f, r) && !Fails(f) && !Tight(RegionSlots(f, r), f.erased) && !log.initialized
    ensures Exact(f, r, log, Outcome(Rest(f), log, Err(EILSEQ)))
  {
  }

  /** boot_log_init on a region: it succeeds only on a tight log and then finds exactly its end; without faults it
      fails only if the log is not tight. */
  lemma InitIsExact(f: Flash, r: Region)
    requires Fits(f, r)
    ensures Exact(f, r, Log(true, r.base, r.size, 0, f.erased, false), Init(f, true, r.base, r.size))
  {
    hide IsErased, Frontier, Tight, SlotsOf, Scan;
    DivisorsOfSixteen(f.block);
    ScanIsExact(f, r, Log(true, r.base, r.size, 0, f.erased, false), 0, false);
  }

  // Whole runs

  /** The flash, any number of handles, and the appends that succeeded with the slots they went to. */
  datatype System = System(flash: Flash, logs: seq<Log>, done: seq<(nat, Slot)>)

  datatype Step = Open(handle: nat, faults: seq<Fate>) | Add(handle: nat, record: Slot, faults: seq<Fate>)

  function Take(s: System, r: Region, step: Step): System {
    var f := s.flash.(fates := step.faults);
    if step.handle >= |s.logs| then s
    else
      match step
      case Open(h, _) =>
        var o := Init(f, true, r.base, r.size);
        System(o.flash, s.logs[h := o.log], s.done)
      case Add(h, record, _) =>
        var o := Append(f, s.logs[h], record);
        System(o.flash, s.logs[h := o.log], if o.status == Ok then s.done + [(s.logs[h].next, record)] else s.done)
  }

  function Run(s: System, r: Region, steps: seq<Step>): System
    decreases |steps|
  {
    if steps == [] then s else Take(Run(s, r, steps[..|steps| - 1]), r, steps[|steps| - 1])
  }

  /** The successful appends stand in the slots in the order in which they were made. */
  ghost predicate Recorded(slots: seq<Slot>, n: nat, done: seq<(nat, Slot)>) {
    && n <= |slots|
    && (forall i :: 0 <= i < |done| ==> done[i].0 < n && slots[done[i].0] == done[i].1)
    && (forall i, j :: 0 <= i < j < |done| ==> done[i].0 < done[j].0)
  }

  ghost predicate Sound(s: System, r: Region) {
    && Fits(s.flash, r) && Tight(RegionSlots(s.flash, r), s.flash.erased)
    && (forall h :: 0 <= h < |s.logs| ==> Honest(s.flash, r, s.logs[h]))
    && Recorded(RegionSlots(s.flash, r), Frontier(RegionSlots(s.flash, r), s.flash.erased), s.done)
  }

  /** From one state to a later one: occupied slots stay as they are, and nothing outside the region changes. */
  ghost predicate Kept(f: Flash, g: Flash, r: Region)
    requires Fits(f, r) && Fits(g, r)
  {
    && SameElsewhere(f, g, r)
    && Frontier(RegionSlots(f, r), f.erased) <= Frontier(RegionSlots(g, r), g.erased)
    && RegionSlots(f, r)[..Frontier(RegionSlots(f, r), f.erased)] <= RegionSlots(g, r)
  }

  lemma OtherHandlesStayHonest(f: Flash, g: Flash, r: Region, log: Log)
    requires Fits(f, r) && Fits(g, r) && Kept(f, g, r) && Honest(f, r, log)
    ensures Honest(g, r, log)
  {
  }

  lemma GrownIsKept(f: Flash, r: Region, log: Log, record: Slot, o: Outcome)
    requires Fits(f, r) && Grown(f, r, log, record, o)
    ensures Fits(o.flash, r) && Kept(f, o.flash, r)
  {
  }

  lemma AppendIsRecorded(slots: seq<Slot>, n: nat, done: seq<(nat, Slot)>, record: Slot)
    requires Recorded(slots, n, done) && n < |slots|
    ensures Recorded(slots[n := record], n + 1, done + [(n, record)])
  {
  }

  lemma KeptIsRecorded(was: seq<Slot>, n: nat, now: seq<Slot>, m: nat, done: seq<(nat, Slot)>)
    requires Recorded(was, n, done) && n <= m <= |now| && was[..n] <= now
    ensures Recorded(now, m, done)
  {
  }

  lemma OpenIsSound(s: System, r: Region, h: nat, faults: seq<Fate>)
    requires Sound(s, r) && h < |s.logs|
    ensures Sound(Take(s, r, Open(h, faults)), r)
    ensures Kept(s.flash, Take(s, r, Open(h, faults)).flash, r)
  {
    hide IsErased, Frontier, Tight, SlotsOf, Init, Recorded;
    var f := s.flash.(fates := faults);
    InitIsExact(f, r);
    var n := Take(s, r, Open(h, faults));
    assert RegionSlots(n.flash, r) == RegionSlots(s.flash, r);
  }

  lemma AddIsSound(s: System, r: Region, h: nat, record: Slot, faults: seq<Fate>)
    requires Sound(s, r) && h < |s.logs|
    ensures Sound(Take(s, r, Add(h, record, faults)), r)
    ensures Kept(s.flash, Take(s, r, Add(h, record, faults)).flash, r)
  {
    hide IsErased, Frontier, Tight, SlotsOf, Append, Recorded;
    var f := s.flash.(fates := faults);
    assert RegionSlots(f, r) == RegionSlots(s.flash, r);
    AppendGrows(f, r, s.logs[h], record);
    var o := Append(f, s.logs[h], record);
    GrownIsKept(f, r, s.logs[h], record, o);
    var was, now := RegionSlots(f, r), RegionSlots(o.flash, r);
    var n, m := Frontier(was, f.erased), Frontier(now, f.erased);
    if o.status == Ok {
      AppendIsRecorded(was, n, s.done, record);
    } else {
      KeptIsRecorded(was, n, now, m, s.done);
    }
    forall k | 0 <= k < |s.logs| && k != h ensures Honest(o.flash, r, s.logs[k]) {
      OtherHandlesStayHonest(f, o.flash, r, s.logs[k]);
    }
  }

  lemma {:induction false} RunIsSound(s: System, r: Region, steps: seq<Step>)
    requires Sound(s, r)
    ensures Sound(Run(s, r, steps), r)
    decreases |steps|
  {
    if steps != [] {
      hide Sound, Kept, Init, Append;
      RunIsSound(s, r, steps[..|steps| - 1]);
      var before := Run(s, r, steps[..|steps| - 1]);
      if steps[|steps| - 1].handle < |before.logs| {
        match steps[|steps| - 1]
        case Open(h, faults) => OpenIsSound(before, r, h, faults);
        case Add(h, record, faults) => AddIsSound(before, r, h, record, faults);
      }
    }
  }

  /** No step of a run reprograms an occupied slot or touches anything outside the region. */
  lemma StepKeepsOccupied(s: System, r: Region, step: Step)
    requires Sound(s, r)
    ensures Fits(Take(s, r, step).flash, r) && Kept(s.flash, Take(s, r, step).flash, r)
  {
    hide Init, Append;
    if step.handle < |s.logs| {
      match step
      case Open(h, faults) => OpenIsSound(s, r, h, faults);
      case Add(h, record, faults) => AddIsSound(s, r, h, record, faults);
    }
  }

  /** Starting erased, after any appends, torn or failed writes, read errors and re-opens through any number of handles:
      the occupied slots are a prefix, every append that succeeded is still in its slot, in order, and opening without
      faults finds exactly that prefix. */
  lemma LogIsAppendOnly(flash: Flash, handles: nat, r: Region, steps: seq<Step>)
    requires Fits(flash, r) && forall i :: r.base <= i < r.base + r.size ==> flash.bytes[i] == flash.erased
    ensures var s := Run(System(flash, Closed(handles), []), r, steps);
            && Fits(s.flash, r) && Tight(RegionSlots(s.flash, r), s.flash.erased)
            && Recorded(RegionSlots(s.flash, r), Frontier(RegionSlots(s.flash, r), s.flash.erased), s.done)
            && var o := Init(s.flash.(fates := []), true, r.base, r.size);
               o.status == Ok && o.log.next == Frontier(RegionSlots(s.flash, r), s.flash.erased)
  {
    var start := System(flash, Closed(handles), []);
    assert forall i :: 0 <= i < r.size / RECORD_SIZE ==> IsErased(RegionSlots(flash, r)[i], flash.erased);
    FrontierIs(RegionSlots(flash, r), flash.erased, 0);
    hide Init, Run, Frontier, IsErased, SlotsOf;
    RunIsSound(start, r, steps);
    var s := Run(start, r, steps);
    var f := s.flash.(fates := []);
    assert RegionSlots(f, r) == RegionSlots(s.flash, r);
    InitIsExact(f, r);
  }

  function Closed(handles: nat): (logs: seq<Log>)
    ensures |logs| == handles && forall h :: 0 <= h < handles ==> !logs[h].initialized
  {
    if handles == 0 then [] else Closed(handles - 1) + [CLEARED]
  }

  /** A successful append is what read_last returns, through the same handle at once and through any handle opened
      afterwards. */
  lemma AppendIsReadBack(f: Flash, r: Region, log: Log, record: Slot)
    requires Fits(f, r) && Tight(RegionSlots(f, r), f.erased) && Honest(f, r, log)
    ensures Append(f, log, record).status == Ok ==> ReadsBack(Append(f, log, record), r, record)
  {
    if Append(f, log, record).status == Ok {
      AppendGrows(f, r, log, record);
      RecordIsNotErased(f, log, record);
      hide Append, Init, Frontier, SlotsOf, IsErased, Tight, ReadLast, Read;
      var o := Append(f, log, record);
      var quiet := o.flash.(fates := []);
      assert RegionSlots(quiet, r) == RegionSlots(o.flash, r);
      InitIsExact(quiet, r);
      LastIsRead(quiet, r, o.log);
      LastIsRead(quiet, r, Init(quiet, true, r.base, r.size).log);
    }
  }

  /** Without faults, the record is the last one for the handle and for one opened on the region now. */
  predicate ReadsBack(o: Outcome, r: Region, record: Slot) {
    var quiet := o.flash.(fates := []);
    var reopened := Init(quiet, true, r.base, r.size);
    && ReadLast(quiet, o.log).1 == Ok && ReadLast(quiet, o.log).2 == record
    && reopened.status == Ok
    && ReadLast(reopened.flash, reopened.log).1 == Ok && ReadLast(reopened.flash, reopened.log).2 == record
  }

  lemma LastIsRead(f: Flash, r: Region, log: Log)
    requires Fits(f, r) && f.fates == [] && log.initialized && log.dev && log.base == r.base && log.erased == f.erased
    requires 0 < log.next <= r.size / RECORD_SIZE && !IsErased(RegionSlots(f, r)[log.next - 1], f.erased)
    ensures ReadLast(f, log) == (f, Ok, RegionSlots(f, r)[log.next - 1])
  {
  }

  lemma RecordIsNotErased(f: Flash, log: Log, record: Slot)
    requires Append(f, log, record).status == Ok
    ensures log.dev && log.initialized && !IsErased(record, log.erased) && f.ready
  {
  }

  // What every call answers

  predicate Failing(f: Flash, k: nat) {
    k < |f.fates| && f.fates[k].failed
  }

  /** Some byte is not the erase value. */
  predicate Marked(data: seq<Byte>, erased: Byte) {
    exists k :: 0 <= k < |data| && data[k] != erased
  }

  /** What the write of an append leaves in its slot: the record, or what its fate says. */
  function Left(f: Flash, record: Slot): Slot {
    if |f.fates| > 1 && |f.fates[1].landed| == 16 then f.fates[1].landed else record
  }

  /** Through any handle that thinks it is good, stale or not, and with any faults: the record goes in exactly if it is
      no erased one, there is room, the slot is free and read, write and readback work; and each failure has its own
      code and tells whether the handle is lost. */
  lemma AppendIsExact(f: Flash, r: Region, log: Log, record: Slot)
    requires Fits(f, r) && Honest(f, r, log) && log.initialized
    ensures var o := Append(f, log, record);
            if !Marked(record, f.erased) then o == Outcome(f, log, Err(EINVAL))
            else if log.next == r.size / 16 then o == Outcome(f, log, Err(ENOSPC))
            else if Failing(f, 0) then o.status == Err(EDRIVER) && o.log == log && o.flash.bytes == f.bytes
            else if Marked(RegionSlots(f, r)[log.next], f.erased) then
              o.status == Err(EEXIST) && !o.log.initialized && o.flash.bytes == f.bytes
            else if Failing(f, 1) || Failing(f, 2) then o.status == Err(EDRIVER) && !o.log.initialized
            else if Left(f, record) != record then o.status == Err(EIO) && !o.log.initialized
            else o.status == Ok && o.log == log.(next := log.next + 1)
  {
    hide Frontier, SlotsOf, Write, Read;
    if log.next < r.size / RECORD_SIZE {
      ReadIsSlotOrFails(f, r, log.next);
      var g := Rest(f);
      assert RegionSlots(g, r) == RegionSlots(f, r);
      WriteIsUpdate(g, r, log.next, record);
      var (h, rc) := Write(g, r.base + log.next * RECORD_SIZE, record);
      WriteStatus(g, r, log.next, record);
      ReadIsSlotOrFails(h, r, log.next);
    }
  }

  lemma ReadIsSlotOrFails(f: Flash, r: Region, i: nat)
    requires Fits(f, r) && i < r.size / RECORD_SIZE
    ensures Read(f, r.base + i * RECORD_SIZE) ==
            if Fails(f) then (Rest(f), Err(EDRIVER), []) else (Rest(f), Ok, RegionSlots(f, r)[i])
  {
  }

  lemma WriteStatus(f: Flash, r: Region, i: nat, record: Slot)
    requires Fits(f, r) && i < r.size / RECORD_SIZE
    ensures var (g, rc) := Write(f, r.base + i * RECORD_SIZE, record);
            rc == (if Fails(f) then Err(EDRIVER) else Ok) && g.fates == Rest(f).fates
  {
  }

  /** So on a log opened without faults an append works until the log is full. */
  lemma OpenedLogTakesRecords(f: Flash, r: Region, record: Slot)
    requires Fits(f, r) && Tight(RegionSlots(f, r), f.erased) && f.fates == [] && Marked(record, f.erased)
    ensures var n, o := Frontier(RegionSlots(f, r), f.erased), Init(f, true, r.base, r.size);
            && o.status == Ok
            && Append(o.flash, o.log, record).status == (if n < r.size / 16 then Ok else Err(ENOSPC))
  {
    hide Frontier, SlotsOf, Init, Append, IsErased;
    InitIsExact(f, r);
    AppendIsExact(f, r, Init(f, true, r.base, r.size).log, record);
    var n := Frontier(RegionSlots(f, r), f.erased);
    if n < r.size / 16 { ErasedIsUnmarked(RegionSlots(f, r)[n], f.erased); }
  }

  lemma ErasedIsUnmarked(data: seq<Byte>, erased: Byte)
    ensures IsErased(data, erased) <==> !Marked(data, erased)
  {
  }

  /** Reading the last record through a handle that thinks it is good. */
  lemma ReadLastIsExact(f: Flash, r: Region, log: Log)
    requires Fits(f, r) && Honest(f, r, log) && log.initialized
    ensures var (g, status, out) := ReadLast(f, log);
            && g.bytes == f.bytes
            && (if log.next == 0 then status == Err(ENOENT)
                else if Failing(f, 0) then status == Err(EDRIVER)
                else status == Ok && out == RegionSlots(f, r)[log.next - 1])
  {
    hide Frontier, SlotsOf, Read;
    if log.next > 0 {
      ReadIsSlotOrFails(f, r, log.next - 1);
    }
  }

  /** A handle that is not good, or a device that is not ready. */
  lemma UnusableIsRefused(f: Flash, log: Log, record: Slot)
    ensures !log.initialized || !log.dev ==>
              Append(f, log, record) == Outcome(f, log, Err(EINVAL)) && ReadLast(f, log).1 == Err(EINVAL)
    ensures log.initialized && log.dev && !f.ready ==>
              Append(f, log, record) == Outcome(f, log, Err(ENODEV)) && ReadLast(f, log).1 == Err(ENODEV)
  {
  }

  lemma {:induction false} ScanReportsFailure(f: Flash, r: Region, log: Log, i: nat, foundEmpty: bool)
    requires Fits(f, r) && Tight(RegionSlots(f, r), f.erased) && Scanned(f, r, log, i, foundEmpty)
    ensures Scan(f, log, i, foundEmpty).status ==
            if exists k :: 0 <= k < r.size / 16 - i && Failing(f, k) then Err(EDRIVER) else Ok
    decreases r.size / RECORD_SIZE - i
  {
    hide IsErased, Frontier, Tight, RegionSlots, Scan, Read;
    ScanStep(f, r, log, i, foundEmpty);
    if i < r.size / RECORD_SIZE {
      if Failing(f, 0) {
      } else {
        ScanMoves(f, r, log, i, foundEmpty);
        var slot, g := RegionSlots(f, r)[i], Rest(f);
        FailuresMoveOn(f, r.size / RECORD_SIZE - i);
        SameSlots(f, r);
        if IsErased(slot, f.erased) {
          ScannedAfterRead(f, r, log, i + 1, true);
          ScanReportsFailure(g, r, log, i + 1, true);
        } else {
          var moved := log.(next := i + 1);
          ScannedAfterRead(f, r, moved, i + 1, false);
          ScanReportsFailure(g, r, moved, i + 1, false);
        }
      }
    }
  }

  /** One slot of a scan. */
  lemma ScanStep(f: Flash, r: Region, log: Log, i: nat, foundEmpty: bool)
    requires Fits(f, r) && Scanned(f, r, log, i, foundEmpty)
    ensures var o := Scan(f, log, i, foundEmpty);
            if i >= r.size / RECORD_SIZE then o.status == Ok
            else if Failing(f, 0) then o.status == Err(EDRIVER)
            else if IsErased(RegionSlots(f, r)[i], f.erased) then o == Scan(Rest(f), log, i + 1, true)
            else !foundEmpty ==> o == Scan(Rest(f), log.(next := i + 1), i + 1, false)
  {
    hide IsErased, Frontier, Read;
    if i < r.size / RECORD_SIZE {
      ReadIsSlotOrFails(f, r, i);
    }
  }

  lemma SameSlots(f: Flash, r: Region)
    requires Fits(f, r)
    ensures Fits(Rest(f), r) && RegionSlots(Rest(f), r) == RegionSlots(f, r) && Rest(f).erased == f.erased
  {
  }

  lemma FailuresMoveOn(f: Flash, n: nat)
    requires !Failing(f, 0) && n > 0
    ensures (exists k :: 0 <= k < n - 1 && Failing(Rest(f), k)) <==> (exists k :: 0 <= k < n && Failing(f, k))
  {
    if k :| 0 <= k < n && Failing(f, k) {
      assert Failing(Rest(f), k - 1);
    }
    if k :| 0 <= k < n - 1 && Failing(Rest(f), k) {
      assert Failing(f, k + 1);
    }
  }

  /** Opening a tight log fails exactly if one of the reads of its slots fails, with that error. */
  lemma OpenReportsFailure(f: Flash, r: Region)
    requires Fits(f, r) && Tight(RegionSlots(f, r), f.erased)
    ensures Init(f, true, r.base, r.size).status ==
            if exists k :: 0 <= k < r.size / 16 && Failing(f, k) then Err(EDRIVER) else Ok
  {
    hide IsErased, Frontier, Tight, SlotsOf, Scan;
    DivisorsOfSixteen(f.block);
    ScanReportsFailure(f, r, Log(true, r.base, r.size, 0, f.erased, false), 0, false);
  }
}
