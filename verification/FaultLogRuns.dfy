/** Crash consistency of the fault log over whole runs. */
module FaultLogRuns {
  import opened Words
  import opened EepromDevice
  import opened FaultLogSpec
  import opened FaultLogAtomic
  import opened FaultLogRecovery

  type History = seq<Word>

  /** The serial number of the n-th committed record, for any number of records. */
  function SequenceOf(n: nat): Word {
    n % MODULUS
  }

  /** What slot j holds after the codes of h have been committed in order. */
  function Expected(h: History, j: nat): Option<Record>
    requires j < SLOT_COUNT
  {
    if |h| <= j then None
    else
      var k := |h| - 1 - (|h| - 1 - j) % SLOT_COUNT;
      Some(Record(SequenceOf(k + 1), h[k]))
  }

  /** Only the slot that the next append will take may have lost its record. */
  ghost predicate Stores(v: Views, h: History) {
    forall j :: 0 <= j < SLOT_COUNT ==> v[j] == Expected(h, j) || (j == |h| % SLOT_COUNT && v[j] == None)
  }

  function LogOf(h: History): Log {
    if h == [] then Log(true, 0, NO_SLOT, true)
    else Log(true, SequenceOf(|h|), (|h| - 1) % SLOT_COUNT, true)
  }

  lemma LatestSlot(h: History)
    requires h != []
    ensures Expected(h, (|h| - 1) % SLOT_COUNT) == Some(Record(SequenceOf(|h|), h[|h| - 1]))
    ensures (|h| - 1) % SLOT_COUNT != |h| % SLOT_COUNT
  {
    var j := (|h| - 1) % SLOT_COUNT;
    assert |h| - 1 - j == (|h| - 1) / SLOT_COUNT * SLOT_COUNT;
    assert (|h| - 1 - j) % SLOT_COUNT == 0;
  }

  lemma AgeOfRecord(n: nat, k: nat)
    requires 1 <= n - k < SLOT_COUNT
    ensures SubWord(SequenceOf(n), SequenceOf(k)) == n - k
  {
  }

  /** The committed history determines which slot is newest. */
  lemma StoredIsRecoverable(v: Views, h: History)
    requires Stores(v, h)
    ensures if h == [] then NoneValid(v) else IsNewest(v, (|h| - 1) % SLOT_COUNT)
    ensures h != [] ==> v[(|h| - 1) % SLOT_COUNT] == Some(Record(SequenceOf(|h|), h[|h| - 1]))
  {
    if h != [] {
      LatestSlot(h);
      var s := (|h| - 1) % SLOT_COUNT;
      forall j | 0 <= j < SLOT_COUNT && j != s && v[j].Some? ensures OlderBy(v[s].value, v[j].value) {
        var age := (|h| - 1 - j) % SLOT_COUNT;
        assert v[j] == Expected(h, j);
        if age == 0 {
          SameResidue(|h| - 1, j);
        }
        AgeOfRecord(|h|, |h| - age);
      }
    }
  }

  lemma SameResidue(n: nat, j: nat)
    requires j < SLOT_COUNT && j <= n && (n - j) % SLOT_COUNT == 0
    ensures j == n % SLOT_COUNT
  {
  }

  /** Committing one more code changes what one slot is expected to hold. */
  lemma ExpectedAfterCommit(h: History, code: Word, j: nat)
    requires j < SLOT_COUNT
    ensures Expected(h + [code], j) ==
            if j == |h| % SLOT_COUNT then Some(Record(SequenceOf(|h| + 1), code)) else Expected(h, j)
  {
    var n := |h|;
    if j == n % SLOT_COUNT {
      assert n - j == SLOT_COUNT * (n / SLOT_COUNT);
      assert (n - j) % SLOT_COUNT == 0;
    } else if n > j {
      NextResidue(n, j);
    }
  }

  lemma NextResidue(n: nat, j: nat)
    requires j < SLOT_COUNT && j < n && j != n % SLOT_COUNT
    ensures (n - j) % SLOT_COUNT == (n - 1 - j) % SLOT_COUNT + 1
  {
  }

  lemma NextSlotAndSequence(h: History)
    ensures Target(LogOf(h)) == |h| % SLOT_COUNT
    ensures NextSequence(LogOf(h)) == SequenceOf(|h| + 1)
  {
    if h != [] {
      SlotAfter(|h| - 1);
      SequenceAfter(|h|);
    }
  }

  lemma SlotAfter(n: nat)
    ensures (n % SLOT_COUNT + 1) % SLOT_COUNT == (n + 1) % SLOT_COUNT
  {
  }

  lemma SequenceAfter(n: nat)
    ensures AddWord(SequenceOf(n), 1) == SequenceOf(n + 1)
  {
  }

  lemma CommitStored(v: Views, w: Views, h: History, code: Word)
    requires Stores(v, h)
    requires forall j :: 0 <= j < SLOT_COUNT && j != |h| % SLOT_COUNT ==> w[j] == v[j]
    requires w[|h| % SLOT_COUNT] == Some(Record(SequenceOf(|h| + 1), code))
    ensures Stores(w, h + [code])
  {
    forall j | 0 <= j < SLOT_COUNT ensures w[j] == Expected(h + [code], j) {
      ExpectedAfterCommit(h, code, j);
    }
  }

  lemma InterruptedStored(v: Views, w: Views, h: History)
    requires Stores(v, h)
    requires forall j :: 0 <= j < SLOT_COUNT && j != |h| % SLOT_COUNT ==> w[j] == v[j]
    requires w[|h| % SLOT_COUNT] == v[|h| % SLOT_COUNT] || w[|h| % SLOT_COUNT] == None
    ensures Stores(w, h)
  {
  }

  // Runs

  /** The environment chooses the fates ahead, the readiness of the driver and the power cycles; the
      program chooses the calls. A power cut is a failing operation followed by a power cycle. */
  datatype Event =
    | Fates(fates: seq<Fate>)
    | SetReady(ready: bool)
    | PowerCycle
    | InitCall
    | AppendCall(code: Word)
    | LatestCall

  datatype World = World(dev: Device, log: Log)

  /** Zeroed static memory. */
  const RESET: Log := Log(false, 0, 0, false)

  function Step(w: World, e: Event): (w': World)
    requires |w.dev.bytes| >= LOG_BYTES
  {
    match e
    case Fates(fates) => w.(dev := w.dev.(fates := fates))
    case SetReady(ready) => w.(dev := w.dev.(ready := ready))
    case PowerCycle => w.(log := RESET)
    case InitCall => var o := Init(w.dev); World(o.dev, o.log)
    case AppendCall(code) => var o := Append(w.dev, w.log, code); World(o.dev, o.log)
    case LatestCall => var o := Latest(w.dev, w.log); World(o.dev, o.log)
  }

  lemma StepKeepsSize(w: World, e: Event)
    requires |w.dev.bytes| >= LOG_BYTES
    ensures |Step(w, e).dev.bytes| >= LOG_BYTES
  {
    if e.AppendCall? && Usable(w.dev, w.log) == Ok {
      AppendIsAtomic(w.dev, w.log, e.code);
    }
  }

  function Run(w: World, events: seq<Event>): (r: World)
    requires |w.dev.bytes| >= LOG_BYTES
    ensures |r.dev.bytes| >= LOG_BYTES
    decreases |events|
  {
    if events == [] then w
    else
      var before := Run(w, events[..|events| - 1]);
      StepKeepsSize(before, events[|events| - 1]);
      Step(before, events[|events| - 1])
  }

  /** An append as its caller saw it: refused outright, or started with the reported result. */
  datatype Attempt = Refused(code: Word) | Failed(code: Word) | Succeeded(code: Word)

  function Attempts(w: World, events: seq<Event>): seq<Attempt>
    requires |w.dev.bytes| >= LOG_BYTES
    decreases |events|
  {
    if events == [] then []
    else
      var rest, e := events[..|events| - 1], events[|events| - 1];
      if e.AppendCall? then Attempts(w, rest) + [AttemptOf(Run(w, rest), e.code)] else Attempts(w, rest)
  }

  function AttemptOf(w: World, code: Word): Attempt
    requires |w.dev.bytes| >= LOG_BYTES
  {
    if Usable(w.dev, w.log) != Ok then Refused(code)
    else if Append(w.dev, w.log, code).status == Ok then Succeeded(code)
    else Failed(code)
  }

  /** h keeps, in order, the code of every success, of no refusal and of any of the failures. */
  ghost predicate Explains(attempts: seq<Attempt>, h: History)
    decreases |attempts|
  {
    if attempts == [] then h == []
    else
      var rest, a := attempts[..|attempts| - 1], attempts[|attempts| - 1];
      || (!a.Succeeded? && Explains(rest, h))
      || (!a.Refused? && h != [] && h[|h| - 1] == a.code && Explains(rest, h[..|h| - 1]))
  }

  lemma ExplainsUncommitted(attempts: seq<Attempt>, h: History, a: Attempt)
    requires Explains(attempts, h) && !a.Succeeded?
    ensures Explains(attempts + [a], h)
  {
  }

  lemma ExplainsCommitted(attempts: seq<Attempt>, h: History, a: Attempt)
    requires Explains(attempts, h) && !a.Refused?
    ensures Explains(attempts + [a], h + [a.code])
  {
  }

  /** What holds of every reachable world with committed history h. */
  ghost predicate Consistent(w: World, h: History) {
    && |w.dev.bytes| >= LOG_BYTES
    && Stores(ViewsOf(w.dev.bytes), h)
    && (w.log.initialized ==> w.log == LogOf(h))
  }

  lemma RecoveredLog(dev: Device, h: History)
    requires dev.ready && |dev.bytes| >= LOG_BYTES && dev.fates == [] && Stores(ViewsOf(dev.bytes), h)
    ensures Init(dev).status == Ok && Init(dev).log == LogOf(h) && Init(dev).dev == dev
  {
    var v := ViewsOf(dev.bytes);
    StoredIsRecoverable(v, h);
    InitIsExact(dev);
    if h != [] {
      NewestIsUnique(v, (|h| - 1) % SLOT_COUNT, Init(dev).log.newest);
    }
  }

  lemma InitIsConsistent(w: World, h: History)
    requires Consistent(w, h)
    ensures Consistent(Step(w, InitCall), h)
  {
    hide Init, Stores, ViewsOf;
    InitLog(w.dev);
    RecoveredLog(Device(w.dev.bytes, true, []), h);
  }

  /** Whatever the reads do, a scan that succeeds finds what a fault-free one finds, and any other leaves no log. */
  lemma InitLog(dev: Device)
    requires |dev.bytes| >= LOG_BYTES
    ensures Init(dev).log.initialized ==>
              dev.ready && Init(dev).log == Init(Device(dev.bytes, true, [])).log
  {
    hide ViewsOf, Fold, Coherent;
  }

  /** From view to view, slot j alone may change, and only to nothing or to the given record. */
  ghost predicate OneSlotMoves(before: Views, after: Views, j: nat, record: Record)
    requires j < SLOT_COUNT
  {
    && (forall i :: 0 <= i < SLOT_COUNT && i != j ==> after[i] == before[i])
    && (after[j] == before[j] || after[j] == None || after[j] == Some(record))
  }

  lemma AtomicOnViews(dev: Device, o: Outcome, log: Log, j: nat, record: Record)
    requires |dev.bytes| >= LOG_BYTES && j < SLOT_COUNT && Atomic(dev, o, log, j, record)
    ensures OneSlotMoves(ViewsOf(dev.bytes), ViewsOf(o.dev.bytes), j, record)
    ensures o.status == Ok ==> ViewsOf(o.dev.bytes)[j] == Some(record)
  {
  }

  lemma AppendToNextSlot(w: World, h: History, code: Word)
    requires Consistent(w, h) && Usable(w.dev, w.log) == Ok
    ensures var o, record := Append(w.dev, w.log, code), Record(SequenceOf(|h| + 1), code);
            Atomic(w.dev, o, w.log, |h| % SLOT_COUNT, record)
    ensures Append(w.dev, w.log, code).status == Ok ==> Append(w.dev, w.log, code).log == LogOf(h + [code])
  {
    hide Append, Stores, ViewsOf, SequenceOf, Target, NextSequence, View;
    assert w.log == LogOf(h);
    NextSlotAndSequence(h);
    AppendIsAtomic(w.dev, w.log, code);
    assert |h + [code]| == |h| + 1;
  }

  /** An append commits its code entirely or not at all, and always when it reports success. */
  lemma AppendIsConsistent(w: World, h: History, code: Word) returns (h': History)
    requires Consistent(w, h)
    ensures Consistent(Step(w, AppendCall(code)), h')
    ensures match AttemptOf(w, code)
            case Refused(_) => h' == h
            case Failed(_) => h' == h || h' == h + [code]
            case Succeeded(_) => h' == h + [code]
  {
    h' := h;
    if Usable(w.dev, w.log) == Ok {
      var o, record := Append(w.dev, w.log, code), Record(SequenceOf(|h| + 1), code);
      AppendToNextSlot(w, h, code);
      AtomicOnViews(w.dev, o, w.log, |h| % SLOT_COUNT, record);
      var before, after := ViewsOf(w.dev.bytes), ViewsOf(o.dev.bytes);
      if after[|h| % SLOT_COUNT] == Some(record) {
        h' := h + [code];
        CommitStored(before, after, h, code);
      } else {
        InterruptedStored(before, after, h);
      }
    }
  }

  lemma LatestIsConsistent(w: World, h: History)
    requires Consistent(w, h)
    ensures Consistent(Step(w, LatestCall), h)
    ensures w.log.initialized && w.dev.ready && w.dev.fates == [] ==>
              Latest(w.dev, w.log).status == (if h == [] then Err(ENOENT) else Ok)
              && (h != [] ==> Latest(w.dev, w.log).code == h[|h| - 1])
  {
    StoredIsRecoverable(ViewsOf(w.dev.bytes), h);
  }

  /** One more event leaves the committed history as it is or adds one code to it. */
  lemma EventIsConsistent(w: World, events: seq<Event>, e: Event, h: History) returns (h': History)
    requires |w.dev.bytes| >= LOG_BYTES && Consistent(Run(w, events), h) && Explains(Attempts(w, events), h)
    ensures Consistent(Run(w, events + [e]), h') && Explains(Attempts(w, events + [e]), h') && h <= h'
  {
    assert (events + [e])[..|events|] == events;
    h' := h;
    var before := Run(w, events);
    match e
    case Fates(_) =>
    case SetReady(_) =>
    case PowerCycle =>
    case InitCall => InitIsConsistent(before, h);
    case LatestCall => LatestIsConsistent(before, h);
    case AppendCall(code) =>
      h' := AppendIsConsistent(before, h, code);
      if h == h' {
        ExplainsUncommitted(Attempts(w, events), h, AttemptOf(before, code));
      } else {
        ExplainsCommitted(Attempts(w, events), h, AttemptOf(before, code));
      }
  }

  lemma {:induction false} RunIsConsistent(w: World, events: seq<Event>) returns (h: History)
    requires |w.dev.bytes| >= LOG_BYTES && NoneValid(ViewsOf(w.dev.bytes)) && !w.log.initialized
    ensures Consistent(Run(w, events), h) && Explains(Attempts(w, events), h)
    decreases |events|
  {
    h := [];
    if events != [] {
      hide Consistent, Explains, Run, Attempts;
      var rest, e := events[..|events| - 1], events[|events| - 1];
      h := RunIsConsistent(w, rest);
      h := EventIsConsistent(w, rest, e, h);
      assert rest + [e] == events;
    }
  }

  /** What a run has committed stays committed in every continuation of it. */
  lemma {:induction false} HistoryOnlyGrows(w: World, events: seq<Event>, later: seq<Event>, h: History)
    returns (h': History)
    requires |w.dev.bytes| >= LOG_BYTES && Consistent(Run(w, events), h) && Explains(Attempts(w, events), h)
    ensures Consistent(Run(w, events + later), h') && Explains(Attempts(w, events + later), h') && h <= h'
    decreases |later|
  {
    hide Consistent, Explains, Run, Attempts;
    h' := h;
    if later == [] {
      assert events + later == events;
    } else {
      var rest, e := later[..|later| - 1], later[|later| - 1];
      h' := HistoryOnlyGrows(w, events, rest, h);
      h' := EventIsConsistent(w, events + rest, e, h');
      assert events + rest + [e] == events + later;
    }
  }

  /** A fault-free scan succeeds and the recovered log answers with the last committed code. */
  ghost predicate Recovers(w: World, h: History)
    requires |w.dev.bytes| >= LOG_BYTES
  {
    var dev := Device(w.dev.bytes, true, []);
    var o := Init(dev);
    && o.status == Ok
    && AnswersWith(dev, o.log, h)
    && (w.log.initialized ==> AnswersWith(dev, w.log, h))
  }

  ghost predicate AnswersWith(dev: Device, log: Log, h: History)
    requires |dev.bytes| >= LOG_BYTES
  {
    var l := Latest(dev, log);
    if h == [] then l.status == Err(ENOENT) else l.status == Ok && l.code == h[|h| - 1]
  }

  lemma ConsistentRecovers(w: World, h: History)
    requires Consistent(w, h)
    ensures Recovers(w, h)
  {
    var dev := Device(w.dev.bytes, true, []);
    RecoveredLog(dev, h);
    LatestIsConsistent(World(dev, Init(dev).log), h);
    LatestIsConsistent(World(dev, w.log), h);
  }

  /** The history explains every append of the run, and recovery after the run gives its last code. */
  ghost predicate Explained(w: World, events: seq<Event>, h: History)
    requires |w.dev.bytes| >= LOG_BYTES
  {
    Explains(Attempts(w, events), h) && Recovers(Run(w, events), h)
  }

  /** Crash consistency: from any image without a valid slot, after any appends, bus faults, lying or torn writes, power
      cycles and scans, recovery gives the last code of a history that explains every caller; and whatever happens
      later, the history only grows, so that a code once recovered is never undone by an older one. */
  lemma CrashConsistency(w: World, events: seq<Event>, later: seq<Event>)
    requires |w.dev.bytes| >= LOG_BYTES && NoneValid(ViewsOf(w.dev.bytes)) && !w.log.initialized
    ensures exists h, h' :: h <= h' && Explained(w, events, h) && Explained(w, events + later, h')
  {
    hide Run, Attempts, Explains, Consistent, Recovers;
    var h := RunIsConsistent(w, events);
    var h' := HistoryOnlyGrows(w, events, later, h);
    ConsistentRecovers(Run(w, events), h);
    ConsistentRecovers(Run(w, events + later), h');
    assert Explained(w, events, h) && Explained(w, events + later, h');
  }
}
