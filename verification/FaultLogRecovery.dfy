/** The recovery scan finds the newest record exactly when there is one. */
module FaultLogRecovery {
  import opened Words
  import opened EepromDevice
  import opened FaultLogSpec

  /** Slot s holds a record and every other record is 1 to 7 serial numbers older. */
  ghost predicate IsNewest(v: Views, s: nat) {
    && s < SLOT_COUNT && v[s].Some?
    && forall j :: 0 <= j < SLOT_COUNT && j != s && v[j].Some? ==> OlderBy(v[s].value, v[j].value)
  }

  predicate OlderBy(newest: Record, other: Record) {
    1 <= SubWord(newest.sequence, other.sequence) < SLOT_COUNT
  }

  predicate NoneValid(v: Views) {
    forall j :: 0 <= j < SLOT_COUNT ==> v[j].None?
  }

  lemma OlderIsNotNewer(newest: Record, other: Record)
    requires OlderBy(newest, other)
    ensures Newer(newest.sequence, other.sequence) && !Newer(other.sequence, newest.sequence)
    ensures !OlderBy(other, newest)
  {
  }

  lemma NewestIsUnique(v: Views, s: nat, t: nat)
    requires IsNewest(v, s) && IsNewest(v, t)
    ensures s == t
  {
  }

  lemma {:induction false} FoldBefore(v: Views, n: nat)
    requires n <= SLOT_COUNT && forall j :: 0 <= j < n ==> v[j].None?
    ensures Fold(v, n) == Cursor(NO_SLOT, 0)
  {
    if n > 0 {
      FoldBefore(v, n - 1);
    }
  }

  /** newer is not transitive, yet once the scan has passed the newest slot it never leaves it. */
  lemma {:induction false} FoldKeepsNewest(v: Views, s: nat, n: nat)
    requires IsNewest(v, s) && s < n <= SLOT_COUNT
    ensures Fold(v, n) == Cursor(s, v[s].value.sequence)
  {
    var c := Fold(v, n - 1);
    if s == n - 1 {
      if c.newest != NO_SLOT {
        OlderIsNotNewer(v[s].value, v[c.newest].value);
      }
    } else {
      FoldKeepsNewest(v, s, n - 1);
      if v[n - 1].Some? {
        OlderIsNotNewer(v[s].value, v[n - 1].value);
      }
    }
  }

  lemma CoherentIsNewest(v: Views)
    requires Coherent(v, Fold(v, SLOT_COUNT))
    ensures Fold(v, SLOT_COUNT).newest == NO_SLOT ==> NoneValid(v)
    ensures Fold(v, SLOT_COUNT).newest != NO_SLOT ==> IsNewest(v, Fold(v, SLOT_COUNT).newest)
  {
    var c := Fold(v, SLOT_COUNT);
    if c.newest == NO_SLOT {
      FoldNeverSkips(v, SLOT_COUNT);
    } else {
      forall j | 0 <= j < SLOT_COUNT && j != c.newest && v[j].Some? ensures OlderBy(v[c.newest].value, v[j].value) {
        assert AgeFits(v, c, j);
      }
    }
  }

  lemma {:induction false} FoldNeverSkips(v: Views, n: nat)
    requires n <= SLOT_COUNT && Fold(v, n).newest == NO_SLOT
    ensures forall j :: 0 <= j < n ==> v[j].None?
  {
    if n > 0 {
      FoldNeverSkips(v, n - 1);
    }
  }

  lemma NewestIsFound(v: Views, s: nat)
    requires IsNewest(v, s)
    ensures Fold(v, SLOT_COUNT) == Cursor(s, v[s].value.sequence) && Coherent(v, Fold(v, SLOT_COUNT))
  {
    FoldKeepsNewest(v, s, SLOT_COUNT);
    var c := Fold(v, SLOT_COUNT);
    forall j | 0 <= j < SLOT_COUNT ensures AgeFits(v, c, j) {
      if v[j].Some? && j != s {
        assert OlderBy(v[s].value, v[j].value);
      }
    }
  }

  lemma NoneIsFound(v: Views)
    requires NoneValid(v)
    ensures Fold(v, SLOT_COUNT) == Cursor(NO_SLOT, 0) && Coherent(v, Fold(v, SLOT_COUNT))
  {
    FoldBefore(v, SLOT_COUNT);
  }

  /** The answer a scan of a readable image has to give. */
  ghost predicate ScanAnswer(v: Views, status: Status, log: Log) {
    if NoneValid(v) then status == Ok && log == Log(true, 0, NO_SLOT, true)
    else if exists s: nat :: IsNewest(v, s) then
      && status == Ok && IsNewest(v, log.newest)
      && log == Log(true, v[log.newest].value.sequence, log.newest, true)
    else status == Err(EILSEQ) && log == CLEARED
  }

  /** On a readable image the scan succeeds exactly when no slot is valid or one slot is newest, and finds that slot. */
  lemma InitIsExact(dev: Device)
    requires dev.ready && |dev.bytes| >= LOG_BYTES && dev.fates == []
    ensures ScanAnswer(ViewsOf(dev.bytes), Init(dev).status, Init(dev).log)
    ensures Init(dev).dev == dev
  {
    var v := ViewsOf(dev.bytes);
    if NoneValid(v) {
      NoneIsFound(v);
    } else if s: nat :| IsNewest(v, s) {
      NewestIsFound(v, s);
    } else if Coherent(v, Fold(v, SLOT_COUNT)) {
      CoherentIsNewest(v);
    }
  }
}
