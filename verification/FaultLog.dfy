/** The fault log as the program runs it: the calls of fault_log.c on a RAM context and an EEPROM. */
module FaultLogProgram {
  import opened Words
  import Crc
  import opened EepromDevice
  import opened FaultLogSpec

  function SequenceIn(view: Option<FaultLogSpec.Record>): Option<Word> {
    if view.None? then None else Some(view.value.sequence)
  }

  /** The serial numbers seen in the first n slots. */
  function Sequences(v: Views, n: nat): (s: seq<Option<Word>>)
    requires n <= SLOT_COUNT
    ensures |s| == n
  {
    seq(n, j requires 0 <= j < n => SequenceIn(v[j]))
  }

  lemma SequencesNext(v: Views, n: nat)
    requires n < SLOT_COUNT
    ensures Sequences(v, n + 1) == Sequences(v, n) + [SequenceIn(v[n])]
  {
  }

  lemma ViewAt(bytes: seq<Byte>, j: nat, slot: seq<Byte>)
    requires |bytes| >= LOG_BYTES && j < SLOT_COUNT && slot == bytes[SLOT_SIZE * j..SLOT_SIZE * j + SLOT_SIZE]
    ensures |slot| == SLOT_SIZE && ViewsOf(bytes)[j] == View(slot)
  {
  }

  class FaultLog {
    var dev: Eeprom?
    var sequence: Word
    var newest: nat
    var initialized: bool

    ghost function State(): Log
      reads this
    {
      Log(dev != null, sequence, newest, initialized)
    }

    constructor ()
      ensures State() == Log(false, 0, 0, false)
    {
      dev, sequence, newest, initialized := null, 0, 0, false;
    }

    method Clear()
      modifies this
      ensures State() == CLEARED && dev == null
    {
      dev, sequence, newest, initialized := null, 0, NO_SLOT, false;
    }

    /** The first loop of fault_log_init: read every slot and track the newest record. */
    method Scan(d: Eeprom, ghost v: Views) returns (status: Status, recovered: Cursor, found: seq<Option<Word>>)
      requires |d.bytes| >= LOG_BYTES && v == ViewsOf(d.bytes)
      modifies d
      ensures (d.State(), status) == ReadFrom(old(d.State()), 0)
      ensures status == Ok ==>
                && Fold(v, SLOT_COUNT) == recovered
                && found == Sequences(v, SLOT_COUNT)
    {
      recovered, found := Cursor(NO_SLOT, 0), [];
      for slot := 0 to SLOT_COUNT
        invariant d.bytes == old(d.bytes) && found == Sequences(v, slot)
        invariant ReadFrom(old(d.State()), 0) == ReadFrom(d.State(), slot)
        invariant Fold(v, slot) == recovered
      {
        var bytes;
        status, bytes := d.ReadBytes(SLOT_SIZE * slot, SLOT_SIZE);
        if status != Ok { return; }
        ViewAt(d.bytes, slot, bytes);
        SequencesNext(v, slot);
        recovered, found := Note(recovered, slot, bytes, found, v[slot]);
      }
      status := Ok;
    }

    /** The body of that loop once a slot has been read. */
    static method Note(c: Cursor, slot: nat, bytes: seq<Byte>, found: seq<Option<Word>>,
                       ghost view: Option<FaultLogSpec.Record>)
      returns (c': Cursor, found': seq<Option<Word>>)
      requires |bytes| == SLOT_SIZE && view == View(bytes)
      ensures c' == Choose(c, slot, view) && found' == found + [SequenceIn(view)]
    {
      c', found' := c, found + [None];
      if RecordValid(bytes) {
        var seqNo := LoadLe32(bytes[4..8]);
        found' := found + [Some(seqNo)];
        if c.newest == NO_SLOT || Newer(seqNo, c.sequence) {
          c' := Cursor(slot, seqNo);
        }
      }
    }

    /** The second loop of fault_log_init. */
    static method AgesFit(c: Cursor, found: seq<Option<Word>>, ghost v: Views) returns (fit: bool)
      requires found == Sequences(v, SLOT_COUNT)
      ensures fit == Coherent(v, c)
    {
      for slot := 0 to SLOT_COUNT
        invariant forall j :: 0 <= j < slot ==> AgeFits(v, c, j)
      {
        if found[slot].Some? && slot != c.newest {
          var age := SubWord(c.sequence, found[slot].value);
          if age == 0 || age >= SLOT_COUNT {
            assert !AgeFits(v, c, slot);
            return false;
          }
        }
      }
      return true;
    }

    /** fault_log_init */
    method Recover(d: Eeprom?) returns (status: Status)
      modifies this, d
      ensures d == null ==> status == Err(EINVAL) && State() == CLEARED
      ensures d != null ==>
                var o := Init(old(d.State()));
                d.State() == o.dev && State() == o.log && status == o.status && (status == Ok ==> dev == d)
    {
      hide ViewsOf, Fold, Coherent, ReadFrom, Sequences;
      Clear();
      if d == null { return Err(EINVAL); }
      if !d.ready { return Err(ENODEV); }
      if |d.bytes| < LOG_BYTES { return Err(ENOSPC); }
      var recovered, found;
      status, recovered, found := Scan(d, ViewsOf(d.bytes));
      if status != Ok { return; }
      var fit := AgesFit(recovered, found, ViewsOf(d.bytes));
      if !fit { return Err(EILSEQ); }
      dev, sequence, newest, initialized := d, recovered.sequence, recovered.newest, true;
    }

    method CheckUsable() returns (status: Status)
      ensures dev != null ==> status == Usable(dev.State(), State())
      ensures dev == null ==> status == Err(EINVAL)
    {
      if dev == null { return Err(EINVAL); }
      if !initialized { return Err(EIO); }
      if newest != NO_SLOT && newest >= SLOT_COUNT { return Err(EINVAL); }
      return if dev.ready then Ok else Err(ENODEV);
    }

    method BuildBody(seqNo: Word, code: Word) returns (body: array<Byte>)
      ensures fresh(body) && body[..] == Body(seqNo, code)
    {
      body := new Byte[BODY_SIZE];
      body[0], body[1], body[2], body[3] := MAGIC[0], MAGIC[1], MAGIC[2], MAGIC[3];
      assert body[..4] == MAGIC;
      Store(body, 4, seqNo);
      assert body[..8] == MAGIC + StoreLe32(seqNo);
      Store(body, 8, code);
      assert body[..12] == Payload(seqNo, code);
      var crc := Crc.Compute(body, 12);
      Store(body, 12, crc);
    }

    method InvalidateToken(target: nat, next: Word, body: seq<Byte>) returns (status: Status)
      requires dev != null && |dev.bytes| >= LOG_BYTES && target < SLOT_COUNT && |body| == BODY_SIZE
      modifies this, dev
      ensures dev == old(dev)
      ensures var o := Invalidate(old(dev.State()), old(State()), target, next, body);
              dev.State() == o.dev && State() == o.log && status == o.status
    {
      hide Write, Read, LandsByPages, Program, NextFate;
      var check;
      var at := SLOT_SIZE * target + COMMIT_OFFSET;
      status := dev.WriteBytes(at, INVALID);
      if status != Ok { return; }
      status, check := dev.ReadBytes(at, COMMIT_SIZE);
      if status != Ok { return; }
      if check != INVALID { return Err(EIO); }
      status := ProgramBody(target, next, body);
    }

    method ProgramBody(target: nat, next: Word, body: seq<Byte>) returns (status: Status)
      requires dev != null && |dev.bytes| >= LOG_BYTES && target < SLOT_COUNT && |body| == BODY_SIZE
      modifies this, dev
      ensures dev == old(dev)
      ensures var o := Program(old(dev.State()), old(State()), target, next, body);
              dev.State() == o.dev && State() == o.log && status == o.status
    {
      hide Write, Read, LandsByPages, Publish, NextFate;
      var check;
      var base := SLOT_SIZE * target;
      status := dev.WriteBytes(base, body);
      if status != Ok { return; }
      status, check := dev.ReadBytes(base, BODY_SIZE);
      if status != Ok { return; }
      if check != body { return Err(EIO); }
      status := PublishToken(target, next, body);
    }

    method PublishToken(target: nat, next: Word, body: seq<Byte>) returns (status: Status)
      requires dev != null && |dev.bytes| >= LOG_BYTES && target < SLOT_COUNT && |body| == BODY_SIZE
      modifies this, dev
      ensures dev == old(dev)
      ensures var o := Publish(old(dev.State()), old(State()), target, next, body);
              dev.State() == o.dev && State() == o.log && status == o.status
    {
      hide Write, Read, LandsByPages, RecordValid, NextFate;
      var check;
      var base := SLOT_SIZE * target;
      status := dev.WriteBytes(base + COMMIT_OFFSET, COMMITTED);
      if status != Ok { return; }
      status, check := dev.ReadBytes(base, SLOT_SIZE);
      if status != Ok { return; }
      if !RecordValid(check) || check[..BODY_SIZE] != body { return Err(EIO); }
      sequence, newest, initialized := next, target, true;
    }

    /** fault_log_append, its three phases in turn */
    method Record(code: Word) returns (status: Status)
      requires dev != null ==> |dev.bytes| >= LOG_BYTES
      modifies this, dev
      ensures dev == old(dev)
      ensures dev == null ==> status == Err(EINVAL) && State() == old(State())
      ensures dev != null ==>
                var o := Append(old(dev.State()), old(State()), code);
                dev.State() == o.dev && State() == o.log && status == o.status
    {
      status := CheckUsable();
      if status != Ok { return; }
      var target := if newest == NO_SLOT then 0 else (newest + 1) % SLOT_COUNT;
      var next := if newest == NO_SLOT then 1 else AddWord(sequence, 1);
      var body := BuildBody(next, code);
      initialized := false;
      status := InvalidateToken(target, next, body[..]);
    }

    /** fault_log_latest */
    method Newest() returns (status: Status, code: Word)
      requires dev != null ==> |dev.bytes| >= LOG_BYTES
      modifies this, dev
      ensures dev == old(dev)
      ensures dev == null ==> status == Err(EINVAL) && State() == old(State())
      ensures dev != null ==>
                var l := Latest(old(dev.State()), old(State()));
                dev.State() == l.dev && State() == l.log && status == l.status && code == l.code
    {
      code := 0;
      status := CheckUsable();
      if status != Ok { return; }
      if newest == NO_SLOT { return Err(ENOENT), 0; }
      var bytes;
      status, bytes := dev.ReadBytes(SLOT_SIZE * newest, SLOT_SIZE);
      if status != Ok { return; }
      if !RecordValid(bytes) || LoadLe32(bytes[4..8]) != sequence {
        initialized := false;
        return Err(EILSEQ), 0;
      }
      code := LoadLe32(bytes[8..12]);
    }
  }
}
