/** Scanning bus 0 (pcie_bus.c of lab 18) against any configuration space that reads do not change. */
module Enumeration {
  import opened Words

  const MAX_DEVICES := 16
  const MAX_BARS := 6
  const DEVICES := 32
  const FUNCTIONS := 8

  const CFG_VENDOR_DEVICE := 0x00
  const CFG_CLASS_REVISION := 0x08
  const CFG_HEADER := 0x0C
  const CFG_BAR0 := 0x10
  const CFG_INTERRUPT := 0x3C
  const HEADER_NORMAL := 0

  datatype Bdf = Bdf(device: nat, function_: nat)

  /** The configuration space of bus 0. */
  type Space = (Bdf, nat) -> Word

  datatype Bar = Bar(raw: Word, address: Word, io: bool, wide: bool, prefetchable: bool)

  datatype Entry = Entry(
    bdf: Bdf, vendor: nat, device: nat, revision: nat, subclass: nat, class_: nat, headerType: nat, multifunction: bool,
    bars: seq<Bar>, irqLine: nat, irqPin: nat)

  datatype Result = OK | ERR_ARGUMENT

  // Decoding

  function DecodeBar(raw: Word): Bar {
    if raw % 2 == 1 then Bar(raw, raw - raw % 4, true, false, false)
    else Bar(raw, raw - raw % 16, false, (raw / 2) % 4 == 2, (raw / 8) % 2 == 1)
  }

  function Multifunction(header: Word): bool {
    (header / 0x800000) % 2 == 1
  }

  function HeaderType(header: Word): nat {
    (header / 0x10000) % 0x80
  }

  function DecodeBars(s: Space, b: Bdf, n: nat): (bars: seq<Bar>)
    ensures |bars| == n && forall i :: 0 <= i < n ==> bars[i] == DecodeBar(s(b, CFG_BAR0 + 4 * i))
  {
    if n == 0 then [] else DecodeBars(s, b, n - 1) + [DecodeBar(s(b, CFG_BAR0 + 4 * (n - 1)))]
  }

  /** What pcie_read_function stores; other headers leave the BARs as they were. */
  function Describe(s: Space, b: Bdf, stale: seq<Bar>): Entry {
    var id, class_ := s(b, CFG_VENDOR_DEVICE), s(b, CFG_CLASS_REVISION);
    var header, irq := s(b, CFG_HEADER), s(b, CFG_INTERRUPT);
    Entry(b, id % 0x10000, id / 0x10000, class_ % 0x100, (class_ / 0x10000) % 0x100, class_ / 0x1000000,
          HeaderType(header), Multifunction(header),
          if HeaderType(header) == HEADER_NORMAL then DecodeBars(s, b, MAX_BARS) else stale,
          irq % 0x100, (irq / 0x100) % 0x100)
  }

  /** A BAR keeps its bits: address and low flags put together give the register back. */
  lemma BarBits(raw: Word)
    ensures var b := DecodeBar(raw);
            && b.raw == raw && b.address + raw % (if b.io then 4 else 16) == raw
            && (b.io <==> raw % 2 == 1) && (b.wide ==> !b.io)
            && (!b.io ==> raw % 16 == (if b.prefetchable then 8 else 0) + 2 * ((raw / 2) % 4))
            && (b.wide <==> !b.io && (raw / 2) % 4 == 2) && (b.prefetchable <==> !b.io && (raw / 8) % 2 == 1)
  {
    NibbleBits(raw);
  }

  lemma NibbleBits(raw: Word)
    ensures raw % 16 == 8 * ((raw / 8) % 2) + 2 * ((raw / 2) % 4) + raw % 2
  {
    LowThree(raw);
    LowFour(raw);
  }

  lemma LowThree(raw: nat)
    ensures raw % 8 == 2 * ((raw / 2) % 4) + raw % 2
  {
    var q := raw / 2;
    assert raw == 8 * (q / 4) + (2 * (q % 4) + raw % 2);
  }

  lemma LowFour(raw: nat)
    ensures raw % 16 == 8 * ((raw / 8) % 2) + raw % 8
  {
    var q := raw / 8;
    assert raw == 16 * (q / 2) + (8 * (q % 2) + raw % 8);
  }

  /** An entry keeps the registers of its function: the vendor is the low half of the first and the device the high
      half, revision, subclass and class are bytes 0, 2 and 3 of the next, the header type and the multifunction bit
      byte 2 of the third, line and pin bytes 0 and 1 of the last, and a normal header has six BARs. */
  lemma EntryIsRegisters(s: Space, b: Bdf, stale: seq<Bar>)
    ensures var e := Describe(s, b, stale);
            && e.bdf == b
            && e.vendor < 0x10000 && s(b, 0x00) == 0x10000 * e.device + e.vendor
            && HasBytes(s(b, 0x08), e.revision, e.subclass, e.class_)
            && e.headerType < 0x80
            && s(b, 0x0C) / 0x10000 % 0x100 == (if e.multifunction then 0x80 else 0) + e.headerType
            && e.irqLine < 0x100 && e.irqPin < 0x100 && s(b, 0x3C) % 0x10000 == 0x100 * e.irqPin + e.irqLine
            && (e.headerType != 0 ==> e.bars == stale)
            && (e.headerType == 0 ==>
                  |e.bars| == 6 && forall i :: 0 <= i < 6 ==> e.bars[i] == DecodeBar(s(b, 0x10 + 4 * i)))
  {
    hide DecodeBar;
    ByteTwo(s(b, 0x0C));
    LowBytes(s(b, 0x3C));
    ClassBytes(s(b, 0x08));
  }

  /** Byte 0, byte 2 and byte 3 of a word. */
  ghost predicate HasBytes(v: Word, b0: nat, b2: nat, b3: nat) {
    b0 < 0x100 && b2 < 0x100 && exists b1: nat :: b1 < 0x100 && v == b0 + 0x100 * b1 + 0x10000 * b2 + 0x1000000 * b3
  }

  lemma ClassBytes(v: Word)
    ensures HasBytes(v, v % 0x100, (v / 0x10000) % 0x100, v / 0x1000000)
  {
    var b1 := (v / 0x100) % 0x100;
    assert v == v % 0x100 + 0x100 * (v / 0x100) && v / 0x100 == b1 + 0x100 * (v / 0x10000);
    assert v / 0x10000 == (v / 0x10000) % 0x100 + 0x100 * (v / 0x1000000);
    assert v == v % 0x100 + 0x100 * b1 + 0x10000 * ((v / 0x10000) % 0x100) + 0x1000000 * (v / 0x1000000);
  }

  lemma ByteTwo(v: Word)
    ensures v / 0x10000 % 0x100 == 0x80 * ((v / 0x800000) % 2) + (v / 0x10000) % 0x80
  {
    var q := v / 0x10000;
    assert v / 0x800000 == q / 0x80;
    assert q == 0x100 * (q / 0x100) + (0x80 * ((q / 0x80) % 2) + q % 0x80);
  }

  lemma LowBytes(v: Word)
    ensures v % 0x10000 == 0x100 * ((v / 0x100) % 0x100) + v % 0x100
  {
    var q := v / 0x100;
    assert v == 0x10000 * (q / 0x100) + (0x100 * (q % 0x100) + v % 0x100);
  }

  // Scanning

  predicate Present(s: Space, b: Bdf) {
    s(b, CFG_VENDOR_DEVICE) % 0x10000 != 0xFFFF
  }

  /** The table so far and the result. */
  datatype Scan = Scan(table: seq<Bdf>, result: Result)

  function ScanFunction(s: Space, c: Scan, b: Bdf): Scan {
    if !Present(s, b) then c
    else if |c.table| >= MAX_DEVICES then c.(result := ERR_ARGUMENT)
    else c.(table := c.table + [b])
  }

  function ScanFunctions(s: Space, c: Scan, device: nat, f: nat): Scan
    decreases FUNCTIONS - f
  {
    if f >= FUNCTIONS then c
    else
      var n := ScanFunction(s, c, Bdf(device, f));
      if n.result != OK then n else ScanFunctions(s, n, device, f + 1)
  }

  function ScanDevice(s: Space, c: Scan, device: nat): Scan {
    var b := Bdf(device, 0);
    if !Present(s, b) then c
    else
      var n := ScanFunction(s, c, b);
      if n.result != OK || !Multifunction(s(b, CFG_HEADER)) then n else ScanFunctions(s, n, device, 1)
  }

  function ScanBus(s: Space, c: Scan, device: nat): Scan
    decreases DEVICES - device
  {
    if device >= DEVICES then c
    else
      var n := ScanDevice(s, c, device);
      if n.result != OK then n else ScanBus(s, n, device + 1)
  }

  function Enumerate(s: Space): Scan {
    ScanBus(s, Scan([], OK), 0)
  }

  // What is on the bus, without scanning

  /** Function 0 of a device that answers, and the functions 1 to 7 that answer on a multifunction device. */
  predicate Listed(s: Space, b: Bdf) {
    var first := Bdf(b.device, 0);
    && b.device < 32 && b.function_ < 8 && s(b, 0x00) % 0x10000 != 0xFFFF
    && (b.function_ > 0 ==> s(first, 0x00) % 0x10000 != 0xFFFF && (s(first, 0x0C) / 0x800000) % 2 == 1)
  }

  function Order(b: Bdf): nat {
    b.device * FUNCTIONS + b.function_
  }

  ghost predicate Increasing(table: seq<Bdf>) {
    forall i, j :: 0 <= i < j < |table| ==> Order(table[i]) < Order(table[j])
  }

  /** The table lists exactly the functions below a point of the order. */
  ghost predicate Complete(s: Space, table: seq<Bdf>, below: nat) {
    && Increasing(table)
    && forall b: Bdf :: b in table <==> Listed(s, b) && Order(b) < below
  }

  /** A scan result: complete up to a point, or the table is full and something more was found. */
  ghost predicate Faithful(s: Space, c: Scan, below: nat) {
    && |c.table| <= MAX_DEVICES
    && (c.result == OK ==> Complete(s, c.table, below))
    && (c.result != OK ==>
          && |c.table| == MAX_DEVICES && Increasing(c.table)
          && exists b: Bdf :: Listed(s, b) && b !in c.table && Complete(s, c.table, Order(b)))
  }

  lemma Appended(s: Space, table: seq<Bdf>, b: Bdf)
    requires Complete(s, table, Order(b)) && b.function_ < FUNCTIONS
    ensures Listed(s, b) ==> Complete(s, table + [b], Order(b) + 1)
    ensures !Listed(s, b) ==> Complete(s, table, Order(b) + 1)
  {
  }

  lemma FunctionIsScanned(s: Space, c: Scan, b: Bdf)
    requires Faithful(s, c, Order(b)) && c.result == OK && b.function_ < FUNCTIONS && (Listed(s, b) <==> Present(s, b))
    ensures Faithful(s, ScanFunction(s, c, b), Order(b) + 1)
  {
  }

  lemma {:induction false} FunctionsAreScanned(s: Space, c: Scan, device: nat, f: nat)
    requires device < DEVICES && 1 <= f <= FUNCTIONS && c.result == OK
    requires Present(s, Bdf(device, 0)) && Multifunction(s(Bdf(device, 0), CFG_HEADER))
    requires Faithful(s, c, device * FUNCTIONS + f)
    ensures Faithful(s, ScanFunctions(s, c, device, f), (device + 1) * FUNCTIONS)
    decreases FUNCTIONS - f
  {
    hide Faithful;
    if f < FUNCTIONS {
      var b := Bdf(device, f);
      FunctionIsScanned(s, c, b);
      var n := ScanFunction(s, c, b);
      if n.result == OK {
        FunctionsAreScanned(s, n, device, f + 1);
      } else {
        FailureIsFinal(s, n, Order(b) + 1, (device + 1) * FUNCTIONS);
      }
    }
  }

  lemma FailureIsFinal(s: Space, c: Scan, from: nat, to: nat)
    requires Faithful(s, c, from) && c.result != OK
    ensures Faithful(s, c, to)
  {
  }

  /** Functions 1 to 7 of a single-function or absent device are not listed. */
  lemma NothingListed(s: Space, c: Scan, device: nat, from: nat)
    requires c.result == OK && Faithful(s, c, from) && device * FUNCTIONS <= from <= (device + 1) * FUNCTIONS
    requires forall b: Bdf :: Listed(s, b) && Order(b) >= from ==> Order(b) >= (device + 1) * FUNCTIONS
    ensures Faithful(s, c, (device + 1) * FUNCTIONS)
  {
  }

  lemma DeviceIsScanned(s: Space, c: Scan, device: nat)
    requires device < DEVICES && c.result == OK && Faithful(s, c, device * FUNCTIONS)
    ensures Faithful(s, ScanDevice(s, c, device), (device + 1) * FUNCTIONS)
  {
    hide Faithful;
    var b := Bdf(device, 0);
    if !Present(s, b) {
      NothingListed(s, c, device, device * FUNCTIONS);
    } else {
      FunctionIsScanned(s, c, b);
      var n := ScanFunction(s, c, b);
      if n.result != OK {
        FailureIsFinal(s, n, Order(b) + 1, (device + 1) * FUNCTIONS);
      } else if Multifunction(s(b, CFG_HEADER)) {
        FunctionsAreScanned(s, n, device, 1);
      } else {
        NothingListed(s, n, device, device * FUNCTIONS + 1);
      }
    }
  }

  lemma {:induction false} BusIsScanned(s: Space, c: Scan, device: nat)
    requires device <= DEVICES && c.result == OK && Faithful(s, c, device * FUNCTIONS)
    ensures Faithful(s, ScanBus(s, c, device), DEVICES * FUNCTIONS)
    decreases DEVICES - device
  {
    hide Faithful, ScanDevice;
    if device < DEVICES {
      DeviceIsScanned(s, c, device);
      var n := ScanDevice(s, c, device);
      if n.result == OK {
        BusIsScanned(s, n, device + 1);
      } else {
        FailureIsFinal(s, n, (device + 1) * FUNCTIONS, DEVICES * FUNCTIONS);
      }
    }
  }

  /** For every configuration space: on success the table lists, in increasing order, exactly the functions that the bus
      has, and there are at most 16; otherwise it holds the first 16 and the bus has at least one more. */
  lemma EnumerationIsExact(s: Space)
    ensures var c := Enumerate(s);
            && Increasing(c.table)
            && (c.result == OK ==> |c.table| <= MAX_DEVICES && forall b: Bdf :: b in c.table <==> Listed(s, b))
            && (c.result != OK ==>
                  && |c.table| == MAX_DEVICES
                  && exists b: Bdf :: Listed(s, b) && b !in c.table && Complete(s, c.table, Order(b)))
  {
    assert Complete(s, [], 0);
    hide ScanBus;
    BusIsScanned(s, Scan([], OK), 0);
  }

  /** So the scan fails exactly when the list is longer than the table: any complete list of a bus decides it. */
  lemma FailsExactlyWhenTooMany(s: Space, all: seq<Bdf>)
    requires Increasing(all) && forall b: Bdf :: b in all <==> Listed(s, b)
    ensures Enumerate(s).result == OK <==> |all| <= MAX_DEVICES
    ensures Enumerate(s).result == OK ==> Enumerate(s).table == all
  {
    EnumerationIsExact(s);
    var c := Enumerate(s);
    hide Enumerate, Listed;
    if c.result == OK {
      SortedListsAgree(c.table, all);
    } else {
      var b: Bdf :| Listed(s, b) && b !in c.table && Complete(s, c.table, Order(b));
      forall x: Bdf | x in c.table + [b] ensures x in all {
        assert x in c.table || x == b;
      }
      forall i | 0 <= i < |c.table| ensures Order(c.table[i]) < Order(b) {
        assert c.table[i] in c.table;
      }
      SublistIsShorter(c.table + [b], all);
    }
  }

  lemma {:induction false} SublistIsShorter(a: seq<Bdf>, b: seq<Bdf>)
    requires Increasing(a) && Increasing(b) && forall x: Bdf :: x in a ==> x in b
    ensures |a| <= |b|
    decreases |a|
  {
    if a != [] {
      var x := a[|a| - 1];
      assert x in a;
      var k :| 0 <= k < |b| && b[k] == x;
      var a1, b1 := a[..|a| - 1], b[..k];
      forall y: Bdf | y in a1 ensures y in b1 {
        var i :| 0 <= i < |a1| && a1[i] == y;
        assert a[i] == y && y in b;
        var j :| 0 <= j < |b| && b[j] == y;
        assert Order(y) < Order(x);
      }
      SublistIsShorter(a1, b1);
    }
  }

  lemma {:induction false} SortedListsAgree(a: seq<Bdf>, b: seq<Bdf>)
    requires Increasing(a) && Increasing(b) && forall x: Bdf :: x in a <==> x in b
    ensures a == b
    decreases |a|
  {
    HeadIsIn(a);
    HeadIsIn(b);
    if a != [] {
      var n, m := |a| - 1, |b| - 1;
      assert a[n] in a && a[n] in b;
      assert b[m] in b && b[m] in a;
      LastIsGreatest(a, b[m]);
      LastIsGreatest(b, a[n]);
      assert Order(a[n]) == Order(b[m]);
      var i :| 0 <= i < |a| && a[i] == b[m];
      assert i == n;
      forall x: Bdf ensures x in a[..n] <==> x in b[..m] {
        ButLast(a, x);
        ButLast(b, x);
      }
      SortedListsAgree(a[..n], b[..m]);
      assert a == a[..n] + [a[n]] && b == b[..m] + [b[m]];
    }
  }

  lemma HeadIsIn(a: seq<Bdf>)
    ensures a != [] ==> a[0] in a
  {
  }

  lemma LastIsGreatest(a: seq<Bdf>, x: Bdf)
    requires Increasing(a) && x in a
    ensures Order(x) <= Order(a[|a| - 1])
  {
  }

  lemma ButLast(a: seq<Bdf>, x: Bdf)
    requires Increasing(a) && a != []
    ensures x in a[..|a| - 1] <==> x in a && x != a[|a| - 1]
  {
  }

  // The scan as a program

  class Bus {
    const space: Space
    const devices: array<Entry>
    var count: nat
    ghost var table: seq<Bdf>

    constructor (space: Space, blank: Entry)
      ensures Valid() && count == 0 && this.space == space && fresh(devices)
    {
      this.space, count, table := space, 0, [];
      devices := new Entry[MAX_DEVICES](_ => blank);
    }

    ghost predicate Valid()
      reads this
    {
      devices.Length == MAX_DEVICES && count == |table| <= MAX_DEVICES
    }

    /** The first entries describe the functions of the table; BARs of other headers are what the entry held before. */
    ghost predicate Described(before: seq<Entry>)
      requires |before| == MAX_DEVICES
      reads this, devices
    {
      Valid() && forall i :: 0 <= i < MAX_DEVICES ==>
        devices[i] == if i < count then Describe(space, table[i], before[i].bars) else before[i]
    }

    ghost function State(result: Result): Scan
      reads this
    {
      Scan(table, result)
    }

    /** pcie_read_function, into an entry that holds something already. */
    method ReadFunction(b: Bdf, stale: seq<Bar>) returns (entry: Entry)
      ensures entry == Describe(space, b, stale)
    {
      var id, class_, header := space(b, CFG_VENDOR_DEVICE), space(b, CFG_CLASS_REVISION), space(b, CFG_HEADER);
      var bars := stale;
      if HeaderType(header) == HEADER_NORMAL {
        bars := [];
        for index := 0 to MAX_BARS
          invariant bars == DecodeBars(space, b, index)
        {
          bars := bars + [DecodeBar(space(b, CFG_BAR0 + 4 * index))];
        }
      }
      var irq := space(b, CFG_INTERRUPT);
      entry := Entry(b, id % 0x10000, id / 0x10000, class_ % 0x100, (class_ / 0x10000) % 0x100, class_ / 0x1000000,
                     HeaderType(header), Multifunction(header), bars, irq % 0x100, (irq / 0x100) % 0x100);
    }

    method ScanOneFunction(b: Bdf, ghost before: seq<Entry>) returns (result: Result)
      requires |before| == MAX_DEVICES && Described(before)
      modifies this, devices
      ensures Described(before) && State(result) == ScanFunction(space, Scan(old(table), OK), b)
    {
      hide Describe, Multifunction;
      if space(b, CFG_VENDOR_DEVICE) % 0x10000 == 0xFFFF { return OK; }
      if count >= MAX_DEVICES { return ERR_ARGUMENT; }
      var entry := ReadFunction(b, devices[count].bars);
      devices[count] := entry;
      count, table := count + 1, table + [b];
      return OK;
    }

    method ScanOneDevice(device: nat, ghost before: seq<Entry>) returns (result: Result)
      requires |before| == MAX_DEVICES && Described(before)
      modifies this, devices
      ensures Described(before) && State(result) == ScanDevice(space, Scan(old(table), OK), device)
    {
      hide Describe, ScanFunction, Multifunction;
      var b := Bdf(device, 0);
      if space(b, CFG_VENDOR_DEVICE) % 0x10000 == 0xFFFF { return OK; }
      result := ScanOneFunction(b, before);
      if result != OK || !Multifunction(space(b, CFG_HEADER)) { return; }
      for f := 1 to FUNCTIONS
        invariant Described(before)
        invariant ScanFunctions(space, Scan(table, OK), device, f) ==
                  ScanDevice(space, Scan(old(table), OK), device)
      {
        result := ScanOneFunction(Bdf(device, f), before);
        if result != OK { return; }
      }
      return OK;
    }

    /** pcie_enumerate */
    method EnumerateBus() returns (result: Result)
      requires Valid()
      modifies this, devices
      ensures Described(old(devices[..])) && State(result) == Enumerate(space)
    {
      hide Describe, ScanDevice;
      count, table := 0, [];
      ghost var before := devices[..];
      for device := 0 to DEVICES
        invariant Described(before)
        invariant ScanBus(space, Scan(table, OK), device) == Enumerate(space)
      {
        result := ScanOneDevice(device, before);
        if result != OK { return; }
      }
      return OK;
    }
  }
}
