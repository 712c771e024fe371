/** Sizing and placing BARs (pcie_resource.c of lab 19) against the simulated host (pcie_sim_host.c). */
module BarProbe {
  import opened Words
  import opened BarWindow

  const BAR_COUNT := 6
  const ALL_ONES: Word := 0xFFFFFFFF
  const PCIE_CONF_BAR0 := 4

  datatype Bar = Bar(value: Word, size: Word, implemented: bool, probing: bool)

  /** The one function of the simulated controller; config holds the registers that are not BARs. */
  datatype Function = Function(bdf: Word, present: bool, bars: seq<Bar>, config: map<nat, Word>)

  /** struct lab_pcie_bar_resource */
  datatype Info = Info(index: nat, original: Word, busAddr: Word, cpuAddr: Word, size: Word, io: bool, wide: bool,
                       prefetchable: bool)

  // Bit fields of a BAR

  predicate IsIo(value: Word) {
    value % 2 == 1
  }

  predicate IsWide(value: Word) {
    !IsIo(value) && (value / 2) % 4 == 2
  }

  function Flags(value: Word): Word {
    value % 16
  }

  /** ~(size - 1) with the low bits cleared. */
  function SizeMask(size: Word, unit: nat): Word
    requires size > 0 && unit > 0
  {
    var mask := MODULUS - size;
    mask - mask % unit
  }

  function ProbeValue(b: Bar): Word {
    if !b.implemented || b.size == 0 then 0
    else if IsIo(b.value) then IoProbe(b.value, b.size)
    else MemoryProbe(b.value, b.size)
  }

  function MemoryProbe(value: Word, size: Word): (v: Word)
    requires size > 0
  {
    FieldsFit(MODULUS - size, value, 16);
    SizeMask(size, 16) + Flags(value)
  }

  function IoProbe(value: Word, size: Word): (v: Word)
    requires size > 0
  {
    FieldsFit(MODULUS - size, value, 4);
    SizeMask(size, 4) + value % 4
  }

  lemma FieldsFit(high: Word, low: Word, unit: nat)
    requires unit == 16 || unit == 4
    ensures 0 <= high - high % unit + low % unit < MODULUS
  {
  }

  // The simulated host

  predicate Answers(f: Function, bdf: Word) {
    f.present && f.bdf == bdf
  }

  function Read(f: Function, bdf: Word, reg: nat): Word {
    if !Answers(f, bdf) then ALL_ONES
    else if PCIE_CONF_BAR0 <= reg < PCIE_CONF_BAR0 + BAR_COUNT && |f.bars| == BAR_COUNT then
      var b := f.bars[reg - PCIE_CONF_BAR0];
      if !b.implemented then 0 else if b.probing then ProbeValue(b) else b.value
    else if reg in f.config then f.config[reg]
    else 0
  }

  /** Writing all ones asks for the size; anything else sets the address and keeps the low four bits. */
  function WrittenBar(b: Bar, value: Word): Bar {
    if !b.implemented then b
    else if value == ALL_ONES then b.(probing := true)
    else
      FieldsFit(value, b.value, 16);
      b.(probing := false, value := value - value % 16 + Flags(b.value))
  }

  function Write(f: Function, bdf: Word, reg: nat, value: Word): Function {
    if !Answers(f, bdf) then f
    else if PCIE_CONF_BAR0 <= reg < PCIE_CONF_BAR0 + BAR_COUNT && |f.bars| == BAR_COUNT then
      f.(bars := f.bars[reg - PCIE_CONF_BAR0 := WrittenBar(f.bars[reg - PCIE_CONF_BAR0], value)])
    else f.(config := f.config[reg := value])
  }

  // lab_pcie_probe_bar32 and lab_pcie_assign_bar32

  function AddressMask(probe: Word, io: bool): Word {
    if io then probe - probe % 4 else probe - probe % 16
  }

  /** What the register shows before it is sized. */
  function Found(index: nat, original: Word): Info {
    Info(index, original, 0, 0, 0, IsIo(original), IsWide(original), !IsIo(original) && (original / 8) % 2 == 1)
  }

  function Probe(f: Function, bdf: Word, index: nat): (Function, BarWindow.Result, Info) {
    if index >= BAR_COUNT then (f, ERR_ARGUMENT, Info(0, 0, 0, 0, 0, false, false, false))
    else
      var reg := PCIE_CONF_BAR0 + index;
      var original := Read(f, bdf, reg);
      var info := Found(index, original);
      if info.wide then (f, ERR_UNSUPPORTED, info)
      else
        var asked := Write(f, bdf, reg, ALL_ONES);
        var probe := Read(asked, bdf, reg);
        var restored := Write(asked, bdf, reg, original);
        var mask := AddressMask(probe, info.io);
        (restored, OK, info.(size := if mask == 0 then 0 else SubWord(0, mask)))
  }

  function Programmed(info: Info, addr: Word): Word {
    FieldsFit(addr, info.original, if info.io then 4 else 16);
    if info.io then addr - addr % 4 + info.original % 4 else addr - addr % 16 + Flags(info.original)
  }

  function Assign(f: Function, bdf: Word, w: Window, info: Info): (Function, Window, BarWindow.Result, Info) {
    if info.size == 0 then (f, w, ERR_UNSUPPORTED, info)
    else
      var (n, r, addr) := Alloc(w, info.size, info.size);
      if r != OK then (f, n, r, info)
      else
        var (r, cpu) := Translate(n, addr);
        if r != OK then (f, n, r, info)
        else
          (Write(f, bdf, PCIE_CONF_BAR0 + info.index, Programmed(info, addr)), n, OK,
           info.(busAddr := addr, cpuAddr := cpu))
  }

  // What they achieve

  /** A memory BAR of 32 bits that is not being probed. */
  ghost predicate Plain(f: Function, bdf: Word, index: nat) {
    && f.present && f.bdf == bdf && index < 6 == |f.bars|
    && f.bars[index].implemented && !f.bars[index].probing && f.bars[index].size > 0
    && !IsIo(f.bars[index].value) && !IsWide(f.bars[index].value)
  }

  function RoundUp16(size: Word): nat {
    if size % 16 == 0 then size else size + 16 - size % 16
  }

  lemma MaskGivesSize(value: Word, size: Word)
    requires size > 0
    ensures AddressMask(MemoryProbe(value, size), false) == SizeMask(size, 16)
    ensures SizeMask(size, 16) == MODULUS - RoundUp16(size)
  {
  }

  lemma RestoringKeeps(b: Bar)
    requires b.implemented && !b.probing && !IsIo(b.value)
    ensures WrittenBar(WrittenBar(b, ALL_ONES), b.value) == b
  {
  }

  /** Probing a memory BAR finds its size, rounded up to the sixteen bytes that the register can express, and leaves the
      function exactly as it was. */
  lemma ProbeFindsSize(f: Function, bdf: Word, index: nat)
    requires Plain(f, bdf, index)
    ensures var (n, r, info) := Probe(f, bdf, index);
            && n == f && r == OK && info.index == index && !info.io && info.original == f.bars[index].value
            && !info.wide && (info.prefetchable <==> (f.bars[index].value / 8) % 2 == 1)
            && info.size == (if RoundUp16(f.bars[index].size) == MODULUS then 0 else RoundUp16(f.bars[index].size))
            && (f.bars[index].size % 16 == 0 ==> info.size == f.bars[index].size)
  {
    var b := f.bars[index];
    MaskGivesSize(b.value, b.size);
    RestoringKeeps(b);
    hide MemoryProbe, SizeMask, WrittenBar;
    var reg := PCIE_CONF_BAR0 + index;
    ProbingReads(b);
    assert f.bars[index := WrittenBar(b, ALL_ONES)][index := b] == f.bars;
    var asked := Write(f, bdf, reg, ALL_ONES);
    assert Read(asked, bdf, reg) == MemoryProbe(b.value, b.size);
    assert Write(asked, bdf, reg, b.value) == f;
    if RoundUp16(b.size) < MODULUS { NegatedMask(RoundUp16(b.size)); }
  }

  lemma ProbingReads(b: Bar)
    requires b.implemented && !IsIo(b.value) && b.size > 0
    ensures var asked := WrittenBar(b, ALL_ONES);
            asked.implemented && asked.probing && ProbeValue(asked) == MemoryProbe(b.value, b.size)
  {
  }

  lemma NegatedMask(size: nat)
    requires 0 < size < MODULUS
    ensures SubWord(0, MODULUS - size) == size
  {
  }

  /** Only the value of one BAR may differ. */
  ghost predicate SameButAddress(f: Function, g: Function, index: nat) {
    index < |f.bars| == |g.bars| &&
    g == f.(bars := f.bars[index := f.bars[index].(value := g.bars[index].value)])
  }

  /** What probing says of everything else: a 64-bit BAR is refused and a bad index too, nothing being written; a BAR
      that is not implemented has size 0. */
  lemma ProbeOfOthers(f: Function, bdf: Word, index: nat)
    ensures index >= 6 ==> Probe(f, bdf, index).0 == f && Probe(f, bdf, index).1 == ERR_ARGUMENT
    ensures index < 6 == |f.bars| && f.present && f.bdf == bdf && f.bars[index].implemented && !f.bars[index].probing
            && f.bars[index].value % 2 == 0 && (f.bars[index].value / 2) % 4 == 2 ==>
              Probe(f, bdf, index).0 == f && Probe(f, bdf, index).1 == ERR_UNSUPPORTED
    ensures index < 6 == |f.bars| && f.present && f.bdf == bdf && !f.bars[index].implemented ==>
              && Read(f, bdf, 4 + index) == 0
              && Probe(f, bdf, index).0 == f && Probe(f, bdf, index).1 == OK && Probe(f, bdf, index).2.size == 0
  {
    if index < 6 == |f.bars| {
      assert f.bars[index := f.bars[index]] == f.bars;
      assert PCIE_CONF_BAR0 + index - PCIE_CONF_BAR0 == index;
    }
  }

  /** A function that is not there reads as ones and looks like one with an I/O BAR of four bytes. */
  lemma AbsentLooksLikeIo(f: Function, bdf: Word, index: nat)
    requires !(f.present && f.bdf == bdf) && index < 6
    ensures Read(f, bdf, 4 + index) == 0xFFFFFFFF
    ensures var (n, r, info) := Probe(f, bdf, index); n == f && r == OK && info.io && info.size == 4
  {
  }

  /** An I/O BAR is found with its size, rounded up to the four bytes that the register can express. */
  lemma ProbeFindsIoSize(f: Function, bdf: Word, index: nat)
    requires f.present && f.bdf == bdf && index < 6 == |f.bars|
    requires f.bars[index].implemented && !f.bars[index].probing && 0 < f.bars[index].size < 0xFFFFFFF0
    requires f.bars[index].value % 2 == 1 && f.bars[index].value != 0xFFFFFFFF
    ensures var (n, r, info) := Probe(f, bdf, index); var size := f.bars[index].size;
            && n == f && r == OK && info.io && !info.prefetchable
            && info.size == (if size % 4 == 0 then size else size + 4 - size % 4)
  {
    var b := f.bars[index];
    IoMaskGivesSize(b.value, b.size);
    IoRestoringKeeps(b);
    hide IoProbe, SizeMask, WrittenBar;
    var reg := PCIE_CONF_BAR0 + index;
    IoProbingReads(b);
    assert f.bars[index := WrittenBar(b, ALL_ONES)][index := b] == f.bars;
    var asked := Write(f, bdf, reg, ALL_ONES);
    assert Read(asked, bdf, reg) == IoProbe(b.value, b.size);
    assert Write(asked, bdf, reg, b.value) == f;
    NegatedMask(RoundUp4(b.size));
  }

  function RoundUp4(size: Word): nat {
    if size % 4 == 0 then size else size + 4 - size % 4
  }

  lemma IoMaskGivesSize(value: Word, size: Word)
    requires size > 0
    ensures AddressMask(IoProbe(value, size), true) == SizeMask(size, 4)
    ensures SizeMask(size, 4) == MODULUS - RoundUp4(size)
  {
  }

  lemma IoRestoringKeeps(b: Bar)
    requires b.implemented && !b.probing && b.value != ALL_ONES
    ensures WrittenBar(WrittenBar(b, ALL_ONES), b.value) == b
  {
  }

  lemma IoProbingReads(b: Bar)
    requires b.implemented && IsIo(b.value) && b.size > 0
    ensures var asked := WrittenBar(b, ALL_ONES);
            asked.implemented && asked.probing && ProbeValue(asked) == IoProbe(b.value, b.size)
  {
  }

  /** A memory BAR that is placed reads back the address it was given, in the window, with its flags kept; the address
      is a multiple of its size and no other free place of that kind lies below it. */
  lemma AssignPlaces(f: Function, bdf: Word, w: Window, info: Info)
    requires Plain(f, bdf, info.index) && info.original == f.bars[info.index].value && !info.io
    requires Sane(w) && w.pciBase > 0 && info.size >= 16 && PowerOfTwo(info.size)
    ensures var (g, n, r, out) := Assign(f, bdf, w, info);
            && (r == OK <==> exists s: nat :: Available(w, info.size, info.size, s))
            && (r == OK ==>
                  && Available(w, info.size, info.size, out.busAddr)
                  && (forall s: nat :: Available(w, info.size, info.size, s) ==> out.busAddr <= s)
                  && n == w.(next := out.busAddr + info.size)
                  && Read(g, bdf, PCIE_CONF_BAR0 + info.index) == out.busAddr + Flags(info.original)
                  && out == info.(busAddr := out.busAddr,
                                  cpuAddr := (w.cpuBase + (out.busAddr - w.pciBase)) % 0x1_0000_0000)
                  && SameButAddress(f, g, info.index))
            && (r != OK ==> g == f && n == w)
  {
    hide PowerOfTwo, Alloc, Available, Translate, Read, Write, Programmed, SameButAddress, Assign, Plain, Flags;
    hide AddWord, SubWord, Multiple;
    AllocIsLeastFit(w, info.size, info.size);
    var (n, r, addr) := Alloc(w, info.size, info.size);
    if r == OK {
      AvailableIsInside(w, info.size, info.size, addr);
      SizeIsSixteens(info.size, addr);
      PlacedTranslates(w, n, addr, info.size);
      AssignAfterAlloc(f, bdf, w, info, n, addr);
      ProgrammedReadsBack(f, bdf, info, addr);
    } else {
      AssignWithoutRoom(f, bdf, w, info);
    }
  }

  lemma PlacedTranslates(w: Window, n: Window, addr: Word, size: Word)
    requires Sane(w) && n == w.(next := n.next) && w.pciBase <= addr && addr + size <= End(w) && size > 0
    ensures Translate(n, addr) == (OK, (w.cpuBase + (addr - w.pciBase)) % 0x1_0000_0000)
  {
    AllocatedTranslates(w, n, addr, size);
    TranslationKeepsOffsets(w, addr, addr);
    hide Translate, AddWord, SubWord;
  }

  lemma AssignAfterAlloc(f: Function, bdf: Word, w: Window, info: Info, n: Window, addr: Word)
    requires info.size > 0 && Alloc(w, info.size, info.size) == (n, OK, addr) && Translate(n, addr).0 == OK
    ensures Assign(f, bdf, w, info) ==
            (Write(f, bdf, PCIE_CONF_BAR0 + info.index, Programmed(info, addr)), n, OK,
             info.(busAddr := addr, cpuAddr := Translate(n, addr).1))
  {
    hide Alloc, Translate, Write, Programmed;
  }

  lemma AssignWithoutRoom(f: Function, bdf: Word, w: Window, info: Info)
    requires info.size > 0
    ensures var (n, r, _) := Alloc(w, info.size, info.size); r != OK ==> Assign(f, bdf, w, info) == (f, n, r, info)
  {
    hide Alloc, Translate, Write, Programmed;
  }

  lemma OnlyAddressIsWritten(f: Function, bdf: Word, index: nat, value: Word)
    requires Plain(f, bdf, index) && value != ALL_ONES
    ensures var g := Write(f, bdf, PCIE_CONF_BAR0 + index, value);
            |g.bars| == |f.bars| && SameButAddress(f, g, index)
  {
  }

  lemma AllocatedTranslates(w: Window, n: Window, addr: Word, size: Word)
    requires Sane(w) && n == w.(next := n.next) && w.pciBase <= addr && addr + size <= End(w) && size > 0
    ensures Translate(n, addr) == Translate(w, addr) && Translate(w, addr).0 == OK
  {
  }

  lemma ProgrammedReadsBack(f: Function, bdf: Word, info: Info, addr: Word)
    requires Plain(f, bdf, info.index) && info.original == f.bars[info.index].value && !info.io && addr % 16 == 0
    ensures Read(Write(f, bdf, PCIE_CONF_BAR0 + info.index, Programmed(info, addr)), bdf, PCIE_CONF_BAR0 + info.index)
            == addr + Flags(info.original)
    ensures |Write(f, bdf, PCIE_CONF_BAR0 + info.index, Programmed(info, addr)).bars| == |f.bars|
    ensures SameButAddress(f, Write(f, bdf, PCIE_CONF_BAR0 + info.index, Programmed(info, addr)), info.index)
  {
    var b := f.bars[info.index];
    assert Programmed(info, addr) == addr + Flags(b.value);
    assert addr + Flags(b.value) != ALL_ONES by { MemoryIsNotAllOnes(addr, b.value); }
    KeptFlags(addr, b.value);
    OnlyAddressIsWritten(f, bdf, info.index, Programmed(info, addr));
  }

  lemma MemoryIsNotAllOnes(addr: Word, value: Word)
    requires addr % 16 == 0 && !IsIo(value)
    ensures addr + Flags(value) != ALL_ONES
  {
  }

  lemma KeptFlags(addr: Word, value: Word)
    requires addr % 16 == 0
    ensures addr + Flags(value) - (addr + Flags(value)) % 16 == addr
  {
  }

  lemma {:induction false} SizeIsSixteens(size: Word, addr: nat)
    requires PowerOfTwo(size) && size >= 16 && Multiple(addr, size)
    ensures addr % 16 == 0
  {
    PowerDivides(size, 16);
    var q: nat :| Times(q, 16) == size;
    var k: nat :| Times(k, size) == addr;
    assert addr == (k * q) * 16;
  }

  lemma {:induction false} PowerDivides(size: nat, small: nat)
    requires PowerOfTwo(size) && PowerOfTwo(small) && small <= size
    ensures Multiple(size, small)
    decreases size
  {
    if small == 1 {
      assert Times(size, 1) == size;
    } else {
      PowerDivides(size / 2, small / 2);
      var k: nat :| Times(k, small / 2) == size / 2;
      Doubled(k, small / 2);
      assert Times(k, small) == size;
    }
  }

  /** A BAR without a size is not placed, and one whose size is no power of two neither. */
  lemma AssignRefusals(f: Function, bdf: Word, w: Window, info: Info)
    ensures info.size == 0 ==> Assign(f, bdf, w, info) == (f, w, ERR_UNSUPPORTED, info)
    ensures info.size > 0 && !(exists k: nat :: info.size == Pow2(k)) ==>
              Assign(f, bdf, w, info) == (f, w, ERR_ARGUMENT, info)
  {
    PowerOfTwoMeaning(info.size);
  }

  /** An I/O BAR is placed like any other; on the simulated host, which keeps the low four bits of every BAR, it reads
      back its address without them. */
  lemma AssignPlacesIo(f: Function, bdf: Word, w: Window, info: Info)
    requires f.present && f.bdf == bdf && info.index < 6 == |f.bars| && f.bars[info.index].implemented
    requires info.io && info.original == f.bars[info.index].value && !f.bars[info.index].probing
    requires Sane(w) && info.size > 0 && Alloc(w, info.size, info.size).1 == OK
    requires Translate(Alloc(w, info.size, info.size).0, Alloc(w, info.size, info.size).2).0 == OK
    ensures var (g, n, r, out) := Assign(f, bdf, w, info); var addr := Alloc(w, info.size, info.size).2;
            && r == OK && out.busAddr == addr && |g.bars| == 6
            && (addr % 4 == 0 && addr + info.original % 4 != 0xFFFFFFFF ==>
                  SameButAddress(f, g, info.index) &&
                  Read(g, bdf, 4 + info.index) == addr - addr % 16 + info.original % 16)
  {
    hide Alloc, Translate;
    var addr := Alloc(w, info.size, info.size).2;
    if addr % 4 == 0 && addr + info.original % 4 != 0xFFFFFFFF {
      IoIsReadBack(f, bdf, info, addr);
    }
  }

  lemma IoIsReadBack(f: Function, bdf: Word, info: Info, addr: Word)
    requires f.present && f.bdf == bdf && info.index < 6 == |f.bars| && f.bars[info.index].implemented
    requires info.io && info.original == f.bars[info.index].value && addr % 4 == 0
    requires addr + info.original % 4 != 0xFFFFFFFF && !f.bars[info.index].probing
    ensures Read(Write(f, bdf, 4 + info.index, Programmed(info, addr)), bdf, 4 + info.index)
            == addr - addr % 16 + info.original % 16
    ensures var g := Write(f, bdf, 4 + info.index, Programmed(info, addr));
            |g.bars| == 6 && SameButAddress(f, g, info.index)
  {
    var b := f.bars[info.index];
    var value := addr + b.value % 4;
    assert Programmed(info, addr) == value by { hide Read, Write, SameButAddress; }
    IoBits(addr, b.value % 4);
    WrittenIo(b, value);
    WriteIsBar(f, bdf, info.index, value);
    hide WrittenBar, Programmed;
  }

  lemma IoBits(addr: nat, low: nat)
    requires addr % 4 == 0 && low < 4
    ensures addr + low - (addr + low) % 16 == addr - addr % 16
  {
    var q, r := addr / 16, addr % 16;
    MultipleOfFour(q, r);
    SumOf(q, r + low);
  }

  lemma MultipleOfFour(q: nat, r: nat)
    requires r < 16 && (16 * q + r) % 4 == 0
    ensures r <= 12
  {
    assert (16 * q + r) % 4 == r % 4;
  }

  lemma SumOf(q: nat, r: nat)
    requires r < 16
    ensures (16 * q + r) % 16 == r
  {
  }

  lemma WrittenIo(b: Bar, value: Word)
    requires b.implemented && !b.probing && value != ALL_ONES
    ensures WrittenBar(b, value).value == value - value % 16 + b.value % 16
    ensures WrittenBar(b, value) == b.(value := WrittenBar(b, value).value)
  {
  }

  lemma WriteIsBar(f: Function, bdf: Word, index: nat, value: Word)
    requires f.present && f.bdf == bdf && index < 6 == |f.bars|
    ensures Write(f, bdf, 4 + index, value) == f.(bars := f.bars[index := WrittenBar(f.bars[index], value)])
  {
    hide WrittenBar;
  }

  /** The simulated host keeps what is written to any register that is no BAR, and changes nothing else. */
  lemma ConfigIsReadBack(f: Function, bdf: Word, reg: nat, value: Word, other: nat)
    requires !(4 <= reg < 10) && f.present && f.bdf == bdf
    ensures Read(Write(f, bdf, reg, value), bdf, other) == if other == reg then value else Read(f, bdf, other)
    ensures Write(f, bdf, reg, value).bars == f.bars
  {
  }

  // Many assignments

  /** Assigning a list of BARs; what was granted, in order. */
  function AssignAll(f: Function, bdf: Word, w: Window, infos: seq<Info>): (Function, Window, seq<Grant>)
    decreases |infos|
  {
    if infos == [] then (f, w, [])
    else
      var (g, m, grants) := AssignAll(f, bdf, w, infos[..|infos| - 1]);
      var info := infos[|infos| - 1];
      var (h, n, r, out) := Assign(g, bdf, m, info);
      (h, n, if r == OK then grants + [Grant(out.busAddr, info.size, info.size)] else grants)
  }

  function Requests(infos: seq<Info>): (q: seq<Request>)
    ensures |q| == |infos|
  {
    seq(|infos|, i requires 0 <= i < |infos| => Request(infos[i].size, infos[i].size))
  }

  lemma AssignIsAlloc(f: Function, bdf: Word, w: Window, info: Info)
    requires Sane(w) && w.pciBase > 0
    ensures var (_, n, r, out) := Assign(f, bdf, w, info); var (m, s, start) := Alloc(w, info.size, info.size);
            n == m && (r == OK <==> s == OK) && (r == OK ==> out.busAddr == start)
  {
  }

  /** Over any list of BARs of any sizes: the ranges that are assigned are aligned to their sizes, lie in the window and
      are pairwise disjoint. */
  lemma {:induction false} AssignedRangesAreDisjoint(f: Function, bdf: Word, w: Window, infos: seq<Info>)
    requires Sane(w) && w.pciBase > 0
    ensures var (_, n, grants) := AssignAll(f, bdf, w, infos);
            (n, grants) == AllocAll(w, Requests(infos)) && Sane(n) && n.pciBase == w.pciBase
            && Placed(w, grants, n.next) && n.next <= End(w)
    decreases |infos|
  {
    hide Assign, Alloc, Placed;
    GrantsAreDisjoint(w, Requests(infos));
    if infos != [] {
      var rest := infos[..|infos| - 1];
      AssignedRangesAreDisjoint(f, bdf, w, rest);
      var (g, m, _) := AssignAll(f, bdf, w, rest);
      AssignIsAlloc(g, bdf, m, infos[|infos| - 1]);
      assert Requests(infos)[..|infos| - 1] == Requests(rest);
    }
  }

  // The host and the calls as a program

  class Host {
    var f: Function

    constructor (f: Function)
      ensures this.f == f
    {
      this.f := f;
    }

    /** sim_config_read32 */
    method ReadConfig(bdf: Word, reg: nat) returns (value: Word)
      ensures value == Read(f, bdf, reg)
    {
      hide ProbeValue;
      if !f.present || f.bdf != bdf { return ALL_ONES; }
      if PCIE_CONF_BAR0 <= reg < PCIE_CONF_BAR0 + BAR_COUNT && |f.bars| == BAR_COUNT {
        var bar := f.bars[reg - PCIE_CONF_BAR0];
        if !bar.implemented { return 0; }
        if bar.probing { return ProbeValue(bar); }
        return bar.value;
      }
      return if reg in f.config then f.config[reg] else 0;
    }

    /** sim_config_write32 */
    method WriteConfig(bdf: Word, reg: nat, value: Word)
      modifies this
      ensures f == Write(old(f), bdf, reg, value)
    {
      if !f.present || f.bdf != bdf { return; }
      if PCIE_CONF_BAR0 <= reg < PCIE_CONF_BAR0 + BAR_COUNT && |f.bars| == BAR_COUNT {
        var k := reg - PCIE_CONF_BAR0;
        var bar := f.bars[k];
        if !bar.implemented {
          assert f.bars[k := bar] == f.bars;
          return;
        }
        if value == ALL_ONES {
          bar := bar.(probing := true);
        } else {
          FieldsFit(value, bar.value, 16);
          bar := bar.(probing := false, value := value - value % 16 + Flags(bar.value));
        }
        f := f.(bars := f.bars[k := bar]);
      } else {
        f := f.(config := f.config[reg := value]);
      }
    }

    /** lab_pcie_probe_bar32 */
    method ProbeBar(bdf: Word, index: nat) returns (result: BarWindow.Result, info: Info)
      modifies this
      ensures (f, result, info) == Probe(old(f), bdf, index)
    {
      hide Read, Write, AddressMask;
      info := Info(0, 0, 0, 0, 0, false, false, false);
      if index >= BAR_COUNT { return ERR_ARGUMENT, info; }
      var original := ReadConfig(bdf, PCIE_CONF_BAR0 + index);
      info := Found(index, original);
      if info.wide { return ERR_UNSUPPORTED, info; }
      WriteConfig(bdf, PCIE_CONF_BAR0 + index, ALL_ONES);
      var probe := ReadConfig(bdf, PCIE_CONF_BAR0 + index);
      WriteConfig(bdf, PCIE_CONF_BAR0 + index, original);
      var mask := AddressMask(probe, info.io);
      info := info.(size := if mask == 0 then 0 else SubWord(0, mask));
      return OK, info;
    }

    /** lab_pcie_assign_bar32 */
    method AssignBar(bdf: Word, window: Allocator, info: Info) returns (result: BarWindow.Result, placed: Info)
      modifies this, window
      ensures (f, window.State(), result, placed) == Assign(old(f), bdf, old(window.State()), info)
    {
      hide Write, Alloc, Programmed;
      placed := info;
      if info.size == 0 { return ERR_UNSUPPORTED, placed; }
      var addr;
      result, addr := window.Allocate(info.size, info.size);
      if result != OK { return; }
      var cpu;
      result, cpu := window.TranslateAddress(addr);
      if result != OK { return; }
      WriteConfig(bdf, PCIE_CONF_BAR0 + info.index, Programmed(info, addr));
      placed := info.(busAddr := addr, cpuAddr := cpu);
    }
  }
}
