/** The EEPROM driver (eeprom.c) through the wires, down to the cells. */
module I2cEeprom {
  import opened Words
  import opened I2cBits
  import opened I2cWires
  import opened I2cBytes
  import opened I2cTransfer

  const TX_BUFFER: nat := 2 + 32
  const NEGATIVE_ARGUMENT: nat := 0x1_0000_0000 - 100

  /** struct eeprom_device: bus address, width of the internal address, page size and poll limit. */
  datatype Config = Config(target: Byte, width: nat, page: nat, pollLimit: nat)

  datatype Result = Done | BadArgument | BadWidth | PageBoundary | TransferFailed | NotReady

  function ValidateRange(d: Config, addr: nat, length: nat): Result {
    if d.width != 1 && d.width != 2 then BadWidth
    else
      var limit := if d.width == 1 then 256 else 65536;
      if addr >= limit || length > limit - addr then BadArgument else Done
  }

  function MemoryAddress(d: Config, addr: nat): (b: seq<Byte>)
    requires addr < 65536
  {
    if d.width == 1 then [addr % 256] else [addr / 256, addr % 256]
  }

  /** The page size is compared with a negative error code, as an unsigned number. */
  function ValidateWrite(d: Config, addr: nat, length: nat): Result {
    if length == 0 || d.page == 0 || d.page > NEGATIVE_ARGUMENT || length > d.page then BadArgument
    else if ValidateRange(d, addr, length) != Done then ValidateRange(d, addr, length)
    else if length > d.page - addr % d.page then PageBoundary
    else Done
  }

  // What is accepted

  /** The range lies inside a memory of 256 or 65536 cells. */
  predicate InMemory(width: nat, addr: nat, length: nat) {
    || (width == 1 && addr < 256 && addr + length <= 256)
    || (width == 2 && addr < 65536 && addr + length <= 65536)
  }

  function ReadVerdict(d: Config, addr: nat, length: nat): Result {
    if length == 0 then BadArgument
    else if InMemory(d.width, addr, length) then Done
    else if d.width in {1, 2} then BadArgument
    else BadWidth
  }

  /** The data fits one page and the range the memory. */
  predicate Storable(d: Config, addr: nat, length: nat) {
    0 < length <= d.page <= 0xFFFFFF9C && InMemory(d.width, addr, length) && addr % d.page + length <= d.page
  }

  function WriteVerdict(d: Config, addr: nat, length: nat): Result {
    if Storable(d, addr, length) then Done
    else if !(0 < length <= d.page <= 0xFFFFFF9C) then BadArgument
    else if d.width !in {1, 2} then BadWidth
    else if !InMemory(d.width, addr, length) then BadArgument
    else PageBoundary
  }

  /** Exactly the requests that fit are accepted, and each other one is refused for its first fault. */
  lemma VerdictsAreExact(d: Config, addr: nat, length: nat)
    ensures length > 0 ==> ValidateRange(d, addr, length) == ReadVerdict(d, addr, length)
    ensures ValidateWrite(d, addr, length) == WriteVerdict(d, addr, length)
  {
  }

  lemma DoneIsStorable(d: Config, addr: nat, length: nat)
    requires WriteVerdict(d, addr, length) == Done
    ensures Storable(d, addr, length)
  {
  }

  lemma EmptyReadIsRefused(d: Config, addr: nat)
    ensures ReadVerdict(d, addr, 0) == BadArgument
  {
  }

  /** If the request is accepted, its address bytes and data fit the local buffer. */
  predicate PayloadFits(d: Config, addr: nat, length: nat) {
    Storable(d, addr, length) ==> d.width + length <= TX_BUFFER
  }

  /** The page size is meant to bound the payload; it does for every request exactly under these conditions. */
  lemma PageBoundsPayload(d: Config)
    ensures (forall addr: nat, length: nat :: PayloadFits(d, addr, length)) <==>
            d.width !in {1, 2} || d.page + d.width <= TX_BUFFER || d.page > NEGATIVE_ARGUMENT
  {
    if d.width in {1, 2} && TX_BUFFER - d.width < d.page <= NEGATIVE_ARGUMENT {
      var length := TX_BUFFER - d.width + 1;
      assert Storable(d, 0, length);
      assert !PayloadFits(d, 0, length);
    }
  }

  /** Forty bytes for a chip with pages of 64: accepted, and eight bytes too long for the buffer. */
  lemma PayloadCanOverrun(target: Byte, pollLimit: nat)
    ensures var d := Config(target, 2, 64, pollLimit);
            ValidateWrite(d, 0, 40) == Done && Storable(d, 0, 40) && |MemoryAddress(d, 0)| + 40 == TX_BUFFER + 8
  {
    assert 0 % 64 == 0;
  }

  function WriteMessage(length: nat): Message {
    Message(Some(0), length, false, true, false, false)
  }

  function ReadMessages(width: nat, length: nat): seq<Message> {
    [Message(Some(0), width, false, false, false, false), Message(Some(1), length, true, true, true, false)]
  }

  /** eeprom_wait_ready with some attempts left. */
  function PollReady(w: Wires, e: Env, target: Byte, left: nat): (Wires, Result)
    decreases left
  {
    if left == 0 then (w, NotReady)
    else
      var (n, r) := Probe(w, e, target);
      if r == OK then (n, Done) else if r != ERR_NACK then (n, TransferFailed) else PollReady(n, e, target, left - 1)
  }

  function WaitReady(w: Wires, e: Env, d: Config): (Wires, Result) {
    if d.pollLimit == 0 then (w, BadArgument) else PollReady(w, e, d.target, d.pollLimit)
  }

  /** eeprom_write */
  function Write(w: Wires, e: Env, d: Config, addr: nat, data: seq<Byte>): (Wires, Result)
    requires addr < 65536
  {
    var checked := ValidateWrite(d, addr, |data|);
    if checked != Done then (w, checked)
    else
      var payload := MemoryAddress(d, addr) + data;
      var l := Transfer(w, e, [payload], [WriteMessage(|payload|)], d.target);
      if l.status != OK then (l.w, TransferFailed) else WaitReady(l.w, e, d)
  }

  /** eeprom_read into a buffer of the wanted length. */
  function Read(w: Wires, e: Env, d: Config, addr: nat, into: seq<Byte>): (Wires, Result, seq<Byte>)
    requires addr < 65536
  {
    if into == [] then (w, BadArgument, into)
    else if ValidateRange(d, addr, |into|) != Done then (w, ValidateRange(d, addr, |into|), into)
    else
      var address := MemoryAddress(d, addr);
      var l := Transfer(w, e, [address, into], ReadMessages(|address|, |into|), d.target);
      (l.w, if l.status == OK then Done else TransferFailed, if |l.bufs| == 2 then l.bufs[1] else into)
  }

  // The chip behind the wires

  /** A driver description that fits the chip, at an address of at most 0x7E. */
  ghost predicate Fits(d: Config, p: Peer) {
    && p.dev.Memory? && p.address == d.target <= 0x7E
    && d.width in {1, 2} && p.dev.chip.width == d.width
    && 0 < d.page && p.dev.chip.page == d.page
    && |p.dev.chip.cells| == Capacity(p.dev.chip)
  }

  /** The chip is called and has taken some address bytes. */
  ghost predicate Addressing(t: Talk, p: Peer, got: seq<Byte>) {
    && t.status == OK && t.peer.role.Taking? && t.peer.address == p.address && t.peer.dev.Memory? && p.dev.Memory?
    && t.peer.dev.chip == p.dev.chip.(address := got, staged := [], pointer := t.peer.dev.chip.pointer)
  }

  /** The memory address is complete and data is staged; cells and busy time are as they were. */
  ghost predicate Staging(t: Talk, p: Peer, pointer: nat, staged: seq<Byte>) {
    && t.status == OK && t.peer.role.Taking? && t.peer.address == p.address && t.peer.dev.Memory? && p.dev.Memory?
    && t.peer.dev.chip == p.dev.chip.(pointer := pointer, address := t.peer.dev.chip.address, staged := staged)
    && |t.peer.dev.chip.address| == p.dev.chip.width
  }

  lemma ChipIsCalled(t: Talk, p: Peer, target: Byte)
    requires t.status == OK && p.dev.Memory? && p.dev.chip.busy == 0 && target <= 0x7F
    requires t.peer.role.Addressed? && t.peer.address == p.address == target && t.peer.dev == Begun(p.dev)
    ensures Addressing(SendOctet(t, AddressByte(target, false)), p, [])
    ensures SendOctet(t, AddressByte(target, false)).bufs == t.bufs
  {
  }

  lemma ChipTakesAddress(t: Talk, p: Peer, got: seq<Byte>, byte: Byte)
    requires Addressing(t, p, got) && |got| < p.dev.chip.width
    ensures var u := SendOctet(t, byte);
            && u.bufs == t.bufs
            && (if |got| + 1 < p.dev.chip.width then Addressing(u, p, got + [byte])
                else Staging(u, p, BigEndian(got + [byte]) % Capacity(p.dev.chip), []))
  {
  }

  lemma ChipTakesData(t: Talk, p: Peer, pointer: nat, staged: seq<Byte>, byte: Byte)
    requires Staging(t, p, pointer, staged)
    ensures Staging(SendOctet(t, byte), p, pointer, staged + [byte]) && SendOctet(t, byte).bufs == t.bufs
  {
  }

  lemma AddressSpells(d: Config, addr: nat)
    requires addr < if d.width == 1 then 256 else 65536
    ensures BigEndian(MemoryAddress(d, addr)) == addr
  {
    var b := MemoryAddress(d, addr);
    if d.width == 1 {
      assert b == [addr] && b[..0] == [];
    } else {
      assert b[..1] == [addr / 256] && b[..1][..0] == [];
      assert BigEndian(b[..1]) == addr / 256;
    }
  }

  /** The address bytes at the head of the payload set the chip's pointer. */
  lemma AddressIsTaken(t: Talk, p: Peer, d: Config, m: Message, addr: nat)
    requires Fits(d, p) && Addressing(t, p, []) && !m.read && m.buf == Some(0) && |t.bufs| > 0
    requires ValidateRange(d, addr, 0) == Done && MemoryAddress(d, addr) <= t.bufs[0] && d.width <= m.len
    ensures var u := Reached(t, m, d.width);
            Staging(u, p, addr, []) && u.bufs == t.bufs && ExchangeAll(t, m, 0) == ExchangeAll(u, m, d.width)
  {
    hide Addressing, Staging, SendOctet, BigEndian;
    AddressSpells(d, addr);
    var a := MemoryAddress(d, addr);
    assert t.bufs[0][0] == a[0] && (d.width == 2 ==> t.bufs[0][1] == a[1]);
    ChipTakesAddress(t, p, [], a[0]);
    assert [] + [a[0]] == [a[0]];
    var t1 := SendOctet(t, a[0]);
    if d.width == 2 {
      assert Addressing(t1, p, [a[0]]);
      AddressingIsOk(t1, p, [a[0]]);
      ChipTakesAddress(t1, p, [a[0]], a[1]);
      assert [a[0]] + [a[1]] == a;
      StagingIsOk(SendOctet(t1, a[1]), p, addr, []);
    } else {
      assert [a[0]] == a;
      StagingIsOk(t1, p, addr, []);
    }
  }

  /** The conversation after the first one or two bytes of a message. */
  function Reached(t: Talk, m: Message, n: nat): Talk {
    var t1 := SendOctet(t, Fetch(t.bufs, m, 0));
    if n == 1 then t1 else SendOctet(t1, Fetch(t1.bufs, m, 1))
  }

  lemma AddressingIsOk(t: Talk, p: Peer, got: seq<Byte>)
    requires Addressing(t, p, got)
    ensures t.status == OK
  {
  }

  lemma StagingIsOk(t: Talk, p: Peer, pointer: nat, staged: seq<Byte>)
    requires Staging(t, p, pointer, staged)
    ensures t.status == OK
  {
  }

  lemma {:induction false} DataIsStaged(t: Talk, p: Peer, pointer: nat, m: Message, k: nat, width: nat)
    requires !m.read && m.buf == Some(0) && |t.bufs| > 0 && |t.bufs[0]| == m.len && width <= k <= m.len
    requires Staging(t, p, pointer, t.bufs[0][width..k])
    ensures Staging(ExchangeAll(t, m, k), p, pointer, t.bufs[0][width..]) && ExchangeAll(t, m, k).bufs == t.bufs
    decreases m.len - k
  {
    hide Staging, SendOctet;
    var payload := t.bufs[0];
    if k < m.len {
      ChipTakesData(t, p, pointer, payload[width..k], payload[k]);
      assert payload[width..k] + [payload[k]] == payload[width..k + 1];
      StagingIsOk(SendOctet(t, payload[k]), p, pointer, payload[width..k + 1]);
      DataIsStaged(SendOctet(t, payload[k]), p, pointer, m, k + 1, width);
    } else {
      assert payload[width..k] == payload[width..];
    }
  }

  // Programming

  /** The cells with the data laid over them, all others as they were. */
  function Splice(cells: seq<Byte>, addr: nat, data: seq<Byte>): (r: seq<Byte>)
    requires addr + |data| <= |cells|
    ensures |r| == |cells|
  {
    cells[..addr] + data + cells[addr + |data|..]
  }

  lemma SlotInPage(c: Chip, i: nat)
    requires c.page > 0 && c.pointer % c.page + i < c.page
    ensures Slot(c, i) == c.pointer + i
  {
    var offset := c.pointer % c.page;
    assert (offset + i) % c.page == offset + i;
  }

  /** Inside one page, programming is splicing: nothing wraps and no other cell is touched. */
  lemma {:induction false} ProgrammedIsSpliced(c: Chip, n: nat)
    requires n <= |c.staged| && c.page > 0 && c.pointer % c.page + |c.staged| <= c.page
    requires c.pointer + |c.staged| <= |c.cells|
    ensures Programmed(c, n) == Splice(c.cells, c.pointer, c.staged[..n])
    decreases n
  {
    if n == 0 {
      assert c.cells[..c.pointer] + [] + c.cells[c.pointer..] == c.cells;
    } else {
      ProgrammedIsSpliced(c, n - 1);
      SlotInPage(c, n - 1);
      assert c.staged[..n] == c.staged[..n - 1] + [c.staged[n - 1]];
      SpliceGrows(c.cells, c.pointer, c.staged[..n - 1], c.staged[n - 1]);
    }
  }

  lemma SpliceGrows(cells: seq<Byte>, addr: nat, data: seq<Byte>, byte: Byte)
    requires addr + |data| < |cells|
    ensures Splice(cells, addr, data)[addr + |data| := byte] == Splice(cells, addr, data + [byte])
  {
  }

  /** How long the next write cycle takes, and the cycles after it. */
  function FirstDelay(delays: seq<nat>): nat {
    if delays == [] then 0 else delays[0]
  }

  function OtherDelays(delays: seq<nat>): seq<nat> {
    if delays == [] then [] else delays[1..]
  }

  /** The STOP programs the staged bytes and starts the write cycle. */
  lemma StopPrograms(t: Talk, p: Peer, d: Config, addr: nat, data: seq<Byte>)
    requires Fits(d, p) && Staging(t, p, addr, data) && data != []
    requires addr % d.page + |data| <= d.page && addr + |data| <= |p.dev.chip.cells|
    ensures var q := End(t.peer);
            && q.role.Deaf? && Fits(d, q) && q.dev.chip.cells == Splice(p.dev.chip.cells, addr, data)
            && q.dev.chip.busy == FirstDelay(p.dev.chip.delays) && q.dev.chip.delays == OtherDelays(p.dev.chip.delays)
  {
    var c := t.peer.dev.chip;
    ProgrammedIsSpliced(c, |data|);
    assert c.staged[..|data|] == data;
    hide Programmed, Splice;
  }

  /** The conversation of eeprom_write: everything is acknowledged and the data ends up in the cells. */
  lemma WriteConversation(e: Env, p: Peer, d: Config, addr: nat, data: seq<Byte>)
    requires Fits(d, p) && p.role.Deaf? && p.dev.chip.busy == 0 && e.timeout > 0
    requires addr < 65536 && ValidateWrite(d, addr, |data|) == Done
    ensures var payload := MemoryAddress(d, addr) + data;
            var t := Outcome(p, e, [payload], [WriteMessage(|payload|)], d.target);
            && t.status == OK && t.peer.role.Deaf? && Fits(d, t.peer)
            && t.peer.dev.chip.cells == Splice(p.dev.chip.cells, addr, data)
            && t.peer.dev.chip.busy == FirstDelay(p.dev.chip.delays)
            && t.peer.dev.chip.delays == OtherDelays(p.dev.chip.delays)
  {
    hide Addressing, Staging, SendOctet, ExchangeAll, End, FirstDelay, OtherDelays, Splice, Reached;
    var payload := MemoryAddress(d, addr) + data;
    var m := WriteMessage(|payload|);
    assert MessageOk([m], 0);
    var t0 := Utter(Talk(p, [payload], [], OK), Begin(p), Start);
    ChipIsCalled(t0, p, d.target);
    var t1 := SendOctet(t0, AddressByte(d.target, false));
    AddressIsTaken(t1, p, d, m, addr);
    var t2 := Reached(t1, m, d.width);
    assert payload[d.width..d.width] == [];
    DataIsStaged(t2, p, addr, m, d.width, d.width);
    assert payload[d.width..] == data;
    var t3 := ExchangeAll(t1, m, 0);
    StagingIsOk(t3, p, addr, data);
    AddressingIsOk(t1, p, []);
    StopPrograms(t3, p, d, addr, data);
    OneMessage(Talk(p, [payload], [], OK), m, d.target);
  }

  lemma OneMessage(t: Talk, m: Message, addr: Byte)
    ensures ConverseAll(t, [m], addr) == Converse(t, m, addr)
  {
  }

  // Reading

  /** The chip is giving the byte at some address and will go on behind it. */
  ghost predicate Fetching(t: Talk, p: Peer, at: nat) {
    && t.status == OK && t.peer.address == p.address && t.peer.dev.Memory? && p.dev.Memory?
    && at < |p.dev.chip.cells| && t.peer.role == Giving(p.dev.chip.cells[at])
    && t.peer.dev.chip == p.dev.chip.(pointer := (at + 1) % Capacity(p.dev.chip), address := [], staged := [])
  }

  lemma ChipGives(t: Talk, p: Peer, pointer: nat, target: Byte)
    requires Staging(t, p, pointer, []) && p.address == target <= 0x7F && p.dev.chip.busy == 0
    requires pointer < |p.dev.chip.cells|
    ensures var u := SendOctet(Utter(t, Begin(t.peer), Start), AddressByte(target, true));
            Fetching(u, p, pointer) && u.bufs == t.bufs
  {
  }

  lemma ChipGoesOn(t: Talk, p: Peer, m: Message, k: nat, at: nat)
    requires Fetching(t, p, at) && |p.dev.chip.cells| == Capacity(p.dev.chip) && m.read && k < m.len
    ensures var u := ReceiveOctet(t, m, k);
            && u.bufs == Put(t.bufs, m, k, p.dev.chip.cells[at]) && u.status == OK
            && (k + 1 < m.len && at + 1 < Capacity(p.dev.chip) ==> Fetching(u, p, at + 1))
            && (k + 1 == m.len ==> u.peer == t.peer.(role := Deaf))
  {
  }

  /** The bytes read are the cells in order; the last one is refused and the chip lets go. */
  lemma {:induction false} DataIsFetched(t: Talk, p: Peer, m: Message, k: nat, addr: nat)
    requires Fetching(t, p, addr + k) && |p.dev.chip.cells| == Capacity(p.dev.chip)
    requires m.read && m.buf == Some(1) && k < m.len && addr + m.len <= |p.dev.chip.cells|
    requires |t.bufs| == 2 && |t.bufs[1]| == m.len && t.bufs[1][..k] == p.dev.chip.cells[addr..addr + k]
    ensures var u := ExchangeAll(t, m, k);
            && u.status == OK && |u.bufs| == 2 && u.bufs[1] == p.dev.chip.cells[addr..addr + m.len]
            && u.peer.role.Deaf? && u.peer.address == p.address && u.peer.dev.Memory?
            && u.peer.dev.chip == p.dev.chip.(pointer := u.peer.dev.chip.pointer, address := [], staged := [])
    decreases m.len - k
  {
    FetchedByte(t, p, m, k, addr);
    var u := ReceiveOctet(t, m, k);
    if k + 1 < m.len {
      hide Fetching, ReceiveOctet;
      DataIsFetched(u, p, m, k + 1, addr);
    } else {
      NothingLeft(u, m);
      hide ReceiveOctet;
      assert u.bufs[1] == u.bufs[1][..k + 1];
    }
  }

  /** One byte of them. */
  lemma FetchedByte(t: Talk, p: Peer, m: Message, k: nat, addr: nat)
    requires Fetching(t, p, addr + k) && |p.dev.chip.cells| == Capacity(p.dev.chip)
    requires m.read && m.buf == Some(1) && k < m.len && addr + m.len <= |p.dev.chip.cells|
    requires |t.bufs| == 2 && |t.bufs[1]| == m.len && t.bufs[1][..k] == p.dev.chip.cells[addr..addr + k]
    ensures var u := ReceiveOctet(t, m, k); var cells := p.dev.chip.cells;
            && Exchange(t, m, k) == u && u.status == OK
            && |u.bufs| == 2 && |u.bufs[1]| == m.len && u.bufs[1][..k + 1] == cells[addr..addr + k + 1]
            && (if k + 1 < m.len then Fetching(u, p, addr + k + 1) else u.peer == t.peer.(role := Deaf))
  {
    ChipGoesOn(t, p, m, k, addr + k);
    hide ReceiveOctet, Fetching;
    var cells := p.dev.chip.cells;
    var u := ReceiveOctet(t, m, k);
    assert u.bufs[1] == t.bufs[1][k := cells[addr + k]];
    assert u.bufs[1][..k + 1] == t.bufs[1][..k] + [cells[addr + k]] == cells[addr..addr + k + 1];
  }

  lemma StopKeepsCells(p: Peer, q: Peer)
    requires p.dev.Memory? && q.dev.Memory? && q.address == p.address && q.role.Deaf?
    requires q.dev.chip == p.dev.chip.(pointer := q.dev.chip.pointer, address := [], staged := [])
    ensures End(q) == q
  {
  }

  /** The conversation of eeprom_read: set the address, start again, and take the cells. */
  lemma ReadConversation(e: Env, p: Peer, d: Config, addr: nat, into: seq<Byte>)
    requires Fits(d, p) && p.role.Deaf? && p.dev.chip.busy == 0 && e.timeout > 0
    requires addr < 65536 && into != [] && ValidateRange(d, addr, |into|) == Done
    ensures var address := MemoryAddress(d, addr);
            var t := Outcome(p, e, [address, into], ReadMessages(|address|, |into|), d.target);
            && t.status == OK && t.peer.role.Deaf? && Fits(d, t.peer)
            && |t.bufs| == 2 && t.bufs[1] == p.dev.chip.cells[addr..addr + |into|]
            && t.peer.dev.chip.cells == p.dev.chip.cells && t.peer.dev.chip.busy == 0
            && t.peer.dev.chip.delays == p.dev.chip.delays
  {
    hide Addressing, Staging, Fetching, SendOctet, ExchangeAll, End, Reached;
    var address := MemoryAddress(d, addr);
    var msgs := ReadMessages(|address|, |into|);
    assert MessageOk(msgs, 0) && MessageOk(msgs, 1);
    var t := Talk(p, [address, into], [], OK);
    var t0 := Utter(t, Begin(p), Start);
    ChipIsCalled(t0, p, d.target);
    var t1 := SendOctet(t0, AddressByte(d.target, false));
    AddressIsTaken(t1, p, d, msgs[0], addr);
    var t2 := Reached(t1, msgs[0], d.width);
    assert ExchangeAll(t1, msgs[0], 0) == t2 by { NothingLeft(t2, msgs[0]); }
    AddressingIsOk(t1, p, []);
    StagingIsOk(t2, p, addr, []);
    assert Converse(t, msgs[0], d.target) == t2;
    ChipGives(t2, p, addr, d.target);
    var t3 := SendOctet(Utter(t2, Begin(t2.peer), Start), AddressByte(d.target, true));
    assert t3.bufs[1][..0] == p.dev.chip.cells[addr..addr + 0];
    FetchingIsOk(t3, p, addr);
    DataIsFetched(t3, p, msgs[1], 0, addr);
    var t4 := ExchangeAll(t3, msgs[1], 0);
    StopKeepsCells(p, t4.peer);
    assert msgs[1..] == [msgs[1]];
    OneMessage(t2, msgs[1], d.target);
  }

  lemma FetchingIsOk(t: Talk, p: Peer, at: nat)
    requires Fetching(t, p, at)
    ensures t.status == OK
  {
  }

  lemma NothingLeft(t: Talk, m: Message)
    ensures ExchangeAll(t, m, m.len) == t
  {
  }

  // Polling

  lemma ProbeChip(p: Peer, d: Config)
    requires Fits(d, p) && p.role.Deaf?
    ensures var t := ProbeTalk(p, d.target);
            && t.peer.role.Deaf? && Fits(d, t.peer) && t.peer.dev.chip.cells == p.dev.chip.cells
            && t.peer.dev.chip.delays == p.dev.chip.delays
            && (if p.dev.chip.busy > 0 then t.status == ERR_NACK && t.peer.dev.chip.busy == p.dev.chip.busy - 1
                else t.status == OK && t.peer.dev.chip.busy == 0)
  {
  }

  /** The target on the wires, taken as a sleeping peer. */
  function PeerOn(w: Wires): Peer {
    Peer(Deaf, w.target.address, w.target.dev)
  }

  /** Idle wires with a fitting chip asleep behind them. */
  ghost predicate Wired(w: Wires, d: Config) {
    Free(w) && w.target == EngineOf(PeerOn(w)) && Fits(d, PeerOn(w))
  }

  /** The chip as a caller of the driver sees it: an array of bytes, how many times it will still refuse to answer, and
      the lengths of its write cycles to come. */
  datatype Store = Store(cells: seq<Byte>, busy: nat, delays: seq<nat>)

  function StoreOf(c: Chip): Store {
    Store(c.cells, c.busy, c.delays)
  }

  function StoreOn(w: Wires): Store
    requires w.target.dev.Memory?
  {
    StoreOf(w.target.dev.chip)
  }

  lemma FitsMemory(w: Wires, d: Config)
    requires Wired(w, d)
    ensures w.target.dev.Memory? && d.target <= 0x7E && d.width in {1, 2}
    ensures |StoreOn(w).cells| == if d.width == 1 then 256 else 65536
    ensures PeerOn(w).dev.Memory? && StoreOf(PeerOn(w).dev.chip) == StoreOn(w)
  {
  }

  lemma WiredAgain(w: Wires, d: Config, q: Peer)
    requires Free(w) && w.target == EngineOf(q) && q.role.Deaf? && Fits(d, q)
    ensures Wired(w, d) && PeerOn(w) == q && StoreOn(w) == StoreOf(q.dev.chip)
  {
  }

  /** Every attempt on a busy chip shortens its write cycle by one; the polls succeed if it is over before they are. */
  lemma {:induction false} PollsUntilReady(w: Wires, e: Env, d: Config, left: nat)
    requires Wired(w, d) && Patient(e)
    ensures var (n, r) := PollReady(w, e, d.target, left); var busy := StoreOn(w).busy;
            && r == (if busy < left then Done else NotReady)
            && Wired(n, d) && StoreOn(n) == StoreOn(w).(busy := if busy < left then 0 else busy - left)
    decreases left
  {
    hide Free, Patient, Fits, EngineOf, Decode, Probe, ProbeTalk;
    if left > 0 {
      FitsMemory(w, d);
      ProbeIsConversation(w, e, PeerOn(w), d.target);
      ProbeChip(PeerOn(w), d);
      var n := Probe(w, e, d.target).0;
      WiredAgain(n, d, ProbeTalk(PeerOn(w), d.target).peer);
      if StoreOn(w).busy > 0 {
        PollsUntilReady(n, e, d, left - 1);
      }
    }
  }

  // The driver on the wires

  /** A chip in its write cycle refuses its address: nothing is transferred and nothing changes but the time left. */
  lemma BusyConversation(e: Env, p: Peer, d: Config, bufs: Buffers, msgs: seq<Message>)
    requires Fits(d, p) && p.role.Deaf? && p.dev.chip.busy > 0 && Validate(e, msgs, d.target) == OK
    ensures var t := Outcome(p, e, bufs, msgs, d.target);
            && t.status == ERR_NACK && t.bufs == bufs && t.peer.role.Deaf? && Fits(d, t.peer)
            && StoreOf(t.peer.dev.chip) == StoreOf(p.dev.chip).(busy := p.dev.chip.busy - 1)
  {
    hide ExchangeAll;
    var m := msgs[0];
    var byte := AddressByte(d.target, m.read);
    assert byte / 2 == d.target;
    var called := SendOctet(Utter(Talk(p, bufs, [], OK), Begin(p), Start), byte);
    assert called.status == ERR_NACK && called.peer.role.Deaf?;
    assert Converse(Talk(p, bufs, [], OK), m, d.target) == Close(called, m);
  }

  /** What eeprom_write does to an idle bus: an invalid request changes nothing, a chip in its write cycle refuses and
      keeps its cells; otherwise the data goes into the cells, all of it and nothing else, and the call succeeds if the
      chip is ready again in time. */
  lemma WriteStores(w: Wires, e: Env, d: Config, addr: nat, data: seq<Byte>)
    requires Wired(w, d) && Patient(e) && addr < 65536 && PayloadFits(d, addr, |data|)
    ensures var (n, r) := Write(w, e, d, addr, data); var checked := WriteVerdict(d, addr, |data|);
            var was, delay := StoreOn(w), FirstDelay(StoreOn(w).delays);
            if checked != Done then n == w && r == checked
            else if was.busy > 0 then
              r == TransferFailed && Wired(n, d) && StoreOn(n) == was.(busy := was.busy - 1)
            else
              && addr + |data| <= |was.cells| && Wired(n, d)
              && r == (if d.pollLimit == 0 then BadArgument else if delay < d.pollLimit then Done else NotReady)
              && StoreOn(n) == Store(Splice(was.cells, addr, data), if r == Done then 0 else delay - d.pollLimit,
                                     OtherDelays(was.delays))
  {
    hide Free, Patient, Fits, EngineOf, Decode, Transfer, Outcome, PollReady, Splice, FirstDelay, OtherDelays;
    VerdictsAreExact(d, addr, |data|);
    if ValidateWrite(d, addr, |data|) == Done {
      FitsMemory(w, d);
      PatientTimeout(e);
      var payload := MemoryAddress(d, addr) + data;
      var msgs := [WriteMessage(|payload|)];
      assert MessageOk(msgs, 0);
      TransferIsConversation(w, e, PeerOn(w), [payload], msgs, d.target);
      var l := Transfer(w, e, [payload], msgs, d.target);
      if StoreOn(w).busy > 0 {
        BusyConversation(e, PeerOn(w), d, [payload], msgs);
        WiredAgain(l.w, d, Outcome(PeerOn(w), e, [payload], msgs, d.target).peer);
      } else {
        WriteConversation(e, PeerOn(w), d, addr, data);
        WiredAgain(l.w, d, Outcome(PeerOn(w), e, [payload], msgs, d.target).peer);
        PollsUntilReady(l.w, e, d, d.pollLimit);
      }
    }
  }

  /** eeprom_read returns the cells of the range, or the buffer as it was if the request is invalid or the chip in its
      write cycle; it changes no cell. */
  lemma ReadFetches(w: Wires, e: Env, d: Config, addr: nat, into: seq<Byte>)
    requires Wired(w, d) && Patient(e) && addr < 65536
    ensures var (n, r, out) := Read(w, e, d, addr, into); var checked := ReadVerdict(d, addr, |into|);
            var was := StoreOn(w);
            if checked != Done then n == w && out == into && r == checked
            else if was.busy > 0 then
              r == TransferFailed && out == into && Wired(n, d) && StoreOn(n) == was.(busy := was.busy - 1)
            else
              && addr + |into| <= |was.cells|
              && r == Done && out == was.cells[addr..addr + |into|] && Wired(n, d) && StoreOn(n) == was
  {
    hide Free, Patient, Fits, EngineOf, Decode, Transfer, Outcome;
    VerdictsAreExact(d, addr, |into|);
    if into != [] && ValidateRange(d, addr, |into|) == Done {
      FitsMemory(w, d);
      PatientTimeout(e);
      var address := MemoryAddress(d, addr);
      var msgs := ReadMessages(|address|, |into|);
      assert MessageOk(msgs, 0) && MessageOk(msgs, 1);
      TransferIsConversation(w, e, PeerOn(w), [address, into], msgs, d.target);
      if StoreOn(w).busy > 0 {
        BusyConversation(e, PeerOn(w), d, [address, into], msgs);
      } else {
        ReadConversation(e, PeerOn(w), d, addr, into);
      }
      var l := Transfer(w, e, [address, into], msgs, d.target);
      WiredAgain(l.w, d, Outcome(PeerOn(w), e, [address, into], msgs, d.target).peer);
    }
  }

  /** Through the bit level and back: a valid write to a chip that gets ready within the polls succeeds, and then a read
      of the same range returns the data, and of any range that does not meet it what was there before. */
  lemma WriteThenRead(w: Wires, e: Env, d: Config, addr: nat, data: seq<Byte>, from: nat, into: seq<Byte>)
    requires Wired(w, d) && Patient(e) && StoreOn(w).busy == 0 && addr < 65536 && from < 65536
    requires Storable(d, addr, |data|) && FirstDelay(StoreOn(w).delays) < d.pollLimit
    requires PayloadFits(d, addr, |data|)
    requires into != [] && InMemory(d.width, from, |into|)
    ensures Write(w, e, d, addr, data).1 == Done && from + |into| <= |StoreOn(w).cells|
    ensures var (m, s, out) := Read(Write(w, e, d, addr, data).0, e, d, from, into);
            && s == Done && |out| == |into|
            && (from == addr && |into| == |data| ==> out == data)
            && (from + |into| <= addr || addr + |data| <= from ==> out == StoreOn(w).cells[from..from + |into|])
  {
    hide Free, Patient, Fits, EngineOf, Write, Read;
    FitsMemory(w, d);
    WriteStores(w, e, d, addr, data);
    var n := Write(w, e, d, addr, data).0;
    ReadFetches(n, e, d, from, into);
    SpliceReads(StoreOn(w).cells, addr, data, from, |into|);
  }

  lemma SpliceReads(cells: seq<Byte>, addr: nat, data: seq<Byte>, from: nat, n: nat)
    requires addr + |data| <= |cells| && from + n <= |cells|
    ensures from == addr && n == |data| ==> Splice(cells, addr, data)[from..from + n] == data
    ensures from + n <= addr || addr + |data| <= from ==>
              Splice(cells, addr, data)[from..from + n] == cells[from..from + n]
  {
  }

  // Many calls

  type Address = a: nat | a < 65536

  datatype Op = WriteAt(addr: Address, data: seq<Byte>) | ReadAt(addr: Address, into: seq<Byte>)

  predicate Accessible(d: Config, op: Op) {
    op.WriteAt? ==> PayloadFits(d, op.addr, |op.data|)
  }

  datatype Answer = Answer(result: Result, out: seq<Byte>)

  function Perform(w: Wires, e: Env, d: Config, op: Op): (Wires, Answer) {
    match op
    case WriteAt(addr, data) => (Write(w, e, d, addr, data).0, Answer(Write(w, e, d, addr, data).1, []))
    case ReadAt(addr, into) =>
      var (n, r, out) := Read(w, e, d, addr, into);
      (n, Answer(r, out))
  }

  function PerformAll(w: Wires, e: Env, d: Config, ops: seq<Op>): (Wires, seq<Answer>)
    decreases |ops|
  {
    if ops == [] then (w, [])
    else
      var (n, answers) := PerformAll(w, e, d, ops[..|ops| - 1]);
      var (m, answer) := Perform(n, e, d, ops[|ops| - 1]);
      (m, answers + [answer])
  }

  /** The same calls on an array of bytes, without bus, messages or pages in flight. */
  function Access(s: Store, d: Config, op: Op): (Store, Answer)
    requires |s.cells| == if d.width == 1 then 256 else 65536
  {
    match op
    case WriteAt(addr, data) =>
      var checked, delay := WriteVerdict(d, addr, |data|), FirstDelay(s.delays);
      if checked != Done then (s, Answer(checked, []))
      else if s.busy > 0 then (s.(busy := s.busy - 1), Answer(TransferFailed, []))
      else
        var result := if d.pollLimit == 0 then BadArgument else if delay < d.pollLimit then Done else NotReady;
        (Store(Splice(s.cells, addr, data), if result == Done then 0 else delay - d.pollLimit, OtherDelays(s.delays)),
         Answer(result, []))
    case ReadAt(addr, into) =>
      var checked := ReadVerdict(d, addr, |into|);
      if checked != Done then (s, Answer(checked, into))
      else if s.busy > 0 then (s.(busy := s.busy - 1), Answer(TransferFailed, into))
      else (s, Answer(Done, s.cells[addr..addr + |into|]))
  }

  function AccessAll(s: Store, d: Config, ops: seq<Op>): (r: (Store, seq<Answer>))
    requires |s.cells| == if d.width == 1 then 256 else 65536
    ensures |r.0.cells| == |s.cells|
    decreases |ops|
  {
    if ops == [] then (s, [])
    else
      var (n, answers) := AccessAll(s, d, ops[..|ops| - 1]);
      var (m, answer) := Access(n, d, ops[|ops| - 1]);
      (m, answers + [answer])
  }

  lemma PerformIsAccess(w: Wires, e: Env, d: Config, op: Op)
    requires Wired(w, d) && Patient(e) && Accessible(d, op)
    ensures |StoreOn(w).cells| == if d.width == 1 then 256 else 65536
    ensures var (n, answer) := Perform(w, e, d, op);
            Wired(n, d) && (StoreOn(n), answer) == Access(StoreOn(w), d, op)
  {
    hide Free, Patient, Fits, EngineOf, Decode, Write, Read, Splice, FirstDelay, OtherDelays, WriteVerdict;
    hide ReadVerdict;
    FitsMemory(w, d);
    match op
    case WriteAt(addr, data) => WriteStores(w, e, d, addr, data);
    case ReadAt(addr, into) => ReadFetches(w, e, d, addr, into);
  }

  /** Any sequence of eeprom_write and eeprom_read calls, down to the levels of the two wires, is that sequence on an
      array of bytes: every result and every byte read agree, also of calls that are invalid, that find the chip in its
      write cycle or whose polls run out. */
  lemma {:induction false} DriverRefinesArray(w: Wires, e: Env, d: Config, ops: seq<Op>)
    requires Wired(w, d) && Patient(e) && forall op :: op in ops ==> Accessible(d, op)
    ensures |StoreOn(w).cells| == if d.width == 1 then 256 else 65536
    ensures var (n, answers) := PerformAll(w, e, d, ops);
            Wired(n, d) && (StoreOn(n), answers) == AccessAll(StoreOn(w), d, ops)
    decreases |ops|
  {
    hide Wired, Patient, Perform, Access, Accessible;
    FitsMemory(w, d);
    if ops != [] {
      DriverRefinesArray(w, e, d, ops[..|ops| - 1]);
      PerformIsAccess(PerformAll(w, e, d, ops[..|ops| - 1]).0, e, d, ops[|ops| - 1]);
    }
  }
}
