/** Bytes as bits, most significant first. */
module I2cBits {
  import opened Words

  function Value(bits: seq<bool>): nat
    decreases |bits|
  {
    if bits == [] then 0 else 2 * Value(bits[..|bits| - 1]) + if bits[|bits| - 1] then 1 else 0
  }

  function LowBits(v: nat, n: nat): (b: seq<bool>)
    ensures |b| == n
    decreases n
  {
    if n == 0 then [] else LowBits(v / 2, n - 1) + [v % 2 == 1]
  }

  function BitsOf(v: Byte): (b: seq<bool>)
    ensures |b| == 8
  {
    LowBits(v, 8)
  }

  /** The byte that eight bits spell. */
  function ByteOf(bits: seq<bool>): Byte
    requires |bits| == 8
  {
    ValueBound(bits);
    Value(bits)
  }

  lemma {:induction false} ValueBound(bits: seq<bool>)
    ensures Value(bits) < Pow2(|bits|)
    ensures |bits| == 8 ==> Value(bits) < 256
    decreases |bits|
  {
    Pow2Values();
    if bits != [] {
      ValueBound(bits[..|bits| - 1]);
    }
  }

  lemma {:induction false} ValueOfLowBits(v: nat, n: nat)
    requires v < Pow2(n)
    ensures Value(LowBits(v, n)) == v
    decreases n
  {
    if n > 0 {
      var b := LowBits(v, n);
      assert b[..n - 1] == LowBits(v / 2, n - 1);
      ValueOfLowBits(v / 2, n - 1);
    }
  }

  lemma {:induction false} LowBitsOfValue(bits: seq<bool>)
    ensures LowBits(Value(bits), |bits|) == bits
    decreases |bits|
  {
    if bits != [] {
      LowBitsOfValue(bits[..|bits| - 1]);
      assert bits == bits[..|bits| - 1] + [bits[|bits| - 1]];
    }
  }

  /** Sending a byte as bits and gathering the bits gives the byte back, and the other way round. */
  lemma ByteRoundTrip(v: Byte, bits: seq<bool>)
    requires |bits| == 8
    ensures ByteOf(BitsOf(v)) == v && BitsOf(ByteOf(bits)) == bits
  {
    Pow2Values();
    ValueOfLowBits(v, 8);
    LowBitsOfValue(bits);
  }
}

/** Two open-drain wires with a target on them, and what a listener makes of the waveform
    (sections 3.1.3 to 3.1.6 of UM10204). */
module I2cWires {
  import opened Words
  import opened I2cBits

  datatype Level = Level(sda: bool, scl: bool)

  datatype Option<T> = None | Some(value: T)

  /** A bit counts when SCL falls again without a START or STOP in between. */
  datatype Item = START | STOP | Bit(b: bool)

  datatype Ear = Ear(level: Level, pending: Option<bool>, heard: seq<Item>)

  const SILENCE := Ear(Level(true, true), None, [])

  function Listen(e: Ear, l: Level): Ear {
    if e.level.scl && l.scl then
      if e.level.sda == l.sda then e
      else Ear(l, None, e.heard + [if l.sda then STOP else START])
    else if l.scl then Ear(l, Some(l.sda), e.heard)
    else if e.level.scl then Ear(l, None, e.heard + (if e.pending.Some? then [Bit(e.pending.value)] else []))
    else Ear(l, None, e.heard)
  }

  /** What the whole waveform says; it knows nothing of who drove the wires. */
  function Decode(wave: seq<Level>): Ear
    decreases |wave|
  {
    if wave == [] then SILENCE else Listen(Decode(wave[..|wave| - 1]), wave[|wave| - 1])
  }

  // The target: an engine on the wires in front of a device that deals in bytes

  /** An EEPROM: cells, the byte address being assembled, the page being staged, and how long it will stay busy. */
  datatype Chip = Chip(
    cells: seq<Byte>, width: nat, page: nat, pointer: nat, address: seq<Byte>, staged: seq<Byte>, busy: nat,
    delays: seq<nat>)

  /** Any byte-level behaviour is a script of answers and bytes; the EEPROM is the one of interest. */
  datatype Device = Script(answers: seq<bool>, bytes: seq<Byte>) | Memory(chip: Chip)

  datatype Mode =
    | Asleep
    | Listening(first: bool, bits: seq<bool>)
    | Answering(ack: bool, sending: bool)
    | Talking(left: seq<bool>)
    | Confirming(acked: bool)

  datatype Engine = Engine(mode: Mode, sda: bool, address: nat, dev: Device)

  function Capacity(c: Chip): nat {
    if c.width == 1 then 256 else 65536
  }

  function BigEndian(bytes: seq<Byte>): nat
    decreases |bytes|
  {
    if bytes == [] then 0 else 256 * BigEndian(bytes[..|bytes| - 1]) + bytes[|bytes| - 1]
  }

  /** The device is called by its address; a busy EEPROM does not answer. */
  function Called(d: Device, reading: bool): (Device, bool) {
    match d
    case Script(answers, _) => if answers == [] then (d, false) else (d.(answers := answers[1..]), answers[0])
    case Memory(c) =>
      if c.busy > 0 then (Memory(c.(busy := c.busy - 1)), false)
      else (Memory(c.(address := [])), true)
  }

  /** A START gives up a write that no STOP has sealed. */
  function Begun(d: Device): Device {
    match d
    case Script(_, _) => d
    case Memory(c) => Memory(c.(staged := []))
  }

  /** A byte is written to it: first the address, then data for the page. */
  function Take(d: Device, byte: Byte): (Device, bool) {
    match d
    case Script(answers, _) => if answers == [] then (d, false) else (d.(answers := answers[1..]), answers[0])
    case Memory(c) =>
      if |c.address| < c.width then
        var address := c.address + [byte];
        (Memory(c.(address := address,
                   pointer := if |address| == c.width then BigEndian(address) % Capacity(c) else c.pointer)), true)
      else (Memory(c.(staged := c.staged + [byte])), true)
  }

  function Give(d: Device): (Device, Byte) {
    match d
    case Script(_, bytes) => if bytes == [] then (d, 255) else (d.(bytes := bytes[1..]), bytes[0])
    case Memory(c) =>
      (Memory(c.(pointer := (c.pointer + 1) % Capacity(c))), if c.pointer < |c.cells| then c.cells[c.pointer] else 255)
  }

  /** Where the i-th staged byte goes: the address wraps inside the page. */
  function Slot(c: Chip, i: nat): nat {
    if c.page == 0 then c.pointer else c.pointer - c.pointer % c.page + (c.pointer % c.page + i) % c.page
  }

  /** The cells once the first n staged bytes are programmed. */
  function Programmed(c: Chip, n: nat): (cells: seq<Byte>)
    requires n <= |c.staged|
    ensures |cells| == |c.cells|
    decreases n
  {
    if n == 0 then c.cells
    else
      var cells := Programmed(c, n - 1);
      var at := Slot(c, n - 1);
      if at < |cells| then cells[at := c.staged[n - 1]] else cells
  }

  /** A STOP after data starts the write cycle. */
  function Stopped(d: Device): Device {
    match d
    case Script(_, _) => d
    case Memory(c) =>
      if c.staged == [] then d
      else
        Memory(c.(cells := Programmed(c, |c.staged|), staged := [],
                  busy := if c.delays == [] then 0 else c.delays[0],
                  delays := if c.delays == [] then [] else c.delays[1..]))
  }

  function Sleep(g: Engine): Engine {
    g.(mode := Asleep, sda := true)
  }

  function Load(g: Engine): Engine {
    var (dev, byte) := Give(g.dev);
    g.(mode := Talking(BitsOf(byte)), sda := BitsOf(byte)[0], dev := dev)
  }

  function OnStart(g: Engine): Engine {
    g.(mode := Listening(true, []), sda := true, dev := Begun(g.dev))
  }

  function OnStop(g: Engine): Engine {
    Sleep(g.(dev := Stopped(g.dev)))
  }

  function OnRise(g: Engine, sda: bool): Engine {
    match g.mode
    case Listening(first, bits) => if |bits| < 8 then g.(mode := Listening(first, bits + [sda])) else g
    case Confirming(_) => g.(mode := Confirming(!sda))
    case _ => g
  }

  function OnByte(g: Engine, first: bool, byte: Byte): Engine {
    if first && byte / 2 != g.address then Sleep(g)
    else
      var (dev, ack) := if first then Called(g.dev, byte % 2 == 1) else Take(g.dev, byte);
      g.(mode := Answering(ack, first && byte % 2 == 1), sda := !ack, dev := dev)
  }

  /** The only moments at which the target changes SDA: SCL has just fallen. */
  function OnFall(g: Engine): Engine {
    match g.mode
    case Asleep => Sleep(g)
    case Listening(first, bits) => if |bits| == 8 then OnByte(g, first, ByteOf(bits)) else g.(sda := true)
    case Answering(ack, sending) =>
      if !ack then Sleep(g) else if sending then Load(g) else g.(mode := Listening(false, []), sda := true)
    case Talking(left) =>
      if |left| > 1 then g.(mode := Talking(left[1..]), sda := left[1]) else g.(mode := Confirming(false), sda := true)
    case Confirming(acked) => if acked then Load(g) else Sleep(g)
  }

  // The wires as the controller drives them

  /** The controller's two drivers, the level of SCL, the target, how often SCL was let go, and the recorded wave. */
  datatype Wires = Wires(mSda: bool, mScl: bool, scl: bool, target: Engine, releases: nat, wave: seq<Level>)

  /** How many polls the target holds SCL after the n-th release, and after how many the controller gives up. */
  datatype Env = Env(stretch: nat -> nat, timeout: nat)

  datatype Status = OK | ERR_ARGUMENT | ERR_ADDRESS | ERR_NACK | ERR_TIMEOUT | ERR_BUS_BUSY

  function Sda(w: Wires): bool {
    w.mSda && w.target.sda
  }

  function Sample(w: Wires): Wires {
    w.(wave := w.wave + [Level(Sda(w), w.scl)])
  }

  /** sda_release and sda_drive_low; an SDA edge while SCL is high is a START or a STOP to the target. */
  function SetSda(w: Wires, high: bool): Wires {
    var n := Sample(w.(mSda := high));
    if !w.scl || Sda(n) == Sda(w) then n
    else n.(target := if Sda(n) then OnStop(n.target) else OnStart(n.target))
  }

  /** scl_drive_low */
  function PullScl(w: Wires): Wires {
    if !w.scl then w.(mScl := false)
    else
      var n := Sample(w.(mScl := false, scl := false));
      Sample(n.(target := OnFall(n.target)))
  }

  /** wait_scl_high: let SCL go and poll it. */
  function WaitScl(w: Wires, e: Env): (Wires, Status) {
    var n := w.(mScl := true);
    if w.scl then (n, OK)
    else if e.stretch(w.releases) >= e.timeout then (n.(releases := w.releases + 1), ERR_TIMEOUT)
    else
      var high := Sample(n.(scl := true, releases := w.releases + 1));
      (high.(target := OnRise(high.target, Sda(high))), OK)
  }

  // The controller's bit-level operations

  function GenerateStart(w: Wires, e: Env): (Wires, Status) {
    var (n, r) := WaitScl(SetSda(w, true), e);
    if r != OK then (n, r)
    else if !Sda(n) then (n, ERR_BUS_BUSY)
    else (PullScl(SetSda(n, false)), OK)
  }

  function GenerateStop(w: Wires, e: Env): (Wires, Status) {
    var (n, r) := WaitScl(SetSda(PullScl(w), false), e);
    var n := SetSda(n, true);
    if r != OK then (n, r) else (n, if n.scl && Sda(n) then OK else ERR_BUS_BUSY)
  }

  function WriteBit(w: Wires, e: Env, b: bool): (Wires, Status) {
    var (n, r) := WaitScl(SetSda(w, b), e);
    if r != OK then (n, r) else (PullScl(n), OK)
  }

  function ReadBit(w: Wires, e: Env): (Wires, Status, bool) {
    var (n, r) := WaitScl(SetSda(w, true), e);
    if r != OK then (n, r, false) else (PullScl(n), OK, Sda(n))
  }

  function WriteBits(w: Wires, e: Env, bits: seq<bool>): (Wires, Status)
    decreases |bits|
  {
    if bits == [] then (w, OK)
    else
      var (n, r) := WriteBit(w, e, bits[0]);
      if r != OK then (n, r) else WriteBits(n, e, bits[1..])
  }

  function ReadBits(w: Wires, e: Env, count: nat): (r: (Wires, Status, seq<bool>))
    ensures r.1 == OK ==> |r.2| == count
    decreases count
  {
    if count == 0 then (w, OK, [])
    else
      var (n, r, b) := ReadBit(w, e);
      if r != OK then (n, r, [])
      else
        var (m, s, rest) := ReadBits(n, e, count - 1);
        (m, s, if s == OK then [b] + rest else [])
  }

  function WriteByte(w: Wires, e: Env, value: Byte): (Wires, Status) {
    var (n, r) := WriteBits(w, e, BitsOf(value));
    if r != OK then (n, r)
    else
      var (m, s, nack) := ReadBit(n, e);
      (m, if s != OK then s else if nack then ERR_NACK else OK)
  }

  /** The byte is handed over only when the acknowledge bit has gone out. */
  function ReadByte(w: Wires, e: Env, ack: bool): (Wires, Status, Byte) {
    var (n, r, bits) := ReadBits(w, e, 8);
    if r != OK then (n, r, 0)
    else
      var (m, s) := WriteBit(n, e, !ack);
      (m, s, if s == OK then ByteOf(bits) else 0)
  }
}
