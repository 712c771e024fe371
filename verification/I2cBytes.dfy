/** One byte on the wires is one exchange between two parties that know nothing of bits. */
module I2cBytes {
  import opened Words
  import opened I2cBits
  import opened I2cWires

  // The byte-level view of the target

  datatype Role = Deaf | Addressed | Taking | Giving(byte: Byte)

  datatype Peer = Peer(role: Role, address: nat, dev: Device)

  function Begin(p: Peer): Peer {
    p.(role := Addressed, dev := Begun(p.dev))
  }

  function End(p: Peer): Peer {
    p.(role := Deaf, dev := Stopped(p.dev))
  }

  function Next(p: Peer): Peer {
    var (dev, byte) := Give(p.dev);
    p.(role := Giving(byte), dev := dev)
  }

  /** The peer hears a byte and says whether it refuses it. */
  function Hear(p: Peer, byte: Byte): (Peer, bool) {
    match p.role
    case Addressed =>
      if byte / 2 != p.address then (p.(role := Deaf), true)
      else
        var (dev, ack) := Called(p.dev, byte % 2 == 1);
        var q := p.(dev := dev);
        if !ack then (q.(role := Deaf), true)
        else if byte % 2 == 1 then (Next(q), false)
        else (q.(role := Taking), false)
    case Taking =>
      var (dev, ack) := Take(p.dev, byte);
      (p.(role := if ack then Taking else Deaf, dev := dev), !ack)
    case _ => (p, true)
  }

  /** The peer has said its byte; it goes on if the controller acknowledges. */
  function Say(p: Peer, ack: bool): Peer {
    if ack then Next(p) else p.(role := Deaf)
  }

  /** The engine state that stands for a peer between two bytes. */
  function EngineOf(p: Peer): Engine {
    match p.role
    case Deaf => Engine(Asleep, true, p.address, p.dev)
    case Addressed => Engine(Listening(true, []), true, p.address, p.dev)
    case Taking => Engine(Listening(false, []), true, p.address, p.dev)
    case Giving(byte) => Engine(Talking(BitsOf(byte)), BitsOf(byte)[0], p.address, p.dev)
  }

  // The wires between two clocks

  ghost predicate Patient(e: Env) {
    forall n: nat :: e.stretch(n) < e.timeout
  }

  function EarOf(w: Wires): Ear {
    Decode(w.wave)
  }

  /** The record ends with the present levels. */
  ghost predicate Tuned(w: Wires) {
    EarOf(w).level == Level(Sda(w), w.scl)
  }

  /** SCL is held low between two bits. */
  ghost predicate Low(w: Wires) {
    !w.scl && !w.mScl && Tuned(w) && EarOf(w).pending == None
  }

  /** Both wires are released and high. */
  ghost predicate Free(w: Wires) {
    w.scl && w.mScl && w.mSda && w.target.sda && Tuned(w)
  }

  function Spelled(bits: seq<bool>): (s: seq<Item>)
    ensures |s| == |bits|
  {
    seq(|bits|, i requires 0 <= i < |bits| => Bit(bits[i]))
  }

  lemma SampleNext(wave: seq<Level>, l: Level)
    ensures Decode(wave + [l]) == Listen(Decode(wave), l)
  {
  }

  lemma SetSdaLow(w: Wires, high: bool)
    requires Low(w)
    ensures var n := SetSda(w, high);
            && Low(n) && n.mSda == high && n.target == w.target && EarOf(n).heard == EarOf(w).heard
            && n.releases == w.releases
  {
  }

  lemma Release(w: Wires, e: Env)
    requires Low(w) && Patient(e)
    ensures var (n, r) := WaitScl(w, e);
            && r == OK && n.mSda == w.mSda && n.mScl && n.scl && n.target == OnRise(w.target, Sda(w))
            && EarOf(n) == Ear(Level(Sda(w), true), Some(Sda(w)), EarOf(w).heard)
  {
  }

  /** SCL falls: a pending bit is heard, the target may move SDA. */
  lemma Pull(w: Wires)
    requires w.scl && EarOf(w).level.scl
    ensures var n := PullScl(w);
            && Low(n) && n.mSda == w.mSda && n.target == OnFall(w.target)
            && EarOf(n).heard == EarOf(w).heard + (if EarOf(w).pending.Some? then [Bit(EarOf(w).pending.value)] else [])
  {
    var down := Sample(w.(mScl := false, scl := false));
    SampleNext(w.wave, Level(Sda(w), false));
    var turned := down.(target := OnFall(down.target));
    SampleNext(down.wave, Level(Sda(turned), false));
  }

  function Pulse(g: Engine, bit: bool): Engine {
    OnFall(OnRise(g, bit))
  }

  /** One clock pulse carries one bit: low if either side pulls. */
  lemma WriteCycle(w: Wires, e: Env, b: bool)
    requires Low(w) && Patient(e)
    ensures var (n, r) := WriteBit(w, e, b); var bit := b && w.target.sda;
            r == OK && Low(n) && n.target == Pulse(w.target, bit) && EarOf(n).heard == EarOf(w).heard + [Bit(bit)]
  {
    hide OnRise, OnFall, SetSda, PullScl, WaitScl, Decode;
    var s := SetSda(w, b);
    SetSdaLow(w, b);
    Release(s, e);
    Pull(WaitScl(s, e).0);
  }

  lemma ReadCycle(w: Wires, e: Env)
    requires Low(w) && Patient(e)
    ensures var (n, r, bit) := ReadBit(w, e);
            && r == OK && bit == w.target.sda && Low(n) && n.target == Pulse(w.target, bit)
            && EarOf(n).heard == EarOf(w).heard + [Bit(bit)]
  {
    hide OnRise, OnFall, SetSda, PullScl, WaitScl, Decode;
    var s := SetSda(w, true);
    SetSdaLow(w, true);
    Release(s, e);
    PulledDataIsRead(w, e);
    Pull(WaitScl(s, e).0);
  }

  lemma PulledDataIsRead(w: Wires, e: Env)
    requires Low(w) && Patient(e)
    ensures Sda(WaitScl(SetSda(w, true), e).0) == w.target.sda
  {
  }

  lemma SpelledHead(heard: seq<Item>, bits: seq<bool>)
    requires bits != []
    ensures heard + Spelled(bits) == heard + [Bit(bits[0])] + Spelled(bits[1..])
    ensures |bits| == 1 ==> heard + Spelled(bits) == heard + [Bit(bits[0])]
  {
  }

  /** The engine after some bits of a byte. */
  function Gathered(g: Engine, first: bool, bits: seq<bool>): Engine
    requires |bits| <= 8
  {
    if |bits| == 8 then OnByte(g.(mode := Listening(first, bits)), first, ByteOf(bits))
    else g.(mode := Listening(first, bits), sda := true)
  }

  lemma GatherOne(g: Engine, first: bool, got: seq<bool>, bit: bool)
    requires |got| < 8 && g.sda
    ensures Pulse(Gathered(g, first, got), bit) == Gathered(g, first, got + [bit])
    ensures Gathered(g, first, got).sda
  {
  }

  /** A listening target gathers exactly the bits sent, and pulls SDA for none of them. */
  lemma {:induction false} BitsAreGathered(w: Wires, e: Env, g: Engine, first: bool, got: seq<bool>, bits: seq<bool>)
    requires Low(w) && Patient(e) && g.sda && |got| + |bits| <= 8 && w.target == Gathered(g, first, got)
    ensures var (n, r) := WriteBits(w, e, bits);
            && r == OK && Low(n) && n.target == Gathered(g, first, got + bits)
            && EarOf(n).heard == EarOf(w).heard + Spelled(bits)
    decreases |bits|
  {
    hide Gathered, Low, WriteBit, Decode, Pulse, Patient;
    if bits == [] {
      assert got + bits == got && EarOf(w).heard + Spelled(bits) == EarOf(w).heard;
    } else {
      GatherOne(g, first, got, bits[0]);
      WriteCycle(w, e, bits[0]);
      var n := WriteBit(w, e, bits[0]).0;
      assert got + [bits[0]] + bits[1..] == got + bits;
      BitsAreGathered(n, e, g, first, got + [bits[0]], bits[1..]);
      assert Spelled(bits) == [Bit(bits[0])] + Spelled(bits[1..]);
    }
  }

  lemma TalkOne(g: Engine, left: seq<bool>)
    requires |left| > 0
    ensures Pulse(g.(mode := Talking(left), sda := left[0]), left[0]) ==
            if |left| == 1 then g.(mode := Confirming(false), sda := true)
            else g.(mode := Talking(left[1..]), sda := left[1])
  {
  }

  /** A talking target's bits are the ones read. */
  lemma {:induction false} BitsAreTold(w: Wires, e: Env, g: Engine, left: seq<bool>)
    requires Low(w) && Patient(e) && |left| > 0 && w.target == g.(mode := Talking(left), sda := left[0])
    ensures var (n, r, bits) := ReadBits(w, e, |left|);
            && r == OK && bits == left && Low(n) && n.target == g.(mode := Confirming(false), sda := true)
            && EarOf(n).heard == EarOf(w).heard + Spelled(left)
    decreases |left|
  {
    hide Low, Decode, Patient, Pulse, ReadBit;
    ReadCycle(w, e);
    TalkOne(g, left);
    hide Spelled;
    var n := ReadBit(w, e).0;
    SpelledHead(EarOf(w).heard, left);
    assert [left[0]] + left[1..] == left;
    if |left| == 1 {
      assert ReadBits(n, e, 0) == (n, OK, left[1..]);
    } else {
      BitsAreTold(n, e, g, left[1..]);
    }
  }

  /** What a listener makes of a byte and its acknowledge bit. */
  function ByteItems(byte: Byte, nack: bool): seq<Item> {
    Spelled(BitsOf(byte)) + [Bit(nack)]
  }

  lemma EngineHears(p: Peer, byte: Byte)
    requires p.role.Addressed? || p.role.Taking?
    ensures var g := Gathered(EngineOf(p), p.role.Addressed?, BitsOf(byte)); var (q, nack) := Hear(p, byte);
            g.sda == nack && Pulse(g, nack) == EngineOf(q)
  {
    hide BitsOf, ByteOf, Called, Take, Give;
    ByteRoundTrip(byte, BitsOf(byte));
  }

  /** write_byte is Hear. */
  lemma ByteIsHeard(w: Wires, e: Env, p: Peer, byte: Byte)
    requires Low(w) && Patient(e) && w.target == EngineOf(p) && (p.role.Addressed? || p.role.Taking?)
    ensures var (n, r) := WriteByte(w, e, byte); var (q, nack) := Hear(p, byte);
            && r == (if nack then ERR_NACK else OK) && Low(n) && n.target == EngineOf(q)
            && EarOf(n).heard == EarOf(w).heard + ByteItems(byte, nack)
  {
    hide Gathered, Low, Decode, Pulse, Hear, BitsOf, WriteBits, ReadBit, EngineOf;
    EngineIsEmpty(p);
    BitsAreGathered(w, e, EngineOf(p), p.role.Addressed?, [], BitsOf(byte));
    assert [] + BitsOf(byte) == BitsOf(byte);
    EngineHears(p, byte);
    ReadCycle(WriteBits(w, e, BitsOf(byte)).0, e);
  }

  lemma EngineIsEmpty(p: Peer)
    requires p.role.Addressed? || p.role.Taking?
    ensures EngineOf(p).sda && Gathered(EngineOf(p), p.role.Addressed?, []) == EngineOf(p)
  {
  }

  lemma EngineSays(p: Peer, ack: bool)
    requires p.role.Giving?
    ensures Pulse(EngineOf(p).(mode := Confirming(false), sda := true), !ack) == EngineOf(Say(p, ack))
  {
  }

  /** read_byte is Say. */
  lemma ByteIsSaid(w: Wires, e: Env, p: Peer, ack: bool)
    requires Low(w) && Patient(e) && w.target == EngineOf(p) && p.role.Giving?
    ensures var (n, r, byte) := ReadByte(w, e, ack);
            && r == OK && byte == p.role.byte && Low(n) && n.target == EngineOf(Say(p, ack))
            && EarOf(n).heard == EarOf(w).heard + ByteItems(byte, !ack)
  {
    hide Low, Decode, Pulse, Say, BitsOf, ReadBits, WriteBit, ByteOf;
    var bits := BitsOf(p.role.byte);
    BitsAreTold(w, e, EngineOf(p), bits);
    ByteRoundTrip(p.role.byte, bits);
    EngineSays(p, ack);
    WriteCycle(ReadBits(w, e, 8).0, e, !ack);
  }

  // START and STOP

  lemma StartFromLow(w: Wires, e: Env, p: Peer)
    requires Low(w) && Patient(e) && w.target == EngineOf(p) && !p.role.Giving?
    ensures var (n, r) := GenerateStart(w, e);
            && r == OK && Low(n) && n.target == EngineOf(Begin(p)) && EarOf(n).heard == EarOf(w).heard + [START]
  {
    hide Decode, OnFall, PullScl;
    var s := SetSda(w, true);
    SetSdaLow(w, true);
    Release(s, e);
    var up := WaitScl(s, e).0;
    var down := SetSda(up, false);
    SampleNext(up.wave, Level(false, true));
    Pull(down);
    StartedEngine(EngineOf(p));
  }

  lemma StartedEngine(g: Engine)
    ensures OnFall(OnStart(g)) == OnStart(g)
  {
  }

  lemma StartFromFree(w: Wires, e: Env, p: Peer)
    requires Free(w) && w.target.address == p.address && w.target.dev == p.dev
    ensures var (n, r) := GenerateStart(w, e);
            && r == OK && Low(n) && n.target == EngineOf(Begin(p)) && EarOf(n).heard == EarOf(w).heard + [START]
  {
    hide Decode, OnFall, PullScl;
    var s := SetSda(w, true);
    SampleNext(w.wave, Level(true, true));
    var up := WaitScl(s, e).0;
    var down := SetSda(up, false);
    SampleNext(up.wave, Level(false, true));
    Pull(down);
    StartedEngine(w.target);
  }

  lemma StopFromLow(w: Wires, e: Env, p: Peer)
    requires Low(w) && Patient(e) && w.target == EngineOf(p) && !p.role.Giving?
    ensures var (n, r) := GenerateStop(w, e);
            && r == OK && Free(n) && n.target == EngineOf(End(p)) && EarOf(n).heard == EarOf(w).heard + [STOP]
  {
    hide Decode, OnFall, Stopped;
    var pulled := PullScl(w);
    assert pulled == w;
    SetSdaLow(w, false);
    var s := SetSda(w, false);
    Release(s, e);
    var up := WaitScl(s, e).0;
    SampleNext(up.wave, Level(true, true));
  }
}
