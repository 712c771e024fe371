/** Transfers of the bit-banged controller (mps2_i2c.c), on the wires and as conversations of bytes. */
module I2cTransfer {
  import opened Words
  import opened I2cBits
  import opened I2cWires
  import opened I2cBytes

  /** A message names one of the caller's buffers; unknown stands for flag bits outside READ, STOP and RESTART. */
  datatype Message = Message(buf: Option<nat>, len: nat, read: bool, stop: bool, restart: bool, unknown: bool)

  type Buffers = seq<seq<Byte>>

  function Fetch(bufs: Buffers, m: Message, k: nat): Byte {
    if m.buf.Some? && m.buf.value < |bufs| && k < |bufs[m.buf.value]| then bufs[m.buf.value][k] else 0
  }

  function Put(bufs: Buffers, m: Message, k: nat, byte: Byte): (r: Buffers)
    ensures |r| == |bufs| && forall b :: 0 <= b < |bufs| ==> |r[b]| == |bufs[b]|
  {
    if m.buf.Some? && m.buf.value < |bufs| && k < |bufs[m.buf.value]| then
      var filled: seq<Byte> := bufs[m.buf.value][k := byte];
      bufs[m.buf.value := filled]
    else bufs
  }

  function AddressByte(addr: Byte, read: bool): Byte {
    (2 * addr) % 256 + if read then 1 else 0
  }

  predicate MessageOk(msgs: seq<Message>, i: nat)
    requires i < |msgs|
  {
    && msgs[i].buf.Some? && msgs[i].len != 0 && !msgs[i].unknown
    && (i > 0 && !msgs[i - 1].stop ==> msgs[i].restart)
  }

  function Validate(e: Env, msgs: seq<Message>, addr: Byte): Status {
    if e.timeout == 0 || msgs == [] then ERR_ARGUMENT
    else if addr == 0x7F then ERR_ADDRESS
    else if exists i :: 0 <= i < |msgs| && !MessageOk(msgs, i) then ERR_ARGUMENT
    else OK
  }

  // On the wires

  datatype Line = Line(w: Wires, bufs: Buffers, status: Status)

  function MoveByte(l: Line, e: Env, m: Message, k: nat): Line {
    if m.read then
      var (n, r, byte) := ReadByte(l.w, e, k + 1 < m.len);
      Line(n, if r == OK then Put(l.bufs, m, k, byte) else l.bufs, r)
    else
      var (n, r) := WriteByte(l.w, e, Fetch(l.bufs, m, k));
      Line(n, l.bufs, r)
  }

  function MoveBytes(l: Line, e: Env, m: Message, k: nat): Line
    decreases m.len - k
  {
    if k >= m.len then l
    else
      var n := MoveByte(l, e, m, k);
      if n.status != OK then n else MoveBytes(n, e, m, k + 1)
  }

  /** stop_on_error */
  function Abort(l: Line, e: Env): Line {
    l.(w := GenerateStop(l.w, e).0)
  }

  function CloseMessage(l: Line, e: Env, m: Message): Line {
    if l.status != OK then Abort(l, e)
    else if !m.stop then l
    else
      var (n, r) := GenerateStop(l.w, e);
      Line(n, l.bufs, r)
  }

  function AfterAddress(l: Line, e: Env, m: Message): Line {
    if l.status != OK then Abort(l, e) else CloseMessage(MoveBytes(l, e, m, 0), e, m)
  }

  function SendMessage(l: Line, e: Env, m: Message, addr: Byte, active: bool): Line {
    var (n, r) := GenerateStart(l.w, e);
    if r != OK then (if active then Abort(Line(n, l.bufs, r), e) else Line(n, l.bufs, r))
    else
      var (n, r) := WriteByte(n, e, AddressByte(addr, m.read));
      AfterAddress(Line(n, l.bufs, r), e, m)
  }

  function SendMessages(l: Line, e: Env, msgs: seq<Message>, addr: Byte, active: bool): Line
    decreases |msgs|
  {
    if msgs == [] then l
    else
      var n := SendMessage(l, e, msgs[0], addr, active);
      if n.status != OK then n else SendMessages(n, e, msgs[1..], addr, true)
  }

  /** mps2_i2c_transfer */
  function Transfer(w: Wires, e: Env, bufs: Buffers, msgs: seq<Message>, addr: Byte): Line {
    var checked := Validate(e, msgs, addr);
    if checked != OK then Line(w, bufs, checked) else SendMessages(Line(w, bufs, OK), e, msgs, addr, false)
  }

  /** mps2_i2c_probe */
  function Probe(w: Wires, e: Env, addr: Byte): (Wires, Status) {
    if e.timeout == 0 then (w, ERR_ARGUMENT)
    else if addr > 0x7F then (w, ERR_ADDRESS)
    else
      var (n, r) := GenerateStart(w, e);
      if r != OK then (n, r)
      else
        var (n, r) := WriteByte(n, e, AddressByte(addr, false));
        var (m, stopped) := GenerateStop(n, e);
        (m, if r != OK then r else stopped)
  }

  // As a conversation

  datatype Symbol = Start | Stop | Octet(byte: Byte, nack: bool)

  datatype Talk = Talk(peer: Peer, bufs: Buffers, said: seq<Symbol>, status: Status)

  function Utter(t: Talk, peer: Peer, x: Symbol): Talk {
    t.(peer := peer, said := t.said + [x])
  }

  function SendOctet(t: Talk, byte: Byte): Talk {
    var (peer, nack) := Hear(t.peer, byte);
    Utter(t, peer, Octet(byte, nack)).(status := if nack then ERR_NACK else OK)
  }

  /** The last byte of a read is refused, all others are acknowledged. */
  function ReceiveOctet(t: Talk, m: Message, k: nat): Talk {
    var ack := k + 1 < m.len;
    var byte := if t.peer.role.Giving? then t.peer.role.byte else 255;
    Utter(t, Say(t.peer, ack), Octet(byte, !ack)).(bufs := Put(t.bufs, m, k, byte))
  }

  function Exchange(t: Talk, m: Message, k: nat): Talk {
    if m.read then ReceiveOctet(t, m, k) else SendOctet(t, Fetch(t.bufs, m, k))
  }

  function ExchangeAll(t: Talk, m: Message, k: nat): Talk
    decreases m.len - k
  {
    if k >= m.len then t
    else
      var n := Exchange(t, m, k);
      if n.status != OK then n else ExchangeAll(n, m, k + 1)
  }

  function Close(t: Talk, m: Message): Talk {
    if t.status != OK || m.stop then Utter(t, End(t.peer), Stop) else t
  }

  function Converse(t: Talk, m: Message, addr: Byte): Talk {
    var called := SendOctet(Utter(t, Begin(t.peer), Start), AddressByte(addr, m.read));
    Close(if called.status != OK then called else ExchangeAll(called, m, 0), m)
  }

  function ConverseAll(t: Talk, msgs: seq<Message>, addr: Byte): Talk
    decreases |msgs|
  {
    if msgs == [] then t
    else
      var n := Converse(t, msgs[0], addr);
      if n.status != OK then n else ConverseAll(n, msgs[1..], addr)
  }

  /** The waveform of a conversation. */
  function Items(said: seq<Symbol>): seq<Item>
    decreases |said|
  {
    if said == [] then [] else Items(said[..|said| - 1]) + SymbolItems(said[|said| - 1])
  }

  function SymbolItems(x: Symbol): seq<Item> {
    match x
    case Start => [START]
    case Stop => [STOP]
    case Octet(byte, nack) => ByteItems(byte, nack)
  }

  lemma ItemsNext(base: seq<Item>, said: seq<Symbol>, x: Symbol)
    ensures base + Items(said) + SymbolItems(x) == base + Items(said + [x])
  {
    hide SymbolItems;
    assert (said + [x])[..|said|] == said;
    assert base + Items(said) + SymbolItems(x) == base + (Items(said) + SymbolItems(x));
  }

  // The wires carry the conversation

  /** The wires and the conversation agree: same target, same buffers, same status, and the wave spells what was said
      since some earlier point. */
  ghost predicate Agree(l: Line, t: Talk, base: seq<Item>) {
    && l.w.target == EngineOf(t.peer) && l.bufs == t.bufs && l.status == t.status
    && EarOf(l.w).heard == base + Items(t.said)
  }

  /** Between messages the bus is free or held for a repeated START. */
  ghost predicate Between(w: Wires) {
    Free(w) || Low(w)
  }

  lemma OctetAgrees(l: Line, e: Env, t: Talk, byte: Byte, base: seq<Item>)
    requires Low(l.w) && Patient(e) && Agree(l, t, base) && (t.peer.role.Addressed? || t.peer.role.Taking?)
    ensures var (n, r) := WriteByte(l.w, e, byte);
            && Low(n) && Agree(Line(n, l.bufs, r), SendOctet(t, byte), base)
            && (SendOctet(t, byte).status != OK ==> SendOctet(t, byte).peer.role.Deaf?)
            && (r == OK || r == ERR_NACK)
  {
    hide Low, Patient, WriteByte, EngineOf, ByteItems, Decode, Items;
    ByteIsHeard(l.w, e, t.peer, byte);
    ItemsNext(base, t.said, Octet(byte, Hear(t.peer, byte).1));
  }

  /** Who may speak in the middle of a message. */
  ghost predicate InTurn(t: Talk, m: Message, k: nat) {
    if !m.read then t.peer.role.Taking?
    else if k < m.len then t.peer.role.Giving?
    else t.peer.role.Deaf?
  }

  lemma ExchangeAgrees(l: Line, e: Env, t: Talk, m: Message, k: nat, base: seq<Item>)
    requires Low(l.w) && Patient(e) && Agree(l, t, base) && t.status == OK && k < m.len && InTurn(t, m, k)
    ensures var n, u := MoveByte(l, e, m, k), Exchange(t, m, k);
            && Low(n.w) && Agree(n, u, base)
            && if u.status == OK then InTurn(u, m, k + 1) else u.peer.role.Deaf?
  {
    hide Low, Patient, WriteByte, ReadByte, EngineOf, ByteItems, Decode, Items;
    if m.read {
      var ack := k + 1 < m.len;
      ByteIsSaid(l.w, e, t.peer, ack);
      ItemsNext(base, t.said, Octet(t.peer.role.byte, !ack));
    } else {
      OctetAgrees(l, e, t, Fetch(t.bufs, m, k), base);
    }
  }

  lemma {:induction false} ExchangeAllAgrees(l: Line, e: Env, t: Talk, m: Message, k: nat, base: seq<Item>)
    requires Low(l.w) && Patient(e) && Agree(l, t, base) && t.status == OK && k <= m.len && InTurn(t, m, k)
    ensures var n, u := MoveBytes(l, e, m, k), ExchangeAll(t, m, k);
            && Low(n.w) && Agree(n, u, base)
            && (u.status != OK ==> u.peer.role.Deaf?) && !u.peer.role.Giving?
    decreases m.len - k
  {
    hide Low, Patient, MoveByte, Exchange, EngineOf, Decode, Items;
    if k < m.len {
      ExchangeAgrees(l, e, t, m, k, base);
      var n, u := MoveByte(l, e, m, k), Exchange(t, m, k);
      if u.status == OK {
        ExchangeAllAgrees(n, e, u, m, k + 1, base);
      }
    }
  }

  lemma CloseAgrees(l: Line, e: Env, t: Talk, m: Message, base: seq<Item>)
    requires Low(l.w) && Patient(e) && Agree(l, t, base) && !t.peer.role.Giving?
    ensures var n, u := CloseMessage(l, e, m), Close(t, m);
            && Agree(n, u, base) && !u.peer.role.Giving?
            && (if u.status != OK || m.stop then Free(n.w) else Low(n.w))
  {
    hide Low, Patient, GenerateStop, EngineOf, Decode, Items;
    if t.status != OK || m.stop {
      StopFromLow(l.w, e, t.peer);
      ItemsNext(base, t.said, Stop);
    }
  }

  lemma StartAgrees(l: Line, e: Env, t: Talk, base: seq<Item>)
    requires Between(l.w) && Patient(e) && Agree(l, t, base) && !t.peer.role.Giving?
    ensures var (n, r) := GenerateStart(l.w, e);
            r == OK && Low(n) && Agree(l.(w := n), Utter(t, Begin(t.peer), Start), base)
  {
    hide Low, Free, Patient, GenerateStart, Decode, Items;
    if Low(l.w) {
      StartFromLow(l.w, e, t.peer);
    } else {
      StartFromFree(l.w, e, t.peer);
    }
    ItemsNext(base, t.said, Start);
  }

  lemma MessageAgrees(l: Line, e: Env, t: Talk, m: Message, addr: Byte, active: bool, base: seq<Item>)
    requires Between(l.w) && Patient(e) && Agree(l, t, base) && t.status == OK && !t.peer.role.Giving? && m.len > 0
    ensures var n, u := SendMessage(l, e, m, addr, active), Converse(t, m, addr);
            && Agree(n, u, base) && !u.peer.role.Giving?
            && (if u.status != OK || m.stop then Free(n.w) else Low(n.w))
  {
    hide Low, Free, Between, Patient, GenerateStart, WriteByte, MoveBytes, ExchangeAll, EngineOf, Decode, Items;
    hide CloseMessage, Close;
    StartAgrees(l, e, t, base);
    var w1 := GenerateStart(l.w, e).0;
    var t1 := Utter(t, Begin(t.peer), Start);
    var byte := AddressByte(addr, m.read);
    OctetAgrees(l.(w := w1), e, t1, byte, base);
    var called := SendOctet(t1, byte);
    var (w2, r2) := WriteByte(w1, e, byte);
    var l2 := Line(w2, l.bufs, r2);
    if called.status == OK {
      ExchangeAllAgrees(l2, e, called, m, 0, base);
      CloseAgrees(MoveBytes(l2, e, m, 0), e, ExchangeAll(called, m, 0), m, base);
    } else {
      CloseAgrees(l2, e, called, m, base);
      AbortCloses(l2, e, m);
    }
  }

  lemma AbortCloses(l: Line, e: Env, m: Message)
    ensures l.status != OK ==> Abort(l, e) == CloseMessage(l, e, m)
  {
  }

  lemma {:induction false} MessagesAgree(l: Line, e: Env, t: Talk, msgs: seq<Message>, addr: Byte, active: bool,
                                         base: seq<Item>)
    requires Between(l.w) && Patient(e) && Agree(l, t, base) && t.status == OK && !t.peer.role.Giving?
    requires forall i :: 0 <= i < |msgs| ==> msgs[i].len > 0
    ensures var n, u := SendMessages(l, e, msgs, addr, active), ConverseAll(t, msgs, addr);
            && Agree(n, u, base) && !u.peer.role.Giving?
            && (if msgs == [] then n == l
                else if u.status != OK || msgs[|msgs| - 1].stop then Free(n.w) else Low(n.w))
    decreases |msgs|
  {
    hide Low, Free, Patient, SendMessage, Converse, EngineOf, Decode, Items, Agree;
    if msgs != [] {
      MessageAgrees(l, e, t, msgs[0], addr, active, base);
      AgreedStatus(SendMessage(l, e, msgs[0], addr, active), Converse(t, msgs[0], addr), base);
      if Converse(t, msgs[0], addr).status == OK {
        var n, u := SendMessage(l, e, msgs[0], addr, active), Converse(t, msgs[0], addr);
        MessagesAgree(n, e, u, msgs[1..], addr, true, base);
      }
    }
  }

  lemma AgreedStatus(l: Line, t: Talk, base: seq<Item>)
    requires Agree(l, t, base)
    ensures l.status == t.status
  {
  }

  /** What a caller of the byte-level view gets. */
  function Outcome(p: Peer, e: Env, bufs: Buffers, msgs: seq<Message>, addr: Byte): Talk {
    var checked := Validate(e, msgs, addr);
    if checked != OK then Talk(p, bufs, [], checked) else ConverseAll(Talk(p, bufs, [], OK), msgs, addr)
  }

  /** Refinement, for every target, script and stretching short of the timeout: status, buffers and the target's state
      are those of the conversation, and the waveform decodes to its STARTs, bytes, acknowledge bits and STOPs. */
  lemma TransferIsConversation(w: Wires, e: Env, p: Peer, bufs: Buffers, msgs: seq<Message>, addr: Byte)
    requires Between(w) && Patient(e) && w.target == EngineOf(p) && !p.role.Giving?
    ensures var l, t := Transfer(w, e, bufs, msgs, addr), Outcome(p, e, bufs, msgs, addr);
            && l.status == t.status && l.bufs == t.bufs && l.w.target == EngineOf(t.peer) && !t.peer.role.Giving?
            && EarOf(l.w).heard == EarOf(w).heard + Items(t.said)
            && (if Validate(e, msgs, addr) != OK then l.w == w
                else if l.status != OK || msgs[|msgs| - 1].stop then Free(l.w) else Low(l.w))
  {
    hide Free, Low, Patient, EngineOf, Decode, SendMessages, ConverseAll;
    var heard := EarOf(w).heard;
    var talk := Talk(p, bufs, [], OK);
    assert heard + Items(talk.said) == heard;
    if Validate(e, msgs, addr) == OK {
      forall i | 0 <= i < |msgs| ensures msgs[i].len > 0 {
        assert MessageOk(msgs, i);
      }
      MessagesAgree(Line(w, bufs, OK), e, talk, msgs, addr, false, heard);
    }
  }

  // What the waveform may do

  /** How often SDA changes between two samples that both have SCL high. */
  function Edges(wave: seq<Level>): nat
    decreases |wave|
  {
    if wave == [] then 0
    else
      var last, before := wave[|wave| - 1], Decode(wave[..|wave| - 1]).level;
      Edges(wave[..|wave| - 1]) + if last.scl && before.scl && last.sda != before.sda then 1 else 0
  }

  function Conditions(items: seq<Item>): nat
    decreases |items|
  {
    if items == [] then 0 else Conditions(items[..|items| - 1]) + if items[|items| - 1].Bit? then 0 else 1
  }

  lemma ConditionsNext(items: seq<Item>, x: Item)
    ensures Conditions(items + [x]) == Conditions(items) + if x.Bit? then 0 else 1
  {
    assert (items + [x])[..|items|] == items;
  }

  /** One more sample adds a START or STOP exactly if SDA has moved under a high SCL. */
  lemma ListenCounts(ear: Ear, l: Level)
    ensures Conditions(Listen(ear, l).heard) ==
            Conditions(ear.heard) + if l.scl && ear.level.scl && l.sda != ear.level.sda then 1 else 0
  {
    hide Conditions;
    if ear.level.scl && l.scl {
      ConditionsNext(ear.heard, if l.sda then STOP else START);
    } else if ear.level.scl && ear.pending.Some? {
      ConditionsNext(ear.heard, Bit(ear.pending.value));
    } else {
      assert ear.heard + [] == ear.heard;
    }
  }

  /** In any waveform SDA moves under a high SCL exactly as often as a START or STOP is decoded. */
  lemma {:induction false} EdgesAreConditions(wave: seq<Level>)
    ensures Edges(wave) == Conditions(Decode(wave).heard)
    decreases |wave|
  {
    if wave != [] {
      hide Conditions, Listen;
      EdgesAreConditions(wave[..|wave| - 1]);
      ListenCounts(Decode(wave[..|wave| - 1]), wave[|wave| - 1]);
    }
  }

  lemma {:induction false} ConditionsConcat(a: seq<Item>, b: seq<Item>)
    ensures Conditions(a + b) == Conditions(a) + Conditions(b)
    decreases |b|
  {
    if b == [] {
      assert a + b == a;
    } else {
      var rest, x := b[..|b| - 1], b[|b| - 1];
      ConditionsConcat(a, rest);
      assert a + b == (a + rest) + [x];
      ConditionsNext(a + rest, x);
    }
  }

  lemma {:induction false} BitsAreNoConditions(bits: seq<bool>)
    ensures Conditions(Spelled(bits)) == 0
    decreases |bits|
  {
    if bits != [] {
      assert Spelled(bits)[..|bits| - 1] == Spelled(bits[..|bits| - 1]);
      BitsAreNoConditions(bits[..|bits| - 1]);
    }
  }

  /** How many STARTs and STOPs a conversation has. */
  function Marks(said: seq<Symbol>): nat
    decreases |said|
  {
    if said == [] then 0 else Marks(said[..|said| - 1]) + if said[|said| - 1].Octet? then 0 else 1
  }

  lemma {:induction false} MarksAreConditions(said: seq<Symbol>)
    ensures Conditions(Items(said)) == Marks(said)
    decreases |said|
  {
    if said != [] {
      var rest, x := said[..|said| - 1], said[|said| - 1];
      MarksAreConditions(rest);
      ConditionsConcat(Items(rest), SymbolItems(x));
      if x.Octet? {
        BitsAreNoConditions(BitsOf(x.byte));
        ConditionsNext(Spelled(BitsOf(x.byte)), Bit(x.nack));
      } else {
        ConditionsNext([], SymbolItems(x)[0]);
        assert [] + SymbolItems(x) == SymbolItems(x);
      }
    }
  }

  /** During a transfer SDA moves under a high SCL once for each START, repeated START and STOP of its conversation, and
      never otherwise. */
  lemma TransferEdges(w: Wires, e: Env, p: Peer, bufs: Buffers, msgs: seq<Message>, addr: Byte)
    requires Between(w) && Patient(e) && w.target == EngineOf(p) && !p.role.Giving?
    ensures Edges(Transfer(w, e, bufs, msgs, addr).w.wave) ==
            Edges(w.wave) + Marks(Outcome(p, e, bufs, msgs, addr).said)
  {
    hide Between, Patient, EngineOf, Decode, Transfer, Outcome, Items, Edges, Conditions, Marks;
    TransferIsConversation(w, e, p, bufs, msgs, addr);
    var l, t := Transfer(w, e, bufs, msgs, addr), Outcome(p, e, bufs, msgs, addr);
    EdgesAreConditions(w.wave);
    EdgesAreConditions(l.w.wave);
    ConditionsConcat(EarOf(w).heard, Items(t.said));
    MarksAreConditions(t.said);
  }

  // Refusals and failures

  /** Exactly these requests are carried out; any other is refused with its code and touches nothing. */
  lemma RefusalsAreExact(w: Wires, e: Env, bufs: Buffers, msgs: seq<Message>, addr: Byte)
    ensures Validate(e, msgs, addr) == OK <==>
              && e.timeout > 0 && msgs != [] && addr != 0x7F
              && forall i :: 0 <= i < |msgs| ==>
                   && msgs[i].buf.Some? && msgs[i].len > 0 && !msgs[i].unknown
                   && (i > 0 ==> msgs[i - 1].stop || msgs[i].restart)
    ensures Validate(e, msgs, addr) != OK ==>
              Transfer(w, e, bufs, msgs, addr) ==
              Line(w, bufs, if e.timeout > 0 && msgs != [] && addr == 0x7F then ERR_ADDRESS else ERR_ARGUMENT)
  {
    hide SendMessages;
    if forall i :: 0 <= i < |msgs| ==> MessageOk(msgs, i) {
      forall i | 0 <= i < |msgs|
        ensures msgs[i].buf.Some? && msgs[i].len > 0 && !msgs[i].unknown
                && (i > 0 ==> msgs[i - 1].stop || msgs[i].restart)
      {
        assert MessageOk(msgs, i);
      }
    } else {
      var i :| 0 <= i < |msgs| && !MessageOk(msgs, i);
      assert !(msgs[i].buf.Some? && msgs[i].len > 0 && !msgs[i].unknown
               && (i > 0 ==> msgs[i - 1].stop || msgs[i].restart));
    }
  }

  /** A clock line that is held too long at the START. */
  lemma StuckClockTimesOut(w: Wires, e: Env, bufs: Buffers, msgs: seq<Message>, addr: Byte)
    requires Validate(e, msgs, addr) == OK && !w.scl && e.stretch(w.releases) >= e.timeout
    ensures Transfer(w, e, bufs, msgs, addr).status == ERR_TIMEOUT && Transfer(w, e, bufs, msgs, addr).bufs == bufs
  {
    hide OnFall, OnRise, OnStart, OnStop, WriteByte, AfterAddress;
    assert GenerateStart(w, e).1 == ERR_TIMEOUT;
  }

  /** A data line that the target holds low: the bus is busy and the target is left alone. */
  lemma HeldBusIsBusy(w: Wires, e: Env, bufs: Buffers, msgs: seq<Message>, addr: Byte)
    requires Validate(e, msgs, addr) == OK && w.scl && !w.target.sda
    ensures var l := Transfer(w, e, bufs, msgs, addr);
            l.status == ERR_BUS_BUSY && l.bufs == bufs && l.w.target == w.target
  {
    hide OnFall, OnRise, OnStart, OnStop, WriteByte, AfterAddress;
    assert GenerateStart(w, e).1 == ERR_BUS_BUSY && GenerateStart(w, e).0.target == w.target;
  }

  /** Between two points of a run no release of SCL was stretched to the timeout. */
  ghost predicate InTime(w: Wires, n: Wires, e: Env) {
    w.releases <= n.releases && forall k: nat :: w.releases <= k < n.releases ==> e.stretch(k) < e.timeout
  }

  lemma BitsInTime(w: Wires, e: Env, b: bool)
    ensures GenerateStart(w, e).1 == OK ==> InTime(w, GenerateStart(w, e).0, e)
    ensures GenerateStop(w, e).1 == OK ==> InTime(w, GenerateStop(w, e).0, e)
    ensures WriteBit(w, e, b).1 == OK ==> InTime(w, WriteBit(w, e, b).0, e)
    ensures ReadBit(w, e).1 == OK ==> InTime(w, ReadBit(w, e).0, e)
  {
    hide WaitScl, SetSda, PullScl, Sda, InTime;
    WaitInTime(w, e, true);
    WaitInTime(w, e, b);
    WaitInTime(PullScl(w), e, false);
    PullKeepsReleases(w, e, w);
    var up := WaitScl(SetSda(w, true), e).0;
    PullKeepsReleases(up, e, w);
    PullKeepsReleases(SetSda(up, false), e, w);
    SetKeepsReleases(up, e, w, false);
    PullKeepsReleases(WaitScl(SetSda(w, b), e).0, e, w);
    var stopping := WaitScl(SetSda(PullScl(w), false), e).0;
    SetKeepsReleases(stopping, e, PullScl(w), true);
    InTimeFrom(w, PullScl(w), SetSda(stopping, true), e);
  }

  lemma WaitInTime(w: Wires, e: Env, high: bool)
    ensures var (n, r) := WaitScl(SetSda(w, high), e); r == OK ==> InTime(w, n, e)
    ensures WaitScl(w, e).0.releases == w.releases + if w.scl then 0 else 1
  {
    hide OnStart, OnStop, OnRise;
  }

  lemma SetKeepsReleases(n: Wires, e: Env, w: Wires, high: bool)
    ensures InTime(w, n, e) ==> InTime(w, SetSda(n, high), e)
  {
    hide OnStart, OnStop;
  }

  lemma PullKeepsReleases(n: Wires, e: Env, w: Wires)
    ensures InTime(w, n, e) ==> InTime(w, PullScl(n), e)
    ensures PullScl(n).releases == n.releases
  {
    hide OnFall;
  }

  lemma InTimeFrom(w: Wires, v: Wires, n: Wires, e: Env)
    requires v.releases == w.releases
    ensures InTime(v, n, e) ==> InTime(w, n, e)
  {
  }

  lemma {:induction false} WriteBitsInTime(w: Wires, e: Env, bits: seq<bool>)
    ensures WriteBits(w, e, bits).1 == OK ==> InTime(w, WriteBits(w, e, bits).0, e)
    decreases |bits|
  {
    hide WriteBit;
    if bits != [] {
      BitsInTime(w, e, bits[0]);
      WriteBitsInTime(WriteBit(w, e, bits[0]).0, e, bits[1..]);
    }
  }

  lemma {:induction false} ReadBitsInTime(w: Wires, e: Env, count: nat)
    ensures ReadBits(w, e, count).1 == OK ==> InTime(w, ReadBits(w, e, count).0, e)
    decreases count
  {
    hide ReadBit;
    if count > 0 {
      BitsInTime(w, e, true);
      ReadBitsInTime(ReadBit(w, e).0, e, count - 1);
    }
  }

  lemma WriteByteInTime(w: Wires, e: Env, byte: Byte)
    ensures WriteByte(w, e, byte).1 == OK ==> InTime(w, WriteByte(w, e, byte).0, e)
  {
    hide WriteBits, ReadBit, BitsOf;
    WriteBitsInTime(w, e, BitsOf(byte));
    BitsInTime(WriteBits(w, e, BitsOf(byte)).0, e, true);
  }

  lemma MoveByteInTime(l: Line, e: Env, m: Message, k: nat)
    ensures MoveByte(l, e, m, k).status == OK ==> InTime(l.w, MoveByte(l, e, m, k).w, e)
  {
    hide WriteByte, WriteBit, ReadBits, ByteOf;
    WriteByteInTime(l.w, e, Fetch(l.bufs, m, k));
    ReadBitsInTime(l.w, e, 8);
    BitsInTime(ReadBits(l.w, e, 8).0, e, !(k + 1 < m.len));
  }

  lemma {:induction false} MovingInTime(l: Line, e: Env, m: Message, k: nat)
    requires l.status == OK
    ensures MoveBytes(l, e, m, k).status == OK ==> InTime(l.w, MoveBytes(l, e, m, k).w, e)
    decreases m.len - k
  {
    hide MoveByte;
    if k < m.len {
      MoveByteInTime(l, e, m, k);
      var n := MoveByte(l, e, m, k);
      if n.status == OK { MovingInTime(n, e, m, k + 1); }
    }
  }

  lemma MessageInTime(l: Line, e: Env, m: Message, addr: Byte, active: bool)
    ensures SendMessage(l, e, m, addr, active).status == OK ==>
              InTime(l.w, SendMessage(l, e, m, addr, active).w, e)
  {
    hide GenerateStart, GenerateStop, WriteByte, MoveBytes;
    var (n, r) := GenerateStart(l.w, e);
    BitsInTime(l.w, e, true);
    WriteByteInTime(n, e, AddressByte(addr, m.read));
    var (n2, r2) := WriteByte(n, e, AddressByte(addr, m.read));
    if r2 == OK {
      MovingInTime(Line(n2, l.bufs, r2), e, m, 0);
      BitsInTime(MoveBytes(Line(n2, l.bufs, r2), e, m, 0).w, e, true);
    }
  }

  lemma {:induction false} MessagesInTime(l: Line, e: Env, msgs: seq<Message>, addr: Byte, active: bool)
    requires l.status == OK
    ensures SendMessages(l, e, msgs, addr, active).status == OK ==>
              InTime(l.w, SendMessages(l, e, msgs, addr, active).w, e)
    decreases |msgs|
  {
    hide SendMessage;
    if msgs != [] {
      MessageInTime(l, e, msgs[0], addr, active);
      var n := SendMessage(l, e, msgs[0], addr, active);
      if n.status == OK { MessagesInTime(n, e, msgs[1..], addr, true); }
    }
  }

  /** A transfer never reports OK if the clock was held to the timeout anywhere in it, whatever the target does. */
  lemma OkayMeansInTime(w: Wires, e: Env, bufs: Buffers, msgs: seq<Message>, addr: Byte)
    requires Transfer(w, e, bufs, msgs, addr).status == OK
    ensures InTime(w, Transfer(w, e, bufs, msgs, addr).w, e)
  {
    hide SendMessages;
    MessagesInTime(Line(w, bufs, OK), e, msgs, addr, false);
  }

  // The controller lets go

  predicate Released(w: Wires) {
    w.mSda && w.mScl
  }

  lemma StopReleases(w: Wires, e: Env)
    ensures Released(GenerateStop(w, e).0)
  {
  }

  lemma FailedStartReleases(w: Wires, e: Env)
    ensures GenerateStart(w, e).1 != OK ==> Released(GenerateStart(w, e).0)
  {
  }

  lemma BitsHold(w: Wires, e: Env, b: bool)
    ensures WriteBit(w, e, b).1 == OK ==> !WriteBit(w, e, b).0.mScl
    ensures ReadBit(w, e).1 == OK ==> !ReadBit(w, e).0.mScl
  {
    hide OnFall, OnRise, OnStart, OnStop;
  }

  lemma WriteByteHolds(w: Wires, e: Env, byte: Byte)
    ensures WriteByte(w, e, byte).1 == OK ==> !WriteByte(w, e, byte).0.mScl
  {
    hide WriteBits, ReadBit, BitsOf;
    BitsHold(WriteBits(w, e, BitsOf(byte)).0, e, true);
  }

  /** After a byte that went through, the controller holds SCL for what comes next. */
  lemma MoveByteHolds(l: Line, e: Env, m: Message, k: nat)
    ensures MoveByte(l, e, m, k).status == OK ==> !MoveByte(l, e, m, k).w.mScl
  {
    hide WriteByte, WriteBit, ReadBits, ByteOf;
    WriteByteHolds(l.w, e, Fetch(l.bufs, m, k));
    BitsHold(ReadBits(l.w, e, 8).0, e, !(k + 1 < m.len));
  }

  lemma {:induction false} MovingHolds(l: Line, e: Env, m: Message, k: nat)
    requires !l.w.mScl
    ensures MoveBytes(l, e, m, k).status == OK ==> !MoveBytes(l, e, m, k).w.mScl
    decreases m.len - k
  {
    hide MoveByte;
    if k < m.len {
      MoveByteHolds(l, e, m, k);
      var n := MoveByte(l, e, m, k);
      if n.status == OK { MovingHolds(n, e, m, k + 1); }
    }
  }

  /** A message lets both wires go exactly when it fails or ends in a STOP. */
  lemma MessageReleases(l: Line, e: Env, m: Message, addr: Byte, active: bool)
    ensures var n := SendMessage(l, e, m, addr, active); Released(n.w) <==> n.status != OK || m.stop
  {
    hide GenerateStart, GenerateStop, WriteByte, MoveBytes;
    var (n, r) := GenerateStart(l.w, e);
    FailedStartReleases(l.w, e);
    StopReleases(n, e);
    WriteByteHolds(n, e, AddressByte(addr, m.read));
    var (n2, r2) := WriteByte(n, e, AddressByte(addr, m.read));
    StopReleases(n2, e);
    if r2 == OK {
      MovingHolds(Line(n2, l.bufs, r2), e, m, 0);
      StopReleases(MoveBytes(Line(n2, l.bufs, r2), e, m, 0).w, e);
    }
  }

  lemma {:induction false} MessagesRelease(l: Line, e: Env, msgs: seq<Message>, addr: Byte, active: bool)
    requires msgs != []
    ensures var n := SendMessages(l, e, msgs, addr, active);
            Released(n.w) <==> n.status != OK || msgs[|msgs| - 1].stop
    decreases |msgs|
  {
    hide SendMessage, Released;
    MessageReleases(l, e, msgs[0], addr, active);
    var n := SendMessage(l, e, msgs[0], addr, active);
    if n.status == OK && |msgs| > 1 {
      MessagesRelease(n, e, msgs[1..], addr, true);
    }
  }

  /** Whatever the target and the stretching do: a transfer that is refused leaves the wires alone; any other returns
      with both wires let go exactly if it failed or its last message had a STOP. So after an error they are let go
      exactly if the call was not refused or they were let go before. */
  lemma TransferReleases(w: Wires, e: Env, bufs: Buffers, msgs: seq<Message>, addr: Byte)
    ensures var l := Transfer(w, e, bufs, msgs, addr);
            if Validate(e, msgs, addr) != OK then l.w == w && l.status == Validate(e, msgs, addr)
            else Released(l.w) <==> l.status != OK || msgs[|msgs| - 1].stop
    ensures var l := Transfer(w, e, bufs, msgs, addr);
            l.status != OK ==> (Released(l.w) <==> Validate(e, msgs, addr) == OK || Released(w))
  {
    hide SendMessages, Released;
    if Validate(e, msgs, addr) == OK {
      MessagesRelease(Line(w, bufs, OK), e, msgs, addr, false);
    }
  }

  /** So an error does not always mean released wires: a refused call on a bus that an earlier call has left held. */
  lemma RefusedCallKeepsHolding(w: Wires, e: Env, bufs: Buffers, addr: Byte)
    requires Low(w)
    ensures Transfer(w, e, bufs, [], addr).status == ERR_ARGUMENT && !Released(Transfer(w, e, bufs, [], addr).w)
  {
  }

  /** A probe that is refused leaves the wires alone; any other lets both go. */
  lemma ProbeReleases(w: Wires, e: Env, addr: Byte)
    ensures if e.timeout == 0 || addr > 0x7F then
              Probe(w, e, addr) == (w, if e.timeout == 0 then ERR_ARGUMENT else ERR_ADDRESS)
            else Released(Probe(w, e, addr).0)
  {
    hide GenerateStart, GenerateStop, WriteByte, Released;
    var (n, r) := GenerateStart(w, e);
    FailedStartReleases(w, e);
    StopReleases(WriteByte(n, e, AddressByte(addr, false)).0, e);
  }

  /** mps2_i2c_probe as a conversation. */
  function ProbeTalk(p: Peer, addr: Byte): Talk {
    var called := SendOctet(Utter(Talk(p, [], [], OK), Begin(p), Start), AddressByte(addr, false));
    Utter(called, End(called.peer), Stop)
  }

  lemma ProbeIsConversation(w: Wires, e: Env, p: Peer, addr: Byte)
    requires Between(w) && Patient(e) && w.target == EngineOf(p) && !p.role.Giving? && addr <= 0x7F
    ensures var (n, r) := Probe(w, e, addr); var t := ProbeTalk(p, addr);
            && r == t.status && Free(n) && n.target == EngineOf(t.peer) && t.peer.role.Deaf?
            && EarOf(n).heard == EarOf(w).heard + Items(t.said)
  {
    hide Free, Low, Patient, EngineOf, Decode, Items, GenerateStart, GenerateStop, WriteByte;
    var base := EarOf(w).heard;
    var t0 := Talk(p, [], [], OK);
    EmptyItems(base);
    var l0 := Line(w, [], OK);
    assert Agree(l0, t0, base);
    StartAgrees(l0, e, t0, base);
    var w1 := GenerateStart(w, e).0;
    var t1 := Utter(t0, Begin(p), Start);
    OctetAgrees(Line(w1, [], OK), e, t1, AddressByte(addr, false), base);
    var called := SendOctet(t1, AddressByte(addr, false));
    PeerIsNotGiving(t1.peer, addr);
    PatientTimeout(e);
    StopFromLow(WriteByte(w1, e, AddressByte(addr, false)).0, e, called.peer);
    ItemsNext(base, called.said, Stop);
  }

  lemma PatientTimeout(e: Env)
    requires Patient(e)
    ensures e.timeout > 0
  {
    assert e.stretch(0) < e.timeout;
  }

  lemma EmptyItems(base: seq<Item>)
    ensures base + Items([]) == base
  {
  }

  lemma PeerIsNotGiving(p: Peer, addr: Byte)
    requires p.role.Addressed? && addr <= 0x7F
    ensures !Hear(p, AddressByte(addr, false)).0.role.Giving?
  {
  }

  // Many calls

  datatype Call = Send(bufs: Buffers, msgs: seq<Message>, addr: Byte) | Ask(addr: Byte)

  datatype Reply = Reply(status: Status, bufs: Buffers)

  function Place(w: Wires, e: Env, c: Call): (Wires, Reply) {
    match c
    case Send(bufs, msgs, addr) =>
      var l := Transfer(w, e, bufs, msgs, addr);
      (l.w, Reply(l.status, l.bufs))
    case Ask(addr) =>
      var (n, r) := Probe(w, e, addr);
      (n, Reply(r, []))
  }

  function Calls(w: Wires, e: Env, calls: seq<Call>): (Wires, seq<Reply>)
    decreases |calls|
  {
    if calls == [] then (w, [])
    else
      var (n, replies) := Calls(w, e, calls[..|calls| - 1]);
      var (m, reply) := Place(n, e, calls[|calls| - 1]);
      (m, replies + [reply])
  }

  /** One call in terms of bytes. */
  function TalkOf(p: Peer, e: Env, c: Call): Talk {
    match c
    case Send(bufs, msgs, addr) => Outcome(p, e, bufs, msgs, addr)
    case Ask(addr) => if addr > 0x7F then Talk(p, [], [], ERR_ADDRESS) else ProbeTalk(p, addr)
  }

  function Talks(p: Peer, e: Env, calls: seq<Call>): (r: (Peer, seq<Reply>, seq<Symbol>))
    decreases |calls|
  {
    if calls == [] then (p, [], [])
    else
      var (q, replies, said) := Talks(p, e, calls[..|calls| - 1]);
      var t := TalkOf(q, e, calls[|calls| - 1]);
      (t.peer, replies + [Reply(t.status, t.bufs)], said + t.said)
  }

  lemma {:induction false} ItemsConcat(a: seq<Symbol>, b: seq<Symbol>)
    ensures Items(a + b) == Items(a) + Items(b)
    decreases |b|
  {
    hide SymbolItems;
    if b == [] {
      assert a + b == a && Items(a) + Items(b) == Items(a);
    } else {
      var rest, x := b[..|b| - 1], b[|b| - 1];
      ItemsConcat(a, rest);
      assert a + b == (a + rest) + [x];
      ItemsNext([], a + rest, x);
      assert [] + Items(a + rest) == Items(a + rest) && [] + Items(a + rest + [x]) == Items(a + rest + [x]);
      assert Items(a) + Items(rest) + SymbolItems(x) == Items(a) + (Items(rest) + SymbolItems(x));
    }
  }

  lemma CallIsTalk(w: Wires, e: Env, p: Peer, c: Call)
    requires Between(w) && Patient(e) && w.target == EngineOf(p) && !p.role.Giving?
    ensures var (n, reply) := Place(w, e, c); var t := TalkOf(p, e, c);
            && reply == Reply(t.status, t.bufs) && Between(n) && n.target == EngineOf(t.peer) && !t.peer.role.Giving?
            && EarOf(n).heard == EarOf(w).heard + Items(t.said)
  {
    hide Free, Low, Patient, EngineOf, Decode, Items, Transfer, Outcome, Probe;
    PatientTimeout(e);
    match c
    case Send(bufs, msgs, addr) => TransferIsConversation(w, e, p, bufs, msgs, addr);
    case Ask(addr) =>
      if addr > 0x7F {
        ProbeReleases(w, e, addr);
        EmptyItems(EarOf(w).heard);
      } else {
        ProbeIsConversation(w, e, p, addr);
        ProbeTalkHasNoBuffers(p, addr);
      }
  }

  lemma ProbeTalkHasNoBuffers(p: Peer, addr: Byte)
    ensures ProbeTalk(p, addr).bufs == []
  {
    hide Hear;
  }

  /** Any sequence of transfers and probes, valid or not, with or without STOPs between them, is the sequence of their
      conversations: same replies, same target, and one waveform that spells them all. */
  lemma {:induction false} CallsAreConversations(w: Wires, e: Env, p: Peer, calls: seq<Call>)
    requires Between(w) && Patient(e) && w.target == EngineOf(p) && !p.role.Giving?
    ensures var (n, replies) := Calls(w, e, calls); var (q, answers, said) := Talks(p, e, calls);
            && replies == answers && Between(n) && n.target == EngineOf(q) && !q.role.Giving?
            && EarOf(n).heard == EarOf(w).heard + Items(said)
    decreases |calls|
  {
    hide Between, Patient, EngineOf, Decode, Items, Place, TalkOf;
    if calls == [] {
      EmptyItems(EarOf(w).heard);
    } else {
      var rest, c := calls[..|calls| - 1], calls[|calls| - 1];
      CallsAreConversations(w, e, p, rest);
      var n := Calls(w, e, rest).0;
      var (q, _, said) := Talks(p, e, rest);
      CallIsTalk(n, e, q, c);
      var more := TalkOf(q, e, c).said;
      ItemsConcat(said, more);
      assert EarOf(w).heard + Items(said) + Items(more) == EarOf(w).heard + (Items(said) + Items(more));
    }
  }
}
