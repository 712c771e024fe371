/** The byte ring between the receive interrupt and the main loop (lab 11), access by access. */
module RingBuffer {
  import opened Words

  const RB_SIZE := 64
  const CAPACITY := 63

  /** Where the main loop is inside rb_pop: what it has loaded from the shared fields so far. */
  datatype Pc = Outside | HaveHead(head: nat) | HaveByte(byte: Byte)

  /** The shared fields and the main loop's registers; accepted and returned record what crossed the interface. */
  datatype Ring = Ring(data: seq<Byte>, head: nat, tail: nat, pc: Pc, accepted: seq<Byte>, returned: seq<Byte>)

  predicate Shaped(r: Ring) {
    |r.data| == RB_SIZE && r.head < RB_SIZE && r.tail < RB_SIZE
  }

  function Count(r: Ring): nat
    requires Shaped(r)
  {
    if r.head >= r.tail then r.head - r.tail else RB_SIZE + r.head - r.tail
  }

  function At(tail: nat, i: nat): (k: nat)
    ensures k < RB_SIZE
  {
    (tail + i) % RB_SIZE
  }

  /** The bytes from tail up to head, around the end. */
  function Queue(r: Ring): (q: seq<Byte>)
    requires Shaped(r)
    ensures |q| == Count(r)
  {
    seq(Count(r), i requires 0 <= i < Count(r) => r.data[At(r.tail, i)])
  }

  // The two programs

  /** rb_push, which the interrupt runs without being preempted by the main loop. */
  function Push(r: Ring, c: Byte): (Ring, bool)
    requires Shaped(r)
  {
    if (r.head + 1) % RB_SIZE == r.tail then (r, false)
    else (r.(data := r.data[r.head := c], head := (r.head + 1) % RB_SIZE, accepted := r.accepted + [c]), true)
  }

  /** The next shared access of rb_pop: the load of head, of the byte, and the store of tail. */
  function PopStep(r: Ring): Ring
    requires Shaped(r)
  {
    match r.pc
    case Outside => r.(pc := HaveHead(r.head))
    case HaveHead(head) => if head == r.tail then r.(pc := Outside) else r.(pc := HaveByte(r.data[r.tail]))
    case HaveByte(byte) => r.(tail := (r.tail + 1) % RB_SIZE, pc := Outside, returned := r.returned + [byte])
  }

  datatype Step = Interrupt(c: Byte) | MainLoop

  function Take(r: Ring, s: Step): (n: Ring)
    requires Shaped(r)
    ensures Shaped(n)
  {
    match s
    case Interrupt(c) => Push(r, c).0
    case MainLoop => PopStep(r)
  }

  function Zeros(n: nat): (z: seq<Byte>)
    ensures |z| == n
  {
    if n == 0 then [] else Zeros(n - 1) + [0]
  }

  /** rb_init; the bytes themselves do not matter. */
  const EMPTY: Ring := Ring(Zeros(RB_SIZE), 0, 0, Outside, [], [])

  // The FIFO behind it

  /** What the main loop holds agrees with the queue, whatever has been pushed since. */
  ghost predicate Linear(r: Ring) {
    && Shaped(r)
    && r.accepted == r.returned + Queue(r)
    && (match r.pc
        case Outside => true
        case HaveHead(head) => head < RB_SIZE && (head != r.tail ==> Queue(r) != [])
        case HaveByte(byte) => Queue(r) != [] && Queue(r)[0] == byte)
  }

  lemma PushedQueue(r: Ring, c: Byte)
    requires Shaped(r) && Count(r) < CAPACITY
    ensures Shaped(Push(r, c).0) && Queue(Push(r, c).0) == Queue(r) + [c]
    ensures Push(r, c).1
  {
    var n := Push(r, c).0;
    assert Count(n) == Count(r) + 1;
    forall i | 0 <= i < Count(r) ensures n.data[At(r.tail, i)] == r.data[At(r.tail, i)] {
      assert At(r.tail, i) != r.head;
    }
    assert At(r.tail, Count(r)) == r.head;
  }

  lemma FullIsCapacity(r: Ring)
    requires Shaped(r)
    ensures (r.head + 1) % RB_SIZE == r.tail <==> Count(r) == CAPACITY
    ensures Count(r) <= CAPACITY
    ensures r.head == r.tail <==> Count(r) == 0
  {
  }

  lemma PoppedQueue(r: Ring)
    requires Shaped(r) && Queue(r) != []
    ensures var n := r.(tail := (r.tail + 1) % RB_SIZE); Shaped(n) && Queue(n) == Queue(r)[1..]
    ensures r.data[r.tail] == Queue(r)[0]
  {
    var n := r.(tail := (r.tail + 1) % RB_SIZE);
    assert Count(n) == Count(r) - 1;
    forall i | 0 <= i < Count(n) ensures At(n.tail, i) == At(r.tail, i + 1) {
    }
    assert At(r.tail, 0) == r.tail;
  }

  /** A push is refused exactly when 63 bytes are queued, and otherwise appends; it disturbs no pop under way. */
  lemma PushIsLinear(r: Ring, c: Byte)
    requires Linear(r)
    ensures var (n, ok) := Push(r, c);
            && Linear(n) && n.returned == r.returned && n.pc == r.pc
            && (ok <==> |Queue(r)| < CAPACITY)
            && (ok ==> n.accepted == r.accepted + [c] && Queue(n) == Queue(r) + [c])
            && (!ok ==> n == r)
  {
    FullIsCapacity(r);
    if Count(r) < CAPACITY {
      PushedQueue(r, c);
      hide Queue;
      assert r.returned + Queue(r) + [c] == r.returned + (Queue(r) + [c]);
    }
  }

  /** A pop takes effect at its store of tail, and fails only if the queue was empty at its load of head. */
  lemma PopIsLinear(r: Ring)
    requires Linear(r)
    ensures var n := PopStep(r);
            && Linear(n) && n.accepted == r.accepted
            && (r.pc.HaveByte? ==>
                  Queue(r) != [] && n.returned == r.returned + [Queue(r)[0]] && Queue(n) == Queue(r)[1..])
            && (!r.pc.HaveByte? ==> n.returned == r.returned && Queue(n) == Queue(r))
            && (r.pc.Outside? ==> n.pc == HaveHead(r.head) && (n.pc.head == n.tail <==> Queue(r) == []))
            && (r.pc.HaveHead? ==> n.pc == if r.pc.head == r.tail then Outside else HaveByte(Queue(r)[0]))
  {
    FullIsCapacity(r);
    if Queue(r) != [] {
      PoppedQueue(r);
      assert r.returned + Queue(r) == r.returned + [Queue(r)[0]] + Queue(r)[1..];
    }
  }

  function Pushes(r: Ring, cs: seq<Byte>): (n: Ring)
    requires Shaped(r)
    ensures Shaped(n)
    decreases |cs|
  {
    if cs == [] then r else Pushes(Push(r, cs[0]).0, cs[1..])
  }

  lemma {:induction false} PushesKeepFront(r: Ring, cs: seq<Byte>)
    requires Linear(r)
    ensures var n := Pushes(r, cs);
            && Linear(n) && n.pc == r.pc && n.tail == r.tail && n.returned == r.returned && Queue(r) <= Queue(n)
    decreases |cs|
  {
    hide Linear, Queue, Push;
    if cs != [] {
      LinearIsShaped(r);
      PushIsLinear(r, cs[0]);
      PushKeepsTail(r, cs[0]);
      PushesKeepFront(Push(r, cs[0]).0, cs[1..]);
    }
  }

  lemma LinearIsShaped(r: Ring)
    requires Linear(r)
    ensures Shaped(r)
  {
  }

  lemma PushKeepsTail(r: Ring, c: Byte)
    requires Shaped(r)
    ensures Push(r, c).0.tail == r.tail
  {
  }

  /** A whole pop, with any bytes arriving between its accesses: it fails exactly if the queue was empty when it began,
      and otherwise returns what was at the front then. */
  lemma PopTakesFront(r: Ring, cs: seq<Byte>, ds: seq<Byte>)
    requires Linear(r) && r.pc == Outside
    ensures var looked := PopStep(Pushes(PopStep(r), cs));
            if Queue(r) == [] then looked.pc == Outside && looked.returned == r.returned
            else
              var taken := PopStep(Pushes(looked, ds));
              looked.pc.HaveByte? && taken.pc == Outside && taken.returned == r.returned + [Queue(r)[0]]
  {
    hide Linear, Queue, PopStep, Pushes;
    LinearIsShaped(r);
    PopIsLinear(r);
    var a := PopStep(r);
    PopKeepsTail(r);
    PushesKeepFront(a, cs);
    var b := Pushes(a, cs);
    PopIsLinear(b);
    var looked := PopStep(b);
    if Queue(r) != [] {
      LinearIsShaped(looked);
      PushesKeepFront(looked, ds);
      PopIsLinear(Pushes(looked, ds));
      PopEnds(Pushes(looked, ds));
    }
  }

  lemma PopKeepsTail(r: Ring)
    requires Shaped(r) && r.pc == Outside
    ensures PopStep(r).tail == r.tail
  {
  }

  lemma PopEnds(r: Ring)
    requires Shaped(r) && r.pc.HaveByte?
    ensures PopStep(r).pc == Outside
  {
  }

  lemma StepIsLinear(r: Ring, s: Step)
    requires Linear(r)
    ensures Linear(Take(r, s))
  {
    match s
    case Interrupt(c) => PushIsLinear(r, c);
    case MainLoop => PopIsLinear(r);
  }

  function Run(steps: seq<Step>): (r: Ring)
    ensures Shaped(r)
    decreases |steps|
  {
    if steps == [] then EMPTY else Take(Run(steps[..|steps| - 1]), steps[|steps| - 1])
  }

  lemma {:induction false} RunIsLinear(steps: seq<Step>)
    ensures Linear(Run(steps))
    decreases |steps|
  {
    hide Queue;
    if steps == [] {
      FullIsCapacity(EMPTY);
      assert |Queue(EMPTY)| == 0;
    } else {
      RunIsLinear(steps[..|steps| - 1]);
      StepIsLinear(Run(steps[..|steps| - 1]), steps[|steps| - 1]);
    }
  }

  /** Over every interleaving of interrupts with the accesses of rb_pop: the bytes returned are the bytes accepted, in
      order and each once, up to the at most 63 still queued. */
  lemma NothingLostOrRepeated(steps: seq<Step>)
    ensures Linear(Run(steps))
    ensures var r := Run(steps);
            r.returned <= r.accepted && r.accepted == r.returned + Queue(r) && |Queue(r)| <= CAPACITY
  {
    RunIsLinear(steps);
    FullIsCapacity(Run(steps));
  }

  // The ring as a program

  class Buffer {
    const data: array<Byte>
    var head: nat
    var tail: nat
    ghost var accepted: seq<Byte>
    ghost var returned: seq<Byte>

    ghost function State(): Ring
      reads this, data
    {
      Ring(data[..], head, tail, Outside, accepted, returned)
    }

    constructor ()
      ensures Linear(State()) && Queue(State()) == [] && fresh(data)
    {
      data := new Byte[RB_SIZE];
      head, tail, accepted, returned := 0, 0, [], [];
    }

    method Empty() returns (empty: bool)
      requires Shaped(State())
      ensures empty <==> Queue(State()) == []
    {
      FullIsCapacity(State());
      return head == tail;
    }

    method Full() returns (full: bool)
      requires Shaped(State())
      ensures full <==> |Queue(State())| == CAPACITY
    {
      FullIsCapacity(State());
      return (head + 1) % RB_SIZE == tail;
    }

    method PushByte(c: Byte) returns (ok: bool)
      requires Linear(State())
      modifies this, data
      ensures (State(), ok) == Push(old(State()), c)
      ensures Linear(State())
      ensures Queue(State()) == if ok then old(Queue(State())) + [c] else old(Queue(State()))
    {
      PushIsLinear(State(), c);
      FullIsCapacity(State());
      hide Queue;
      var full := Full();
      if full { return false; }
      data[head] := c;
      head := (head + 1) % RB_SIZE;
      accepted := accepted + [c];
      return true;
    }

    method PopByte() returns (ok: bool, c: Byte)
      requires Linear(State())
      modifies this
      ensures Linear(State()) && (ok <==> old(Queue(State())) != [])
      ensures if ok then old(Queue(State())) == [c] + Queue(State()) else State() == old(State())
      ensures State() == if ok then PopStep(PopStep(PopStep(old(State())))) else PopStep(PopStep(old(State())))
    {
      var empty := Empty();
      if empty { return false, 0; }
      PoppedQueue(State());
      assert returned + Queue(State()) == returned + [Queue(State())[0]] + Queue(State())[1..];
      ghost var was := Queue(State());
      c := data[tail];
      tail := (tail + 1) % RB_SIZE;
      returned := returned + [c];
      assert Queue(State()) == was[1..];
      return true, c;
    }
  }
}
