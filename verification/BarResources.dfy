/** The memory window from which BARs are placed (pcie_resource.c of lab 19), in 32-bit arithmetic. */
module BarWindow {
  import opened Words

  datatype Window = Window(pciBase: Word, cpuBase: Word, size: Word, next: Word)

  datatype Result = OK | ERR_ARGUMENT | ERR_NO_RESOURCE | ERR_UNSUPPORTED

  /** What (a & (a - 1)) == 0 says of a nonzero a. */
  predicate PowerOfTwo(a: nat)
    decreases a
  {
    a == 1 || (a > 1 && a % 2 == 0 && PowerOfTwo(a / 2))
  }

  /** align_up: the sum wraps past the top of the address space. */
  function AlignUp(value: Word, alignment: Word): Word
    requires alignment > 0
  {
    var sum := AddWord(value, alignment - 1);
    sum - sum % alignment
  }

  function Alloc(w: Window, size: Word, alignment: Word): (Window, Result, Word) {
    if size == 0 || alignment == 0 || !PowerOfTwo(alignment) then (w, ERR_ARGUMENT, 0)
    else
      var start := AlignUp(w.next, alignment);
      var limit := AddWord(w.pciBase, w.size);
      if start < w.pciBase || start > limit || size > limit - start then (w, ERR_NO_RESOURCE, 0)
      else (w.(next := AddWord(start, size)), OK, start)
  }

  function Translate(w: Window, addr: Word): (Result, Word) {
    if addr < w.pciBase || addr >= AddWord(w.pciBase, w.size) then (ERR_NO_RESOURCE, 0)
    else (OK, AddWord(w.cpuBase, addr - w.pciBase))
  }

  /** The window does not wrap and allocation has come some way into it. */
  predicate Sane(w: Window) {
    0 < w.size && w.pciBase + w.size < MODULUS && w.pciBase <= w.next <= w.pciBase + w.size
  }

  /** A new window that ends below the top of the address space. */
  lemma NewWindowIsSane(pciBase: Word, cpuBase: Word, size: Word)
    ensures Sane(Window(pciBase, cpuBase, size, pciBase)) <==> size > 0 && pciBase + size < 0x1_0000_0000
  {
  }

  function End(w: Window): nat {
    w.pciBase + w.size
  }

  function Times(k: nat, a: nat): nat {
    k * a
  }

  ghost predicate Multiple(x: nat, a: nat) {
    exists k: nat :: Times(k, a) == x
  }

  /** An aligned range of free space. */
  ghost predicate Available(w: Window, size: nat, alignment: nat, start: nat) {
    Multiple(start, alignment) && w.next <= start && start + size <= End(w)
  }

  lemma PowersDivide(a: nat)
    requires PowerOfTwo(a) && a < MODULUS
    ensures Multiple(MODULUS, a)
  {
    Pow2Values();
    DividesPower(a, WORD_BITS);
  }

  lemma {:induction false} DividesPower(a: nat, n: nat)
    requires PowerOfTwo(a) && a < Pow2(n)
    ensures Multiple(Pow2(n), a)
    decreases n
  {
    if a == 1 {
      assert Times(Pow2(n), 1) == Pow2(n);
    } else {
      var h := a / 2;
      DividesPower(h, n - 1);
      var k: nat :| Times(k, h) == Pow2(n - 1);
      Doubled(k, h);
      assert Times(k, a) == Pow2(n);
    }
  }

  lemma Doubled(k: nat, h: nat)
    ensures Times(k, 2 * h) == 2 * Times(k, h)
  {
  }

  lemma FloorIsMultiple(sum: nat, a: nat)
    requires a > 0
    ensures 0 <= sum - sum % a <= sum < sum - sum % a + a && Multiple(sum - sum % a, a)
  {
    assert Times(sum / a, a) == sum - sum % a;
  }

  /** Different multiples are at least one alignment apart. */
  lemma MultiplesApart(x: nat, y: nat, a: nat)
    requires Multiple(x, a) && Multiple(y, a)
    ensures x < y ==> x + a <= y
  {
    var p: nat, q: nat :| Times(p, a) == x && Times(q, a) == y;
    if p < q {
      assert Times(q - p, a) == y - x && q - p >= 1;
    } else {
      assert Times(p - q, a) == x - y;
    }
  }

  /** Below the wrap, align_up is the least multiple that is not smaller. */
  lemma AlignUpIsLeast(value: Word, a: Word, start: nat)
    requires a > 0 && value + a - 1 < MODULUS
    ensures value <= AlignUp(value, a) < value + a && Multiple(AlignUp(value, a), a)
    ensures Multiple(start, a) && start >= value ==> AlignUp(value, a) <= start
  {
    var sum := value + a - 1;
    assert AddWord(value, a - 1) == sum;
    FloorIsMultiple(sum, a);
    hide Multiple;
    if Multiple(start, a) {
      MultiplesApart(start, AlignUp(value, a), a);
    }
  }

  /** Past the wrap the result is 0, and no aligned range is left below the top. */
  lemma AlignUpWraps(value: Word, a: Word, start: nat)
    requires PowerOfTwo(a) && value + a - 1 >= MODULUS
    ensures AlignUp(value, a) == 0
    ensures Multiple(start, a) && start >= value ==> start >= MODULUS
  {
    PowersDivide(a);
    SmallIsFloored(value, a);
    hide Multiple, AlignUp, PowerOfTwo;
    if Multiple(start, a) {
      MultiplesApart(start, MODULUS, a);
    }
  }

  lemma SmallIsFloored(value: Word, a: Word)
    requires a > 0 && value + a - 1 >= MODULUS
    ensures AlignUp(value, a) == 0
  {
    var sum := value + a - 1 - MODULUS;
    assert AddWord(value, a - 1) == sum;
    SmallMod(sum, a);
  }

  lemma SmallMod(x: nat, a: nat)
    requires x < a
    ensures x % a == x
  {
  }

  lemma LeastAvailable(w: Window, size: Word, alignment: Word)
    requires Sane(w) && alignment > 0 && w.next + alignment - 1 < MODULUS
    ensures var start := AlignUp(w.next, alignment);
            && w.pciBase <= start && (start + size <= End(w) ==> Available(w, size, alignment, start))
            && forall s: nat :: Available(w, size, alignment, s) ==> start <= s && start + size <= End(w)
  {
    hide AlignUp, Multiple;
    AlignUpIsLeast(w.next, alignment, 0);
    forall s: nat | Available(w, size, alignment, s)
      ensures AlignUp(w.next, alignment) <= s && AlignUp(w.next, alignment) + size <= End(w)
    {
      AlignUpIsLeast(w.next, alignment, s);
    }
  }

  lemma NoneAvailable(w: Window, size: Word, alignment: Word)
    requires Sane(w) && PowerOfTwo(alignment) && w.next + alignment - 1 >= MODULUS
    ensures AlignUp(w.next, alignment) == 0 && forall s: nat :: !Available(w, size, alignment, s)
  {
    hide AlignUp, Multiple, PowerOfTwo;
    AlignUpWraps(w.next, alignment, 0);
    forall s: nat ensures !Available(w, size, alignment, s) {
      AlignUpWraps(w.next, alignment, s);
    }
  }

  /** The alignments that are taken are the powers of two. */
  lemma {:induction false} PowerOfTwoMeaning(a: nat)
    ensures PowerOfTwo(a) <==> exists n: nat :: a == Pow2(n)
    decreases a
  {
    if a == 1 {
      assert a == Pow2(0);
    } else if a > 1 {
      PowerOfTwoMeaning(a / 2);
      if n: nat :| a / 2 == Pow2(n) && a % 2 == 0 {
        assert a == Pow2(n + 1);
      }
      if n: nat :| a == Pow2(n) {
        assert n > 0 && a == 2 * Pow2(n - 1);
        assert a % 2 == 0 && a / 2 == Pow2(n - 1);
      }
    }
  }

  /** A request for nothing, or with an alignment that is no power of two, is an argument error and changes nothing;
      every other one is granted or finds no room. */
  lemma ArgumentsAreChecked(w: Window, size: Word, alignment: Word)
    ensures var (n, r, _) := Alloc(w, size, alignment);
            && (r == ERR_ARGUMENT <==> size == 0 || !exists k: nat :: alignment == Pow2(k))
            && (r != OK ==> n == w) && r in {OK, ERR_ARGUMENT, ERR_NO_RESOURCE}
  {
    hide AlignUp;
    PowerOfTwoMeaning(alignment);
  }

  /** With a nonzero base the request is met exactly when some aligned range of free space is large enough, and then at
      the least such address; everything below it stays free for nobody. */
  lemma AllocIsLeastFit(w: Window, size: Word, alignment: Word)
    requires Sane(w) && w.pciBase > 0 && size > 0 && PowerOfTwo(alignment)
    ensures var (n, r, start) := Alloc(w, size, alignment);
            && (r == OK <==> exists s: nat :: Available(w, size, alignment, s))
            && (r == OK ==>
                  && Available(w, size, alignment, start) && n == w.(next := start + size) && Sane(n)
                  && forall s: nat :: Available(w, size, alignment, s) ==> start <= s)
            && (r != OK ==> r == ERR_NO_RESOURCE && n == w)
  {
    assert alignment > 0;
    hide PowerOfTwo, AlignUp, Available, AddWord;
    var start := AlignUp(w.next, alignment);
    NoWrap(w.pciBase, w.size);
    if w.next + alignment - 1 < MODULUS {
      LeastAvailable(w, size, alignment);
      if start + size <= End(w) { NoWrap(start, size); }
    } else {
      NoneAvailable(w, size, alignment);
    }
    if Available(w, size, alignment, start) { AvailableIsInside(w, size, alignment, start); }
  }

  lemma AvailableIsInside(w: Window, size: nat, alignment: nat, start: nat)
    requires Available(w, size, alignment, start)
    ensures Multiple(start, alignment) && w.next <= start && start + size <= End(w)
  {
  }

  /** A base of zero is the exception: then, and only when align_up wraps, memory already given is given again. */
  lemma ReuseExactlyOnWrap(w: Window, size: Word, alignment: Word)
    requires Sane(w) && size > 0 && PowerOfTwo(alignment) && Alloc(w, size, alignment).1 == OK
    ensures Alloc(w, size, alignment).2 < w.next <==> w.next + alignment - 1 >= MODULUS
    ensures w.next + alignment - 1 >= MODULUS ==> w.pciBase == 0
  {
    hide PowerOfTwo, AlignUp;
    if w.next + alignment - 1 >= MODULUS {
      AlignUpWraps(w.next, alignment, 0);
    } else {
      AlignUpIsLeast(w.next, alignment, 0);
    }
  }

  lemma ZeroBaseGivesTwice()
    ensures var w := Window(0, 0, 0xFFFFFFFF, 0xFFFFFFF8);
            Sane(w) && Alloc(w, 16, 16).1 == OK && Alloc(w, 16, 16).2 == 0
  {
  }

  // Whole sequences of requests

  datatype Request = Request(size: Word, alignment: Word)

  datatype Grant = Grant(start: nat, size: nat, alignment: nat)

  function AllocAll(w: Window, requests: seq<Request>): (Window, seq<Grant>)
    decreases |requests|
  {
    if requests == [] then (w, [])
    else
      var (m, grants) := AllocAll(w, requests[..|requests| - 1]);
      var q := requests[|requests| - 1];
      var (n, r, start) := Alloc(m, q.size, q.alignment);
      (n, if r == OK then grants + [Grant(start, q.size, q.alignment)] else grants)
  }

  ghost predicate Placed(w: Window, grants: seq<Grant>, upTo: nat) {
    && (forall i :: 0 <= i < |grants| ==>
          && w.pciBase <= grants[i].start && grants[i].size > 0 && grants[i].start + grants[i].size <= upTo
          && Multiple(grants[i].start, grants[i].alignment))
    && (forall i, j :: 0 <= i < j < |grants| ==> grants[i].start + grants[i].size <= grants[j].start)
  }

  /** Over any sequence of requests, good or bad: what is granted is aligned and lies in the window, and no two
      grants meet. */
  lemma {:induction false} GrantsAreDisjoint(w: Window, requests: seq<Request>)
    requires Sane(w) && w.pciBase > 0
    ensures var (n, grants) := AllocAll(w, requests);
            && Sane(n) && n == w.(next := n.next) && Placed(w, grants, n.next) && n.next <= End(w)
    decreases |requests|
  {
    if requests != [] {
      GrantsAreDisjoint(w, requests[..|requests| - 1]);
      var m := AllocAll(w, requests[..|requests| - 1]).0;
      var q := requests[|requests| - 1];
      hide PowerOfTwo, Alloc, Multiple, Placed;
      var (n, r, start) := Alloc(m, q.size, q.alignment);
      if r == OK {
        AllocChecks(m, q.size, q.alignment);
        AllocIsLeastFit(m, q.size, q.alignment);
        AvailableIsInside(m, q.size, q.alignment, start);
        PlacedNext(w, AllocAll(w, requests[..|requests| - 1]).1, m.next, Grant(start, q.size, q.alignment));
      } else {
        RefusalChangesNothing(m, q.size, q.alignment);
      }
    }
  }

  lemma PlacedNext(w: Window, grants: seq<Grant>, upTo: nat, g: Grant)
    requires Placed(w, grants, upTo) && w.pciBase <= upTo <= g.start && g.size > 0 && Multiple(g.start, g.alignment)
    ensures Placed(w, grants + [g], g.start + g.size)
  {
  }

  lemma AllocChecks(w: Window, size: Word, alignment: Word)
    requires Alloc(w, size, alignment).1 == OK
    ensures size > 0 && PowerOfTwo(alignment)
  {
  }

  lemma RefusalChangesNothing(w: Window, size: Word, alignment: Word)
    ensures Alloc(w, size, alignment).1 != OK ==> Alloc(w, size, alignment).0 == w
  {
  }

  // Translation

  /** Inside the window, and only there, translation answers: with the CPU address as far from the CPU's base as the bus
      address is from the bus's base; so it keeps distances. */
  lemma TranslationKeepsOffsets(w: Window, a: Word, b: Word)
    requires w.pciBase + w.size < MODULUS
    ensures Translate(w, a).0 == OK <==> w.pciBase <= a < w.pciBase + w.size
    ensures Translate(w, a).0 == OK ==> Translate(w, a).1 == (w.cpuBase + (a - w.pciBase)) % 0x1_0000_0000
    ensures Translate(w, a).0 != OK ==> Translate(w, a) == (ERR_NO_RESOURCE, 0)
    ensures Translate(w, a).0 == OK && Translate(w, b).0 == OK ==>
              && SubWord(Translate(w, b).1, Translate(w, a).1) == SubWord(b, a)
              && (Translate(w, a).1 == Translate(w, b).1 ==> a == b)
  {
    assert w.pciBase <= a ==> AddWord(w.cpuBase, a - w.pciBase) == (w.cpuBase + (a - w.pciBase)) % 0x1_0000_0000;
    hide AddWord, SubWord;
    assert AddWord(w.pciBase, w.size) == End(w) by { NoWrap(w.pciBase, w.size); }
    if w.pciBase <= a < End(w) && w.pciBase <= b < End(w) {
      DistanceIsKept(w.cpuBase, a - w.pciBase, b - w.pciBase);
      DistanceIsKept(w.pciBase, a - w.pciBase, b - w.pciBase);
      NoWrap(w.pciBase, a - w.pciBase);
      NoWrap(w.pciBase, b - w.pciBase);
    }
  }

  lemma NoWrap(x: Word, y: Word)
    requires x + y < MODULUS
    ensures AddWord(x, y) == x + y
  {
  }

  lemma DistanceIsKept(base: Word, x: Word, y: Word)
    ensures SubWord(AddWord(base, y), AddWord(base, x)) == SubWord(y, x)
    ensures AddWord(base, x) == AddWord(base, y) ==> x == y
  {
    assert AddWord(base, x) == if base + x < MODULUS then base + x else base + x - MODULUS;
    assert AddWord(base, y) == if base + y < MODULUS then base + y else base + y - MODULUS;
    hide AddWord;
    var p, q := AddWord(base, y), AddWord(base, x);
    assert SubWord(y, x) == if y >= x then y - x else y - x + MODULUS;
    assert SubWord(p, q) == if p >= q then p - q else p - q + MODULUS;
  }

  // The window as a program

  class Allocator {
    var pciBase: Word
    var cpuBase: Word
    var size: Word
    var next: Word

    ghost function State(): Window
      reads this
    {
      Window(pciBase, cpuBase, size, next)
    }

    constructor ()
      ensures State() == Window(0, 0, 0, 0)
    {
      pciBase, cpuBase, size, next := 0, 0, 0, 0;
    }

    /** lab_pcie_resource_window_init */
    method Initialise(pciBase: Word, cpuBase: Word, size: Word) returns (result: Result)
      modifies this
      ensures if size == 0 then result == ERR_ARGUMENT && State() == old(State())
              else result == OK && State() == Window(pciBase, cpuBase, size, pciBase)
    {
      if size == 0 { return ERR_ARGUMENT; }
      this.pciBase, this.cpuBase, this.size, this.next := pciBase, cpuBase, size, pciBase;
      return OK;
    }

    method Allocate(want: Word, alignment: Word) returns (result: Result, addr: Word)
      modifies this`next
      ensures (State(), result, addr) == Alloc(old(State()), want, alignment)
    {
      hide PowerOfTwo;
      if want == 0 || alignment == 0 || !PowerOfTwo(alignment) { return ERR_ARGUMENT, 0; }
      var start := AlignUp(next, alignment);
      var limit := AddWord(pciBase, size);
      if start < pciBase || start > limit || want > limit - start { return ERR_NO_RESOURCE, 0; }
      next := AddWord(start, want);
      return OK, start;
    }

    method TranslateAddress(addr: Word) returns (result: Result, cpu: Word)
      ensures (result, cpu) == Translate(State(), addr)
    {
      if addr < pciBase || addr >= AddWord(pciBase, size) { return ERR_NO_RESOURCE, 0; }
      return OK, AddWord(cpuBase, addr - pciBase);
    }
  }
}
