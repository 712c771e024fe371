/** The reflected shift register is polynomial long division over GF(2), and what follows for error detection.

    A polynomial is written as its coefficients, highest degree first. The reflected register keeps the
    coefficient of x^31 in bit 0, and the wire order of IEEE 802.3 sends each byte low bit first. */
module CrcDivision {
  import opened Words
  import opened Crc

  type Bits = seq<bool>

  /** x^26 + x^23 + x^22 + x^16 + x^12 + x^11 + x^10 + x^8 + x^7 + x^5 + x^4 + x^2 + x + 1; x^32 is implied. */
  const GENERATOR: Bits := [false, false, false, false, false, true, false, false,
                            true, true, false, false, false, false, false, true,
                            false, false, false, true, true, true, false, true,
                            true, false, true, true, false, true, true, true]

  function Plus(a: Bits, b: Bits): (c: Bits)
    requires |a| == |b|
    ensures |c| == |a|
  {
    seq(|a|, i requires 0 <= i < |a| => a[i] != b[i])
  }

  function Zeros(n: nat): (z: Bits)
    ensures |z| == n && forall i :: 0 <= i < n ==> !z[i]
  {
    seq(n, _ => false)
  }

  /** School long division: whenever the leading coefficient is set, subtract the generator below it. */
  function Remainder(dividend: Bits): (r: Bits)
    requires |dividend| >= 32
    ensures |r| == 32
    decreases |dividend|
  {
    if |dividend| == 32 then dividend
    else if dividend[0] then Remainder(Plus(dividend[1..33], GENERATOR) + dividend[33..])
    else Remainder(dividend[1..])
  }

  /** One clock of the serial divider, message bit b entering at the top. */
  function Clock(r: Bits, b: bool): (s: Bits)
    requires |r| == 32
    ensures |s| == 32
  {
    if r[0] != b then Plus(r[1..] + [false], GENERATOR) else r[1..] + [false]
  }

  function Serial(r: Bits, message: Bits): (s: Bits)
    requires |r| == 32
    ensures |s| == 32
    decreases |message|
  {
    if message == [] then r else Serial(Clock(r, message[0]), message[1..])
  }

  function Dividend(r: Bits, message: Bits): (d: Bits)
    requires |r| == 32
    ensures |d| == |message| + 32
  {
    Plus(message + Zeros(32), r + Zeros(|message|))
  }

  /** One step of long division is one clock of the divider. */
  lemma DividendAfterClock(r: Bits, message: Bits)
    requires |r| == 32 && message != []
    ensures var d := Dividend(r, message);
            Dividend(Clock(r, message[0]), message[1..]) ==
            if d[0] then Plus(d[1..33], GENERATOR) + d[33..] else d[1..]
  {
    var d, rest := Dividend(r, message), message[1..];
    var next := Dividend(Clock(r, message[0]), rest);
    var expected := if d[0] then Plus(d[1..33], GENERATOR) + d[33..] else d[1..];
    assert |GENERATOR| == 32;
    assert d[0] == (r[0] != message[0]);
    forall i | 0 <= i < 32 ensures next[i] == expected[i] {
      assert d[i + 1] == ((message + Zeros(32))[i + 1] != (r + Zeros(|message|))[i + 1]);
      assert (rest + Zeros(32))[i] == (message + Zeros(32))[i + 1];
      assert (r[1..] + [false])[i] == (r + Zeros(|message|))[i + 1];
    }
    forall i | 32 <= i < |next| ensures next[i] == expected[i] {
      assert expected[i] == d[i + 1];
      assert (rest + Zeros(32))[i] == (message + Zeros(32))[i + 1];
    }
  }

  /** The serial divider started at r leaves the remainder of message * x^32 + r * x^|message|. */
  lemma {:induction false} SerialIsRemainder(r: Bits, message: Bits)
    requires |r| == 32
    ensures Serial(r, message) == Remainder(Dividend(r, message))
    decreases |message|
  {
    if message == [] {
      assert Dividend(r, message) == r;
    } else {
      DividendAfterClock(r, message);
      SerialIsRemainder(Clock(r, message[0]), message[1..]);
    }
  }

  lemma {:induction false} SerialConcat(r: Bits, a: Bits, b: Bits)
    requires |r| == 32
    ensures Serial(r, a + b) == Serial(Serial(r, a), b)
    decreases |a|
  {
    if a == [] {
      assert a + b == b;
    } else {
      assert (a + b)[1..] == a[1..] + b;
      SerialConcat(Clock(r, a[0]), a[1..], b);
    }
  }

  /** Up to 32 message bits may be added to the register beforehand and zeros clocked in instead. */
  lemma {:induction false} SerialFeedForward(r: Bits, message: Bits)
    requires |r| == 32 && |message| <= 32
    ensures Serial(r, message) == Serial(Plus(r, message + Zeros(32 - |message|)), Zeros(|message|))
    decreases |message|
  {
    if message == [] {
      assert Plus(r, message + Zeros(32)) == r;
    } else {
      var b, rest := message[0], message[1..];
      var ahead := Plus(r, message + Zeros(32 - |message|));
      assert Zeros(|message|)[1..] == Zeros(|rest|);
      var padded := rest + Zeros(32 - |rest|);
      assert Clock(ahead, false) == Plus(Clock(r, b), padded);
      SerialFeedForward(Clock(r, b), rest);
    }
  }

  lemma ClockIsInjective(r: Bits, s: Bits, b: bool)
    requires |r| == |s| == 32 && Clock(r, b) == Clock(s, b)
    ensures r == s
  {
    var x, y := r[1..] + [false], s[1..] + [false];
    assert Clock(r, b)[31] == (r[0] != b) && Clock(s, b)[31] == (s[0] != b);
    assert r[0] == s[0];
    forall i | 0 <= i < 32 ensures x[i] == y[i] {
      assert Clock(r, b)[i] == Clock(s, b)[i];
    }
    forall i | 1 <= i < 32 ensures r[i] == s[i] {
      assert r[i] == x[i - 1] && s[i] == y[i - 1];
    }
  }

  lemma {:induction false} SerialIsInjective(r: Bits, s: Bits, message: Bits)
    requires |r| == |s| == 32 && Serial(r, message) == Serial(s, message)
    ensures r == s
    decreases |message|
  {
    if message != [] {
      SerialIsInjective(Clock(r, message[0]), Clock(s, message[0]), message[1..]);
      ClockIsInjective(r, s, message[0]);
    }
  }

  lemma PlusCancels(r: Bits, u: Bits, v: Bits)
    requires |r| == |u| == |v| && Plus(r, u) == Plus(r, v)
    ensures u == v
  {
    forall i | 0 <= i < |u| ensures u[i] == v[i] {
      assert Plus(r, u)[i] == Plus(r, v)[i];
    }
  }

  /** A difference confined to 32 consecutive message bits always changes the remainder. */
  lemma SerialDetectsBurst(r: Bits, u: Bits, v: Bits, tail: Bits)
    requires |r| == |u| == |v| == 32 && u != v
    ensures Serial(r, u + tail) != Serial(r, v + tail)
  {
    SerialConcat(r, u, tail);
    SerialConcat(r, v, tail);
    if Serial(r, u + tail) == Serial(r, v + tail) {
      SerialIsInjective(Serial(r, u), Serial(r, v), tail);
      WordDistinguished(r, u, v);
    }
  }

  lemma WordDistinguished(r: Bits, u: Bits, v: Bits)
    requires |r| == |u| == |v| == 32 && Serial(r, u) == Serial(r, v)
    ensures u == v
  {
    SerialFeedForward(r, u);
    SerialFeedForward(r, v);
    assert u + Zeros(0) == u && v + Zeros(0) == v;
    SerialIsInjective(Plus(r, u), Plus(r, v), Zeros(32));
    PlusCancels(r, u, v);
  }
}
