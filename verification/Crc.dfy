/** The 16-bit CRC that guards firmware images: a bitwise shift register with polynomial 0x1021 and
    the input shifted in at the low end. Bytes and words are their bits, most significant first. */
module Crc {

  datatype Byte = Byte(b7: bool, b6: bool, b5: bool, b4: bool, b3: bool, b2: bool, b1: bool, b0: bool) {
    function ShiftLeft(): Byte {
      Byte(b6, b5, b4, b3, b2, b1, b0, false)
    }
  }

  const ZERO := Byte(false, false, false, false, false, false, false, false)

  const WIDTH: nat := 16

  // ----- words -----

  function Zeros(n: nat): (w: seq<bool>)
    ensures |w| == n && forall i :: 0 <= i < n ==> !w[i]
  {
    seq(n, _ => false)
  }

  function Xor(a: seq<bool>, b: seq<bool>): (c: seq<bool>)
    requires |a| == |b|
    ensures |c| == |a| && forall i :: 0 <= i < |c| ==> c[i] == (a[i] != b[i])
  {
    seq(|a|, i requires 0 <= i < |a| => a[i] != b[i])
  }

  /** The bits of 0x1021. */
  function Poly(): (p: seq<bool>)
    ensures |p| == WIDTH && p[WIDTH - 1]
  {
    [false, false, false, true] + [false, false, false, false] + [false, false, true, false]
      + [false, false, false, true]
  }

  /** One bit into the register. */
  function Step(crc: seq<bool>, bit: bool): (r: seq<bool>)
    requires |crc| == WIDTH
    ensures |r| == WIDTH
  {
    if crc[0] then Xor(crc[1..] + [bit], Poly()) else crc[1..] + [bit]
  }

  function Run(crc: seq<bool>, bits: seq<bool>): (r: seq<bool>)
    requires |crc| == WIDTH
    ensures |r| == WIDTH
    decreases |bits|
  {
    if bits == [] then crc else Run(Step(crc, bits[0]), bits[1..])
  }

  function ByteBits(b: Byte): (bits: seq<bool>)
    ensures |bits| == 8
  {
    [b.b7, b.b6, b.b5, b.b4, b.b3, b.b2, b.b1, b.b0]
  }

  function Bits(bytes: seq<Byte>): (bits: seq<bool>)
    ensures |bits| == 8 * |bytes|
  {
    if bytes == [] then [] else ByteBits(bytes[0]) + Bits(bytes[1..])
  }

  /** crc16: one byte into the register. */
  method Crc16(crc0: seq<bool>, val0: Byte) returns (crc: seq<bool>)
    requires |crc0| == WIDTH
    ensures |crc| == WIDTH && crc == Run(crc0, ByteBits(val0))
  {
    hide Run, Step, Xor, Poly, ByteBits;
    var val, cnt := val0, 0;
    crc := crc0;
    ghost var bits := ByteBits(val0);
    while cnt < 8
      invariant cnt <= 8 && |crc| == WIDTH && |bits| == 8 - cnt && bits <= ByteBits(val)
      invariant Run(crc, bits) == Run(crc0, ByteBits(val0))
    {
      RunStep(crc, bits);
      StepIs(crc, bits[0]);
      ShiftedBits(val, bits);
      var msb := crc[0];
      crc := crc[1..] + [false];
      if val.b7 {
        crc := crc[WIDTH - 1 := true];
      }
      if msb {
        crc := Xor(crc, Poly());
      }
      bits := bits[1..];
      val, cnt := val.ShiftLeft(), cnt + 1;
    }
    RunNone(crc, bits);
  }

  lemma ShiftedBits(val: Byte, bits: seq<bool>)
    requires bits != [] && bits <= ByteBits(val)
    ensures bits[0] == val.b7 && bits[1..] <= ByteBits(val.ShiftLeft())
  {
    assert ByteBits(val.ShiftLeft()) == ByteBits(val)[1..] + [false];
    assert bits == ByteBits(val)[..|bits|];
  }

  lemma StepIs(crc: seq<bool>, bit: bool)
    requires |crc| == WIDTH
    ensures (crc[1..] + [false])[WIDTH - 1 := true] == crc[1..] + [true]
    ensures Step(crc, bit) == if crc[0] then Xor(crc[1..] + [bit], Poly()) else crc[1..] + [bit]
  {
  }

  lemma RunStep(crc: seq<bool>, bits: seq<bool>)
    requires |crc| == WIDTH && bits != []
    ensures Run(crc, bits) == Run(Step(crc, bits[0]), bits[1..])
  {
    hide Step;
  }

  lemma RunNone(crc: seq<bool>, bits: seq<bool>)
    requires |crc| == WIDTH && bits == []
    ensures Run(crc, bits) == crc
  {
  }

  lemma {:induction false} RunAppend(crc: seq<bool>, a: seq<bool>, b: seq<bool>)
    requires |crc| == WIDTH
    ensures Run(crc, a + b) == Run(Run(crc, a), b)
    decreases |a|
  {
    hide Step, Run;
    if a == [] {
      assert a + b == b;
      RunNone(crc, a);
    } else {
      RunStep(crc, a);
      RunStep(crc, a + b);
      assert (a + b)[1..] == a[1..] + b;
      RunAppend(Step(crc, a[0]), a[1..], b);
    }
  }

  lemma {:induction false} BitsAppend(a: seq<Byte>, b: seq<Byte>)
    ensures Bits(a + b) == Bits(a) + Bits(b)
    decreases |a|
  {
    hide ByteBits;
    if a == [] {
      assert a + b == b;
    } else {
      assert (a + b)[1..] == a[1..] + b;
      BitsAppend(a[1..], b);
    }
  }

  // ----- the register is linear -----

  lemma StepLinear(c: seq<bool>, d: seq<bool>, x: bool, y: bool)
    requires |c| == |d| == WIDTH
    ensures Step(Xor(c, d), x != y) == Xor(Step(c, x), Step(d, y))
  {
    hide Poly;
    var l, r := Step(Xor(c, d), x != y), Xor(Step(c, x), Step(d, y));
    forall i | 0 <= i < WIDTH ensures l[i] == r[i] {
    }
  }

  lemma {:induction false} RunLinear(c: seq<bool>, d: seq<bool>, a: seq<bool>, b: seq<bool>)
    requires |a| == |b| && |c| == |d| == WIDTH
    ensures Run(Xor(c, d), Xor(a, b)) == Xor(Run(c, a), Run(d, b))
    decreases |a|
  {
    hide Step, Run;
    if a == [] {
      RunNone(c, a);
      RunNone(d, b);
      RunNone(Xor(c, d), Xor(a, b));
    } else {
      RunStep(c, a);
      RunStep(d, b);
      RunStep(Xor(c, d), Xor(a, b));
      StepLinear(c, d, a[0], b[0]);
      assert Xor(a, b)[1..] == Xor(a[1..], b[1..]);
      RunLinear(Step(c, a[0]), Step(d, b[0]), a[1..], b[1..]);
    }
  }

  // ----- zero bits never clear it, nor fill it -----

  ghost predicate Nonzero(w: seq<bool>) {
    exists i :: 0 <= i < |w| && w[i]
  }

  lemma ZeroStep(c: seq<bool>)
    requires |c| == WIDTH
    ensures Nonzero(Step(c, false)) <==> Nonzero(c)
  {
    hide Poly;
    var s := Step(c, false);
    if c[0] {
      assert s[WIDTH - 1];
    } else if Nonzero(c) {
      var i :| 0 <= i < |c| && c[i];
      assert s[i - 1];
    }
  }

  lemma {:induction false} ZerosKeep(c: seq<bool>, bits: seq<bool>)
    requires |c| == WIDTH && !Nonzero(bits)
    ensures Nonzero(Run(c, bits)) <==> Nonzero(c)
    decreases |bits|
  {
    hide Step, Run;
    if bits == [] {
      RunNone(c, bits);
    } else {
      assert !bits[0];
      RunStep(c, bits);
      ZeroStep(c);
      ZerosKeep(Step(c, bits[0]), bits[1..]);
    }
  }

  // ----- sixteen bits fit into it -----

  /** While the top bits are clear, the register just takes in the bits. */
  lemma {:induction false} TakesIn(c: seq<bool>, bits: seq<bool>)
    requires |c| == WIDTH && |bits| <= WIDTH && forall i :: 0 <= i < |bits| ==> !c[i]
    ensures Run(c, bits) == c[|bits|..] + bits
    decreases |bits|
  {
    hide Step, Run;
    if bits == [] {
      RunNone(c, bits);
    } else {
      RunStep(c, bits);
      StepIs(c, bits[0]);
      TakesIn(Step(c, bits[0]), bits[1..]);
    }
  }

  /** A burst: some bit is set, and all set bits lie in a window of sixteen. */
  ghost predicate Burst(bits: seq<bool>, start: nat) {
    Nonzero(bits) && forall i :: 0 <= i < |bits| && bits[i] ==> start <= i < start + WIDTH
  }

  /** A burst does not leave the register empty, wherever it lies. */
  lemma BurstShows(bits: seq<bool>, start: nat)
    requires Burst(bits, start)
    ensures Nonzero(Run(Zeros(WIDTH), bits))
  {
    hide Step, Run;
    var k :| 0 <= k < |bits| && bits[k];
    var end := if start + WIDTH < |bits| then start + WIDTH else |bits|;
    var before, middle, after := bits[..start], bits[start..end], bits[end..];
    assert bits == before + (middle + after);
    RunAppend(Zeros(WIDTH), before, middle + after);
    ZerosKeep(Zeros(WIDTH), before);
    var c := Run(Zeros(WIDTH), before);
    RunAppend(c, middle, after);
    TakesIn(c, middle);
    assert Nonzero(Run(c, middle)) by {
      assert Run(c, middle)[WIDTH - |middle| + (k - start)] == bits[k];
    }
    ZerosKeep(Run(c, middle), after);
  }

  /** Two messages of the same length give the same CRC exactly if their difference gives zero. */
  lemma SameCrcIff(c: seq<bool>, a: seq<bool>, b: seq<bool>)
    requires |a| == |b| && |c| == WIDTH
    ensures Run(c, a) == Run(c, b) <==> !Nonzero(Run(Zeros(WIDTH), Xor(a, b)))
  {
    hide Step, Run;
    RunLinear(c, c, a, b);
    assert Xor(c, c) == Zeros(WIDTH);
    var x, y := Run(c, a), Run(c, b);
    var d := Xor(x, y);
    assert x == y <==> forall i :: 0 <= i < WIDTH ==> !d[i];
  }

  // ----- images -----

  /** The CRC of an image: its bytes and two zero bytes. */
  function ImageCrc(image: seq<Byte>): (crc: seq<bool>)
    ensures |crc| == WIDTH
  {
    Run(Zeros(WIDTH), Bits(image + [ZERO, ZERO]))
  }

  /** Images differ in a burst: somewhere, and only within sixteen consecutive bits. */
  ghost predicate DifferInBurst(a: seq<Byte>, b: seq<Byte>, start: nat) {
    && |a| == |b| && a != b
    && forall i :: 0 <= i < |Bits(a)| && Bits(a)[i] != Bits(b)[i] ==> start <= i < start + WIDTH
  }

  lemma {:induction false} BitsInjective(a: seq<Byte>, b: seq<Byte>)
    requires |a| == |b| && Bits(a) == Bits(b)
    ensures a == b
    decreases |a|
  {
    if a != [] {
      var x, y := ByteBits(a[0]), ByteBits(b[0]);
      assert x == Bits(a)[..8] == Bits(b)[..8] == y;
      assert x[0] == y[0] && x[1] == y[1] && x[2] == y[2] && x[3] == y[3];
      assert x[4] == y[4] && x[5] == y[5] && x[6] == y[6] && x[7] == y[7];
      assert Bits(a[1..]) == Bits(a)[8..] == Bits(b)[8..] == Bits(b[1..]);
      BitsInjective(a[1..], b[1..]);
    }
  }

  /** Every burst of up to sixteen bits changes the CRC of an image. */
  lemma BurstDetected(a: seq<Byte>, b: seq<Byte>, start: nat)
    requires DifferInBurst(a, b, start)
    ensures ImageCrc(a) != ImageCrc(b)
  {
    hide Run, Bits, Nonzero;
    var x, y := Bits(a + [ZERO, ZERO]), Bits(b + [ZERO, ZERO]);
    BitsAppend(a, [ZERO, ZERO]);
    BitsAppend(b, [ZERO, ZERO]);
    if Bits(a) == Bits(b) { BitsInjective(a, b); }
    var k :| 0 <= k < |Bits(a)| && Bits(a)[k] != Bits(b)[k];
    var d := Xor(x, y);
    assert d[k];
    SetBit(d, k);
    assert forall i :: 0 <= i < |d| && d[i] ==> i < |Bits(a)| && Bits(a)[i] != Bits(b)[i];
    BurstShows(d, start);
    SameCrcIff(Zeros(WIDTH), x, y);
  }

  lemma SetBit(w: seq<bool>, k: nat)
    requires k < |w| && w[k]
    ensures Nonzero(w)
  {
  }

  /** Sixteen bits is the most: these images differ within seventeen, in the polynomial's own
      pattern, and have the same CRC. */
  lemma SeventeenBitsMissed()
    ensures exists a: seq<Byte>, b: seq<Byte> ::
      && |a| == |b| == 3 && a != b && ImageCrc(a) == ImageCrc(b)
      && forall i :: 17 <= i < 24 ==> Bits(a)[i] == Bits(b)[i]
  {
    hide Run, Nonzero;
    var a := [Byte(true, false, false, false, true, false, false, false),
              Byte(false, false, false, true, false, false, false, false),
              Byte(true, false, false, false, false, false, false, false)];
    var b := [ZERO, ZERO, ZERO];
    BitsOfThree(a[0], a[1], a[2]);
    BitsOfThree(ZERO, ZERO, ZERO);
    BitsAppend(a, [ZERO, ZERO]);
    BitsAppend(b, [ZERO, ZERO]);
    var x, y := Bits(a + [ZERO, ZERO]), Bits(b + [ZERO, ZERO]);
    var d := Xor(x, y);
    assert d[..17] == [true] + Poly();
    assert d == ([true] + Poly()) + d[17..];
    PolynomialCancels();
    RunAppend(Zeros(WIDTH), [true] + Poly(), d[17..]);
    assert !Nonzero(d[17..]) by { NoBit(d[17..]); }
    ZerosKeep(Zeros(WIDTH), d[17..]);
    assert !Nonzero(Zeros(WIDTH)) by { NoBit(Zeros(WIDTH)); }
    SameCrcIff(Zeros(WIDTH), x, y);
    assert a[0] != b[0];
    assert forall i :: 17 <= i < 24 ==> Bits(a)[i] == Bits(b)[i];
  }

  lemma NoBit(w: seq<bool>)
    requires forall i :: 0 <= i < |w| ==> !w[i]
    ensures !Nonzero(w)
  {
  }

  lemma BitsOfThree(a: Byte, b: Byte, c: Byte)
    ensures Bits([a, b, c]) == ByteBits(a) + ByteBits(b) + ByteBits(c)
  {
    hide ByteBits;
    assert [a, b, c][1..] == [b, c] && [b, c][1..] == [c] && [c][1..] == [];
    assert Bits([c]) == ByteBits(c) + [];
  }

  lemma PolynomialCancels()
    ensures Run(Zeros(WIDTH), [true] + Poly()) == Zeros(WIDTH)
  {
    hide Run, Poly;
    var w := [true] + Poly();
    assert w == w[..WIDTH] + [w[WIDTH]];
    RunAppend(Zeros(WIDTH), w[..WIDTH], [w[WIDTH]]);
    TakesIn(Zeros(WIDTH), w[..WIDTH]);
    assert Zeros(WIDTH)[|w[..WIDTH]|..] + w[..WIDTH] == w[..WIDTH];
    RunStep(w[..WIDTH], [w[WIDTH]]);
    assert w[..WIDTH][0];
    assert w[..WIDTH][1..] + [w[WIDTH]] == Poly();
    assert Xor(Poly(), Poly()) == Zeros(WIDTH);
    RunNone(Zeros(WIDTH), [w[WIDTH]][1..]);
  }
}
