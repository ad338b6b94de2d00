/** The CoAP wire primitives of Erbium: option headers with extended deltas and lengths,
    minimal-length integers, and the packed block option value.
    Integers are mathematical; every truncation to a C width is written out. */
module CoapWire {

  import opened Basics

  // ----- option headers -----

  function Nibble(v: nat): nat {
    if v < 13 then v else if v <= 0xFF + 13 then 13 else 14
  }

  function Extension(v: nat): seq<byte> {
    if v > 268 then [((v - 269) / 256) % 256, (v - 269) % 256]
    else if v > 12 then [v - 13]
    else []
  }

  /** The bytes that coap_set_option_header writes. */
  function OptionHeader(delta: nat, length: nat): (h: seq<byte>)
    ensures 1 <= |h| <= 5
    ensures h[0] / 16 < 15  // never mistaken for the payload marker
  {
    [Nibble(delta) * 16 + Nibble(length)] + Extension(delta) + Extension(length)
  }

  /** Reads the extension that a header nibble announces: the value and how many bytes it took.
      None stands for a read past the end, which the C does not check. */
  function ReadExtension(nibble: nat, rest: seq<byte>): (r: Option<(nat, nat)>)
    ensures r.Some? ==> r.value.1 <= |rest|
    ensures r.Some? ==>
      if nibble == 13 then 13 <= r.value.0 <= 268
      else if nibble == 14 then 269 <= r.value.0 <= 65804
      else r.value.0 == nibble
  {
    if nibble == 13 then
      if |rest| < 1 then None else Some((13 + rest[0] as int, 1))
    else if nibble == 14 then
      if |rest| < 2 then None else Some((14 + 255 + rest[0] as int * 256 + rest[1], 2))
    else Some((nibble, 0))
  }

  /** The option header at the front of rest: delta, length and header size. */
  function ReadHeader(rest: seq<byte>): (r: Option<(nat, nat, nat)>)
    ensures r.Some? ==> 1 <= r.value.2 <= |rest|
  {
    if |rest| < 1 then None else
    match ReadExtension(rest[0] / 16, rest[1..])
    case None => None
    case Some((delta, used)) =>
      match ReadExtension(rest[0] % 16, rest[1 + used..])
      case None => None
      case Some((length, used')) => Some((delta, length, 1 + used + used'))
  }

  /** A value survives the nibble-and-extension coding exactly up to 65804 (RFC 7252, section 3.1). */
  lemma ExtensionRoundTrip(v: nat, tail: seq<byte>)
    ensures ReadExtension(Nibble(v), Extension(v) + tail) == Some((v, |Extension(v)|)) <==> v <= 65804
  {
    assert |Extension(v)| > 0 ==> (Extension(v) + tail)[0] == Extension(v)[0];
    assert |Extension(v)| > 1 ==> (Extension(v) + tail)[1] == Extension(v)[1];
  }

  lemma HeaderRoundTrip(delta: nat, length: nat, tail: seq<byte>)
    requires delta <= 65804 && length <= 65804
    ensures ReadHeader(OptionHeader(delta, length) + tail)
         == Some((delta, length, |OptionHeader(delta, length)|))
  {
    hide ReadExtension, Extension;
    var rest := OptionHeader(delta, length) + tail;
    Nibbles(Nibble(delta), Nibble(length));
    assert rest[1..] == Extension(delta) + (Extension(length) + tail);
    ExtensionRoundTrip(delta, Extension(length) + tail);
    assert rest[1 + |Extension(delta)|..] == Extension(length) + tail;
    ExtensionRoundTrip(length, tail);
  }

  lemma Nibbles(high: nat, low: nat)
    requires low < 16
    ensures (high * 16 + low) / 16 == high && (high * 16 + low) % 16 == low
  {
  }

  // ----- integers -----

  /** coap_parse_int_option: big-endian, in a 32-bit variable. */
  function ParseInt(bytes: seq<byte>): (v: nat)
    ensures v < TWO_TO_THE_32
  {
    if bytes == [] then 0
    else (ParseInt(bytes[..|bytes| - 1]) * 256 + bytes[|bytes| - 1]) % TWO_TO_THE_32
  }

  /** The value bytes that coap_serialize_int_option writes. */
  function IntBytes(v: nat): seq<byte>
    requires v < TWO_TO_THE_32
  {
    (if v >= 0x100_0000 then [v / 0x100_0000] else []) +
    (if v >= 0x1_0000 then [v / 0x1_0000 % 256] else []) +
    (if v >= 0x100 then [v / 0x100 % 256] else []) +
    (if v >= 1 then [v % 256] else [])
  }

  lemma ParseIntSnoc(bytes: seq<byte>, b: byte)
    ensures ParseInt(bytes + [b]) == (ParseInt(bytes) * 256 + b) % TWO_TO_THE_32
  {
    assert (bytes + [b])[..|bytes|] == bytes;
  }

  /** Integers survive, and no shorter byte string would decode to the same value. */
  lemma IntRoundTrip(v: nat)
    requires v < TWO_TO_THE_32
    ensures ParseInt(IntBytes(v)) == v
    ensures forall bytes: seq<byte> :: ParseInt(bytes) == v ==> |IntBytes(v)| <= |bytes|
  {
    IntInverse(v);
    forall bytes: seq<byte> | ParseInt(bytes) == v
      ensures |IntBytes(v)| <= |bytes|
    {
      ParseIntBound(bytes);
    }
  }

  lemma {:induction false} IntInverse(v: nat)
    requires v < TWO_TO_THE_32
    ensures ParseInt(IntBytes(v)) == v
  {
    if v >= 1 {
      IntBytesSnoc(v);
      IntInverse(v / 256);
      ParseIntSnoc(IntBytes(v / 256), v % 256);
    }
  }

  lemma IntBytesSnoc(v: nat)
    requires 1 <= v < TWO_TO_THE_32
    ensures IntBytes(v) == IntBytes(v / 256) + [v % 256]
  {
    assert v / 256 / 0x1_0000 == v / 0x100_0000;
    assert v / 256 / 0x100 == v / 0x1_0000;
  }

  /** A byte string of length n encodes less than 256^n. */
  lemma ParseIntBound(bytes: seq<byte>)
    ensures |bytes| == 0 ==> ParseInt(bytes) == 0
    ensures |bytes| == 1 ==> ParseInt(bytes) < 0x100
    ensures |bytes| == 2 ==> ParseInt(bytes) < 0x1_0000
    ensures |bytes| == 3 ==> ParseInt(bytes) < 0x100_0000
  {
    if 0 < |bytes| <= 3 {
      ParseIntBound(bytes[..|bytes| - 1]);
    }
  }

  // ----- block options -----

  lemma Log2Bounds(v: nat)
    requires v > 0
    ensures Pow2(Log2(v)) <= v < 2 * Pow2(Log2(v))
  {
    if v >= 2 {
      Log2Bounds(v / 2);
    }
  }

  /** coap_log_2 as written: a do-while that shifts the value out. */
  method ComputeLog2(value: nat) returns (result: nat)
    requires value < 0x1_0000
    ensures result == Log2(value)
    ensures value > 0 ==> Pow2(result) <= value < 2 * Pow2(result)
  {
    var v: nat := value / 2;
    result := 1;
    while v != 0
      invariant result >= 1
      invariant Log2(value) == if v == 0 then result - 1 else result + Log2(v)
      decreases v
    {
      v := v / 2;
      result := result + 1;
    }
    result := result - 1;  // the source's guard against result == 0 never fires
    if value > 0 { Log2Bounds(value); }
  }

  /** The low nibble that the two ORs leave. */
  function LowNibble(more: bool, log: nat): nat {
    if more && log < 8 then log + 8 else log
  }

  /** COAP_SERIALIZE_BLOCK_OPTION: num << 4 in 32 bits, then two bitwise ORs into the low nibble. */
  function BlockValue(num: nat, more: bool, size: nat): (v: nat)
    requires size < 0x1_0000
    ensures v < TWO_TO_THE_32
  {
    num * 16 % TWO_TO_THE_32 + LowNibble(more, Log2(size / 16) % 16)
  }

  datatype Block = Block(num: nat, more: bool, size: nat, offset: nat)

  /** x << k in a 32-bit variable. */
  function ShiftLeft(x: nat, k: nat): nat
    decreases k
  {
    if k == 0 then x % TWO_TO_THE_32 else ShiftLeft(x * 2 % TWO_TO_THE_32, k - 1)
  }

  lemma {:induction false} ShiftLeftIsMul(x: nat, k: nat)
    ensures ShiftLeft(x, k) == x * Pow2(k) % TWO_TO_THE_32
    decreases k
  {
    if k > 0 {
      var p := Pow2(k - 1);
      ShiftLeftIsMul(x * 2 % TWO_TO_THE_32, k - 1);
      ModMul(x * 2, p);
      Reassociate(x, p);
    }
  }

  lemma Reassociate(x: nat, p: nat)
    ensures x * 2 * p == x * (2 * p)
  {
  }

  lemma ModMul(x: nat, p: nat)
    ensures (x % TWO_TO_THE_32) * p % TWO_TO_THE_32 == x * p % TWO_TO_THE_32
  {
    var q, r := x / TWO_TO_THE_32, x % TWO_TO_THE_32;
    Distribute(q, r, p);
    SameResidue(x * p, r * p, q * p);
  }

  lemma Distribute(q: nat, r: nat, p: nat)
    ensures (q * TWO_TO_THE_32 + r) * p == r * p + q * p * TWO_TO_THE_32
  {
  }

  lemma SameResidue(a: int, b: int, q: int)
    requires a == b + q * TWO_TO_THE_32
    ensures a % TWO_TO_THE_32 == b % TWO_TO_THE_32
  {
  }

  /** What the parser makes of a block value. */
  function ReadBlock(v: nat): Block
    requires v < TWO_TO_THE_32
  {
    Block(v / 16, v / 8 % 2 == 1, 16 * Pow2(v % 8), ShiftLeft(v / 16 * 16, v % 8))
  }

  predicate BlockSize(size: nat) {
    || size == 16 || size == 32 || size == 64 || size == 128
    || size == 256 || size == 512 || size == 1024 || size == 2048
  }

  lemma BlockSizeLog(size: nat)
    requires BlockSize(size)
    ensures Log2(size / 16) < 8 && size == 16 * Pow2(Log2(size / 16))
  {
    assert Pow2(4) == 16 && Pow2(5) == 32 && Pow2(6) == 64 && Pow2(7) == 128;
    Log2Pow2(4); Log2Pow2(5); Log2Pow2(6); Log2Pow2(7);
  }

  lemma SizeOfExponent(k: nat)
    requires k < 8
    ensures BlockSize(16 * Pow2(k))
  {
    assert Pow2(4) == 16 && Pow2(5) == 32 && Pow2(6) == 64 && Pow2(7) == 128;
  }

  /** The decoded fields, for any number and any size. */
  lemma BlockFields(num: nat, more: bool, size: nat, log: nat)
    requires num < TWO_TO_THE_32 && size < 0x1_0000 && log == Log2(size / 16) % 16
    ensures var b := ReadBlock(BlockValue(num, more, size));
      b.num == num % 0x1000_0000 && b.more == (more || log >= 8) && b.size == 16 * Pow2(log % 8)
  {
    TopBits(num);
    BlockBits(BlockValue(num, more, size), num % 0x1000_0000, LowNibble(more, log));
    LowNibbleBits(more, log);
  }

  lemma LowNibbleBits(more: bool, log: nat)
    requires log < 16
    ensures var low := LowNibble(more, log); low < 16 && low % 8 == log % 8 && (low >= 8 <==> more || log >= 8)
  {
  }

  lemma TopBits(num: nat)
    ensures num * 16 % TWO_TO_THE_32 == num % 0x1000_0000 * 16
  {
  }

  lemma BlockBits(v: nat, num: nat, low: nat)
    requires low < 16 && num < 0x1000_0000 && v == num * 16 + low
    ensures var b := ReadBlock(v); b.num == num && b.more == (low >= 8) && b.size == 16 * Pow2(low % 8)
  {
    var high := low / 8;
    assert v == (num * 2 + high) * 8 + low % 8;
    assert v / 8 == num * 2 + high;
  }

  /** The three block fields survive exactly when the number has 28 bits and the size is one of
      the eight sizes of section 2.2 of RFC 7959. */
  lemma BlockRoundTrip(num: nat, more: bool, size: nat)
    requires num < TWO_TO_THE_32 && size < 0x1_0000
    ensures var b := ReadBlock(BlockValue(num, more, size));
      (b.num == num && b.more == more && b.size == size) <==> (num < 0x1000_0000 && BlockSize(size))
  {
    BlockFields(num, more, size, Log2(size / 16) % 16);
    SizeSurvives(size, Log2(size / 16));
  }

  lemma SizeSurvives(size: nat, log: nat)
    requires log == Log2(size / 16)
    ensures 16 * Pow2(log % 16 % 8) == size <==> BlockSize(size)
    ensures BlockSize(size) ==> log < 8
  {
    if BlockSize(size) {
      BlockSizeLog(size);
    }
    SizeOfExponent(log % 16 % 8);
  }

  /** A decoded block's offset is the block number times the block size, in 32 bits. */
  lemma BlockOffset(v: nat)
    requires v < TWO_TO_THE_32
    ensures var b := ReadBlock(v); b.offset == b.num * b.size % TWO_TO_THE_32
  {
    var n, p := v / 16, Pow2(v % 8);
    ShiftLeftIsMul(n * 16, v % 8);
    assert n * 16 * p == n * (16 * p);
  }
}
