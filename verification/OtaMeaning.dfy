/** When an image verifies, in the bytes that lie in flash: the record in front of it, its length, and a
    CRC over single bits with the polynomial x^16 + x^12 + x^5 + 1. */
module OtaMeaning {
  import opened Basics
  import opened Crc
  import opened Ota

  /** The number that a byte is read as. */
  predicate Reads(b: Byte, v: nat) {
    v == (if b.b7 then 0x80 else 0) + (if b.b6 then 0x40 else 0) + (if b.b5 then 0x20 else 0)
      + (if b.b4 then 0x10 else 0)
         + (if b.b3 then 8 else 0) + (if b.b2 then 4 else 0) + (if b.b1 then 2 else 0) + (if b.b0 then 1 else 0)
  }

  /** The record in front of an image: its CRC in bytes 2 and 3, its length in bytes 4 to 7, both
      little-endian; bit 0 of the CRC register is the highest. */
  predicate RecordSays(m: seq<Byte>, crc: seq<bool>, n: nat)
    requires |m| == 16 && |crc| == 16
  {
    && m[2] == Byte(crc[8], crc[9], crc[10], crc[11], crc[12], crc[13], crc[14], crc[15])
    && m[3] == Byte(crc[0], crc[1], crc[2], crc[3], crc[4], crc[5], crc[6], crc[7])
    && Reads(m[4], n % 0x100) && Reads(m[5], n / 0x100 % 0x100)
    && Reads(m[6], n / 0x1_0000 % 0x100) && Reads(m[7], n / 0x100_0000)
  }

  lemma RecordMeaning(m: seq<Byte>, crc: seq<bool>, n: nat)
    requires |m| == 16 && |crc| == 16 && n < 0x1_0000_0000 && RecordSays(m, crc, n)
    ensures SizeOf(m) == n && ShadowOf(m) == crc
  {
    hide Reads, ByteValue;
    ByteMeaning(m[4], n % 0x100);
    ByteMeaning(m[5], n / 0x100 % 0x100);
    ByteMeaning(m[6], n / 0x1_0000 % 0x100);
    ByteMeaning(m[7], n / 0x100_0000);
    Digits(n);
    ShadowMeaning(m, crc);
  }

  lemma ByteMeaning(b: Byte, v: nat)
    requires Reads(b, v)
    ensures ByteValue(b) == v
  {
  }

  lemma ShadowMeaning(m: seq<Byte>, crc: seq<bool>)
    requires |m| == 16 && |crc| == 16
    requires m[2] == Byte(crc[8], crc[9], crc[10], crc[11], crc[12], crc[13], crc[14], crc[15])
    requires m[3] == Byte(crc[0], crc[1], crc[2], crc[3], crc[4], crc[5], crc[6], crc[7])
    ensures ShadowOf(m) == crc
  {
    hide ByteBits;
    HighBits(m[3], crc);
    LowBits(m[2], crc);
    assert crc == crc[..8] + crc[8..];
  }

  lemma HighBits(b: Byte, crc: seq<bool>)
    requires |crc| == 16 && b == Byte(crc[0], crc[1], crc[2], crc[3], crc[4], crc[5], crc[6], crc[7])
    ensures ByteBits(b) == crc[..8]
  {
  }

  lemma LowBits(b: Byte, crc: seq<bool>)
    requires |crc| == 16 && b == Byte(crc[8], crc[9], crc[10], crc[11], crc[12], crc[13], crc[14], crc[15])
    ensures ByteBits(b) == crc[8..]
  {
  }

  lemma Digits(n: nat)
    requires n < 0x1_0000_0000
    ensures n / 0x100_0000 < 0x100
    ensures n == n % 0x100 + 0x100 * (n / 0x100 % 0x100) + 0x1_0000 * (n / 0x1_0000 % 0x100)
                 + 0x100_0000 * (n / 0x100_0000)
  {
    var a, b := n / 0x100, n / 0x1_0000;
    assert n == n % 0x100 + 0x100 * a && a == a % 0x100 + 0x100 * (a / 0x100) && b == b % 0x100 + 0x100 * (b / 0x100);
    assert a / 0x100 == b && b / 0x100 == n / 0x100_0000;
  }

  // ----- the register -----

  /** One step of the register: it takes in a bit at its lower end, and if the upper one falls out, the
      bits 12, 5 and 0 are inverted. */
  lemma StepMeaning(crc: seq<bool>, bit: bool, i: nat)
    requires |crc| == 16 && i < 16
    ensures var shifted := if i < 15 then crc[i + 1] else bit;
      var inverted := crc[0] && (i == 15 - 12 || i == 15 - 5 || i == 15);
      Step(crc, bit)[i] == (shifted != inverted)
  {
  }

  /** The register after some bits. */
  function Register(bits: seq<bool>): (crc: seq<bool>)
    ensures |crc| == 16
  {
    if bits == [] then seq(16, _ => false)
    else
      var last := |bits| - 1;
      var before := Register(bits[..last]);
      seq(16, i requires 0 <= i < 16 =>
        (if i < 15 then before[i + 1] else bits[last]) != (before[0] && (i == 3 || i == 10 || i == 15)))
  }

  lemma {:induction false} RegisterMeaning(bits: seq<bool>)
    ensures Run(Zeros(16), bits) == Register(bits)
    decreases |bits|
  {
    hide Run, Step;
    if bits == [] {
      RunNone(Zeros(16), bits);
    } else {
      var last := |bits| - 1;
      var before := Register(bits[..last]);
      RegisterMeaning(bits[..last]);
      RunAppend(Zeros(16), bits[..last], [bits[last]]);
      assert bits == bits[..last] + [bits[last]];
      RunStep(before, [bits[last]]);
      RunNone(Step(before, bits[last]), [bits[last]][1..]);
      forall i | 0 <= i < 16 ensures Step(before, bits[last])[i] == Register(bits)[i] {
        StepMeaning(before, bits[last], i);
      }
    }
  }

  /** The bits of some bytes, the highest of each byte first, and sixteen zeros. */
  function ImageBits(image: seq<Byte>): seq<bool> {
    seq(8 * |image| + 16, k requires 0 <= k < 8 * |image| + 16 => k < 8 * |image| && BitOf(image[k / 8], k % 8))
  }

  predicate BitOf(b: Byte, k: nat)
    requires k < 8
  {
    if k == 0 then b.b7 else if k == 1 then b.b6 else if k == 2 then b.b5 else if k == 3 then b.b4
    else if k == 4 then b.b3 else if k == 5 then b.b2 else if k == 6 then b.b1 else b.b0
  }

  lemma {:induction false} BitsMeaning(image: seq<Byte>, k: nat)
    requires k < 8 * |image|
    ensures Bits(image)[k] == BitOf(image[k / 8], k % 8)
    decreases image
  {
    hide Bits, BitOf, ByteBits;
    BitsStep(image, k);
    Eighths(k);
    if k >= 8 {
      BitsMeaning(image[1..], k - 8);
    }
  }

  lemma BitsStep(image: seq<Byte>, k: nat)
    requires k < 8 * |image|
    ensures k < 8 ==> Bits(image)[k] == BitOf(image[0], k)
    ensures k >= 8 ==> Bits(image)[k] == Bits(image[1..])[k - 8]
  {
    hide Bits, BitOf, ByteBits;
    BitsUnfold(image);
    if k < 8 { ByteBit(image[0], k); }
  }

  lemma BitsUnfold(image: seq<Byte>)
    requires image != []
    ensures Bits(image) == ByteBits(image[0]) + Bits(image[1..])
  {
    hide ByteBits;
  }

  lemma ByteBit(b: Byte, k: nat)
    requires k < 8
    ensures ByteBits(b)[k] == BitOf(b, k)
  {
  }

  lemma Eighths(k: nat)
    ensures k < 8 ==> k / 8 == 0 && k % 8 == k
    ensures k >= 8 ==> k / 8 == 1 + (k - 8) / 8 && k % 8 == (k - 8) % 8
  {
  }

  lemma ImageCrcMeaning(image: seq<Byte>)
    ensures ImageCrc(image) == Register(ImageBits(image))
  {
    hide Run, Register, Bits;
    var whole := image + [ZERO, ZERO];
    RegisterMeaning(Bits(whole));
    forall k | 0 <= k < |Bits(whole)| ensures Bits(whole)[k] == ImageBits(image)[k] {
      BitsMeaning(whole, k);
    }
    assert Bits(whole) == ImageBits(image);
  }

  // ----- verification -----

  /** Images are read in whole words. */
  function Rounded(n: nat): (read: nat)
    ensures read % 4 == 0 && n <= read < n + 4
  {
    if n % 4 == 0 then n else n + 4 - n % 4
  }

  lemma WordsOf(n: nat)
    ensures (n + 3) / 4 * 4 == Rounded(n)
  {
  }

  function SlotAt(slot: nat): (at: nat)
    requires slot <= 3
    ensures at + 0x1_9000 <= 0x7_D000
  {
    if slot == 0 then 0x1_9000 else if slot == 1 then 0x3_2000 else if slot == 2 then 0x4_B000 else 0x6_4000
  }

  function ImageAt(ext: seq<Byte>, at: nat, n: nat): seq<Byte>
    requires at + 0x1_9000 <= |ext| && n <= 0x1_9000 - 0x100
  {
    ext[at + 0x100..at + 0x100 + Rounded(n)]
  }

  /** A slot holds a record and, 0x100 behind it, an image of n bytes that fits the slot, and the record
      can be read. If one of the operations that follow fails, opening the flash or reading one of the
      words, the status is that of a read error. Otherwise the slot verifies exactly if the record's CRC
      is the register after the image, as far as whole words reach, and two zero bytes, and the status
      is that of a wrong CRC if not. */
  lemma ImageVerifiesIff(ext: seq<Byte>, slot: nat, crc: seq<bool>, n: nat, events: seq<Event>)
    requires slot <= 3 && |ext| >= 0x7_D000 && |crc| == 16 && n <= 0x1_9000 - 0x100
    requires RecordSays(ext[SlotAt(slot)..SlotAt(slot) + 16], crc, n)
    requires forall i :: 0 <= i < 2 && i < |events| ==> events[i] == Works
    ensures Outcome(ext, slot, Metadata(ext, slot), AfterMetadata(events))
      == if exists i :: 2 <= i < 3 + Rounded(n) / 4 && i < |events| && events[i] != Works then -1
         else if crc == Register(ImageBits(ImageAt(ext, SlotAt(slot), n))) then 0 else -2
  {
    hide Outcome, Register, RecordSays, ImageBits, ImageAt, AfterMetadata;
    SlotMeaning(ext, slot, n);
    RecordMeaning(Metadata(ext, slot), crc, n);
    ImageCrcMeaning(ImageAt(ext, SlotAt(slot), n));
    MayFail(events, Rounded(n) / 4);
    WordsRounded(SlotAt(slot) + 0x100, n);
    OutcomeIs(ext, slot, AfterMetadata(events));
  }

  lemma SlotMeaning(ext: seq<Byte>, slot: nat, n: nat)
    requires slot <= 3 && |ext| >= 0x7_D000 && n <= 0x1_9000 - 0x100
    ensures Metadata(ext, slot) == ext[SlotAt(slot)..SlotAt(slot) + 16]
    ensures SlotStart(slot) + METADATA_SPACE == SlotAt(slot) + 0x100
    ensures var start := SlotAt(slot) + 0x100;
      ImageWords(ext, start, (start + n) % 0x1_0000_0000) == Some(ImageAt(ext, SlotAt(slot), n))
  {
    hide Rounded, ImageWords;
    SlotPlace(slot);
    ImageWordsAre(ext, SlotAt(slot) + 0x100, n);
  }

  lemma SlotPlace(slot: nat)
    requires slot <= 3
    ensures SlotStart(slot) == SlotAt(slot)
  {
  }

  lemma ImageWordsAre(ext: seq<Byte>, start: nat, n: nat)
    requires start + n < 0x1_0000_0000 && start + Rounded(n) <= |ext|
    ensures ImageWords(ext, start, (start + n) % 0x1_0000_0000) == Some(ext[start..start + Rounded(n)])
  {
    hide Rounded;
    WordsOf(n);
  }

  lemma MayFail(events: seq<Event>, words: nat)
    requires forall i :: 0 <= i < 2 && i < |events| ==> events[i] == Works
    ensures AllWork(AfterMetadata(events), 1 + words)
            <==> !exists i :: 2 <= i < 3 + words && i < |events| && events[i] != Works
  {
    var later := AfterMetadata(events);
    assert later == After(events, 2);
    assert forall i :: 0 <= i < |later| ==> later[i] == events[i + 2];
    if AllWork(later, 1 + words) {
      forall i | 2 <= i < 3 + words && i < |events| ensures events[i] == Works { assert later[i - 2] == events[i]; }
    }
  }

  lemma WordsRounded(start: nat, n: nat)
    requires start + n < 0x1_0000_0000
    ensures WordsRead(start, (start + n) % 0x1_0000_0000) == Rounded(n) / 4
  {
    WordsOf(n);
  }

  lemma OutcomeIs(ext: seq<Byte>, slot: nat, events: seq<Event>)
    requires slot <= 3 && |ext| >= 0x7_D000
    ensures var m := Metadata(ext, slot);
      var start := SlotStart(slot) + METADATA_SPACE;
      var end := (start + SizeOf(m)) % 0x1_0000_0000;
      Outcome(ext, slot, m, events) ==
      if !AllWork(events, 1 + WordsRead(start, end)) then -1
      else match ImageWords(ext, start, end)
           case None => -1
           case Some(image) => if ShadowOf(m) == ImageCrc(image) then 0 else -2
  {
    hide SizeOf, ShadowOf, ImageCrc, ImageWords, WordsRead, AllWork;
  }

  // ----- backup and restore -----

  /** A backup copies the 0x19000 bytes of installed firmware, from 0x2000 on in internal flash, byte by
      byte to 0x19000 in external flash, and changes nothing else. */
  lemma BackupMeaning(m: Memory, k: nat)
    requires |m.ext| >= 0x7_D000 && |m.flash| >= 0x2000 + 0x1_9000
    ensures Backup(m).flash == m.flash && |Backup(m).ext| == |m.ext|
    ensures k < |m.ext| ==>
      Backup(m).ext[k] == if 0x1_9000 <= k < 0x3_2000 then m.flash[0x2000 + (k - 0x1_9000)] else m.ext[k]
  {
  }

  /** Restoring or updating from a slot copies the same number of bytes back. */
  lemma RestoreMeaning(m: Memory, slot: nat, k: nat)
    requires slot <= 3 && |m.ext| >= 0x7_D000 && |m.flash| >= 0x2000 + 0x1_9000
    ensures Restore(m, slot).ext == m.ext && |Restore(m, slot).flash| == |m.flash|
    ensures k < |m.flash| ==>
      Restore(m, slot).flash[k] ==
        if 0x2000 <= k < 0x1_B000 then m.ext[SlotAt(slot) + (k - 0x2000)] else m.flash[k]
  {
  }

  /** A write to flash clears the bits that are clear in the data, and sets none. */
  lemma WriteMeaning(was: seq<Byte>, data: seq<Byte>, i: nat, k: nat)
    requires |was| == |data| && i < |data| && k < 8
    ensures |Anded(was, data)| == |data|
    ensures BitOf(Anded(was, data)[i], k) <==> BitOf(was[i], k) && BitOf(data[i], k)
  {
  }
}
