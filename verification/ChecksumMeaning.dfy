/** When a packet passes the check, in the byte positions of the IP, TCP, UDP and ICMP headers. */
module ChecksumMeaning {
  import opened Basics
  import opened Checksum

  /** The big-endian words of some bytes, added up; an odd last byte is the high one of its word. */
  function Added(p: seq<byte>): nat {
    if p == [] then 0
    else
      var last := |p| - 1;
      Added(p[..last]) + if last % 2 == 0 then 0x100 * p[last] as int else p[last] as int
  }

  lemma {:induction false} AddedMeaning(p: seq<byte>)
    ensures WordSum(p) == Added(p)
    decreases |p|
  {
    if |p| >= 2 {
      AddedMeaning(p[2..]);
      AddedFront(p);
    } else if |p| == 1 {
      assert Added(p) == Added(p[..0]) + 0x100 * p[0] as int;
    }
  }

  lemma {:induction false} AddedFront(p: seq<byte>)
    requires |p| >= 2
    ensures Added(p) == 0x100 * p[0] as int + p[1] as int + Added(p[2..])
    decreases |p|
  {
    var last := |p| - 1;
    if |p| == 2 {
      assert p[..1][..0] == [] && p[..1][0] == p[0];
      assert Added(p[..1]) == Added(p[..1][..0]) + 0x100 * p[0] as int;
    } else {
      AddedFront(p[..last]);
      assert p[..last][2..] == p[2..][..last - 2];
    }
  }

  lemma SumMeaning(sum: nat, p: seq<byte>)
    requires sum <= 0xFFFF
    ensures Ip4Sum(sum, p) <= 0xFFFF && (Ip4Sum(sum, p) - (sum + Added(p))) % 0xFFFF == 0
    ensures Verifies(Ip4Sum(sum, p)) <==> (sum + Added(p)) % 0xFFFF == 0
  {
    hide Ip4Sum, WordSum;
    AddedMeaning(p);
    Ip4SumMeaning(sum, p);
    VerifiesIff(sum, p);
    Congruent(Ip4Sum(sum, p), sum + Added(p));
  }

  lemma Congruent(a: nat, b: nat)
    requires a % 0xFFFF == b % 0xFFFF
    ensures (a - b) % 0xFFFF == 0
  {
    assert a - b == 0xFFFF * (a / 0xFFFF - b / 0xFFFF);
  }

  /** The sum of the pseudo header: protocol and length, in sixteen bits without a carry, and the words
      of both addresses. */
  lemma PseudoHeaderMeaning(b: seq<byte>, rest: nat)
    requires |b| >= 28
    ensures var words := (b[9] as int + rest) % 0x1_0000
        + 0x100 * (b[12] as int + b[14] as int + b[16] as int + b[18] as int)
        + b[13] as int + b[15] as int + b[17] as int + b[19] as int;
      PseudoHeader(b, rest) <= 0xFFFF && (PseudoHeader(b, rest) - words) % 0xFFFF == 0
  {
    hide Ip4Sum;
    var a := b[12..20];
    SumMeaning((b[9] as int + rest) % 0x1_0000, a);
    AddedFront(a);
    AddedFront(a[2..]);
    AddedFront(a[2..][2..]);
    AddedFront(a[2..][2..][2..]);
    assert a[2..][2..][2..][2..] == [];
  }

  /** The words that a transport checksum covers: the pseudo header and the payload. */
  function Covered(b: seq<byte>, hl: nat, rest: nat): int
    requires |b| >= 28 && hl + rest <= |b|
  {
    (b[9] as int + rest) % 0x1_0000 + 0x100 * (b[12] as int + b[14] as int + b[16] as int + b[18] as int)
    + b[13] as int + b[15] as int + b[17] as int + b[19] as int + Added(b[hl..hl + rest])
  }

  lemma CoveredMeaning(b: seq<byte>, hl: nat, rest: nat)
    requires |b| >= 28 && hl + rest <= |b|
    ensures Verifies(Ip4Sum(PseudoHeader(b, rest), b[hl..hl + rest])) <==> Covered(b, hl, rest) % 0xFFFF == 0
  {
    hide Ip4Sum, Added;
    PseudoHeaderMeaning(b, rest);
    SumMeaning(PseudoHeader(b, rest), b[hl..hl + rest]);
    var p, a := PseudoHeader(b, rest), Added(b[hl..hl + rest]);
    var w := Covered(b, hl, rest) - a;
    Shifted(p, w, a);
  }

  lemma Shifted(p: int, w: int, a: int)
    requires (p - w) % 0xFFFF == 0
    ensures (p + a) % 0xFFFF == 0 <==> (w + a) % 0xFFFF == 0
  {
    var k := (p - w) / 0xFFFF;
    assert p + a == (w + a) + 0xFFFF * k;
    Multiple(w + a, k);
  }

  /** The code of a packet whose header and payload lie in the buffer: -1 for a version other than 4, -2
      and -3 for a total length above or below the packet's, -4 for a header whose words do not add up to
      a multiple of 65535; then, with the pseudo header, -5 for TCP and -6 for UDP, unless its
      checksum field is zero, and without it -7 for ICMP; and 0 for everything else. */
  lemma CheckMeaning(b: seq<byte>, len: nat)
    requires |b| >= 28
    ensures var hl := 4 * (b[0] as int % 0x10);
      var total := 0x100 * b[2] as int + b[3] as int;
      var rest := (len - hl) % 0x1_0000;
      && (b[0] < 0x40 || b[0] >= 0x50 ==> CheckIp(b, len) == Some(-1))
      && (0x40 <= b[0] < 0x50 && total > len ==> CheckIp(b, len) == Some(-2))
      && (0x40 <= b[0] < 0x50 && total < len ==> CheckIp(b, len) == Some(-3))
      && (0x40 <= b[0] < 0x50 && total == len && hl <= |b| && Added(b[..hl]) % 0xFFFF != 0 ==>
           CheckIp(b, len) == Some(-4))
      && (0x40 <= b[0] < 0x50 && total == len && hl + rest <= |b| && Added(b[..hl]) % 0xFFFF == 0 ==>
           CheckIp(b, len) == Some(
             if b[9] == 6 && Covered(b, hl, rest) % 0xFFFF != 0 then -5
             else if b[9] == 17 && Covered(b, hl, rest) % 0xFFFF != 0 && !(b[26] == b[27] == 0) then -6
             else if b[9] == 1 && Added(b[hl..hl + rest]) % 0xFFFF != 0 then -7
             else 0))
  {
    hide Ip4Sum, Added, Covered, PseudoHeader, Verifies;
    var hl := 4 * (b[0] as int % 0x10);
    var rest := (len - hl) % 0x1_0000;
    if hl <= |b| { SumMeaning(0, b[..hl]); }
    if hl + rest <= |b| {
      CoveredMeaning(b, hl, rest);
      SumMeaning(0, b[hl..hl + rest]);
    }
  }
}
