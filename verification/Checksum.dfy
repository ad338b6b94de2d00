/** Internet checksums (RFC 1071) in the serial tunnel: the sum, the packet check, the sums that the
    DHCP relay fills in, and an identification that is rewritten together with the header checksum
    (in the manner of RFC 1624), on a little-endian host. */
module Checksum {
  import opened Basics

  const ONES: nat := 65535

  function Word(hi: byte, lo: byte): (w: nat)
    ensures w <= ONES
  {
    hi as int * 256 + lo
  }

  /** 16-bit addition with end-around carry, as it is coded. */
  function EndAround(sum: nat, t: nat): (s: nat)
    requires sum <= ONES && t <= ONES
    ensures s <= ONES && (s == sum + t || (s == sum + t - ONES && sum + t > ONES))
    ensures Same(s, sum + t) && (s == 0 <==> sum == t == 0)
  {
    var s := (sum + t) % 65536;
    if s < t then s + 1 else s
  }

  /** ip4sum over big-endian words; an odd last byte is padded with zero. */
  function Ip4Sum(sum: nat, p: seq<byte>): (s: nat)
    requires sum <= ONES
    ensures s <= ONES
    decreases |p|
  {
    if p == [] then sum
    else if |p| == 1 then EndAround(sum, Word(p[0], 0))
    else Ip4Sum(EndAround(sum, Word(p[0], p[1])), p[2..])
  }

  method ComputeIp4Sum(sum0: nat, p: seq<byte>) returns (sum: nat)
    requires sum0 <= ONES
    ensures sum == Ip4Sum(sum0, p)
  {
    hide Ip4Sum, Word;
    sum := sum0;
    var i := 0;
    while i < |p| - 1
      invariant i <= |p| && sum <= ONES
      invariant Ip4Sum(sum, p[i..]) == Ip4Sum(sum0, p)
    {
      var t := Word(p[i], p[i + 1]);
      SumStep(sum, p, i);
      EndAroundIs(sum, t);
      sum := (sum + t) % 65536;
      if sum < t {
        sum := sum + 1;
      }
      i := i + 2;
    }
    SumStep(sum, p, i);
    if i < |p| {
      var t := Word(p[i], 0);
      EndAroundIs(sum, t);
      sum := (sum + t) % 65536;
      if sum < t {
        sum := sum + 1;
      }
    }
  }

  lemma SumStep(sum: nat, p: seq<byte>, i: nat)
    requires sum <= ONES && i <= |p|
    ensures i == |p| ==> Ip4Sum(sum, p[i..]) == sum
    ensures i + 1 == |p| ==> Ip4Sum(sum, p[i..]) == EndAround(sum, Word(p[i], 0))
    ensures i + 1 < |p| ==> Ip4Sum(sum, p[i..]) == Ip4Sum(EndAround(sum, Word(p[i], p[i + 1])), p[i + 2..])
  {
    hide EndAround;
    assert i + 1 < |p| ==> p[i..][2..] == p[i + 2..];
  }

  lemma EndAroundIs(sum: nat, t: nat)
    requires sum <= ONES && t <= ONES
    ensures EndAround(sum, t) == var s := (sum + t) % 65536; if s < t then s + 1 else s
  {
  }

  // ----- what the sum means -----

  /** The words added up as numbers. */
  function WordSum(p: seq<byte>): nat
    decreases |p|
  {
    if p == [] then 0
    else if |p| == 1 then Word(p[0], 0)
    else Word(p[0], p[1]) + WordSum(p[2..])
  }

  /** Equal modulo 65535. */
  predicate Same(a: int, b: int) {
    a % ONES == b % ONES
  }

  lemma AddSame(a: int, b: int, c: int)
    requires Same(a, b)
    ensures Same(a + c, b + c)
  {
    var k := a / ONES - b / ONES;
    assert a == b + ONES * k;
    assert (b + c) + ONES * k == a + c;
    Multiple(b + c, k);
  }

  lemma SameFacts(a: int, b: int, c: int)
    ensures Same(a, a) && (Same(a, b) ==> Same(b, a)) && (Same(a, b) && Same(b, c) ==> Same(a, c))
  {
  }

  lemma Multiple(a: int, k: int)
    ensures Same(a + ONES * k, a)
  {
    var q, r := a / ONES, a % ONES;
    assert a + ONES * k == ONES * (q + k) + r;
  }

  /** The sum is the word sum modulo 65535, and zero only if everything is zero. */
  lemma {:induction false} Ip4SumMeaning(sum: nat, p: seq<byte>)
    requires sum <= ONES
    ensures Same(Ip4Sum(sum, p), sum + WordSum(p))
    ensures Ip4Sum(sum, p) == 0 <==> sum == 0 && WordSum(p) == 0
    decreases |p|
  {
    hide EndAround, Same;
    if |p| >= 2 {
      var s, w, rest := EndAround(sum, Word(p[0], p[1])), Word(p[0], p[1]), WordSum(p[2..]);
      Ip4SumMeaning(s, p[2..]);
      AddSame(s, sum + w, rest);
      SameFacts(Ip4Sum(s, p[2..]), s + rest, sum + w + rest);
    } else {
      SameFacts(sum, sum, sum);
    }
  }

  /** Sums compose over prefixes of even length. */
  lemma {:induction false} Ip4SumComposes(sum: nat, a: seq<byte>, b: seq<byte>)
    requires sum <= ONES && |a| % 2 == 0
    ensures Ip4Sum(sum, a + b) == Ip4Sum(Ip4Sum(sum, a), b)
    decreases |a|
  {
    hide EndAround;
    if a == [] {
      assert a + b == b;
    } else {
      assert (a + b)[2..] == a[2..] + b && (a + b)[0] == a[0] && (a + b)[1] == a[1];
      Ip4SumComposes(EndAround(sum, Word(a[0], a[1])), a[2..], b);
    }
  }

  lemma {:induction false} SetWord(p: seq<byte>, k: nat, hi: byte, lo: byte)
    requires k % 2 == 0 && k + 1 < |p|
    ensures WordSum(p[k := hi][k + 1 := lo]) == WordSum(p) - Word(p[k], p[k + 1]) + Word(hi, lo)
    decreases k
  {
    var p' := p[k := hi][k + 1 := lo];
    if k == 0 {
      assert p'[2..] == p[2..];
    } else {
      assert p'[2..] == p[2..][k - 2 := hi][k - 1 := lo];
      SetWord(p[2..], k - 2, hi, lo);
    }
  }

  /** Both representations of zero are accepted. */
  predicate Verifies(sum: nat) {
    sum == ONES || sum == 0
  }

  lemma VerifiesIff(sum: nat, p: seq<byte>)
    requires sum <= ONES
    ensures Verifies(Ip4Sum(sum, p)) <==> Same(sum + WordSum(p), 0)
  {
    hide WordSum, Ip4Sum;
    Ip4SumMeaning(sum, p);
  }

  // ----- packets -----

  const HEADERS: nat := 28       // an IP header without options and a UDP header
  const TCP: byte := 6
  const UDP: byte := 17
  const ICMP: byte := 1

  function HeaderLength(b: seq<byte>): nat
    requires |b| >= HEADERS
  {
    4 * (b[0] as int % 16)
  }

  /** check_ip on a buffer that holds a packet of some length; nothing if it reads behind the buffer. */
  function CheckIp(b: seq<byte>, len: nat): Option<int>
    requires |b| >= HEADERS
  {
    if b[0] as int / 16 != 4 then Some(-1)
    else if Word(b[2], b[3]) > len then Some(-2)
    else if Word(b[2], b[3]) < len then Some(-3)
    else
      var hl := HeaderLength(b);
      if hl > |b| then None
      else if !Verifies(Ip4Sum(0, b[..hl])) then Some(-4)
      else CheckPayload(b, hl, (len - hl) % 65536)
  }

  function PseudoHeader(b: seq<byte>, rest: nat): (sum: nat)
    requires |b| >= HEADERS
    ensures sum <= ONES
  {
    Ip4Sum((b[9] as int + rest) % 65536, b[12..20])
  }

  function CheckPayload(b: seq<byte>, hl: nat, rest: nat): Option<int>
    requires |b| >= HEADERS
  {
    if b[9] == TCP || b[9] == UDP then
      if hl + rest > |b| then None
      else if Verifies(Ip4Sum(PseudoHeader(b, rest), b[hl..hl + rest])) then Some(0)
      else if b[9] == TCP then Some(-5)
      else if Word(b[26], b[27]) != 0 then Some(-6) else Some(0)
    else if b[9] == ICMP then
      if hl + rest > |b| then None
      else if Verifies(Ip4Sum(0, b[hl..hl + rest])) then Some(0) else Some(-7)
    else Some(0)
  }

  /** check_ip as it runs. */
  method ComputeCheckIp(b: array<byte>, len: nat) returns (code: int)
    requires b.Length >= HEADERS && CheckIp(b[..], len).Some?
    ensures CheckIp(b[..], len) == Some(code)
  {
    hide Ip4Sum, CheckPayload;
    if b[0] as int / 16 != 4 {
      return -1;
    }
    var total := Word(b[2], b[3]);
    if total > len {
      return -2;
    }
    if total < len {
      return -3;
    }
    var hl := 4 * (b[0] as int % 16);
    assert b[..][..hl] == b[..hl];
    var sum := ComputeIp4Sum(0, b[..hl]);
    if sum != ONES && sum != 0 {
      return -4;
    }
    code := ComputeCheckPayload(b, hl, (len - hl) % 65536);
  }

  /** The second half of check_ip. */
  method ComputeCheckPayload(b: array<byte>, hl: nat, rest: nat) returns (code: int)
    requires b.Length >= HEADERS && CheckPayload(b[..], hl, rest).Some?
    ensures CheckPayload(b[..], hl, rest) == Some(code)
  {
    hide Ip4Sum;
    var sum;
    if b[9] == TCP || b[9] == UDP {
      sum := (b[9] as int + rest) % 65536;
      assert b[..][12..20] == b[12..20] && b[..][hl..hl + rest] == b[hl..hl + rest];
      sum := ComputeIp4Sum(sum, b[12..20]);
      sum := ComputeIp4Sum(sum, b[hl..hl + rest]);
      if sum != ONES && sum != 0 {
        if b[9] == TCP {
          return -5;
        } else if Word(b[26], b[27]) != 0 {
          return -6;
        }
      }
    } else if b[9] == ICMP {
      assert b[..][hl..hl + rest] == b[hl..hl + rest];
      sum := ComputeIp4Sum(0, b[hl..hl + rest]);
      if sum != ONES && sum != 0 {
        return -7;
      }
    }
    code := 0;
  }

  // ----- rewriting the identification -----

  /** The two bytes of a 16-bit variable in the memory of a little-endian host. */
  function Little(lo: byte, hi: byte): (v: nat)
    ensures v <= ONES
  {
    lo as int + 256 * (hi as int)
  }

  /** Network bytes of an id, and the header checksum that the host computes for it in its own
      byte order. */
  function Rewritten(b: seq<byte>, id: nat): (b': seq<byte>)
    requires |b| >= HEADERS && id <= ONES
    ensures |b'| == |b|
  {
    var nid := ONES - Little(id / 256, id % 256);
    var sum := EndAround(Little(b[10], b[11]), nid);
    b[4 := id / 256][5 := id % 256][10 := sum % 256][11 := sum / 256]
  }

  /** The middle of write_to_serial: a zero identification is replaced. The flag is tested in host
      order, so what counts is bit 6 of the fragment offset's low byte. */
  method RewriteId(b: array<byte>, id: nat) returns (done: bool)
    requires b.Length >= HEADERS && id <= ONES
    modifies b
    ensures done == old(b[4] == 0 && b[5] == 0 && b[7] as int / 64 % 2 == 1)
    ensures b[..] == if done then Rewritten(old(b[..]), id) else old(b[..])
  {
    done := b[4] == 0 && b[5] == 0 && b[7] as int / 64 % 2 == 1;
    if done {
      var nid := Little(id / 256, id % 256);
      b[4], b[5] := id / 256, id % 256;
      nid := ONES - nid;
      var sum := (Little(b[10], b[11]) + nid) % 65536;
      if sum < nid {
        sum := sum + 1;
      }
      b[10], b[11] := sum % 256, sum / 256;
    }
  }

  /** Swapping the bytes of a word multiplies it by 256, up to a multiple of 65535. */
  lemma Swapped(v: nat)
    requires v <= ONES
    ensures 256 * v == Word(v % 256, v / 256) + ONES * (v / 256)
  {
  }

  lemma LittleBytes(lo: byte, hi: byte)
    ensures Little(lo, hi) % 256 == lo && Little(lo, hi) / 256 == hi
  {
  }

  /** The big-endian checksum word goes down by the new identification. */
  lemma ChecksumWord(lo: byte, hi: byte, id: nat)
    requires id <= ONES
    ensures var sum := EndAround(Little(lo, hi), ONES - Little(id / 256, id % 256));
      Same(Word(sum % 256, sum / 256) + id, Word(lo, hi))
  {
    var l, n := Little(lo, hi), Little(id / 256, id % 256);
    var sum := EndAround(l, ONES - n);
    LittleBytes(lo, hi);
    LittleBytes(id / 256, id % 256);
    Swapped(sum);
    Swapped(l);
    Swapped(n);
    assert Word(id / 256, id % 256) == id;
    Cancelled(Word(sum % 256, sum / 256), Word(lo, hi), id, sum, l, n, sum / 256, l / 256, n / 256);
  }

  lemma Cancelled(w: int, w': int, id: int, sum: int, l: int, n: int, a: int, b: int, c: int)
    requires 256 * sum == w + ONES * a && 256 * l == w' + ONES * b && 256 * n == id + ONES * c
    requires sum == l + ONES - n || sum == l - n
    ensures Same(w + id, w')
  {
    var k := (if sum == l - n then 0 else 256) - a - c + b;
    assert w + id == w' + ONES * k;
    Multiple(w', k);
  }

  /** How rewriting changes the sum over a range that starts at a word of four bytes: the part of the
      identification and the part of the checksum that lie in it. Where both are summed, they cancel out. */
  function Change(b: seq<byte>, id: nat, from: nat, to: nat): int
    requires |b| >= HEADERS && id <= ONES
  {
    (if from > 4 || to <= 4 then 0 else if to == 5 then 256 * (id / 256) else id)
    + (if from > 8 || to <= 10 then 0
       else if to == 11 then 256 * (Rewritten(b, id)[10] as int - b[10] as int)
       else -(id as int))
  }

  /** Where a word of four bytes starts, as far as the first twelve bytes go. */
  predicate Aligned(from: nat) {
    from == 0 || from == 4 || from == 8 || from >= 12
  }

  /** A range with the new identification, as far as it goes. */
  function WithId(s: seq<byte>, from: nat, hi: byte, lo: byte): (t: seq<byte>)
    requires Aligned(from)
    ensures |t| == |s|
  {
    var to := from + |s|;
    if from > 4 || to <= 4 then s else if to == 5 then s[4 - from := hi] else s[4 - from := hi][5 - from := lo]
  }

  lemma RangeOfRewritten(b: seq<byte>, id: nat, from: nat, to: nat)
    requires |b| >= HEADERS && id <= ONES && Aligned(from) && from <= to <= |b|
    ensures var t, s' := WithId(b[from..to], from, id / 256, id % 256), Rewritten(b, id)[from..to];
      var low: byte, high: byte := Rewritten(b, id)[10], Rewritten(b, id)[11];
      s' ==
        if from > 8 || to <= 10 then t
        else if to == 11 then t[10 - from := low]
        else t[10 - from := low][11 - from := high]
  {
    hide EndAround;
    var b' := Rewritten(b, id);
    RangeOfFour(b, from, to, b'[4], b'[5], b'[10], b'[11]);
  }

  lemma RangeOfFour(b: seq<byte>, from: nat, to: nat, hi: byte, lo: byte, low: byte, high: byte)
    requires |b| >= HEADERS && Aligned(from) && from <= to <= |b|
    ensures var t, s' := WithId(b[from..to], from, hi, lo), b[4 := hi][5 := lo][10 := low][11 := high][from..to];
      s' ==
        if from > 8 || to <= 10 then t
        else if to == 11 then t[10 - from := low]
        else t[10 - from := low][11 - from := high]
  {
  }

  lemma {:induction false} SetLast(p: seq<byte>, k: nat, hi: byte)
    requires k % 2 == 0 && k + 1 == |p|
    ensures WordSum(p[k := hi]) == WordSum(p) + 256 * (hi as int - p[k] as int)
    decreases k
  {
    if k > 0 {
      assert p[k := hi][2..] == p[2..][k - 2 := hi];
      SetLast(p[2..], k - 2, hi);
    }
  }

  lemma SumWithId(s: seq<byte>, from: nat, hi: byte, lo: byte)
    requires Aligned(from)
    requires from == 0 ==> (|s| > 4 ==> s[4] == 0) && (|s| > 5 ==> s[5] == 0)
    requires from == 4 ==> (|s| > 0 ==> s[0] == 0) && (|s| > 1 ==> s[1] == 0)
    ensures WordSum(WithId(s, from, hi, lo)) == WordSum(s)
      + (if from > 4 || from + |s| <= 4 then 0 else if from + |s| == 5 then 256 * (hi as int) else Word(hi, lo))
  {
    hide WordSum, Word, WithId;
    Zeros();
    WithIdIs(s, from, hi, lo);
    if from == 0 && |s| == 5 {
      SetLast(s, 4, hi);
    } else if from == 0 && |s| > 5 {
      SetWord(s, 4, hi, lo);
    } else if from == 4 && |s| == 1 {
      SetLast(s, 0, hi);
    } else if from == 4 && |s| > 1 {
      SetWord(s, 0, hi, lo);
    }
  }

  lemma WithIdIs(s: seq<byte>, from: nat, hi: byte, lo: byte)
    requires Aligned(from)
    ensures from == 0 && |s| == 5 ==> WithId(s, from, hi, lo) == s[4 := hi]
    ensures from == 0 && |s| > 5 ==> WithId(s, from, hi, lo) == s[4 := hi][5 := lo]
    ensures from == 4 && |s| == 1 ==> WithId(s, from, hi, lo) == s[0 := hi]
    ensures from == 4 && |s| > 1 ==> WithId(s, from, hi, lo) == s[0 := hi][1 := lo]
    ensures from > 4 || from + |s| <= 4 ==> WithId(s, from, hi, lo) == s
  {
  }

  lemma Zeros()
    ensures Word(0, 0) == 0
  {
  }

  lemma SumOfRange(b: seq<byte>, id: nat, from: nat, to: nat)
    requires |b| >= HEADERS && id <= ONES && b[4] == b[5] == 0 && Aligned(from) && from <= to <= |b|
    ensures Same(WordSum(Rewritten(b, id)[from..to]), WordSum(b[from..to]) + Change(b, id, from, to))
  {
    hide WordSum, EndAround, Rewritten, Word, Same, WithId;
    RangeOfRewritten(b, id, from, to);
    var s: seq<byte> := b[from..to];
    var t := WithId(s, from, id / 256, id % 256);
    SumWithId(s, from, id / 256, id % 256);
    IdBytes(id);
    SameFacts(WordSum(t), WordSum(t), WordSum(t));
    if from <= 8 && to > 10 {
      WithIdBytes(b, id, from, to);
      var low: byte := Rewritten(b, id)[10];
      if to == 11 {
        SetLast(t, 10 - from, low);
        SameFacts(WordSum(t[10 - from := low]), WordSum(t[10 - from := low]), 0);
      } else {
        SumWithChecksum(b, id, t, 10 - from);
        SumBytes(b, id);
      }
    }
  }

  lemma WithIdBytes(b: seq<byte>, id: nat, from: nat, to: nat)
    requires |b| >= HEADERS && id <= ONES && Aligned(from) && from <= 8 && from <= to <= |b| && to > 10
    ensures var t := WithId(b[from..to], from, id / 256, id % 256);
      |t| == to - from && t[10 - from] == b[10] && (to > 11 ==> t[11 - from] == b[11])
  {
  }

  lemma SumBytes(b: seq<byte>, id: nat)
    requires |b| >= HEADERS && id <= ONES
    ensures var sum := EndAround(Little(b[10], b[11]), ONES - Little(id / 256, id % 256));
      Rewritten(b, id)[10] == sum % 256 && Rewritten(b, id)[11] == sum / 256
  {
    hide EndAround;
  }

  lemma SumWithChecksum(b: seq<byte>, id: nat, s: seq<byte>, k: nat)
    requires |b| >= HEADERS && id <= ONES && k % 2 == 0 && k + 1 < |s| && s[k] == b[10] && s[k + 1] == b[11]
    ensures var sum := EndAround(Little(b[10], b[11]), ONES - Little(id / 256, id % 256));
      var low: byte, high: byte := sum % 256, sum / 256;
      Same(WordSum(s[k := low][k + 1 := high]), WordSum(s) - id)
  {
    hide WordSum, EndAround, Word, Same;
    var sum := EndAround(Little(b[10], b[11]), ONES - Little(id / 256, id % 256));
    ChecksumWord(b[10], b[11], id);
    ChecksumOfRange(s, k, sum % 256, sum / 256, id);
  }

  lemma IdBytes(id: nat)
    requires id <= ONES
    ensures Word(id / 256, id % 256) == id
  {
  }

  lemma ChecksumOfRange(s: seq<byte>, k: nat, low: byte, high: byte, id: nat)
    requires k % 2 == 0 && k + 1 < |s| && Same(Word(low, high) + id, Word(s[k], s[k + 1]))
    ensures Same(WordSum(s[k := low][k + 1 := high]), WordSum(s) - id)
  {
    hide WordSum, Word, Same;
    SetWord(s, k, low, high);
    AddSame(Word(low, high) + id, Word(s[k], s[k + 1]), WordSum(s) - Word(s[k], s[k + 1]) - id);
  }

  lemma RangeVerifies(b: seq<byte>, id: nat, sum: nat, from: nat, to: nat)
    requires |b| >= HEADERS && id <= ONES && b[4] == b[5] == 0 && sum <= ONES && Aligned(from) && from <= to <= |b|
    requires Verifies(Ip4Sum(sum, b[from..to]))
    ensures Verifies(Ip4Sum(sum, Rewritten(b, id)[from..to])) <==> Same(Change(b, id, from, to), 0)
  {
    hide WordSum, Ip4Sum, EndAround, Rewritten, Same, Verifies, Change;
    var b', change := Rewritten(b, id), Change(b, id, from, to);
    var w, w' := WordSum(b'[from..to]), WordSum(b[from..to]);
    SumOfRange(b, id, from, to);
    VerifiesIff(sum, b[from..to]);
    VerifiesIff(sum, b'[from..to]);
    AddSame(w, w' + change, sum);
    SameFacts(w + sum, w' + change + sum, 0);
    SameFacts(w' + change + sum, w + sum, 0);
    ZeroChange(sum + w', change);
  }

  /** A change by a multiple of 65535, and only that, keeps a sum at zero. */
  lemma ZeroChange(s: int, change: int)
    requires Same(s, 0)
    ensures Same(s + change, 0) <==> Same(change, 0)
  {
    var k := s / ONES;
    assert s == ONES * k;
    Multiple(change, k);
  }

  lemma RewrittenBytes(b: seq<byte>, id: nat)
    requires |b| >= HEADERS && id <= ONES
    ensures var b' := Rewritten(b, id);
      && b'[0] == b[0] && b'[2] == b[2] && b'[3] == b[3] && b'[9] == b[9] && b'[26] == b[26] && b'[27] == b[27]
      && b'[12..20] == b[12..20]
  {
  }

  /** The payload of a packet enters its verdict: not that of an unknown protocol, nor a UDP payload
      with a disabled checksum. */
  predicate Summed(b: seq<byte>)
    requires |b| >= HEADERS
  {
    b[9] == TCP || b[9] == ICMP || (b[9] == UDP && Word(b[26], b[27]) != 0)
  }

  /** A packet that passed the check before its identification is rewritten passes it afterwards
      exactly if neither the sum of the header nor, where it counts, that of the payload changes. From
      twelve bytes on that is: exactly unless the header length is two words and the new identification
      is not a multiple of 65535, because then the identification is part of the header but the checksum
      is not. */
  lemma RewriteKeepsVerdict(b: seq<byte>, len: nat, id: nat)
    requires |b| >= HEADERS && id <= ONES && b[4] == b[5] == 0
    requires CheckIp(b, len) == Some(0)
    ensures CheckIp(Rewritten(b, id), len) == Some(0) <==> SumsKept(b, len, id)
    ensures len >= 12 ==> (CheckIp(Rewritten(b, id), len) == Some(0) <==> b[0] as int % 16 != 2 || id % ONES == 0)
  {
    hide CheckIp, SumsKept;
    CheckIpStep(b, len);
    VerdictKept(b, len, id);
    if len >= 12 { LongChange(b, id, len); }
  }

  lemma CheckIpStep(b: seq<byte>, len: nat)
    requires |b| >= HEADERS
    ensures CheckIp(b, len) == Some(0) <==>
      && b[0] as int / 16 == 4 && Word(b[2], b[3]) == len && HeaderLength(b) <= |b|
      && Verifies(Ip4Sum(0, b[0..HeaderLength(b)]))
      && CheckPayload(b, HeaderLength(b), (len - HeaderLength(b)) % 65536) == Some(0)
  {
    hide HeaderLength, Ip4Sum, CheckPayload, Verifies;
    if HeaderLength(b) <= |b| { assert b[0..HeaderLength(b)] == b[..HeaderLength(b)]; }
  }

  lemma HeaderAligned(b: seq<byte>, id: nat)
    requires |b| >= HEADERS && id <= ONES
    ensures Aligned(HeaderLength(b)) && HeaderLength(Rewritten(b, id)) == HeaderLength(b)
  {
    hide Rewritten;
    RewrittenBytes(b, id);
  }

  predicate SumsKept(b: seq<byte>, len: nat, id: nat)
    requires |b| >= HEADERS && id <= ONES
  {
    var hl := HeaderLength(b);
    && Change(b, id, 0, hl) % ONES == 0
    && (Summed(b) ==> Change(b, id, hl, hl + (len - hl) % 65536) % ONES == 0)
  }

  lemma VerdictKept(b: seq<byte>, len: nat, id: nat)
    requires |b| >= HEADERS && id <= ONES && b[4] == b[5] == 0
    requires CheckIp(b, len) == Some(0)
    ensures CheckIp(Rewritten(b, id), len) == Some(0) <==> SumsKept(b, len, id)
  {
    hide CheckIp, HeaderLength, Ip4Sum, Rewritten, CheckPayload, Verifies, Change, Summed;
    var b', hl := Rewritten(b, id), HeaderLength(b);
    CheckIpStep(b, len);
    CheckIpStep(b', len);
    HeaderAligned(b, id);
    RewrittenBytes(b, id);
    RangeVerifies(b, id, 0, 0, hl);
    PayloadVerdict(b, id, hl, (len - hl) % 65536);
  }

  lemma LongChange(b: seq<byte>, id: nat, len: nat)
    requires |b| >= HEADERS && id <= ONES && 12 <= len <= ONES
    ensures SumsKept(b, len, id) <==> b[0] as int % 16 != 2 || id % ONES == 0
  {
    hide Rewritten, Summed;
    var words := b[0] as int % 16;
    var hl := 4 * words;
    BehindTwelve(hl, len);
    if words == 2 {
      assert Change(b, id, 0, hl) == id;
      if id % ONES == 0 { assert id == 0 || id == ONES; }
    } else {
      assert Change(b, id, 0, hl) == 0;
    }
  }

  lemma BehindTwelve(hl: nat, len: nat)
    requires 12 <= len <= ONES && hl <= 60
    ensures hl + (len - hl) % 65536 >= 12
  {
  }

  lemma PayloadVerdict(b: seq<byte>, id: nat, hl: nat, rest: nat)
    requires |b| >= HEADERS && id <= ONES && b[4] == b[5] == 0 && Aligned(hl)
    requires CheckPayload(b, hl, rest) == Some(0)
    ensures CheckPayload(Rewritten(b, id), hl, rest) == Some(0) <==>
      (Summed(b) ==> Same(Change(b, id, hl, hl + rest), 0))
  {
    hide WordSum, Ip4Sum, EndAround, Rewritten, Verifies, Same, PseudoHeader, Change;
    var b' := Rewritten(b, id);
    RewrittenBytes(b, id);
    SamePseudoHeader(b, id, rest);
    if Summed(b) {
      RangeVerifies(b, id, if b[9] == ICMP then 0 else PseudoHeader(b, rest), hl, hl + rest);
    }
  }

  /** A header of two words, and nothing but zeros behind it. */
  function TwoWordHeader(): (b: seq<byte>)
    ensures |b| == HEADERS && b[..8] == [0x42, 0, 0, 0x1C, 0, 0, 0xBD, 0xE3]
    ensures forall i :: 8 <= i < HEADERS ==> b[i] == 0
  {
    var b: seq<byte> := [0x42, 0, 0, 0x1C, 0, 0, 0xBD, 0xE3] + seq(20, _ => 0);
    b
  }

  /** That packet passes, its tested flag is set, and with a new identification it is dropped. */
  lemma RewriteDrops(id: nat)
    requires 0 < id < ONES
    ensures var b := TwoWordHeader();
      && CheckIp(b, 28) == Some(0) && b[4] == b[5] == 0 && b[7] as int / 64 % 2 == 1
      && CheckIp(Rewritten(b, id), 28) == Some(-4)
  {
    hide Ip4Sum, EndAround, Rewritten, Change, Verifies;
    var b := TwoWordHeader();
    assert b[0] == b[..8][0] && b[2] == b[..8][2] && b[3] == b[..8][3] && b[4] == b[..8][4] && b[5] == b[..8][5]
      && b[7] == b[..8][7];
    HeaderSum(b[..8]);
    VerifiesIff(0, b[..8]);
    assert CheckIp(b, 28) == Some(0);
    RewrittenBytes(b, id);
    RewriteKeepsVerdict(b, 28, id);
    assert b[9] == 0;
  }

  lemma HeaderSum(h: seq<byte>)
    requires h == [0x42, 0, 0, 0x1C, 0, 0, 0xBD, 0xE3]
    ensures WordSum(h) == ONES
  {
    assert h[2..][2..][2..][2..] == [];
    assert WordSum(h[2..][2..][2..]) == 0xBDE3;
    assert WordSum(h[2..][2..]) == 0xBDE3;
    assert WordSum(h[2..]) == 0x1C + 0xBDE3;
  }

  lemma SamePseudoHeader(b: seq<byte>, id: nat, rest: nat)
    requires |b| >= HEADERS && id <= ONES
    ensures PseudoHeader(Rewritten(b, id), rest) == PseudoHeader(b, rest)
  {
    hide Ip4Sum, Rewritten;
    RewrittenBytes(b, id);
  }

  // ----- filling in the sums -----

  /** A complemented sum makes the range that it was taken over verify. */
  lemma ComplementVerifies(sum: nat, s: seq<byte>, k: nat, field: nat)
    requires sum <= ONES && k % 2 == 0 && k + 1 < |s| && s[k] == s[k + 1] == 0
    requires field == ONES - Ip4Sum(sum, s) || (field == ONES && Ip4Sum(sum, s) == ONES)
    ensures field <= ONES && Verifies(Ip4Sum(sum, s[k := field / 256][k + 1 := field % 256]))
  {
    hide WordSum, Ip4Sum;
    var hi: byte, lo: byte := field / 256, field % 256;
    var t: seq<byte> := s[k := hi][k + 1 := lo];
    SetWord(s, k, hi, lo);
    Ip4SumMeaning(sum, s);
    VerifiesIff(sum, t);
    AddSame(Ip4Sum(sum, s), sum + WordSum(s), field);
    assert Ip4Sum(sum, s) + field == ONES || Ip4Sum(sum, s) + field == 2 * ONES;
  }

  /** htons into the packet: network byte order. */
  method Put16(b: array<byte>, at: nat, v: nat)
    requires at + 1 < b.Length && v <= ONES
    modifies b
    ensures b[..] == old(b[..])[at := v / 256][at + 1 := v % 256]
  {
    b[at], b[at + 1] := v / 256, v % 256;
  }

  /** The header sums at the end of relay_dhcp_to_client, over a packet whose other fields are set. */
  method FillSums(b: array<byte>, udpLen: nat)
    requires 20 + udpLen <= b.Length && 8 <= udpLen && 20 + udpLen <= ONES
    requires b[0] == 0x45 && b[9] == UDP && Word(b[2], b[3]) == 20 + udpLen
    requires b[10] == b[11] == 0 && b[26] == b[27] == 0
    modifies b
    ensures CheckIp(b[..], 20 + udpLen) == Some(0)
    ensures forall i :: 0 <= i < b.Length && i != 10 && i != 11 && i != 26 && i != 27 ==> b[i] == old(b[i])
  {
    hide Ip4Sum, CheckPayload;
    ghost var before := b[..];
    FillHeaderSum(b);
    ghost var middle := b[..];
    assert forall i :: 0 <= i < b.Length && i != 10 && i != 11 ==> middle[i] == before[i];
    FillUdpSum(b, udpLen);
    assert b[..][..20] == middle[..20];
    assert Word(b[..][2], b[..][3]) == 20 + udpLen;
  }

  method FillHeaderSum(b: array<byte>)
    requires b.Length >= HEADERS && b[10] == b[11] == 0
    modifies b
    ensures Verifies(Ip4Sum(0, b[..][..20]))
    ensures forall i :: 0 <= i < b.Length && i != 10 && i != 11 ==> b[i] == old(b[i])
  {
    hide Ip4Sum, Verifies;
    ghost var header: seq<byte> := b[..][..20];
    assert b[..20] == header;
    var sum := ComputeIp4Sum(0, b[..20]);
    ComplementVerifies(0, header, 10, ONES - sum);
    Put16(b, 10, ONES - sum);
    var hi: byte, lo: byte := (ONES - sum) / 256, (ONES - sum) % 256;
    assert b[..][..20] == header[10 := hi][11 := lo];
  }

  method FillUdpSum(b: array<byte>, udpLen: nat)
    requires 20 + udpLen <= b.Length && 8 <= udpLen && 20 + udpLen <= ONES && b[9] == UDP && b[26] == b[27] == 0
    modifies b
    ensures CheckPayload(b[..], 20, udpLen) == Some(0)
    ensures forall i :: 0 <= i < b.Length && i != 26 && i != 27 ==> b[i] == old(b[i])
  {
    hide Ip4Sum, Verifies;
    ghost var datagram: seq<byte>, addresses: seq<byte> := b[..][20..20 + udpLen], b[..][12..20];
    assert b[20..20 + udpLen] == datagram && b[12..20] == addresses;
    var sum := 17 + udpLen;
    sum := ComputeIp4Sum(sum, b[12..20]);
    ghost var pseudo := sum;
    sum := ComputeIp4Sum(sum, b[20..20 + udpLen]);
    var field := if sum != ONES then ONES - sum else ONES;
    ComplementVerifies(pseudo, datagram, 6, field);
    Put16(b, 26, field);
    var hi: byte, lo: byte := field / 256, field % 256;
    assert b[..][20..20 + udpLen] == datagram[6 := hi][7 := lo];
    assert b[..][12..20] == addresses;
  }
}
