/** What single options mean, byte by byte: the message format of RFC 7252, section 3, and the table of
    options of sections 5.10 and 12.2, written out in numbers. */
module CoapOptions {
  import opened Basics
  import opened CoapWire
  import opened CoapText
  import opened CoapMessage

  // ----- the message format -----

  /** An option delta or length: its four bits, and the bytes that follow. */
  function FourBits(v: nat): nat {
    if v < 13 then v else if v < 269 then 13 else 14
  }

  function Following(v: nat): seq<byte>
    requires v <= 65804
  {
    if v < 13 then [] else if v < 269 then [v - 13] else [(v - 269) / 0x100, (v - 269) % 0x100]
  }

  function HeaderOf(delta: nat, length: nat): seq<byte>
    requires delta <= 65804 && length <= 65804
  {
    [0x10 * FourBits(delta) + FourBits(length)] + Following(delta) + Following(length)
  }

  /** The occurrences of one option, delta behind the option before it. */
  function Occurrences(delta: nat, values: seq<seq<byte>>): (bytes: seq<byte>)
    requires delta <= 65804 && forall v :: v in values ==> |v| <= 65804
    decreases values
  {
    if values == [] then []
    else HeaderOf(delta, |values[0]|) + values[0] + Occurrences(0, values[1..])
  }

  /** A message that holds one option, perhaps several times, and perhaps a payload. */
  function OptionMessage(kind: nat, code: byte, mid: nat, token: seq<byte>, number: nat, values: seq<seq<byte>>,
                         payload: seq<byte>): seq<byte>
    requires kind < 4 && mid < 0x1_0000 && |token| <= 8 && number < 64 && forall v :: v in values ==> |v| <= 65804
  {
    [0x40 + 0x10 * kind + |token|, code, mid / 0x100, mid % 0x100] + token
    + (Occurrences(number, values) + if payload == [] then [] else [0xFF] + payload)
  }

  /** A big-endian number of at most 32 bits; of a longer one, the last four bytes. */
  function BigEndian(b: seq<byte>): (v: nat)
    ensures v < 0x1_0000_0000
  {
    var n := |b|;
    (if n >= 4 then 0x100_0000 * b[n - 4] as int else 0) + (if n >= 3 then 0x1_0000 * b[n - 3] as int else 0)
    + (if n >= 2 then 0x100 * b[n - 2] as int else 0) + (if n >= 1 then b[n - 1] as int else 0)
  }

  lemma {:induction false} ParseIntMeaning(b: seq<byte>)
    ensures ParseInt(b) == BigEndian(b)
    decreases |b|
  {
    if b != [] {
      var n := |b|;
      var front := b[..n - 1];
      ParseIntMeaning(front);
      var v, top := BigEndian(front), if n >= 5 then front[n - 5] as int else 0;
      assert v == 0x100_0000 * top + BigEndian(b) / 0x100;
      assert v * 0x100 + b[n - 1] as int == 0x1_0000_0000 * top + BigEndian(b);
    }
  }

  /** The size that the three lowest bits of a block option stand for. */
  function SizeOfBits(k: nat): nat {
    if k == 0 then 16 else if k == 1 then 32 else if k == 2 then 64 else if k == 3 then 128
    else if k == 4 then 256 else if k == 5 then 512 else if k == 6 then 1024 else 2048
  }

  lemma ReadBlockMeaning(v: nat)
    requires v < 0x1_0000_0000
    ensures var size := SizeOfBits(v % 8);
      ReadBlock(v) == Block(v / 16, v / 8 % 2 == 1, size, v / 16 * size % 0x1_0000_0000)
  {
    assert Pow2(3) == 8 && Pow2(4) == 16 && Pow2(5) == 32 && Pow2(6) == 64 && Pow2(7) == 128;
    BlockOffset(v);
  }

  // ----- the table of options -----

  /** What becomes of an option that occurs with certain values, the last of which counts unless the
      option is a list: If-Match and ETag are cut to eight bytes, Uri-Host stays, If-None-Match is a
      flag; Uri-Port, Content-Format and Accept have 16 bits, Observe, Max-Age, Size2 and Size1 have 32;
      paths are joined by slashes and queries by ampersands; Block2 and Block1 are taken apart. Anything
      else is only noted. */
  function Meaning(number: nat, values: seq<seq<byte>>): Value
    requires values != []
  {
    var last := values[|values| - 1];
    if number == 1 || number == 4 then Text(if |last| <= 8 then last else last[..8])
    else if number == 3 then Text(last)
    else if number == 7 || number == 12 || number == 17 then Number(BigEndian(last) % 0x1_0000)
    else if number == 6 || number == 14 || number == 28 || number == 60 then Number(BigEndian(last))
    else if number == 8 || number == 11 then Text(Joined(DropEmpty(values), 0x2F))
    else if number == 15 || number == 20 then Text(Joined(DropEmpty(values), 0x26))
    else if number == 23 || number == 27 then
      var v, size := BigEndian(last), SizeOfBits(BigEndian(last) % 8);
      BlockIs(Block(v / 16, v / 8 % 2 == 1, size, v / 16 * size % 0x1_0000_0000))
    else Present
  }

  predicate Recognized(number: nat) {
    || number == 1 || number == 3 || number == 4 || number == 5 || number == 6 || number == 7 || number == 8
    || number == 11 || number == 12 || number == 14 || number == 15 || number == 17 || number == 20
    || number == 23 || number == 27 || number == 28 || number == 60
  }

  /** Parsing a message with one option, for every option number and every sequence of values: the two
      proxy options are rejected with 5.05, unknown odd numbers with 4.02, and all others are accepted
      with their meaning; header, message id and token are read off their bytes, and the payload is cut to
      the chunk size. */
  lemma ParseOption(kind: nat, code: byte, mid: nat, token: seq<byte>, number: nat, values: seq<seq<byte>>,
                    payload: seq<byte>, chunk: nat)
    requires kind < 4 && mid < 0x1_0000 && |token| <= 8 && number < 64
    requires values != [] && forall v :: v in values ==> |v| <= 65804
    ensures Parse(OptionMessage(kind, code, mid, token, number, values, payload), chunk) ==
      if number == 35 || number == 39 then Rejected(165)
      else if !Recognized(number) && number % 2 == 1 then Rejected(130)
      else Accepted(Packet(kind, code, mid, token, map[number := Meaning(number, values)],
                           if |payload| <= chunk then payload else payload[..chunk]))
  {
    hide Parse, ParseOptions, Occurrences, KindOf, AcceptAll, Meaning;
    var p := Packet(kind, code, mid, token, map[], []);
    var tail: seq<byte> := if payload == [] then [] else [0xFF] + payload;
    ParseHeader(kind, code, mid, token, Occurrences(number, values) + tail, chunk);
    TableIs(number);
    ParseOccurrences(number, values, 0, p, tail, chunk);
    if !KindOf(number).Proxy? && !(KindOf(number).Unknown? && number % 2 == 1) {
      AcceptMeaning(p, number, values);
    }
  }

  /** Another version than 1, or a token of more than eight bytes, is rejected with 4.00. */
  lemma ParseBadHeader(data: seq<byte>, chunk: nat)
    requires |data| >= 4 && !(0x40 <= data[0] < 0x80 && data[0] % 0x10 <= 8)
    ensures Parse(data, chunk) == Rejected(128)
  {
    hide ParseOptions;
  }

  /** The values that one option is serialized as: a text as it is, a flag as one empty value, a number as
      the shortest bytes that are read as it, a list as its parts. */
  lemma ValuesMeaning(number: nat, v: Value, beyond: (byte, byte))
    requires ValueTyped(number, v)
    ensures var values := Values(number, v, beyond);
      && (number == 1 || number == 3 || number == 4 || number == 35 || number == 39 ==>
           v.Text? && values == [v.text])
      && (number == 5 ==> values == [[]])
      && (number == 7 || number == 12 || number == 17 || number == 6 || number == 14 || number == 28 || number == 60 ==>
           v.Number? && |values| == 1 && Shortest(values[0], v.n))
      && (number == 8 || number == 11 ==> v.Text? && values == Split(v.text, 0x2F, beyond))
      && (number == 15 || number == 20 ==> v.Text? && values == Split(v.text, 0x26, beyond))
      && (!Recognized(number) && number != 35 && number != 39 ==> values == [])
  {
    hide Split, IntBytes;
    if v.Number? && v.n < 0x1_0000_0000 { ShortestBytes(v.n); }
    assert IntBytes(0) == [] by { NoBytes(); }
  }

  predicate Shortest(bytes: seq<byte>, v: nat) {
    |bytes| <= 4 && BigEndian(bytes) == v && (bytes != [] ==> bytes[0] != 0)
  }

  lemma ShortestBytes(v: nat)
    requires v < 0x1_0000_0000
    ensures Shortest(IntBytes(v), v)
  {
    IntRoundTrip(v);
    ParseIntMeaning(IntBytes(v));
  }

  lemma NoBytes()
    ensures IntBytes(0) == []
  {
  }

  /** A message is serialized exactly if it is empty, or its header, with token and options, has at most
      62 bytes. */
  lemma HeaderLimit(p: Packet, mem: Memory)
    requires Typed(p) && |mem| == OPTION_BITS
    ensures Ascending(0, ORDER)
    ensures Serialize(p, mem).Some? <==> p.code == 0 || 4 + |p.token| + |OptionsFrom(p, mem, ORDER, 0)| <= 62
  {
    hide OptionsFrom;
    OrderIsAscending();
  }

  lemma TableIs(number: nat)
    ensures KindOf(number).Proxy? <==> number == 35 || number == 39
    ensures KindOf(number).Unknown? <==> !Recognized(number) && number != 35 && number != 39
  {
  }

  /** The header of an option as it is read. */
  lemma HeaderIs(delta: nat, length: nat)
    requires delta <= 65804 && length <= 65804
    ensures OptionHeader(delta, length) == HeaderOf(delta, length)
  {
  }

  lemma OccurrencesStep(delta: nat, values: seq<seq<byte>>)
    requires delta <= 65804 && values != [] && forall v :: v in values ==> |v| <= 65804
    ensures values[0] in values && forall v :: v in values[1..] ==> v in values
    ensures Occurrences(delta, values)
      == OptionHeader(delta, |values[0]|) + values[0] + Occurrences(0, values[1..])
    ensures values[1..] == [] ==> Occurrences(0, values[1..]) == []
  {
    hide HeaderOf, OptionHeader;
    HeaderIs(delta, |values[0]|);
  }

  lemma {:induction false} ParseOccurrences(delta: nat, values: seq<seq<byte>>, number: nat, p: Packet,
                                            tail: seq<byte>, chunk: nat)
    requires number + delta < 64 && values != [] && forall v :: v in values ==> |v| <= 65804
    requires tail == [] || tail[0] == 0xFF
    ensures ParseOptions(Occurrences(delta, values) + tail, number, p, chunk) ==
      if KindOf(number + delta).Proxy? then Rejected(165)
      else if KindOf(number + delta).Unknown? && (number + delta) % 2 == 1 then Rejected(130)
      else WithPayload(AcceptAll(p, number + delta, values), tail, chunk)
    decreases values
  {
    hide ParseOptions, Occurrences, KindOf, Apply, OptionHeader;
    OccurrencesStep(delta, values);
    var more := Occurrences(0, values[1..]);
    assert Occurrences(delta, values) + tail == OptionHeader(delta, |values[0]|) + values[0] + (more + tail);
    ParseOne(delta, values[0], more + tail, number, p, chunk);
    var q := Accept(p, number + delta, values[0]);
    if values[1..] == [] {
      assert AcceptAll(p, number + delta, values) == q;
      assert more + tail == tail;
      ParsePayload(tail, number + delta, q, chunk);
    } else {
      ParseOccurrences(0, values[1..], number + delta, q, tail, chunk);
    }
  }

  // ----- repeated options -----

  /** An option that is not a list: only its last occurrence counts. */
  lemma {:induction false} AcceptLast(p: Packet, number: nat, values: seq<seq<byte>>)
    requires values != [] && !KindOf(number).Multi?
    ensures AcceptAll(p, number, values)
      == p.(options := p.options[number := Apply(number, map[], values[|values| - 1])])
    decreases values
  {
    hide KindOf;
    SameWithout(number, p.options, values[0]);
    if values[1..] != [] {
      AcceptLast(Accept(p, number, values[0]), number, values[1..]);
    }
  }

  lemma SameWithout(number: nat, options: map<nat, Value>, bytes: seq<byte>)
    requires !KindOf(number).Multi?
    ensures Apply(number, options, bytes) == Apply(number, map[], bytes)
  {
  }

  lemma AcceptMeaning(p: Packet, number: nat, values: seq<seq<byte>>)
    requires p.options == map[] && values != [] && !KindOf(number).Proxy?
    ensures AcceptAll(p, number, values) == p.(options := map[number := Meaning(number, values)])
  {
    hide AcceptAll, ReadBlock, ParseInt, BigEndian, Joined, DropEmpty;
    var last := values[|values| - 1];
    ParseIntMeaning(last);
    if KindOf(number).Multi? {
      AcceptParts(p, number, values, KindOf(number).sep);
      MergeIsJoin(values, KindOf(number).sep);
    } else {
      AcceptLast(p, number, values);
      ReadBlockMeaning(BigEndian(last));
      assert last[..|last|] == last;
      assert Apply(number, map[], last) == Meaning(number, values);
    }
  }
}
