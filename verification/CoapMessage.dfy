/** Whole CoAP messages: what Erbium's serializer writes for a packet, what its parser makes of
    a byte string, and when the parser gives back the packet that was serialized. */
module CoapMessage {
  import opened Basics
  import opened CoapWire
  import opened CoapText

  const MAX_HEADER_SIZE: nat := 4 + TOKEN_LEN + 3 + 1 + ETAG_LEN + 4 + 4 + 30
  const TOKEN_LEN: nat := 8
  const ETAG_LEN: nat := 8
  const OPTION_BITS: nat := 64  // the bitmap has 60 / 8 + 1 bytes

  const BAD_REQUEST_4_00: nat := 128
  const BAD_OPTION_4_02: nat := 130
  const PROXYING_NOT_SUPPORTED_5_05: nat := 165

  const SLASH: byte := 0x2F
  const AMPERSAND: byte := 0x26

  // ----- packets -----

  /** How an option number is treated, by the serializer macros and by the parser's switch. */
  datatype Kind = Int16 | Int32 | Opaque | Plain | Multi(sep: byte) | Flag | BlockOption | Proxy | Unknown

  function KindOf(number: nat): Kind {
    match number
    case 1 => Opaque            // If-Match
    case 3 => Plain             // Uri-Host
    case 4 => Opaque            // ETag
    case 5 => Flag              // If-None-Match
    case 6 => Int32             // Observe
    case 7 => Int16             // Uri-Port
    case 8 => Multi(SLASH)      // Location-Path
    case 11 => Multi(SLASH)     // Uri-Path
    case 12 => Int16            // Content-Format
    case 14 => Int32            // Max-Age
    case 15 => Multi(AMPERSAND) // Uri-Query
    case 17 => Int16            // Accept
    case 20 => Multi(AMPERSAND) // Location-Query
    case 23 => BlockOption      // Block2
    case 27 => BlockOption      // Block1
    case 28 => Int32            // Size2
    case 35 => Proxy            // Proxy-Uri
    case 39 => Proxy            // Proxy-Scheme
    case 60 => Int32            // Size1
    case _ => Unknown
  }

  /** The numbers in the order in which the serializer visits them. */
  const ORDER: seq<nat> := [1, 3, 4, 5, 6, 7, 8, 11, 12, 14, 15, 17, 20, 23, 27, 28, 35, 39, 60]

  datatype Value = Number(n: nat) | Text(text: seq<byte>) | BlockIs(block: Block) | Present

  /** The fields of coap_packet_t. An option is in the map exactly when its bit is set. */
  datatype Packet = Packet(kind: nat, code: byte, mid: nat, token: seq<byte>,
                           options: map<nat, Value>, payload: seq<byte>)

  /** The C types of the option fields. */
  predicate ValueTyped(number: nat, v: Value) {
    match KindOf(number)
    case Int16 => v.Number? && v.n < 0x1_0000
    case Int32 => v.Number? && v.n < TWO_TO_THE_32
    case Opaque => v.Text? && |v.text| <= ETAG_LEN
    case Plain => v.Text?
    case Multi(_) => v.Text?
    case Flag => v.Present?
    case BlockOption => v.BlockIs? && v.block.num < TWO_TO_THE_32 && v.block.size < 0x1_0000
    case Proxy => v.Text?
    case Unknown => v.Present?
  }

  ghost predicate Typed(p: Packet) {
    && p.kind < 4 && p.mid < 0x1_0000 && |p.token| <= TOKEN_LEN
    && forall k :: k in p.options ==> k < OPTION_BITS && ValueTyped(k, p.options[k])
  }

  /** For each option number, the two bytes behind its text in memory. The first one terminates
      the text, so it is not a separator. */
  type Memory = seq<(byte, byte)>

  ghost predicate Terminated(mem: Memory) {
    && |mem| == OPTION_BITS
    && forall k :: 0 <= k < |mem| ==> mem[k].0 != SLASH && mem[k].0 != AMPERSAND
  }

  // ----- serializing -----

  /** The option values that one field turns into. */
  function Values(number: nat, v: Value, beyond: (byte, byte)): seq<seq<byte>>
    requires ValueTyped(number, v)
  {
    match KindOf(number)
    case Int16 => [IntBytes(v.n)]
    case Int32 => [IntBytes(v.n)]
    case Opaque => [v.text]
    case Plain => [v.text]
    case Multi(sep) => Split(v.text, sep, beyond)
    case Flag => [IntBytes(0)]
    case BlockOption => [IntBytes(BlockValue(v.block.num, v.block.more, v.block.size))]
    case Proxy => [v.text]
    case Unknown => []
  }

  function OptionBytes(delta: nat, values: seq<seq<byte>>): seq<byte>
    decreases values
  {
    if values == [] then []
    else OptionHeader(delta, |values[0]|) + values[0] + OptionBytes(0, values[1..])
  }

  predicate Ascending(current: nat, order: seq<nat>)
    decreases order
  {
    order == [] || (current < order[0] && Ascending(order[0], order[1..]))
  }

  lemma SkipAscending(current: nat, order: seq<nat>)
    requires order != [] && Ascending(current, order)
    ensures Ascending(current, order[1..])
  {
  }

  lemma {:induction false} SortedIsAscending(current: nat, order: seq<nat>)
    requires order != [] ==> current < order[0]
    requires forall i :: 0 <= i < |order| - 1 ==> order[i] < order[i + 1]
    ensures Ascending(current, order)
    decreases order
  {
    if order != [] {
      SortedIsAscending(order[0], order[1..]);
    }
  }

  lemma OrderIsAscending()
    ensures Ascending(0, ORDER)
  {
    SortedIsAscending(0, ORDER);
  }

  /** The options with the remaining numbers, when the last number written is current. */
  function OptionsFrom(p: Packet, mem: Memory, order: seq<nat>, current: nat): seq<byte>
    requires Typed(p) && |mem| == OPTION_BITS && Ascending(current, order)
    decreases order
  {
    if order == [] then []
    else if order[0] in p.options then
      OptionBytes(order[0] - current, Values(order[0], p.options[order[0]], mem[order[0]]))
        + OptionsFrom(p, mem, order[1..], order[0])
    else
      SkipAscending(current, order);
      OptionsFrom(p, mem, order[1..], current)
  }

  function FixedHeader(p: Packet): seq<byte>
    requires p.kind < 4 && p.mid < 0x1_0000 && |p.token| < 16
  {
    [1 * 64 + p.kind * 16 + |p.token|, p.code, p.mid / 256, p.mid % 256]
  }

  function PayloadBytes(payload: seq<byte>): seq<byte> {
    if payload == [] then [] else [0xFF] + payload
  }

  function HeaderBytes(p: Packet, mem: Memory): seq<byte>
    requires Typed(p) && |mem| == OPTION_BITS
  {
    OrderIsAscending();
    FixedHeader(p) + p.token + OptionsFrom(p, mem, ORDER, 0)
  }

  /** coap_serialize_message: the packet bytes, or None where it returns 0. */
  function Serialize(p: Packet, mem: Memory): Option<seq<byte>>
    requires Typed(p) && |mem| == OPTION_BITS
  {
    if p.code == 0 then Some(FixedHeader(p))
    else if |HeaderBytes(p, mem)| <= MAX_HEADER_SIZE then Some(HeaderBytes(p, mem) + PayloadBytes(p.payload))
    else None
  }

  // ----- parsing -----

  /** Malformed stands for input that takes the parser outside the message or the bitmap;
      the C has no check for it. */
  datatype Parsed = Accepted(p: Packet) | Rejected(code: nat) | Malformed

  /** The field value after one more occurrence of an option. */
  function Apply(number: nat, options: map<nat, Value>, bytes: seq<byte>): Value {
    match KindOf(number)
    case Int16 => Number(ParseInt(bytes) % 0x1_0000)
    case Int32 => Number(ParseInt(bytes))
    case Opaque => Text(bytes[..Min(ETAG_LEN, |bytes|)])
    case Plain => Text(bytes)
    case Multi(sep) => Text(Merge(TextSoFar(options, number), bytes, sep))
    case Flag => Present
    case BlockOption => BlockIs(ReadBlock(ParseInt(bytes)))
    case Proxy => Text(bytes)
    case Unknown => Present
  }

  function TextSoFar(options: map<nat, Value>, number: nat): seq<byte> {
    if number in options && options[number].Text? then options[number].text else []
  }

  function Accept(p: Packet, number: nat, bytes: seq<byte>): Packet {
    p.(options := p.options[number := Apply(number, p.options, bytes)])
  }

  /** The parser's while loop, on the bytes not yet read. */
  function ParseOptions(rest: seq<byte>, number: nat, p: Packet, chunk: nat): Parsed
    decreases |rest|
  {
    if rest == [] then Accepted(p)
    else if rest[0] / 16 == 15 then Accepted(p.(payload := rest[1..1 + Min(chunk, |rest| - 1)]))
    else
      match ReadHeader(rest)
      case None => Malformed
      case Some((delta, length, used)) =>
        var number' := number + delta;
        if number' >= OPTION_BITS || used + length > |rest| then Malformed
        else if KindOf(number').Proxy? then Rejected(PROXYING_NOT_SUPPORTED_5_05)
        else if KindOf(number').Unknown? && number' % 2 == 1 then Rejected(BAD_OPTION_4_02)
        else ParseOptions(rest[used + length..], number', Accept(p, number', rest[used..used + length]), chunk)
  }

  /** coap_parse_message, with the payload bound REST_MAX_CHUNK_SIZE as a parameter. */
  function Parse(data: seq<byte>, chunk: nat): Parsed {
    if |data| < 4 then Malformed
    else if data[0] / 64 != 1 then Rejected(BAD_REQUEST_4_00)
    else if data[0] % 16 > TOKEN_LEN then Rejected(BAD_REQUEST_4_00)
    else if |data| < 4 + data[0] % 16 then Malformed
    else
      ParseOptions(data[4 + data[0] % 16..], 0,
                   Packet(data[0] / 16 % 4, data[1], data[2] as int * 256 + data[3],
                          data[4..4 + data[0] % 16], map[], []), chunk)
  }

  // ----- the round trip -----

  /** What one field becomes when it is serialized and parsed again. */
  function Normal(number: nat, v: Value, beyond: (byte, byte)): Value
    requires ValueTyped(number, v)
  {
    match KindOf(number)
    case Multi(sep) => Text(MergeAll([], Split(v.text, sep, beyond), sep))
    case BlockOption => BlockIs(ReadBlock(BlockValue(v.block.num, v.block.more, v.block.size)))
    case _ => v
  }

  /** The normalized fields whose numbers are known and not still to come. */
  function NormalExcept(p: Packet, mem: Memory, later: seq<nat>): map<nat, Value>
    requires Typed(p) && |mem| == OPTION_BITS
  {
    map k | k in p.options && !KindOf(k).Unknown? && k !in later :: Normal(k, p.options[k], mem[k])
  }

  /** What a value must be like to survive. */
  predicate ValueSurvives(number: nat, v: Value)
    requires ValueTyped(number, v)
  {
    match KindOf(number)
    case Multi(sep) => Survives(v.text, sep)
    case BlockOption =>
      && v.block.num < 0x1000_0000 && BlockSize(v.block.size)
      && v.block.offset == v.block.num * v.block.size % TWO_TO_THE_32
    case Proxy => false
    case Unknown => false
    case _ => true
  }

  ghost predicate PacketSurvives(p: Packet, chunk: nat)
    requires Typed(p)
  {
    if p.code == 0 then p.token == [] && p.options == map[] && p.payload == []
    else |p.payload| <= chunk && forall k :: k in p.options ==> ValueSurvives(k, p.options[k])
  }

  // ----- parsing what was serialized, one layer at a time -----

  predicate Known(number: nat) {
    !KindOf(number).Proxy? && !KindOf(number).Unknown?
  }

  lemma KnownInOrder(number: nat)
    ensures number in ORDER <==> !KindOf(number).Unknown?
    ensures number in ORDER ==> number < OPTION_BITS
  {
    assert ORDER[0] == 1 && ORDER[1] == 3 && ORDER[2] == 4 && ORDER[3] == 5 && ORDER[4] == 6 && ORDER[5] == 7
      && ORDER[6] == 8 && ORDER[7] == 11 && ORDER[8] == 12 && ORDER[9] == 14 && ORDER[10] == 15 && ORDER[11] == 17
      && ORDER[12] == 20 && ORDER[13] == 23 && ORDER[14] == 27 && ORDER[15] == 28 && ORDER[16] == 35
      && ORDER[17] == 39 && ORDER[18] == 60;
  }

  /** One option. */
  lemma ParseOne(delta: nat, value: seq<byte>, tail: seq<byte>, number: nat, p: Packet, chunk: nat)
    requires delta <= 65804 && |value| <= 65804 && number + delta < OPTION_BITS
    ensures ParseOptions(OptionHeader(delta, |value|) + value + tail, number, p, chunk) ==
      if KindOf(number + delta).Proxy? then Rejected(PROXYING_NOT_SUPPORTED_5_05)
      else if KindOf(number + delta).Unknown? && (number + delta) % 2 == 1 then Rejected(BAD_OPTION_4_02)
      else ParseOptions(tail, number + delta, Accept(p, number + delta, value), chunk)
  {
    hide ParseOptions, ReadHeader, OptionHeader, KindOf, Apply;
    var h := OptionHeader(delta, |value|);
    var rest := h + value + tail;
    assert rest == h + (value + tail);
    HeaderRoundTrip(delta, |value|, value + tail);
    NoMarker(delta, |value|);
    assert rest[0] == h[0];
    OptionAhead(rest, delta, |value|, |h|, number, p, chunk);
    assert rest[|h| + |value|..] == tail;
    assert rest[|h|..|h| + |value|] == value;
  }

  /** An option header is not the payload marker. */
  lemma NoMarker(delta: nat, length: nat)
    requires delta <= 65804 && length <= 65804
    ensures OptionHeader(delta, length)[0] as int / 16 != 15
  {
    hide Extension;
    Nibbles(Nibble(delta), Nibble(length));
  }

  lemma OptionAhead(rest: seq<byte>, delta: nat, length: nat, used: nat, number: nat, p: Packet, chunk: nat)
    requires rest != [] && rest[0] / 16 != 15 && ReadHeader(rest) == Some((delta, length, used))
    requires number + delta < OPTION_BITS && used + length <= |rest|
    ensures ParseOptions(rest, number, p, chunk) ==
      if KindOf(number + delta).Proxy? then Rejected(PROXYING_NOT_SUPPORTED_5_05)
      else if KindOf(number + delta).Unknown? && (number + delta) % 2 == 1 then Rejected(BAD_OPTION_4_02)
      else ParseOptions(rest[used + length..], number + delta,
                        Accept(p, number + delta, rest[used..used + length]), chunk)
  {
    hide ReadHeader, KindOf, Apply;
  }

  function AcceptAll(p: Packet, number: nat, values: seq<seq<byte>>): Packet
    decreases values
  {
    if values == [] then p else AcceptAll(Accept(p, number, values[0]), number, values[1..])
  }

  /** All the values of one field. */
  lemma {:induction false} ParseField(delta: nat, values: seq<seq<byte>>, tail: seq<byte>, number: nat, p: Packet,
                                      chunk: nat)
    requires values != [] && number + delta < OPTION_BITS && Known(number + delta)
    requires |OptionBytes(delta, values)| <= 65804
    ensures ParseOptions(OptionBytes(delta, values) + tail, number, p, chunk)
         == ParseOptions(tail, number + delta, AcceptAll(p, number + delta, values), chunk)
    decreases values
  {
    hide ParseOptions, Apply, KindOf, OptionHeader;
    var more := OptionBytes(0, values[1..]);
    assert OptionBytes(delta, values) + tail == OptionHeader(delta, |values[0]|) + values[0] + (more + tail);
    ParseOne(delta, values[0], more + tail, number, p, chunk);
    var p' := Accept(p, number + delta, values[0]);
    if values[1..] == [] {
      assert more + tail == tail;
      assert AcceptAll(p, number + delta, values) == p';
    } else {
      ParseField(0, values[1..], tail, number + delta, p', chunk);
    }
  }

  lemma {:induction false} AcceptParts(p: Packet, number: nat, values: seq<seq<byte>>, sep: byte)
    requires KindOf(number) == Multi(sep) && values != []
    ensures AcceptAll(p, number, values)
         == p.(options := p.options[number := Text(MergeAll(TextSoFar(p.options, number), values, sep))])
    decreases values
  {
    var p' := Accept(p, number, values[0]);
    if values[1..] == [] {
      assert AcceptAll(p, number, values) == p';
      assert MergeAll(TextSoFar(p.options, number), values, sep) == Merge(TextSoFar(p.options, number), values[0], sep);
    } else {
      AcceptParts(p', number, values[1..], sep);
    }
  }

  lemma SplitNonEmpty(mem: seq<byte>, n: nat, sep: byte, start: nat, j: nat)
    requires n + 2 <= |mem| && start <= j <= n
    ensures Parts(mem, n, sep, start, j) != []
    decreases n - j
  {
  }

  /** A field's values are parsed back into its normal form. */
  lemma AcceptField(p: Packet, number: nat, v: Value, beyond: (byte, byte))
    requires Known(number) && ValueTyped(number, v) && number !in p.options
    ensures Values(number, v, beyond) != []
    ensures AcceptAll(p, number, Values(number, v, beyond))
      == p.(options := p.options[number := Normal(number, v, beyond)])
  {
    var values := Values(number, v, beyond);
    match KindOf(number)
    case Multi(sep) =>
      SplitNonEmpty(v.text + [beyond.0, beyond.1], |v.text|, sep, 0, 0);
      AcceptParts(p, number, values, sep);
    case Int16 => IntRoundTrip(v.n); AcceptOne(p, number, values);
    case Int32 => IntRoundTrip(v.n); AcceptOne(p, number, values);
    case BlockOption =>
      IntRoundTrip(BlockValue(v.block.num, v.block.more, v.block.size));
      AcceptOne(p, number, values);
    case Opaque => assert v.text[..|v.text|] == v.text; AcceptOne(p, number, values);
    case Plain => AcceptOne(p, number, values);
    case Flag => AcceptOne(p, number, values);
  }

  lemma AcceptOne(p: Packet, number: nat, values: seq<seq<byte>>)
    requires |values| == 1
    ensures AcceptAll(p, number, values) == Accept(p, number, values[0])
  {
    assert values[1..] == [];
  }

  ghost predicate ProxyIn(p: Packet, order: seq<nat>) {
    exists k :: k in p.options && k in order && KindOf(k).Proxy?
  }

  predicate InBitmap(order: seq<nat>) {
    forall k :: k in order ==> k < OPTION_BITS && !KindOf(k).Unknown?
  }

  /** All the fields from some point of the order on. */
  lemma {:induction false} ParseFields(p: Packet, mem: Memory, order: seq<nat>, current: nat, q: Packet,
                                       tail: seq<byte>, chunk: nat)
    requires Typed(p) && |mem| == OPTION_BITS && Ascending(current, order) && InBitmap(order)
    requires |OptionsFrom(p, mem, order, current)| <= 65804
    requires q.options == NormalExcept(p, mem, order)
    requires tail == [] || tail[0] == 0xFF
    ensures ParseOptions(OptionsFrom(p, mem, order, current) + tail, current, q, chunk) ==
      if ProxyIn(p, order) then Rejected(PROXYING_NOT_SUPPORTED_5_05)
      else WithPayload(q.(options := NormalExcept(p, mem, [])), tail, chunk)
    decreases order
  {
    hide ParseOptions, OptionBytes, Values, KindOf, Normal, NormalExcept;
    if order == [] {
      assert OptionsFrom(p, mem, order, current) + tail == tail;
      ParsePayload(tail, current, q, chunk);
    } else if order[0] !in p.options {
      LaterInBitmap(order);
      SkipField(p, mem, order, current);
      ParseFields(p, mem, order[1..], current, q, tail, chunk);
    } else {
      var n := order[0];
      var rest := OptionsFrom(p, mem, order[1..], n);
      var bytes := OptionBytes(n - current, Values(n, p.options[n], mem[n]));
      assert OptionsFrom(p, mem, order, current) + tail == bytes + (rest + tail);
      if KindOf(n).Proxy? {
        assert n in order;
        ParseProxy(p, mem, n, n - current, rest + tail, q, chunk);
      } else {
        NextField(p, mem, order, current, q, rest + tail, chunk);
        LaterInBitmap(order);
        ProxyLater(p, order);
        ParseFields(p, mem, order[1..], n, q.(options := NormalExcept(p, mem, order[1..])), tail, chunk);
      }
    }
  }

  lemma ParsePayload(tail: seq<byte>, number: nat, q: Packet, chunk: nat)
    requires tail == [] || tail[0] == 0xFF
    ensures ParseOptions(tail, number, q, chunk) == WithPayload(q, tail, chunk)
  {
  }

  lemma LaterInBitmap(order: seq<nat>)
    requires order != [] && InBitmap(order)
    ensures InBitmap(order[1..])
  {
    forall k | k in order[1..] ensures k < OPTION_BITS && !KindOf(k).Unknown? { assert k in order; }
  }

  lemma SkipField(p: Packet, mem: Memory, order: seq<nat>, current: nat)
    requires Typed(p) && |mem| == OPTION_BITS && order != [] && Ascending(current, order)
    requires order[0] !in p.options
    ensures Ascending(current, order[1..])
    ensures NormalExcept(p, mem, order) == NormalExcept(p, mem, order[1..])
    ensures ProxyIn(p, order) <==> ProxyIn(p, order[1..])
  {
    assert order == [order[0]] + order[1..];
  }

  lemma ProxyLater(p: Packet, order: seq<nat>)
    requires order != [] && !KindOf(order[0]).Proxy?
    ensures ProxyIn(p, order) <==> ProxyIn(p, order[1..])
  {
    assert order == [order[0]] + order[1..];
  }

  function WithPayload(q: Packet, tail: seq<byte>, chunk: nat): Parsed {
    Accepted(if tail == [] then q else q.(payload := tail[1..1 + Min(chunk, |tail| - 1)]))
  }

  lemma ParseProxy(p: Packet, mem: Memory, n: nat, delta: nat, rest: seq<byte>, q: Packet, chunk: nat)
    requires Typed(p) && |mem| == OPTION_BITS && n in p.options && KindOf(n).Proxy? && delta <= n < OPTION_BITS
    requires |OptionBytes(delta, Values(n, p.options[n], mem[n]))| <= 65804
    ensures ParseOptions(OptionBytes(delta, Values(n, p.options[n], mem[n])) + rest, n - delta, q, chunk)
         == Rejected(PROXYING_NOT_SUPPORTED_5_05)
  {
    hide ParseOptions;
    var text := p.options[n].text;
    assert OptionBytes(delta, [text]) == OptionHeader(delta, |text|) + text + [];
    assert OptionBytes(delta, [text]) + rest == OptionHeader(delta, |text|) + text + rest;
    ParseOne(delta, text, rest, n - delta, q, chunk);
  }

  lemma NextField(p: Packet, mem: Memory, order: seq<nat>, current: nat, q: Packet, rest: seq<byte>, chunk: nat)
    requires Typed(p) && |mem| == OPTION_BITS && order != [] && Ascending(current, order) && InBitmap(order)
    requires order[0] in p.options && !KindOf(order[0]).Proxy?
    requires q.options == NormalExcept(p, mem, order)
    requires |OptionBytes(order[0] - current, Values(order[0], p.options[order[0]], mem[order[0]]))| <= 65804
    ensures ParseOptions(OptionBytes(order[0] - current, Values(order[0], p.options[order[0]], mem[order[0]])) + rest,
                         current, q, chunk)
         == ParseOptions(rest, order[0], q.(options := NormalExcept(p, mem, order[1..])), chunk)
  {
    hide ParseOptions, KindOf, Values, OptionBytes, NormalExcept;
    var n, v := order[0], p.options[order[0]];
    assert n in order;
    NextOptions(p, mem, order, current);
    AcceptField(q, n, v, mem[n]);
    ParseField(n - current, Values(n, v, mem[n]), rest, current, q, chunk);
  }

  lemma NextOptions(p: Packet, mem: Memory, order: seq<nat>, current: nat)
    requires Typed(p) && |mem| == OPTION_BITS && order != [] && Ascending(current, order) && InBitmap(order)
    requires order[0] in p.options
    ensures Known(order[0]) || KindOf(order[0]).Proxy?
    ensures order[0] !in NormalExcept(p, mem, order)
    ensures NormalExcept(p, mem, order)[order[0] := Normal(order[0], p.options[order[0]], mem[order[0]])]
         == NormalExcept(p, mem, order[1..])
  {
    assert order[0] in order;
    NotLater(order[0], order[1..]);
    assert order == [order[0]] + order[1..];
  }

  lemma {:induction false} NotLater(current: nat, order: seq<nat>)
    requires Ascending(current, order)
    ensures current !in order
    ensures forall k :: k in order ==> current < k
    decreases order
  {
    if order != [] {
      NotLater(order[0], order[1..]);
      assert order == [order[0]] + order[1..];
    }
  }

  lemma ParseHeader(kind: nat, code: byte, mid: nat, token: seq<byte>, rest: seq<byte>, chunk: nat)
    requires kind < 4 && mid < 0x1_0000 && |token| <= TOKEN_LEN
    ensures Parse([1 * 64 + kind * 16 + |token|, code, mid / 256, mid % 256] + token + rest, chunk)
         == ParseOptions(rest, 0, Packet(kind, code, mid, token, map[], []), chunk)
  {
    hide ParseOptions;
    var header: seq<byte> := [1 * 64 + kind * 16 + |token|, code, mid / 256, mid % 256];
    var data := header + token + rest;
    FirstByte(kind, |token|);
    assert data[..4] == header && data[0] == header[0];
    assert data[4..4 + |token|] == token;
    assert data[4 + |token|..] == rest;
  }

  lemma FirstByte(kind: nat, length: nat)
    requires kind < 4 && length < 16
    ensures var b := 1 * 64 + kind * 16 + length; b / 64 == 1 && b / 16 % 4 == kind && b % 16 == length
  {
  }

  /** The whole message: what parsing a serialized packet yields, for every packet. */
  lemma ParseSerialized(p: Packet, mem: Memory, chunk: nat)
    requires Typed(p) && |mem| == OPTION_BITS && p.code != 0
    ensures Serialize(p, mem).Some? ==>
      Parse(Serialize(p, mem).value, chunk) ==
      if ProxyIn(p, ORDER) then Rejected(PROXYING_NOT_SUPPORTED_5_05)
      else Accepted(p.(options := NormalExcept(p, mem, []), payload := p.payload[..Min(chunk, |p.payload|)]))
  {
    if Serialize(p, mem).Some? {
      OrderIsComplete();
      SerializedForm(p, mem);
      ParseBody(p, mem, ORDER, chunk);
    }
  }

  lemma SerializedForm(p: Packet, mem: Memory)
    requires Typed(p) && |mem| == OPTION_BITS && p.code != 0
    ensures Ascending(0, ORDER)
    ensures Serialize(p, mem).Some? ==>
      && |OptionsFrom(p, mem, ORDER, 0)| <= MAX_HEADER_SIZE
      && Serialize(p, mem).value
         == FixedHeader(p) + p.token + (OptionsFrom(p, mem, ORDER, 0) + PayloadBytes(p.payload))
  {
    OrderIsAscending();
    Regroup(FixedHeader(p), p.token, OptionsFrom(p, mem, ORDER, 0), PayloadBytes(p.payload));
  }

  lemma Regroup(a: seq<byte>, b: seq<byte>, c: seq<byte>, d: seq<byte>)
    ensures a + b + c + d == a + b + (c + d)
  {
  }

  lemma OrderIsComplete()
    ensures InBitmap(ORDER) && forall k :: !KindOf(k).Unknown? ==> k in ORDER
  {
    forall k ensures !KindOf(k).Unknown? ==> k in ORDER { KnownInOrder(k); }
    forall k | k in ORDER ensures k < OPTION_BITS && !KindOf(k).Unknown? { KnownInOrder(k); }
  }

  lemma ParseBody(p: Packet, mem: Memory, order: seq<nat>, chunk: nat)
    requires Typed(p) && |mem| == OPTION_BITS && Ascending(0, order) && InBitmap(order)
    requires forall k :: !KindOf(k).Unknown? ==> k in order
    requires |OptionsFrom(p, mem, order, 0)| <= 65804
    ensures Parse(FixedHeader(p) + p.token + (OptionsFrom(p, mem, order, 0) + PayloadBytes(p.payload)), chunk) ==
      if ProxyIn(p, order) then Rejected(PROXYING_NOT_SUPPORTED_5_05)
      else Accepted(p.(options := NormalExcept(p, mem, []), payload := p.payload[..Min(chunk, |p.payload|)]))
  {
    hide ParseOptions, OptionsFrom, Parse;
    var tail := PayloadBytes(p.payload);
    var q := Packet(p.kind, p.code, p.mid, p.token, map[], []);
    ParseHeader(p.kind, p.code, p.mid, p.token, OptionsFrom(p, mem, order, 0) + tail, chunk);
    assert NormalExcept(p, mem, order) == map[];
    ParseFields(p, mem, order, 0, q, tail, chunk);
    assert tail != [] ==> tail[1..1 + Min(chunk, |tail| - 1)] == p.payload[..Min(chunk, |p.payload|)];
  }

  /** Parsing gives back the serialized packet exactly when PacketSurvives says so. */
  lemma MessageRoundTrip(p: Packet, mem: Memory, chunk: nat)
    requires Typed(p) && Terminated(mem)
    ensures Serialize(p, mem).Some? ==>
      (Parse(Serialize(p, mem).value, chunk) == Accepted(p) <==> PacketSurvives(p, chunk))
  {
    if Serialize(p, mem).None? {
    } else if p.code == 0 {
      EmptyMessage(p, chunk);
    } else {
      ParseSerialized(p, mem, chunk);
      OrderIsComplete();
      RoundTripBody(p, mem, ORDER, chunk);
    }
  }

  lemma RoundTripBody(p: Packet, mem: Memory, order: seq<nat>, chunk: nat)
    requires Typed(p) && Terminated(mem) && p.code != 0 && forall k :: !KindOf(k).Unknown? ==> k in order
    ensures (!ProxyIn(p, order)
          && p.(options := NormalExcept(p, mem, []), payload := p.payload[..Min(chunk, |p.payload|)]) == p)
        <==> PacketSurvives(p, chunk)
  {
    if ProxyIn(p, order) {
      var k :| k in p.options && k in order && KindOf(k).Proxy?;
      assert !ValueSurvives(k, p.options[k]);
    } else {
      NormalFields(p, mem);
      assert p.payload[..Min(chunk, |p.payload|)] == p.payload <==> |p.payload| <= chunk;
    }
  }

  lemma EmptyMessage(p: Packet, chunk: nat)
    requires Typed(p) && p.code == 0
    ensures Parse(FixedHeader(p), chunk) ==
      if p.token == [] then Accepted(p.(options := map[], payload := [])) else Malformed
  {
    FirstByte(p.kind, |p.token|);
    if p.token == [] {
      ParseHeader(p.kind, p.code, p.mid, [], [], chunk);
      assert FixedHeader(p) + [] + [] == FixedHeader(p);
    }
  }

  /** The options are in normal form exactly when every one of them survives. */
  lemma NormalFields(p: Packet, mem: Memory)
    requires Typed(p) && Terminated(mem) && forall k :: k in p.options ==> !KindOf(k).Proxy?
    ensures NormalExcept(p, mem, []) == p.options <==> forall k :: k in p.options ==> ValueSurvives(k, p.options[k])
  {
    forall k | k in p.options
      ensures ValueSurvives(k, p.options[k])
         <==> k in NormalExcept(p, mem, []) && NormalExcept(p, mem, [])[k] == p.options[k]
    {
      if !KindOf(k).Unknown? {
        NormalValue(k, p.options[k], mem[k]);
      }
    }
  }

  lemma NormalValue(number: nat, v: Value, beyond: (byte, byte))
    requires ValueTyped(number, v) && Known(number)
    requires beyond.0 != SLASH && beyond.0 != AMPERSAND
    ensures Normal(number, v, beyond) == v <==> ValueSurvives(number, v)
  {
    match KindOf(number)
    case Multi(sep) => SplitMergeRoundTrip(v.text, sep, beyond);
    case BlockOption =>
      BlockRoundTrip(v.block.num, v.block.more, v.block.size);
      BlockOffset(BlockValue(v.block.num, v.block.more, v.block.size));
    case _ =>
  }
}
