/** The serializer and the parser as they run: on byte buffers, through moving positions, and
    with repeated text options joined inside the buffer that is still being read. Both are
    proved against the functions of CoapMessage. */
module CoapCodec {
  import opened Basics
  import opened CoapWire
  import opened CoapText
  import opened CoapMessage

  // ----- serializing into a buffer -----

  /** after is before with bytes written at a position and nothing else changed. */
  ghost predicate Wrote(before: seq<byte>, after: seq<byte>, at: nat, bytes: seq<byte>) {
    at + |bytes| <= |before| && after == before[..at] + bytes + before[at + |bytes|..]
  }

  lemma WroteMore(s0: seq<byte>, s1: seq<byte>, s2: seq<byte>, at: nat, a: seq<byte>, b: seq<byte>)
    requires Wrote(s0, s1, at, a) && Wrote(s1, s2, at + |a|, b)
    ensures Wrote(s0, s2, at, a + b)
  {
  }

  lemma WroteNothing(s: seq<byte>, at: nat)
    requires at <= |s|
    ensures Wrote(s, s, at, [])
  {
  }

  /** The extension bytes of one header value, written from at on. */
  method SetExtension(v: nat, buffer: array<byte>, at: nat) returns (written: nat)
    requires at + |Extension(v)| <= buffer.Length
    modifies buffer
    ensures written == |Extension(v)|
    ensures Wrote(old(buffer[..]), buffer[..], at, Extension(v))
  {
    written := 0;
    if v > 268 {
      buffer[at] := (v - 269) / 256 % 256;
      buffer[at + 1] := (v - 269) % 256;
      written := 2;
    } else if v > 12 {
      buffer[at] := v - 13;
      written := 1;
    }
  }

  method SetOptionHeader(delta: nat, length: nat, buffer: array<byte>, at: nat) returns (written: nat)
    requires at + |OptionHeader(delta, length)| <= buffer.Length
    modifies buffer
    ensures written == |OptionHeader(delta, length)|
    ensures Wrote(old(buffer[..]), buffer[..], at, OptionHeader(delta, length))
  {
    hide Nibble, Extension;
    ghost var s0 := buffer[..];
    ghost var first: seq<byte> := [Nibble(delta) * 16 + Nibble(length)];
    buffer[at] := Nibble(delta) * 16 + Nibble(length);
    ghost var s1 := buffer[..];
    assert Wrote(s0, s1, at, first);
    written := SetExtension(delta, buffer, at + 1);
    ghost var s2 := buffer[..];
    WroteMore(s0, s1, s2, at, first, Extension(delta));
    var more := SetExtension(length, buffer, at + 1 + written);
    WroteMore(s0, s2, buffer[..], at, first + Extension(delta), Extension(length));
    written := written + more + 1;
  }

  /** memcpy of a text into the buffer. */
  method CopyInto(buffer: array<byte>, at: nat, bytes: seq<byte>)
    requires at + |bytes| <= buffer.Length
    modifies buffer
    ensures Wrote(old(buffer[..]), buffer[..], at, bytes)
  {
    forall k | 0 <= k < |bytes| {
      buffer[at + k] := bytes[k];
    }
  }

  method SerializeIntOption(delta: nat, buffer: array<byte>, at: nat, value: nat) returns (written: nat)
    requires value < TWO_TO_THE_32
    requires at + |OptionBytes(delta, [IntBytes(value)])| <= buffer.Length
    modifies buffer
    ensures written == |OptionBytes(delta, [IntBytes(value)])|
    ensures Wrote(old(buffer[..]), buffer[..], at, OptionBytes(delta, [IntBytes(value)]))
  {
    hide OptionBytes, OptionHeader, IntBytes, Wrote;
    OneValue(delta, IntBytes(value));
    written := SerializePart(delta, buffer, at, IntBytes(value));
  }

  lemma OneValue(delta: nat, value: seq<byte>)
    ensures OptionBytes(delta, [value]) == OptionHeader(delta, |value|) + value
  {
    assert [value][1..] == [];
  }

  /** coap_serialize_array_option: mem holds the text and the two bytes behind it. */
  method SerializeArrayOption(delta: nat, buffer: array<byte>, at: nat, mem: seq<byte>, length: nat, split: byte)
      returns (written: nat)
    requires length + 2 <= |mem|
    requires at + |OptionBytes(delta, ArrayValues(mem, length, split))| <= buffer.Length
    modifies buffer
    ensures written == |OptionBytes(delta, ArrayValues(mem, length, split))|
    ensures Wrote(old(buffer[..]), buffer[..], at, OptionBytes(delta, ArrayValues(mem, length, split)))
  {
    hide OptionBytes, OptionHeader, Wrote, Parts;
    ghost var s0 := buffer[..];
    ghost var whole := OptionBytes(delta, ArrayValues(mem, length, split));
    if split != 0 {
      var j, partStart, step := 0, 0, delta;
      written := 0;
      ghost var done: seq<byte> := [];
      WroteNothing(s0, at);
      while j <= length + 1
        invariant partStart <= j
        invariant written == |done|
        invariant whole == done + OptionBytes(step, Parts(mem, length, split, partStart, j))
        invariant Wrote(s0, buffer[..], at, done)
        decreases length + 2 - j
      {
        if mem[j] == split || j == length {
          ghost var s1, bytes := buffer[..], OptionHeader(step, j - partStart) + mem[partStart..j];
          NextPart(step, mem, length, split, partStart, j);
          var n := SerializePart(step, buffer, at + written, mem[partStart..j]);
          WroteMore(s0, s1, buffer[..], at, done, bytes);
          Associate(done, bytes, OptionBytes(0, Parts(mem, length, split, j + 1, j + 2)));
          done := done + bytes;
          written := written + n;
          step := 0;
          partStart := j + 1;
          j := j + 1;
        } else {
          SamePart(mem, length, split, partStart, j);
        }
        j := j + 1;
      }
      NoMoreParts(step, mem, length, split, partStart, j, done);
    } else {
      OneValue(delta, mem[..length]);
      written := SerializePart(delta, buffer, at, mem[..length]);
    }
  }

  lemma Associate(a: seq<byte>, b: seq<byte>, c: seq<byte>)
    ensures a + (b + c) == a + b + c
  {
  }

  /** One header with its value. */
  method SerializePart(delta: nat, buffer: array<byte>, at: nat, part: seq<byte>) returns (written: nat)
    requires at + |OptionHeader(delta, |part|)| + |part| <= buffer.Length
    modifies buffer
    ensures written == |OptionHeader(delta, |part|) + part|
    ensures Wrote(old(buffer[..]), buffer[..], at, OptionHeader(delta, |part|) + part)
  {
    hide OptionHeader, Wrote;
    ghost var s0 := buffer[..];
    written := SetOptionHeader(delta, |part|, buffer, at);
    ghost var s1 := buffer[..];
    CopyInto(buffer, at + written, part);
    WroteMore(s0, s1, buffer[..], at, OptionHeader(delta, |part|), part);
    written := written + |part|;
  }

  function ArrayValues(mem: seq<byte>, length: nat, split: byte): seq<seq<byte>>
    requires length + 2 <= |mem|
  {
    if split != 0 then Parts(mem, length, split, 0, 0) else [mem[..length]]
  }

  lemma NoMoreParts(step: nat, mem: seq<byte>, length: nat, split: byte, start: nat, j: nat, done: seq<byte>)
    requires length + 2 <= |mem| && start <= j && j > length + 1
    ensures done + OptionBytes(step, Parts(mem, length, split, start, j)) == done
  {
  }

  lemma SamePart(mem: seq<byte>, length: nat, split: byte, start: nat, j: nat)
    requires length + 2 <= |mem| && start <= j <= length + 1 && mem[j] != split && j != length
    ensures Parts(mem, length, split, start, j) == Parts(mem, length, split, start, j + 1)
  {
  }

  lemma NextPart(step: nat, mem: seq<byte>, length: nat, split: byte, start: nat, j: nat)
    requires length + 2 <= |mem| && start <= j <= length + 1 && (mem[j] == split || j == length)
    ensures OptionBytes(step, Parts(mem, length, split, start, j))
         == OptionHeader(step, j - start) + mem[start..j] + OptionBytes(0, Parts(mem, length, split, j + 1, j + 2))
  {
    var rest := Parts(mem, length, split, j + 1, j + 2);
    assert Parts(mem, length, split, start, j) == [mem[start..j]] + rest;
    assert ([mem[start..j]] + rest)[1..] == rest;
  }

  /** The split character of the macro for each option; 0 means the text is one value. */
  function SplitChar(number: nat): byte {
    match KindOf(number)
    case Multi(sep) => sep
    case _ => 0
  }

  /** One COAP_SERIALIZE_..._OPTION macro whose option bit is set. */
  method SerializeOption(p: Packet, mem: Memory, number: nat, current: nat, buffer: array<byte>, at: nat)
      returns (written: nat)
    requires Typed(p) && |mem| == OPTION_BITS && number in p.options && !KindOf(number).Unknown?
    requires current <= number
    requires at + |OptionBytes(number - current, Values(number, p.options[number], mem[number]))| <= buffer.Length
    modifies buffer
    ensures written == |OptionBytes(number - current, Values(number, p.options[number], mem[number]))|
    ensures Wrote(old(buffer[..]), buffer[..], at,
                  OptionBytes(number - current, Values(number, p.options[number], mem[number])))
  {
    hide OptionBytes, Wrote, IntBytes, Parts;
    var delta, v := number - current, p.options[number];
    if v.Number? {
      written := SerializeIntOption(delta, buffer, at, v.n);
    } else if v.Present? {
      written := SerializeIntOption(delta, buffer, at, 0);
    } else if v.BlockIs? {
      var log := ComputeLog2(v.block.size / 16);
      var block := v.block.num * 16 % TWO_TO_THE_32 + LowNibble(v.block.more, log % 16);
      written := SerializeIntOption(delta, buffer, at, block);
    } else {
      var text := v.text + [mem[number].0, mem[number].1];
      assert text[..|v.text|] == v.text;
      written := SerializeArrayOption(delta, buffer, at, text, |v.text|, SplitChar(number));
    }
  }

  /** The option macros, in ascending order of the option numbers. */
  method SerializeOptions(p: Packet, mem: Memory, order: seq<nat>, buffer: array<byte>, at: nat) returns (option: nat)
    requires Typed(p) && |mem| == OPTION_BITS && Ascending(0, order) && InBitmap(order)
    requires at + |OptionsFrom(p, mem, order, 0)| <= buffer.Length
    modifies buffer
    ensures option == at + |OptionsFrom(p, mem, order, 0)|
    ensures Wrote(old(buffer[..]), buffer[..], at, OptionsFrom(p, mem, order, 0))
  {
    hide OptionBytes, Wrote, Values, Ascending, KindOf;
    ghost var s0, whole := buffer[..], OptionsFrom(p, mem, order, 0);
    ghost var done: seq<byte> := [];
    WroteNothing(s0, at);
    option := at;
    var current, i := 0, 0;
    assert order[0..] == order;
    while i < |order|
      invariant 0 <= i <= |order|
      invariant Ascending(current, order[i..])
      invariant option == at + |done| && whole == done + OptionsFrom(p, mem, order[i..], current)
      invariant Wrote(s0, buffer[..], at, done)
    {
      var n := order[i];
      ghost var rest := order[i..];
      assert rest[0] == n && rest[1..] == order[i + 1..] && n in order;
      AscendingHead(current, rest);
      if n in p.options {
        ghost var s1, bytes := buffer[..], OptionBytes(n - current, Values(n, p.options[n], mem[n]));
        ghost var later := OptionsFrom(p, mem, order[i + 1..], n);
        assert OptionsFrom(p, mem, rest, current) == bytes + later;
        assert whole == done + bytes + later;
        var written := SerializeOption(p, mem, n, current, buffer, option);
        WroteMore(s0, s1, buffer[..], at, done, bytes);
        done := done + bytes;
        option := option + written;
        current := n;
      }
      i := i + 1;
    }
    assert order[i..] == [] && done + [] == done;
  }

  /** coap_serialize_message. The options are written before the header size is checked. */
  method SerializeMessage(p: Packet, mem: Memory, buffer: array<byte>) returns (length: nat)
    requires Typed(p) && |mem| == OPTION_BITS
    requires |HeaderBytes(p, mem) + PayloadBytes(p.payload)| <= buffer.Length
    modifies buffer
    ensures match Serialize(p, mem)
      case Some(bytes) => length == |bytes| && Wrote(old(buffer[..]), buffer[..], 0, bytes)
      case None => length == 0
  {
    hide Wrote, OptionsFrom, Ascending, KindOf, ORDER, FixedHeader, Typed, InBitmap, PayloadBytes;
    HeaderSizes(p, mem);
    ghost var s0, head, fields := buffer[..], FixedHeader(p) + p.token, HeaderBytes(p, mem);
    CopyInto(buffer, 0, FixedHeader(p));
    if p.code == 0 {
      return 4;
    }
    ghost var s1 := buffer[..];
    CopyInto(buffer, 4, p.token);
    WroteMore(s0, s1, buffer[..], 0, FixedHeader(p), p.token);
    ghost var s2 := buffer[..];
    var option := SerializeOptions(p, mem, ORDER, buffer, 4 + |p.token|);
    WroteMore(s0, s2, buffer[..], 0, head, OptionsFrom(p, mem, ORDER, 0));
    assert Wrote(s0, buffer[..], 0, fields) && option == |fields|;
    if option <= MAX_HEADER_SIZE {
      ghost var s3 := buffer[..];
      var written := SerializePayload(p.payload, buffer, option);
      WroteMore(s0, s3, buffer[..], 0, fields, PayloadBytes(p.payload));
      length := option + written;
    } else {
      length := 0;
    }
  }

  method SerializePayload(payload: seq<byte>, buffer: array<byte>, at: nat) returns (written: nat)
    requires at + |PayloadBytes(payload)| <= buffer.Length
    modifies buffer
    ensures written == |PayloadBytes(payload)|
    ensures Wrote(old(buffer[..]), buffer[..], at, PayloadBytes(payload))
  {
    hide Wrote;
    written := 0;
    ghost var s0 := buffer[..];
    if payload != [] {
      CopyInto(buffer, at, [0xFF]);
      written := 1;
      ghost var s1 := buffer[..];
      CopyInto(buffer, at + written, payload);
      WroteMore(s0, s1, buffer[..], at, [0xFF], payload);
    } else {
      WroteNothing(s0, at);
    }
    written := written + |payload|;
  }

  lemma HeaderSizes(p: Packet, mem: Memory)
    requires Typed(p) && |mem| == OPTION_BITS
    ensures p.kind < 4 && p.mid < 0x1_0000 && |p.token| < 16 && |FixedHeader(p)| == 4
    ensures Ascending(0, ORDER) && InBitmap(ORDER)
    ensures HeaderBytes(p, mem) == FixedHeader(p) + p.token + OptionsFrom(p, mem, ORDER, 0)
  {
    OrderIsAscending();
    OrderIsComplete();
  }

  lemma AscendingHead(current: nat, order: seq<nat>)
    requires order != [] && Ascending(current, order)
    ensures current < order[0] && Ascending(order[0], order[1..]) && Ascending(current, order[1..])
  {
  }

  /** Packing a payload that already lies in the packet buffer, at src: the marker is written
      first, then memmove. The server keeps response payloads at src == MAX_HEADER_SIZE. The
      packed payload is the right one except when the header has exactly that size. */
  method PackPayloadInPlace(buffer: array<byte>, option: nat, src: nat, length: nat)
    requires 0 < length && option <= src && option < buffer.Length && src + length < buffer.Length
    modifies buffer
    ensures Wrote(old(buffer[..]), buffer[..], option, PayloadBytes(old(buffer[src..src + length])))
       <==> (option < src || old(buffer[src]) == 0xFF)
  {
    ghost var before := buffer[..];
    buffer[option] := 0xFF;
    ghost var marked := buffer[..];
    assert Wrote(before, marked, option, [0xFF]);
    MoveInside(buffer, option + 1, src, length);
    WroteMore(before, marked, buffer[..], option, [0xFF], marked[src..src + length]);
    ghost var moved, payload := marked[src..src + length], before[src..src + length];
    if option < src {
      assert moved == payload;
    } else {
      assert moved == [0xFF] + payload[1..];
      assert buffer[option + 1] == ([0xFF] + moved)[1] == 0xFF;
      assert Wrote(before, buffer[..], option, PayloadBytes(payload)) ==> buffer[option + 1] == payload[0];
      assert payload[0] == 0xFF ==> moved == payload;
    }
  }

  /** memmove inside a buffer. */
  method MoveInside(buffer: array<byte>, dst: nat, src: nat, length: nat)
    requires dst + length <= buffer.Length && src + length <= buffer.Length
    modifies buffer
    ensures Wrote(old(buffer[..]), buffer[..], dst, old(buffer[..])[src..src + length])
  {
    forall k | 0 <= k < length {
      buffer[dst + k] := buffer[src + k];
    }
  }

  // ----- parsing in place -----

  const NO_ERROR: nat := 0

  /** A field of the parsed packet: copied out, or a pointer into the message buffer. */
  datatype Field = Copied(v: Value) | Span(at: nat, length: nat)

  function Resolve(f: Field, data: seq<byte>): Value {
    match f
    case Copied(v) => v
    case Span(at, length) => if at + length <= |data| then Text(data[at..at + length]) else Text([])
  }

  /** Every pointer ends before the first unread byte, no field has a number beyond the current
      one, and the pointer of the current number lies behind all others. */
  ghost predicate Separated(fields: map<nat, Field>, number: nat, unread: nat) {
    forall k :: k in fields ==>
      && k <= number
      && (fields[k].Span? <==> KindOf(k).Plain? || KindOf(k).Multi?)
      && (fields[k].Span? ==> fields[k].at + fields[k].length <= unread)
      && (fields[k].Span? && k != number && number in fields && fields[number].Span? ==>
            fields[k].at + fields[k].length <= fields[number].at)
  }

  ghost function ViewFields(fields: map<nat, Field>, data: seq<byte>): map<nat, Value> {
    map k | k in fields :: Resolve(fields[k], data)
  }

  /** The effect of one occurrence of an option, with its value at data0[at..at + length]: its own
      field, and no byte of another field or of the unread rest of the message. */
  ghost predicate Stored(fields0: map<nat, Field>, data0: seq<byte>, fields1: map<nat, Field>, data1: seq<byte>,
                         number: nat, at: nat, length: nat)
  {
    && |data0| == |data1| && at + length <= |data0|
    && fields1.Keys == fields0.Keys + {number}
    && (forall k :: k in fields0 && k != number ==> fields1[k] == fields0[k])
    && data1[at + length..] == data0[at + length..]
    && Resolve(fields1[number], data1) == Apply(number, ViewFields(fields0, data0), data0[at..at + length])
    && (fields1[number].Span? <==> KindOf(number).Plain? || KindOf(number).Multi?)
    && match fields1[number]
       case Copied(_) => data1 == data0
       case Span(start, size) =>
         && start + size <= at + length
         && data1[..start] == data0[..start]
         && (start >= at || (number in fields0 && fields0[number].Span? && start >= fields0[number].at))
  }

  lemma StoredKeepsSeparated(fields0: map<nat, Field>, data0: seq<byte>, fields1: map<nat, Field>, data1: seq<byte>,
                             previous: nat, unread: nat, number: nat, at: nat, length: nat)
    requires Stored(fields0, data0, fields1, data1, number, at, length)
    requires previous <= number && unread < at && Separated(fields0, previous, unread)
    ensures Separated(fields1, number, at + length)
    ensures ViewFields(fields1, data1) ==
      ViewFields(fields0, data0)[number := Apply(number, ViewFields(fields0, data0), data0[at..at + length])]
  {
    hide KindOf, Apply;
    forall k | k in fields0 && k != number
      ensures Resolve(fields0[k], data0) == Resolve(fields1[k], data1)
    {
      PrefixDecides(fields0[k], data0, data1, if fields1[number].Span? then fields1[number].at else |data0|);
    }
  }

  /** Pointers that end before a bound do not see changes behind it. */
  lemma PrefixDecides(f: Field, before: seq<byte>, after: seq<byte>, bound: nat)
    requires bound <= |before| == |after| && before[..bound] == after[..bound]
    requires f.Span? ==> f.at + f.length <= bound
    ensures Resolve(f, before) == Resolve(f, after)
  {
    if f.Span? {
      assert before[f.at..f.at + f.length] == before[..bound][f.at..f.at + f.length];
      assert after[f.at..f.at + f.length] == after[..bound][f.at..f.at + f.length];
    }
  }

  class CoapPacket {
    var kind: nat
    var code: byte
    var mid: nat
    var token: seq<byte>
    var fields: map<nat, Field>
    var payloadAt: nat
    var payloadLength: nat

    constructor ()
    {
      kind, code, mid, token, fields, payloadAt, payloadLength := 0, 0, 0, [], map[], 0, 0;
    }

    /** The packet that these fields stand for, given the message buffer. */
    ghost function View(data: seq<byte>): Packet
      reads this
    {
      Packet(kind, code, mid, token, ViewFields(fields, data),
             if payloadAt + payloadLength <= |data| then data[payloadAt..payloadAt + payloadLength] else [])
    }

    /** coap_merge_multi_option on the field of one option: the separator and the new value are
        written behind the text so far, by memmove inside the message. */
    method MergeMultiOption(data: array<byte>, number: nat, at: nat, length: nat, separator: byte)
      requires at + length <= data.Length
      requires KindOf(number) == Multi(separator)
      requires number in fields ==> fields[number].Span? && fields[number].at + fields[number].length < at
      modifies this`fields, data
      ensures Stored(old(fields), old(data[..]), fields, data[..], number, at, length)
    {
      hide KindOf, Wrote, Stored;
      ghost var fields0, before := fields, data[..];
      if number in fields && fields[number].length > 0 {
        var dst, dstLength := fields[number].at, fields[number].length;
        CopyInto(data, dst + dstLength, [separator]);
        ghost var marked := data[..];
        dstLength := dstLength + 1;
        MoveInside(data, dst + dstLength, at, length);
        fields := fields[number := Span(dst, dstLength + length)];
        MergeStored(fields0, before, marked, data[..], number, at, length, separator);
      } else {
        fields := fields[number := Span(at, length)];
        FirstStored(fields0, before, number, at, length, separator);
      }
    }

    /** The parser's switch: one more occurrence of an option with its value at data[at..]. */
    method AcceptOption(data: array<byte>, ghost previous: nat, ghost unread: nat, number: nat, at: nat, length: nat)
      requires previous <= number && Separated(fields, previous, unread)
      requires unread < at && at + length <= data.Length
      requires !KindOf(number).Proxy?
      modifies this`fields, data
      ensures Stored(old(fields), old(data[..]), fields, data[..], number, at, length)
    {
      if KindOf(number).Multi? {
        MergeMultiOption(data, number, at, length, KindOf(number).sep);
        return;
      }
      match KindOf(number) {
        case Plain =>
          fields := fields[number := Span(at, length)];
        case Int16 =>
          var v := ParseIntOption(data, at, length);
          fields := fields[number := Copied(Number(v % 0x1_0000))];
        case Int32 =>
          var v := ParseIntOption(data, at, length);
          fields := fields[number := Copied(Number(v))];
        case Opaque =>
          fields := fields[number := Copied(Text(data[at..at + Min(ETAG_LEN, length)]))];
          assert data[..][at..at + length][..Min(ETAG_LEN, length)] == data[at..at + Min(ETAG_LEN, length)];
        case BlockOption =>
          var v := ParseIntOption(data, at, length);
          fields := fields[number := Copied(BlockIs(ReadBlock(v)))];
        case Flag =>
          fields := fields[number := Copied(Present)];
        case Unknown =>
          fields := fields[number := Copied(Present)];
      }
    }

    /** What the parser still has to make of the unread bytes. */
    ghost function Pending(data: seq<byte>, current: nat, length: nat, number: nat, chunk: nat): Parsed
      requires current <= length <= |data|
      reads this
    {
      ParseOptions(data[current..length], number, View(data), chunk)
    }

    /** Between two turns of the parser's loop. */
    ghost predicate InProgress(data: seq<byte>, current: nat, length: nat, number: nat)
      reads this
    {
      && current <= length < |data|
      && payloadLength == 0 && payloadAt <= |data|
      && Separated(fields, number, current)
    }

    /** The payload branch of the loop. */
    method TakePayload(data: array<byte>, current: nat, length: nat, ghost number: nat, chunk: nat)
      requires InProgress(data[..], current, length, number) && current < length && data[current] / 16 == 15
      modifies this`payloadAt, this`payloadLength, data
      ensures old(Pending(data[..], current, length, number, chunk)) == Accepted(View(data[..]))
    {
      hide ParseOptions, ReadHeader, KindOf, Separated, ViewFields, Resolve;
      ghost var data0, rest := data[..], data[..][current..length];
      UnfoldParse(rest, number, View(data[..]), chunk);
      assert rest[0] == data[current];
      payloadAt, payloadLength := current + 1, Min(chunk, length - (current + 1));
      data[payloadAt + payloadLength] := 0;
      KeepFields(fields, data0, data[..], number, current, payloadAt + payloadLength);
      PayloadBefore(data0, data[..], current, payloadAt + payloadLength, length);
    }

    /** The option branch of the loop. */
    method TakeOption(data: array<byte>, current: nat, length: nat, number: nat, chunk: nat)
      returns (status: nat, next: nat, number': nat)
      requires InProgress(data[..], current, length, number) && current < length && data[current] / 16 != 15
      requires Pending(data[..], current, length, number, chunk) != Malformed
      modifies this`fields, data
      ensures status == NO_ERROR ==>
        && current < next && InProgress(data[..], next, length, number')
        && old(Pending(data[..], current, length, number, chunk)) == Pending(data[..], next, length, number', chunk)
      ensures status != NO_ERROR ==> old(Pending(data[..], current, length, number, chunk)) == Rejected(status)
    {
      hide ParseOptions, ReadHeader, KindOf, Separated, Stored, Apply;
      ghost var rest, view := data[..][current..length], View(data[..]);
      UnfoldParse(rest, number, view, chunk);
      assert rest[0] == data[current];
      var delta, optionLength, at := DecodeHeader(data, current, length);
      next, number' := current, number + delta;
      if KindOf(number').Proxy? {
        return PROXYING_NOT_SUPPORTED_5_05, next, number';
      }
      if KindOf(number').Unknown? && number' % 2 == 1 {
        return BAD_OPTION_4_02, next, number';
      }
      ghost var fields0, data0 := fields, data[..];
      next := at + optionLength;
      Slices(data0, current, at, next, length);
      AcceptOption(data, number, current, number', at, optionLength);
      StoredKeepsSeparated(fields0, data0, fields, data[..], number, current, number', at, optionLength);
      StoredKeepsUnread(fields0, data0, fields, data[..], number', at, optionLength, length);
      assert View(data[..]) == Accept(view, number', rest[at - current..next - current]);
      assert data[..][next..length] == rest[next - current..];
      status := NO_ERROR;
    }

    /** The option loop of coap_parse_message, from the end of the token on. */
    method ParseFields(data: array<byte>, length: nat, start: nat, chunk: nat) returns (status: nat)
      requires fields == map[] && InProgress(data[..], start, length, 0)
      requires Pending(data[..], start, length, 0, chunk) != Malformed
      modifies this`fields, this`payloadAt, this`payloadLength, data
      ensures status == NO_ERROR ==> old(Pending(data[..], start, length, 0, chunk)) == Accepted(View(data[..]))
      ensures status != NO_ERROR ==> old(Pending(data[..], start, length, 0, chunk)) == Rejected(status)
    {
      hide ParseOptions, Separated, View;
      ghost var parsed := Pending(data[..], start, length, 0, chunk);
      var current, number := start, 0;
      status := NO_ERROR;
      while current < length
        invariant InProgress(data[..], current, length, number)
        invariant parsed == Pending(data[..], current, length, number, chunk) != Malformed
        decreases length - current
      {
        if data[current] / 16 == 15 {
          TakePayload(data, current, length, number, chunk);
          return NO_ERROR;
        }
        status, current, number := TakeOption(data, current, length, number, chunk);
        if status != NO_ERROR {
          return;
        }
      }
      assert data[..][current..length] == [];
      UnfoldParse([], number, View(data[..]), chunk);
      status := NO_ERROR;
    }

    /** coap_parse_message. The buffer must have room for the terminator behind the payload. */
    method ParseMessage(data: array<byte>, length: nat, chunk: nat) returns (status: nat)
      requires length < data.Length
      requires Parse(data[..length], chunk) != Malformed
      modifies this, data
      ensures status == NO_ERROR ==> Parse(old(data[..length]), chunk) == Accepted(View(data[..]))
      ensures status != NO_ERROR ==> Parse(old(data[..length]), chunk) == Rejected(status)
    {
      hide ParseOptions, Separated;
      ghost var message := data[..length];
      kind, code, mid := data[0] / 16 % 4, data[1], data[2] as int * 256 + data[3];
      token, fields, payloadAt, payloadLength := [], map[], 0, 0;
      var tokenLength: nat := data[0] % 16;
      if data[0] / 64 != 1 || tokenLength > TOKEN_LEN {
        return BAD_REQUEST_4_00;
      }
      token := data[4..4 + tokenLength];
      assert message[4..4 + tokenLength] == token && message[4 + tokenLength..] == data[..][4 + tokenLength..length];
      assert View(data[..]) == Packet(kind, code, mid, token, map[], []);
      NothingStored(4 + tokenLength);
      status := ParseFields(data, length, 4 + tokenLength, chunk);
    }
  }

  /** The two nibbles of an option header and their extensions, read from the message. */
  method DecodeHeader(data: array<byte>, current: nat, length: nat) returns (delta: nat, optionLength: nat, at: nat)
    requires current < length <= data.Length
    requires ReadHeader(data[..][current..length]).Some?
    ensures current < at <= length
    ensures ReadHeader(data[..][current..length]) == Some((delta, optionLength, at - current))
  {
    hide ReadExtension;
    ghost var rest := data[..][current..length];
    assert data[..][current + 1..length] == rest[1..];
    var used;
    delta, used := DecodeExtension(data, data[current] / 16, current + 1, length);
    assert data[..][current + 1 + used..length] == rest[1 + used..];
    at := current + 1 + used;
    optionLength, used := DecodeExtension(data, data[current] % 16, at, length);
    at := at + used;
  }

  method DecodeExtension(data: array<byte>, nibble: nat, at: nat, length: nat) returns (v: nat, used: nat)
    requires at <= length <= data.Length
    requires ReadExtension(nibble, data[..][at..length]).Some?
    ensures ReadExtension(nibble, data[..][at..length]) == Some((v, used))
  {
    v, used := nibble, 0;
    if v == 13 {
      v, used := v + data[at], 1;
    } else if v == 14 {
      v := v + 255;
      v := v + data[at] as int * 256;
      v := v + data[at + 1];
      used := 2;
    }
  }

  /** One turn of the parser's loop, on the specification side. */
  lemma UnfoldParse(rest: seq<byte>, number: nat, p: Packet, chunk: nat)
    ensures rest == [] ==> ParseOptions(rest, number, p, chunk) == Accepted(p)
    ensures rest != [] && rest[0] / 16 == 15 ==>
      ParseOptions(rest, number, p, chunk) == Accepted(p.(payload := rest[1..1 + Min(chunk, |rest| - 1)]))
    ensures rest != [] && rest[0] / 16 != 15 && ParseOptions(rest, number, p, chunk) != Malformed ==>
      && ReadHeader(rest).Some?
      && var (delta, length, used) := ReadHeader(rest).value;
      && number + delta < OPTION_BITS && used + length <= |rest|
      && ParseOptions(rest, number, p, chunk) ==
           if KindOf(number + delta).Proxy? then Rejected(PROXYING_NOT_SUPPORTED_5_05)
           else if KindOf(number + delta).Unknown? && (number + delta) % 2 == 1 then Rejected(BAD_OPTION_4_02)
           else ParseOptions(rest[used + length..], number + delta,
                             Accept(p, number + delta, rest[used..used + length]), chunk)
  {
    hide ReadHeader, KindOf, Apply;
  }

  lemma NothingStored(unread: nat)
    ensures Separated(map[], 0, unread)
  {
  }

  lemma KeepFields(fields: map<nat, Field>, before: seq<byte>, after: seq<byte>, number: nat, unread: nat, at: nat)
    requires Separated(fields, number, unread) && unread <= at < |before| == |after|
    requires after == before[at := after[at]]
    ensures ViewFields(fields, after) == ViewFields(fields, before)
  {
    forall k | k in fields ensures Resolve(fields[k], before) == Resolve(fields[k], after) {
      PrefixDecides(fields[k], before, after, unread);
    }
  }

  lemma StoredKeepsUnread(fields0: map<nat, Field>, data0: seq<byte>, fields1: map<nat, Field>, data1: seq<byte>,
                          number: nat, at: nat, length: nat, end: nat)
    requires Stored(fields0, data0, fields1, data1, number, at, length) && at + length <= end <= |data0|
    ensures |data1| == |data0| && data1[at + length..end] == data0[at + length..end]
  {
    assert data1[at + length..end] == data1[at + length..][..end - at - length];
    assert data0[at + length..end] == data0[at + length..][..end - at - length];
  }

  lemma Slices(data: seq<byte>, current: nat, at: nat, next: nat, length: nat)
    requires current <= at <= next <= length <= |data|
    ensures data[at..next] == data[current..length][at - current..next - current]
    ensures data[next..length] == data[current..length][next - current..]
  {
    var rest := data[current..length];
    forall k | 0 <= k < next - at ensures data[at..next][k] == rest[at - current..next - current][k] {
      assert data[at..next][k] == data[at + k] == rest[at - current + k];
    }
  }

  /** The byte written behind the payload is not part of it. */
  lemma PayloadBefore(before: seq<byte>, after: seq<byte>, current: nat, end: nat, length: nat)
    requires current < end <= length < |before| == |after| && after == before[end := after[end]]
    ensures after[current + 1..end] == before[current..length][1..end - current]
  {
    Slices(before, current, current + 1, end, length);
    assert after[current + 1..end] == before[current + 1..end];
  }

  /** coap_parse_int_option. */
  method ParseIntOption(data: array<byte>, at: nat, length: nat) returns (v: nat)
    requires at + length <= data.Length
    ensures v == ParseInt(data[..][at..at + length])
  {
    hide ParseInt;
    ghost var bytes := data[..][at..at + length];
    v := 0;
    var i := 0;
    NoBytes(bytes);
    while i < length
      invariant i <= length
      invariant v == ParseInt(bytes[..i])
    {
      ParseIntSnoc(bytes[..i], bytes[i]);
      assert bytes[..i + 1] == bytes[..i] + [bytes[i]];
      v := (v * 256 + data[at + i]) % TWO_TO_THE_32;
      i := i + 1;
    }
    assert bytes[..length] == bytes;
  }

  lemma NoBytes(bytes: seq<byte>)
    ensures ParseInt(bytes[..0]) == 0
  {
  }

  lemma MergeStored(fields: map<nat, Field>, before: seq<byte>, marked: seq<byte>, after: seq<byte>,
                    number: nat, at: nat, length: nat, sep: byte)
    requires number in fields && fields[number].Span? && fields[number].length > 0 && KindOf(number) == Multi(sep)
    requires fields[number].at + fields[number].length < at && at + length <= |before|
    requires Wrote(before, marked, fields[number].at + fields[number].length, [sep])
    requires Wrote(marked, after, fields[number].at + fields[number].length + 1, marked[at..at + length])
    ensures Stored(fields, before, fields[number := Span(fields[number].at, fields[number].length + 1 + length)],
                   after, number, at, length)
  {
    hide KindOf;
    var dst, dstLength := fields[number].at, fields[number].length;
    assert marked[at..at + length] == before[at..at + length];
    WroteMore(before, marked, after, dst + dstLength, [sep], marked[at..at + length]);
    MergeEffect(before, after, dst, dstLength, at, length, sep);
    assert TextSoFar(ViewFields(fields, before), number) == before[dst..dst + dstLength];
  }

  lemma FirstStored(fields: map<nat, Field>, data: seq<byte>, number: nat, at: nat, length: nat, sep: byte)
    requires KindOf(number) == Multi(sep) && at + length <= |data|
    requires number in fields ==>
      fields[number].Span? && fields[number].at + fields[number].length < at && fields[number].length == 0
    ensures Stored(fields, data, fields[number := Span(at, length)], data, number, at, length)
  {
    hide KindOf;
    assert TextSoFar(ViewFields(fields, data), number) == [];
  }

  lemma MergeEffect(before: seq<byte>, after: seq<byte>, dst: nat, dstLength: nat, at: nat, length: nat, sep: byte)
    requires dst + dstLength < at && at + length <= |before|
    requires Wrote(before, after, dst + dstLength, [sep] + before[at..at + length])
    ensures |after| == |before|
    ensures after[at + length..] == before[at + length..] && after[..dst] == before[..dst]
    ensures after[dst..dst + dstLength + 1 + length] == before[dst..dst + dstLength] + [sep] + before[at..at + length]
  {
  }
}
