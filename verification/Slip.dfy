/** SLIP framing (RFC 1055) on the tunnel's serial line: the encoder with its output queue, and the
    decoder that collects a frame byte by byte. */
module Slip {
  import opened Basics

  const END: byte := 0xC0
  const ESC: byte := 0xDB
  const ESC_END: byte := 0xDC
  const ESC_ESC: byte := 0xDD
  const ESC_XON: byte := 0xDE
  const ESC_XOFF: byte := 0xDF
  const XON: byte := 17
  const XOFF: byte := 19
  const BUFFER: nat := 2000

  // ----- encoding -----

  function Escaped(c: byte, flow: bool): seq<byte> {
    if c == END then [ESC, ESC_END]
    else if c == ESC then [ESC, ESC_ESC]
    else if c == XON && flow then [ESC, ESC_XON]
    else if c == XOFF && flow then [ESC, ESC_XOFF]
    else [c]
  }

  function EscapedAll(f: seq<byte>, flow: bool): seq<byte> {
    if f == [] then [] else EscapedAll(f[..|f| - 1], flow) + Escaped(f[|f| - 1], flow)
  }

  function Frame(f: seq<byte>, flow: bool): seq<byte> {
    EscapedAll(f, flow) + [END]
  }

  function Frames(fs: seq<seq<byte>>, flow: bool): seq<byte> {
    if fs == [] then [] else Frame(fs[0], flow) + Frames(fs[1..], flow)
  }

  /** slip_buf and the line behind it. The queue only becomes empty when all of it was written. */
  class Queue {
    const buffer: array<byte>
    var begin: nat
    var end: nat
    ghost var sent: seq<byte>      // everything that was put into the queue
    ghost var line: seq<byte>      // everything that left it

    constructor ()
      ensures Valid() && fresh(buffer) && end == 0 && sent == []
    {
      buffer := new byte[BUFFER](_ => 0);
      begin, end, sent, line := 0, 0, [], [];
    }

    /** First in, first out: what left the queue and what is still in it are what was put in. */
    ghost predicate Valid()
      reads this, buffer
    {
      buffer.Length == BUFFER && begin <= end <= BUFFER && sent == line + buffer[begin..end]
    }

    /** slip_send; the program ends with an error when the buffer is used up. */
    method Send(c: byte) returns (ok: bool)
      requires Valid()
      modifies this, buffer
      ensures Valid() && line == old(line) && begin == old(begin) && ok == (old(end) < BUFFER)
      ensures ok ==> sent == old(sent) + [c] && end == old(end) + 1
    {
      if end >= BUFFER {
        return false;
      }
      ghost var waiting := buffer[begin..end];
      buffer[end] := c;
      end := end + 1;
      sent := sent + [c];
      assert buffer[begin..end] == waiting + [c];
      ok := true;
    }

    /** slip_flushbuf; the line takes some of the bytes, or none. */
    method Flush(taken: nat)
      requires Valid() && taken <= end - begin
      modifies this
      ensures Valid() && sent == old(sent) && line == old(line + buffer[begin..begin + taken])
    {
      if end == 0 {
        assert buffer[begin..begin + taken] == [];
        return;
      }
      line := line + buffer[begin..begin + taken];
      begin := begin + taken;
      assert old(buffer[begin..end]) == old(buffer[begin..begin + taken]) + buffer[begin..end];
      if begin == end {
        begin, end := 0, 0;
      }
    }

    /** One byte, escaped where necessary. */
    method SendChar(c: byte, flow: bool) returns (ok: bool)
      requires Valid()
      modifies this, buffer
      ensures Valid() && line == old(line) && ok == (old(end) + |Escaped(c, flow)| <= BUFFER)
      ensures ok ==> sent == old(sent) + Escaped(c, flow) && end == old(end) + |Escaped(c, flow)|
    {
      var special := if c == END then ESC_END else if c == ESC then ESC_ESC
                     else if c == XON && flow then ESC_XON else if c == XOFF && flow then ESC_XOFF else 0;
      if special != 0 {
        ok := Send(ESC);
        if ok {
          ok := Send(special);
        }
      } else {
        ok := Send(c);
      }
    }

    /** write_to_serial: one frame, if it fits behind what is queued. */
    method WriteToSerial(f: seq<byte>, flow: bool) returns (ok: bool)
      requires Valid()
      modifies this, buffer
      ensures Valid() && line == old(line)
      ensures ok ==> sent == old(sent) + Frame(f, flow)
      ensures old(end) + |Frame(f, flow)| <= BUFFER ==> ok
    {
      hide Escaped;
      for i := 0 to |f|
        invariant Valid() && line == old(line)
        invariant sent == old(sent) + EscapedAll(f[..i], flow) && end == old(end) + |EscapedAll(f[..i], flow)|
      {
        NextByte(f, i, flow);
        ok := SendChar(f[i], flow);
        if !ok {
          return;
        }
      }
      assert f[..|f|] == f;
      ok := Send(END);
    }
  }

  lemma NextByte(f: seq<byte>, i: nat, flow: bool)
    requires i < |f|
    ensures EscapedAll(f[..i + 1], flow) == EscapedAll(f[..i], flow) + Escaped(f[i], flow)
    ensures |EscapedAll(f[..i + 1], flow)| <= |EscapedAll(f, flow)|
    decreases |f| - i
  {
    hide Escaped;
    assert f[..i + 1][..i] == f[..i];
    if i + 1 < |f| { NextByte(f, i + 1, flow); } else { assert f[..i + 1] == f; }
  }

  // ----- decoding -----

  /** The decoder between two bytes: what it has collected, whether an escape is open, and the
      frames it has handed on. */
  datatype Decoder = Decoder(inbuf: seq<byte>, escape: bool, frames: seq<seq<byte>>)

  /** A full buffer is dropped before the next byte is looked at. */
  function Room(inbuf: seq<byte>): seq<byte> {
    if |inbuf| >= BUFFER then [] else inbuf
  }

  function Unescaped(c: byte): byte {
    if c == ESC_END then END
    else if c == ESC_ESC then ESC
    else if c == ESC_XON then XON
    else if c == ESC_XOFF then XOFF
    else c
  }

  /** One byte in serial_to_tun. */
  function Decode(d: Decoder, c: byte): Decoder {
    if d.escape then d.(inbuf := d.inbuf + [Unescaped(c)], escape := false)
    else if c == END then
      if Room(d.inbuf) == [] then d.(inbuf := [])
      else Decoder([], false, d.frames + [d.inbuf])
    else if c == ESC then d.(inbuf := Room(d.inbuf), escape := true)
    else d.(inbuf := Room(d.inbuf) + [c])
  }

  function DecodeAll(d: Decoder, s: seq<byte>): Decoder
    decreases |s|
  {
    if s == [] then d else DecodeAll(Decode(d, s[0]), s[1..])
  }

  /** What remains of a frame in the buffer: full buffers on the way are lost. */
  function Collected(inbuf: seq<byte>, f: seq<byte>): seq<byte>
    decreases |f|
  {
    if f == [] then inbuf else Room(Collected(inbuf, f[..|f| - 1])) + [f[|f| - 1]]
  }

  lemma {:induction false} DecodeAppend(d: Decoder, s: seq<byte>, t: seq<byte>)
    ensures DecodeAll(d, s + t) == DecodeAll(DecodeAll(d, s), t)
    decreases |s|
  {
    hide Decode;
    if s == [] {
      assert s + t == t;
    } else {
      assert (s + t)[1..] == s[1..] + t;
      DecodeAppend(Decode(d, s[0]), s[1..], t);
    }
  }

  lemma DecodeByte(d: Decoder, c: byte, flow: bool)
    requires !d.escape
    ensures DecodeAll(d, Escaped(c, flow)) == d.(inbuf := Room(d.inbuf) + [c])
  {
    var s := Escaped(c, flow);
    if |s| == 2 {
      assert s[1..] == [s[1]] && s[1..][1..] == [];
      assert DecodeAll(d, s) == DecodeAll(Decode(d, s[0]), [s[1]]) == Decode(Decode(d, s[0]), s[1]);
    } else {
      assert DecodeAll(d, s) == DecodeAll(Decode(d, s[0]), []);
    }
  }

  lemma {:induction false} DecodeEscaped(d: Decoder, f: seq<byte>, flow: bool)
    requires !d.escape
    ensures DecodeAll(d, EscapedAll(f, flow)) == d.(inbuf := Collected(d.inbuf, f))
    decreases |f|
  {
    hide Escaped, Decode;
    if f != [] {
      var g := f[..|f| - 1];
      DecodeEscaped(d, g, flow);
      DecodeAppend(d, EscapedAll(g, flow), Escaped(f[|f| - 1], flow));
      DecodeByte(d.(inbuf := Collected(d.inbuf, g)), f[|f| - 1], flow);
    }
  }

  /** What the decoder hands on for one frame. */
  function Delivered(f: seq<byte>): seq<seq<byte>> {
    if Room(Collected([], f)) == [] then [] else [Collected([], f)]
  }

  lemma DecodeFrame(d: Decoder, f: seq<byte>, flow: bool)
    requires !d.escape && d.inbuf == []
    ensures DecodeAll(d, Frame(f, flow)) == d.(frames := d.frames + Delivered(f))
  {
    hide Collected;
    DecodeEscaped(d, f, flow);
    DecodeAppend(d, EscapedAll(f, flow), [END]);
    var d' := d.(inbuf := Collected([], f));
    assert DecodeAll(d', [END]) == DecodeAll(Decode(d', END), [END][1..]) == Decode(d', END);
    assert d.frames + [] == d.frames;
  }

  lemma {:induction false} CollectedShort(f: seq<byte>)
    requires |f| <= BUFFER
    ensures Collected([], f) == f
    decreases |f|
  {
    if f != [] {
      CollectedShort(f[..|f| - 1]);
      assert f == f[..|f| - 1] + [f[|f| - 1]];
    }
  }

  lemma {:induction false} CollectedSize(f: seq<byte>)
    ensures |Collected([], f)| <= BUFFER
    decreases |f|
  {
    if f != [] {
      CollectedSize(f[..|f| - 1]);
    }
  }

  /** A frame arrives as it was sent exactly if it is not empty and shorter than the buffer. */
  lemma DeliveredIff(f: seq<byte>)
    ensures Delivered(f) == [f] <==> 0 < |f| < BUFFER
  {
    hide Collected;
    CollectedSize(f);
    if |f| <= BUFFER { CollectedShort(f); }
    if Delivered(f) == [f] {
      assert Collected([], f) == f;
    }
  }

  function DeliveredAll(fs: seq<seq<byte>>): seq<seq<byte>> {
    if fs == [] then [] else Delivered(fs[0]) + DeliveredAll(fs[1..])
  }

  /** Whatever the frames and however they follow each other, each is decoded on its own. */
  lemma {:induction false} FramesDecode(d: Decoder, fs: seq<seq<byte>>, flow: bool)
    requires !d.escape && d.inbuf == []
    ensures DecodeAll(d, Frames(fs, flow)) == d.(frames := d.frames + DeliveredAll(fs))
    decreases |fs|
  {
    hide Frame, Delivered;
    if fs == [] {
      assert d.frames + [] == d.frames;
    } else {
      DecodeAppend(d, Frame(fs[0], flow), Frames(fs[1..], flow));
      DecodeFrame(d, fs[0], flow);
      FramesDecode(d.(frames := d.frames + Delivered(fs[0])), fs[1..], flow);
      assert d.frames + Delivered(fs[0]) + DeliveredAll(fs[1..])
        == d.frames + (Delivered(fs[0]) + DeliveredAll(fs[1..]));
    }
  }

  /** The round trip: all frames of sensible size come back, in order. */
  lemma {:induction false} FramesRoundTrip(fs: seq<seq<byte>>, flow: bool)
    requires forall i :: 0 <= i < |fs| ==> 0 < |fs[i]| < BUFFER
    ensures DecodeAll(Decoder([], false, []), Frames(fs, flow)) == Decoder([], false, fs)
    decreases |fs|
  {
    FramesDecode(Decoder([], false, []), fs, flow);
    AllDelivered(fs);
    assert [] + fs == fs;
  }

  lemma {:induction false} AllDelivered(fs: seq<seq<byte>>)
    requires forall i :: 0 <= i < |fs| ==> 0 < |fs[i]| < BUFFER
    ensures DeliveredAll(fs) == fs
    decreases |fs|
  {
    hide Delivered;
    if fs != [] {
      DeliveredIff(fs[0]);
      AllDelivered(fs[1..]);
      assert fs == [fs[0]] + fs[1..];
    }
  }

  /** serial_to_tun, byte by byte. */
  class Reader {
    const inbuf: array<byte>
    var inbufptr: nat
    var escape: bool
    var frames: seq<seq<byte>>

    constructor ()
      ensures Valid() && State() == Decoder([], false, []) && fresh(inbuf)
    {
      inbuf := new byte[BUFFER](_ => 0);
      inbufptr, escape, frames := 0, false, [];
    }

    ghost predicate Valid()
      reads this
    {
      inbuf.Length == BUFFER && inbufptr <= BUFFER && (escape ==> inbufptr < BUFFER)
    }

    ghost function State(): Decoder
      requires Valid()
      reads this, inbuf
    {
      Decoder(inbuf[..inbufptr], escape, frames)
    }

    method Read(c0: byte)
      requires Valid()
      modifies this, inbuf
      ensures Valid() && State() == Decode(old(State()), c0)
    {
      var c := c0;
      if escape {
        escape := false;
        c := Unescaped(c);
      } else {
        if inbufptr >= BUFFER {
          inbufptr := 0;
        }
        if c == END {
          if inbufptr > 0 {
            frames := frames + [inbuf[..inbufptr]];
            inbufptr := 0;
          }
          return;
        } else if c == ESC {
          escape := true;
          return;
        }
      }
      ghost var before := inbuf[..inbufptr];
      inbuf[inbufptr] := c;
      inbufptr := inbufptr + 1;
      assert inbuf[..inbufptr] == before + [c];
    }
  }
}
