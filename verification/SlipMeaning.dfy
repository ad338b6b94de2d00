/** What is on the serial line, in the byte values of RFC 1055 and of software flow control. */
module SlipMeaning {
  import opened Basics
  import opened Slip

  /** 0xC0 goes on the line as 0xDB 0xDC, 0xDB as 0xDB 0xDD; with flow control, 0x11 as 0xDB 0xDE and
      0x13 as 0xDB 0xDF; every other byte as it is. */
  lemma ByteOnLine(c: byte, flow: bool)
    ensures EscapedAll([c], flow) ==
      if c == 0xC0 then [0xDB, 0xDC]
      else if c == 0xDB then [0xDB, 0xDD]
      else if c == 0x11 && flow then [0xDB, 0xDE]
      else if c == 0x13 && flow then [0xDB, 0xDF]
      else [c]
  {
    assert [c][..0] == [];
  }

  lemma {:induction false} EscapedAppend(f: seq<byte>, g: seq<byte>, flow: bool)
    ensures EscapedAll(f + g, flow) == EscapedAll(f, flow) + EscapedAll(g, flow)
    decreases |g|
  {
    hide Escaped;
    if g == [] {
      assert f + g == f;
    } else {
      var last := |g| - 1;
      assert (f + g)[..|f + g| - 1] == f + g[..last] && (f + g)[|f + g| - 1] == g[last];
      EscapedAppend(f, g[..last], flow);
    }
  }

  /** A byte that may stand inside a frame. */
  predicate Plain(c: byte, flow: bool) {
    c != 0xC0 && (flow ==> c != 0x11 && c != 0x13)
  }

  lemma {:induction false} NothingRaw(f: seq<byte>, flow: bool)
    ensures forall i :: 0 <= i < |EscapedAll(f, flow)| ==> Plain(EscapedAll(f, flow)[i], flow)
    decreases |f|
  {
    if f != [] {
      NothingRaw(f[..|f| - 1], flow);
      var last := Escaped(f[|f| - 1], flow);
      assert forall i :: 0 <= i < |last| ==> Plain(last[i], flow);
    }
  }

  /** On the line, a frame ends with its only byte 0xC0. With flow control, no byte 0x11 or 0x13 goes on
      the line at all. */
  lemma FrameOnLine(f: seq<byte>, flow: bool)
    ensures var line := Frame(f, flow);
      && line != [] && line[|line| - 1] == 0xC0
      && forall i :: 0 <= i < |line| - 1 ==> line[i] != 0xC0 && (flow ==> line[i] != 0x11 && line[i] != 0x13)
  {
    NothingRaw(f, flow);
  }

  /** The decoder, byte by byte: behind 0xDB, the four escape values stand for the special bytes and any
      other byte for itself; otherwise 0xC0 hands the frame on, unless it is empty or has filled the
      buffer of 2000 bytes, and 0xDB opens an escape. A full buffer is dropped. */
  lemma DecodeMeaning(inbuf: seq<byte>, frames: seq<seq<byte>>, c: byte)
    requires |inbuf| <= 2000
    ensures Decode(Decoder(inbuf, true, frames), c) == Decoder(
      inbuf + [if c == 0xDC then 0xC0 else if c == 0xDD then 0xDB else if c == 0xDE then 0x11
               else if c == 0xDF then 0x13 else c], false, frames)
    ensures var kept := if |inbuf| == 2000 then [] else inbuf;
      Decode(Decoder(inbuf, false, frames), c) ==
      if c == 0xC0 then Decoder([], false, if kept == [] then frames else frames + [kept])
      else if c == 0xDB then Decoder(kept, true, frames)
      else Decoder(kept + [c], false, frames)
  {
  }
}
