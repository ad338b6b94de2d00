/** Code propagation: a sender broadcasts an image in small packets, a receiver stores what arrives
    in order and asks for the rest with NACKs. */
module Codeprop {
  import opened Basics

  const UDPDATASIZE: nat := 32
  const ADDR_LIMIT: nat := 65536
  const MEMORY: nat := 65568        // a packet fits behind every address

  datatype Packet = Packet(id: nat, addr: nat, len: nat, data: seq<byte>)

  /** The packet for one address of an image. */
  function Data(image: seq<byte>, id: nat, addr: nat): (p: Packet)
    requires addr <= |image|
    ensures |p.data| == Min(UDPDATASIZE, |image| - addr)
  {
    Packet(id, addr, |image|, image[addr..addr + Min(UDPDATASIZE, |image| - addr)])
  }

  // ----- the sender -----

  class Sender {
    const image: seq<byte>
    const id: nat
    var addr: nat
    var sending: bool

    constructor (image: seq<byte>, id: nat)
      requires |image| < ADDR_LIMIT
      ensures this.image == image && this.id == id && addr == 0 && sending
    {
      this.image, this.id, addr, sending := image, id, 0, true;
    }

    /** send_udpdata and the step of the loop around it. */
    method SendNext() returns (p: Packet)
      requires sending && addr < |image|
      modifies this
      ensures p == Data(image, id, old(addr)) && addr == AfterSend(|image|, old(addr)) && sending
    {
      var len;
      if |image| - addr > UDPDATASIZE {
        len := UDPDATASIZE;
      } else {
        len := |image| - addr;
      }
      p := Packet(id, addr, |image|, image[addr..addr + len]);
      addr := addr + len;
    }

    /** A NACK while waiting for the timer: only lower addresses count. */
    method OnNack(nack: nat)
      modifies this
      ensures addr == AfterNack(old(sending), old(addr), nack) && sending == old(sending)
    {
      if sending && nack <= addr {
        addr := nack;
      }
    }

    /** The timer: with everything sent, sending is over. */
    method OnTimer()
      modifies this
      ensures addr == old(addr) && sending == (old(sending) && addr < |image|)
    {
      if addr >= |image| {
        sending := false;
      }
    }
  }

  function AfterSend(n: nat, addr: nat): nat
    requires addr <= n
  {
    addr + Min(UDPDATASIZE, n - addr)
  }

  function AfterNack(sending: bool, addr: nat, nack: nat): nat {
    if sending && nack <= addr then nack else addr
  }

  // ----- the receiver -----

  /** The receiver's part of the state, with the memory that it writes to. */
  datatype Receiving = Receiving(active: bool, id: nat, addr: nat, len: nat, store: seq<byte>, finished: bool)

  /** One packet in the loop of recv_udpthread. */
  function Take(r: Receiving, addr: nat, data: seq<byte>): Receiving
    requires r.addr + |data| <= |r.store|
  {
    var r' :=
      if r.addr < r.len && addr == r.addr then r.(store := Overwrite(r.store, r.addr, data), addr := r.addr + |data|)
      else r;
    r'.(active := r'.addr < r'.len, finished := r'.addr >= r'.len)
  }

  /** A data packet. The first packet of a new image is taken as address 0 whatever its address is:
      the NACK for address 0 is built in the packet's own buffer, and the address tested afterwards
      is the one just written there. */
  function Receive(r: Receiving, p: Packet): Receiving
    requires r.addr + |p.data| <= |r.store| && |p.data| <= |r.store|
  {
    if r.active then
      if p.id == r.id then Take(r, p.addr, p.data) else r
    else if p.id > r.id then
      Take(r.(id := p.id, addr := 0, len := p.len), 0, p.data)
    else r
  }

  /** The NACK that a packet provokes. */
  function NackFor(r: Receiving, p: Packet): Option<nat> {
    if r.active then
      if p.id == r.id && r.addr < r.len && p.addr > r.addr then Some(r.addr) else None
    else if p.id > r.id && p.addr != 0 then Some(0)
    else None
  }

  class Receiver {
    const eeprom: array<byte>
    var active: bool
    var id: nat
    var addr: nat
    var len: nat
    var finished: bool

    constructor (eeprom: array<byte>)
      ensures this.eeprom == eeprom && !active && id == addr == len == 0 && !finished
    {
      this.eeprom, active, id, addr, len, finished := eeprom, false, 0, 0, 0, false;
    }

    ghost function State(): Receiving
      reads this, eeprom
    {
      Receiving(active, id, addr, len, eeprom[..], finished)
    }

    method EepromWrite(at: nat, data: seq<byte>)
      requires at + |data| <= eeprom.Length
      modifies eeprom
      ensures eeprom[..] == Overwrite(old(eeprom[..]), at, data)
    {
      forall k | 0 <= k < |data| {
        eeprom[at + k] := data[k];
      }
      assert eeprom[..] == Overwrite(old(eeprom[..]), at, data);
    }

    /** recv_udpthread, resumed by a data packet; uhAddr is the address field in its buffer. */
    method OnData(p: Packet) returns (nack: Option<nat>)
      requires addr + |p.data| <= eeprom.Length && |p.data| <= eeprom.Length
      modifies this, eeprom
      ensures State() == Receive(old(State()), p)
      ensures nack == NackFor(old(State()), p)
    {
      nack := None;
      var uhAddr := p.addr;
      if !active {
        if p.id <= id {
          return;
        }
        if uhAddr != 0 {
          nack, uhAddr := Some(0), 0;
        }
        active, addr, id, len, finished := true, 0, p.id, p.len, false;
      } else if p.id != id {
        return;
      }
      if addr < len {
        if uhAddr == addr {
          EepromWrite(addr, p.data);
          addr := addr + |p.data|;
        } else if uhAddr > addr {
          nack := Some(addr);
        }
      }
      active, finished := addr < len, addr >= len;
    }

    /** The NACK timer: the next missing address, as long as something is missing. */
    method OnTimer() returns (nack: Option<nat>)
      ensures nack == if active then Some(addr) else None
    {
      nack := if active then Some(addr) else None;
    }
  }

  // ----- runs -----

  /** The sender's address, everything it has sent, the receiver, and the first packet of the image
      that the receiver accepted. */
  datatype System = System(addr: nat, sending: bool, sent: seq<Packet>, r: Receiving, first: Option<Packet>)

  /** The network delivers any packet that was ever sent, in any order, as often as it likes, or never. */
  datatype Event = SendPacket | SenderTimer | NackArrives(addr: nat) | Deliver(k: nat)

  function Step(image: seq<byte>, id: nat, y: System, e: Event): System
    requires Consistent(image, id, y)
  {
    match e
    case SendPacket =>
      if y.sending && y.addr < |image| then
        y.(sent := y.sent + [Data(image, id, y.addr)], addr := AfterSend(|image|, y.addr))
      else y
    case SenderTimer => y.(sending := y.sending && y.addr < |image|)
    case NackArrives(nack) => y.(addr := AfterNack(y.sending, y.addr, nack))
    case Deliver(k) =>
      if k < |y.sent| then
        y.(r := Receive(y.r, y.sent[k]), first := if y.first == None then Some(y.sent[k]) else y.first)
      else y
  }

  /** The bytes of a genuine packet. */
  ghost predicate Genuine(image: seq<byte>, id: nat, p: Packet) {
    p.addr < |image| && p == Data(image, id, p.addr)
  }

  /** What is stored: the data of the first packet that was accepted, then the image. */
  function Expected(image: seq<byte>, first: Packet, addr: nat): seq<byte>
    requires |first.data| <= addr <= |image|
  {
    first.data + image[|first.data|..addr]
  }

  /** The invariant of every run. */
  ghost predicate Consistent(image: seq<byte>, id: nat, y: System) {
    && 0 < |image| < ADDR_LIMIT && MEMORY <= |y.r.store| && y.addr <= |image|
    && (forall k :: 0 <= k < |y.sent| ==> Genuine(image, id, y.sent[k]))
    && (y.first.None? ==> !y.r.active && y.r.id < id && y.r.addr <= |image|)
    && (y.first.Some? ==>
         && Genuine(image, id, y.first.value)
         && y.r.id == id && y.r.len == |image| && |y.first.value.data| <= y.r.addr <= |image|
         && y.r.active == (y.r.addr < |image|) && y.r.finished == (y.r.addr == |image|)
         && y.r.store[..y.r.addr] == Expected(image, y.first.value, y.r.addr))
  }

  lemma TakeKeeps(image: seq<byte>, first: Packet, r: Receiving, p: Packet)
    requires |first.data| <= r.addr < r.len == |image| < ADDR_LIMIT && MEMORY <= |r.store|
      && r.store[..r.addr] == Expected(image, first, r.addr)
    requires p.addr < |image| && p == Data(image, p.id, p.addr)
    ensures var r' := Take(r, p.addr, p.data);
      && r.addr <= r'.addr <= |image| && r'.id == r.id && r'.len == r.len && |r'.store| == |r.store|
      && r'.store[..r'.addr] == Expected(image, first, r'.addr)
      && r'.active == (r'.addr < |image|) && r'.finished == (r'.addr == |image|)
  {
    if p.addr == r.addr {
      var r' := Take(r, p.addr, p.data);
      assert r'.store[..r'.addr] == r.store[..r.addr] + p.data;
      assert image[|first.data|..r'.addr] == image[|first.data|..r.addr] + p.data;
    }
  }

  /** Each step keeps the invariant; once an image is being received, its address never decreases. */
  lemma StepKeeps(image: seq<byte>, id: nat, y: System, e: Event)
    requires Consistent(image, id, y)
    ensures var y' := Step(image, id, y, e);
      && Consistent(image, id, y')
      && (y.first.Some? ==> y'.first == y.first && y'.r.addr >= y.r.addr)
  {
    if e.Deliver? && e.k < |y.sent| {
      var p := y.sent[e.k];
      assert Genuine(image, id, p);
      if y.first.Some? {
        if y.r.active { TakeKeeps(image, y.first.value, y.r, p); }
      } else {
        assert Overwrite(y.r.store, 0, p.data)[..|p.data|] == p.data == Expected(image, p, |p.data|);
      }
    }
  }

  function Run(image: seq<byte>, id: nat, y: System, events: seq<Event>): System
    requires Consistent(image, id, y)
    decreases |events|
  {
    if events == [] then y
    else
      StepKeeps(image, id, y, events[0]);
      Run(image, id, Step(image, id, y, events[0]), events[1..])
  }

  lemma {:induction false} RunKeeps(image: seq<byte>, id: nat, y: System, events: seq<Event>)
    requires Consistent(image, id, y)
    ensures var y' := Run(image, id, y, events);
      && Consistent(image, id, y')
      && (y.first.Some? ==> y'.first == y.first && y'.r.addr >= y.r.addr)
    decreases |events|
  {
    hide Step, Consistent;
    if events != [] {
      StepKeeps(image, id, y, events[0]);
      RunKeeps(image, id, Step(image, id, y, events[0]), events[1..]);
    }
  }

  function Start(image: seq<byte>, r: Receiving): System {
    System(0, true, [], r, None)
  }

  ghost predicate Idle(image: seq<byte>, id: nat, r: Receiving) {
    0 < |image| < ADDR_LIMIT && MEMORY <= |r.store| && !r.active && r.id < id && r.addr <= |image|
  }

  /** In every run, whatever is lost, repeated or reordered: what the receiver has stored of an
      image is the image's start, at every moment, exactly if the first packet that it accepted
      carried the image's first bytes; and when it has finished, it has stored |image| bytes. */
  lemma StoredPrefix(image: seq<byte>, id: nat, r: Receiving, events: seq<Event>)
    requires Idle(image, id, r)
    ensures Consistent(image, id, Start(image, r))
    ensures var y := Run(image, id, Start(image, r), events);
      y.first.Some? ==>
        && y.r.addr <= |image| <= |y.r.store|
        && (y.r.finished <==> y.r.addr == |image|)
        && |y.first.value.data| <= |image|
        && (y.r.store[..y.r.addr] == image[..y.r.addr] <==> y.first.value.data == image[..|y.first.value.data|])
        && (y.first.value.addr == 0 ==> y.r.store[..y.r.addr] == image[..y.r.addr])
  {
    hide Run, Step;
    RunKeeps(image, id, Start(image, r), events);
    var y := Run(image, id, Start(image, r), events);
    if y.first.Some? {
      var data, n := y.first.value.data, |y.first.value.data|;
      assert y.r.store[..y.r.addr] == data + image[n..y.r.addr];
      assert image[..y.r.addr] == image[..n] + image[n..y.r.addr];
      if y.r.store[..y.r.addr] == image[..y.r.addr] {
        assert data == y.r.store[..y.r.addr][..n] == image[..y.r.addr][..n];
      }
    }
  }

  /** A packet from further on makes the receiver ask for what is missing. If that NACK reaches the
      sender while it is still sending, the next packet sent is the missing one, and with it the
      receiver is one packet further. */
  lemma NackRecovers(image: seq<byte>, id: nat, y: System, k: nat)
    requires Consistent(image, id, y) && y.first.Some? && y.r.active && y.sending
    requires k < |y.sent| && y.sent[k].addr > y.r.addr && y.r.addr <= y.addr
    ensures NackFor(y.r, y.sent[k]) == Some(y.r.addr)
    ensures var y1 := Step(image, id, y, NackArrives(y.r.addr));
      Consistent(image, id, y1)
    ensures var y2 := Step(image, id, Step(image, id, y, NackArrives(y.r.addr)), SendPacket);
      Consistent(image, id, y2)
    ensures var y2 := Step(image, id, Step(image, id, y, NackArrives(y.r.addr)), SendPacket);
      Step(image, id, y2, Deliver(|y.sent|)).r.addr == AfterSend(|image|, y.r.addr) > y.r.addr
  {
    assert Genuine(image, id, y.sent[k]);
    StepKeeps(image, id, y, NackArrives(y.r.addr));
    var y1 := Step(image, id, y, NackArrives(y.r.addr));
    StepKeeps(image, id, y1, SendPacket);
    var y2 := Step(image, id, y1, SendPacket);
    assert y2.sent[|y.sent|] == Data(image, id, y.r.addr);
  }

  /** Losing the very first packet corrupts the image: of an image of 64 bytes, the receiver stores
      the second half twice and calls it finished. */
  lemma LostFirstPacket(image: seq<byte>, id: nat, r: Receiving)
    requires Idle(image, id, r) && |image| == 64
    ensures Consistent(image, id, Start(image, r))
    ensures var y := Run(image, id, Start(image, r), [SendPacket, SendPacket, Deliver(1), Deliver(1)]);
      y.r.finished && |y.r.store| >= 64 && y.r.store[..64] == image[32..] + image[32..]
  {
    var y0 := Start(image, r);
    var y1 := Step(image, id, y0, SendPacket);
    StepKeeps(image, id, y0, SendPacket);
    var y2 := Step(image, id, y1, SendPacket);
    StepKeeps(image, id, y1, SendPacket);
    var y3 := Step(image, id, y2, Deliver(1));
    StepKeeps(image, id, y2, Deliver(1));
    var y4 := Step(image, id, y3, Deliver(1));
    StepKeeps(image, id, y3, Deliver(1));
    FourSteps(image, id, y0, SendPacket, SendPacket, Deliver(1), Deliver(1), y1, y2, y3);
    assert y2.sent[1] == Data(image, id, 32) && y3.first == Some(Data(image, id, 32));
    assert y3.r.addr == 32 && y4.r.addr == 64;
    assert Expected(image, Data(image, id, 32), 64) == image[32..] + image[32..];
  }

  lemma FourSteps(image: seq<byte>, id: nat, y: System, a: Event, b: Event, c: Event, d: Event, y1: System,
                  y2: System, y3: System)
    requires Consistent(image, id, y) && Consistent(image, id, y1) && Consistent(image, id, y2)
      && Consistent(image, id, y3)
    requires y1 == Step(image, id, y, a) && y2 == Step(image, id, y1, b) && y3 == Step(image, id, y2, c)
    ensures Run(image, id, y, [a, b, c, d]) == Step(image, id, y3, d)
  {
    hide Step, Consistent;
    StepKeeps(image, id, y3, d);
    assert [a, b, c, d][1..] == [b, c, d] && [b, c, d][1..] == [c, d] && [c, d][1..] == [d] && [d][1..] == [];
    assert Run(image, id, y3, [d]) == Step(image, id, y3, d);
    assert Run(image, id, y2, [c, d]) == Run(image, id, y3, [d]);
    assert Run(image, id, y1, [b, c, d]) == Run(image, id, y2, [c, d]);
  }
}
