/** What single packets of the code propagation do, field by field. */
module CodepropMeaning {
  import opened Basics
  import opened Codeprop

  /** A packet carries the image's length and at most 32 of its bytes, from its address on; the next one
      starts where it ends. */
  lemma PacketMeaning(image: seq<byte>, id: nat, addr: nat, k: nat)
    requires addr <= |image|
    ensures var p, n := Data(image, id, addr), if |image| - addr < 32 then |image| - addr else 32;
      && p.id == id && p.addr == addr && p.len == |image| && |p.data| == n && AfterSend(|image|, addr) == addr + n
      && (k < n ==> p.data[k] == image[addr + k])
  {
  }

  /** A NACK sets the sender back to its address, unless that lies ahead or everything is over. */
  lemma NackMeaning(sending: bool, addr: nat, nack: nat)
    ensures AfterNack(sending, addr, nack) == if sending && nack < addr then nack else addr
  {
  }

  /** While an image is being received, a packet of another one changes nothing and provokes no NACK.
      A packet of the same image is stored exactly if it is the next one; one from further on provokes
      a NACK for the next address, and an old one nothing. */
  lemma ReceiveMeaning(r: Receiving, p: Packet)
    requires r.active && r.addr < r.len && r.addr + |p.data| <= |r.store|
    ensures p.id != r.id ==> Receive(r, p) == r && NackFor(r, p) == None
    ensures p.id == r.id && p.addr != r.addr ==>
      && Receive(r, p) == r.(finished := false)
      && NackFor(r, p) == if p.addr > r.addr then Some(r.addr) else None
    ensures p.id == r.id && p.addr == r.addr ==>
      var r', n := Receive(r, p), r.addr + |p.data|;
      && NackFor(r, p) == None
      && r'.id == r.id && r'.len == r.len && r'.addr == n && r'.active == (n < r.len) && r'.finished == (n >= r.len)
      && |r'.store| == |r.store| && r'.store[..r.addr] == r.store[..r.addr]
      && r'.store[r.addr..n] == p.data && r'.store[n..] == r.store[n..]
  {
  }

  /** While nothing is being received, only a packet with a higher identifier counts. It starts its image
      with its own data, wherever they belong, and provokes a NACK for address 0 if that is not there. */
  lemma FirstPacketMeaning(r: Receiving, p: Packet)
    requires !r.active && r.addr + |p.data| <= |r.store| && |p.data| <= |r.store|
    ensures p.id <= r.id ==> Receive(r, p) == r && NackFor(r, p) == None
    ensures p.id > r.id ==>
      var r', n := Receive(r, p), if p.len == 0 then 0 else |p.data|;
      && NackFor(r, p) == (if p.addr == 0 then None else Some(0))
      && r'.id == p.id && r'.len == p.len && r'.addr == n && r'.active == (n < p.len) && r'.finished == (n >= p.len)
      && |r'.store| == |r.store| && r'.store[..n] == p.data[..n] && r'.store[n..] == r.store[n..]
  {
  }

  /** One event, with everything it does not change. */
  lemma StepMeaning(image: seq<byte>, id: nat, y: System, e: Event)
    requires Consistent(image, id, y)
    ensures var y' := Step(image, id, y, e);
      && (!e.Deliver? ==> y'.r == y.r && y'.first == y.first)
      && (!e.SendPacket? ==> y'.sent == y.sent)
      && (e.SendPacket? ==> y'.sending == y.sending)
      && (e.SendPacket? && y.sending && y.addr < |image| ==>
           y'.sent == y.sent + [Data(image, id, y.addr)] && y'.addr == AfterSend(|image|, y.addr))
      && (e.SendPacket? && !(y.sending && y.addr < |image|) ==> y' == y)
      && (e.SenderTimer? ==> y'.addr == y.addr && (y'.sending <==> y.sending && y.addr < |image|))
      && (e.NackArrives? ==> y'.sending == y.sending)
      && (e.Deliver? ==> y'.addr == y.addr && y'.sending == y.sending && (e.k >= |y.sent| ==> y' == y))
  {
  }
}
