/**
 The receiving side of the transport (src/backend/transport/StopAndWaitReceiver.cpp): it floods broadcasts,
 forwards, ignores or acknowledges, and hands whole messages to the application.
 */
module StopAndWaitReceiver {
  import opened PacketHeader
  import opened Fragmentation
  import opened Reassembly
  import opened MultihopRelay

  const MAX_BCAST_TRIES: nat := 5

  /** A message handed to the application, with the id that its fragments carried. */
  datatype Delivery = Delivery(from: uint8, message: Message, broadcast: bool, messageId: uint8)

  datatype Receiver = Receiver(me: uint8, seen: set<(uint8, uint16)>, buffers: Buffers)

  /** What one packet does: the next state, the frames sent, the messages handed over. */
  datatype Reaction = Reaction(next: Receiver, sent: seq<Frame>, delivered: seq<Delivery>)

  function BroadcastCopy(f: Frame): Frame {
    Frame(f.header.(nextHopAddress := 0, payloadLength := |f.payload| % 0x100), f.payload)
  }

  /** A burst: the same frame, sent four times. */
  function Burst(f: Frame): seq<Frame> { seq(MAX_BCAST_TRIES - 1, i => BroadcastCopy(f)) }

  function AckFor(me: uint8, h: Header, hop: uint8): Frame {
    Frame(Header(h.fragmentId, me, hop, h.sourceAddress, 0, h.messageId, ACK, 0), [])
  }

  function SendAck(me: uint8, h: Header, hops: Hops): seq<Frame> {
    if h.sourceAddress in hops then [AckFor(me, h, hops[h.sourceAddress])] else []
  }

  /** The packet is as long as its header says. */
  predicate Complete(f: Frame) { f.header.payloadLength <= |f.payload| }

  function Payload(f: Frame): seq<Byte>
    requires Complete(f)
  {
    f.payload[..f.header.payloadLength]
  }

  /** What a node remembers of a broadcast fragment. */
  function Id(f: Frame): (uint8, uint16) { (f.header.messageId, f.header.fragmentId) }

  function Accept(r: Receiver, f: Frame, sent: seq<Frame>): Reaction
    requires Complete(f)
  {
    var h := f.header;
    var ins := Insert(r.buffers, h.messageId, Number(h.fragmentId), h.moreFragments != 0, Payload(f));
    Reaction(r.(buffers := ins.buffers), sent,
             if ins.full == [] then [] else [Delivery(h.sourceAddress, ins.full, h.destAddress == 0, h.messageId)])
  }

  predicate MustForward(r: Receiver, h: Header) {
    h.destAddress != 0 && h.nextHopAddress == r.me && h.destAddress != r.me
  }

  function Receive(r: Receiver, f: Frame, hops: Hops): Reaction
    requires Complete(f) && (MustForward(r, f.header) ==> f.header.destAddress in hops)
  {
    var h := f.header;
    if h.destAddress == 0 then
      if Id(f) in r.seen then Reaction(r, [], [])
      else Accept(r.(seen := r.seen + {Id(f)}), f, Burst(Frame(h, Payload(f))))
    else if MustForward(r, h) then Reaction(r, [Forward(f, hops)], [])
    else if h.nextHopAddress != r.me && h.destAddress != r.me then Reaction(r, [], [])
    else Accept(r, f, SendAck(r.me, h, hops))
  }

  /** An acknowledgement of a frame with this header, sent by `me` to the neighbour `hop`. */
  predicate IsAckOf(g: Frame, h: Header, me: uint8, hop: uint8) {
    g == Frame(Header(h.fragmentId, me, hop, h.sourceAddress, 0, h.messageId, 2, 0), [])
  }

  /**
   Who gets what: a frame for this node, and a broadcast fragment that is new, is inserted under its ids as far as
   its header says it is long, and what becomes whole is delivered; a frame for this node is answered by one
   acknowledgement to its sender, if there is a route to it, and by nothing else; a new broadcast fragment is
   remembered and passed to all, as it is, four times; a frame to be passed on is passed on with a new next hop;
   nothing else has any effect.
   */
  lemma Disposition(r: Receiver, f: Frame, hops: Hops)
    requires Complete(f) && (MustForward(r, f.header) ==> f.header.destAddress in hops) && r.me != 0
    ensures var h, reaction, payload := f.header, Receive(r, f, hops), f.payload[..f.header.payloadLength];
            var ins := Insert(r.buffers, h.messageId, h.fragmentId % 0x100, h.moreFragments != 0, payload);
            var whole := if ins.full == [] then []
                         else [Delivery(h.sourceAddress, ins.full, h.destAddress == 0, h.messageId)];
      if h.destAddress == 0 then
        if (h.messageId, h.fragmentId) in r.seen then reaction == Reaction(r, [], [])
        else
          && reaction.next == Receiver(r.me, r.seen + {(h.messageId, h.fragmentId)}, ins.buffers)
          && reaction.delivered == whole && |reaction.sent| == 4
          && forall g | g in reaction.sent ::
               g == Frame(h.(nextHopAddress := 0), payload)
      else if h.destAddress == r.me then
        && reaction.next == r.(buffers := ins.buffers) && reaction.delivered == whole
        && (h.sourceAddress in hops ==>
              |reaction.sent| == 1 && IsAckOf(reaction.sent[0], h, r.me, hops[h.sourceAddress]))
        && (h.sourceAddress !in hops ==> reaction.sent == [])
      else if h.nextHopAddress == r.me then
        reaction == Reaction(r, [Frame(h.(nextHopAddress := hops[h.destAddress]), f.payload)], [])
      else reaction == Reaction(r, [], [])
  {
  }

  function SerializeAll(fs: seq<Frame>): seq<Packet> { seq(|fs|, i requires 0 <= i < |fs| => Serialize(fs[i])) }

  class StopAndWaitReceiver {
    const me: uint8
    var seenBroadcasts: set<(uint8, uint16)>
    const reassembler: Reassembler
    // The calls of the send function and of the message callback.
    var sent: seq<Packet>
    var delivered: seq<Delivery>

    constructor (me: uint8)
      ensures State() == Receiver(me, {}, map[]) && sent == [] && delivered == [] && fresh(reassembler)
    {
      this.me := me;
      seenBroadcasts := {};
      reassembler := new Reassembler();
      sent, delivered := [], [];
    }

    ghost function State(): Receiver
      reads this, reassembler
    {
      Receiver(me, seenBroadcasts, reassembler.buffers)
    }

    method OnPacketReceived(packet: Packet, hops: Hops)
      requires |packet| >= 4 ==>
        Complete(Decode(packet)) && (MustForward(State(), Parse(packet)) ==> Parse(packet).destAddress in hops)
      modifies this, reassembler
      ensures |packet| < 4 ==> State() == old(State()) && sent == old(sent) && delivered == old(delivered)
      ensures |packet| >= 4 ==>
        var reaction := Receive(old(State()), Decode(packet), hops);
        && State() == reaction.next
        && sent == old(sent) + SerializeAll(reaction.sent)
        && delivered == old(delivered) + reaction.delivered
    {
      if |packet| < 4 {
        return;
      }
      var header := Parse(packet);
      var isBroadcast := header.destAddress == 0;
      var payload := packet[4..header.payloadLength + 4];
      assert payload == Payload(Decode(packet));
      if isBroadcast {
        var id := (header.messageId, header.fragmentId);
        if id in seenBroadcasts {
          return;
        }
        seenBroadcasts := seenBroadcasts + {id};
        SendBroadcast(header, payload);
      }
      if header.nextHopAddress == me && !isBroadcast && header.destAddress != me {
        sent := sent + [PrepareHeaderToForward(packet, hops)];
        return;
      }
      if !isBroadcast && header.nextHopAddress != me && header.destAddress != me {
        return;
      }
      if !isBroadcast {
        SendAckPacket(header.messageId, header.fragmentId, header.sourceAddress, hops);
      }
      var full := reassembler.InsertFragment(header.messageId, Number(header.fragmentId), header.moreFragments != 0,
                                             payload);
      if full != [] {
        delivered := delivered + [Delivery(header.sourceAddress, full, isBroadcast, header.messageId)];
      }
    }

    method SendAckPacket(msgId: uint8, fragId: uint16, dest: uint8, hops: Hops)
      modifies this`sent
      ensures forall h: Header | h.messageId == msgId && h.fragmentId == fragId && h.sourceAddress == dest ::
                sent == old(sent) + SerializeAll(SendAck(me, h, hops))
    {
      if dest in hops {
        var ack := Header(fragId, me, hops[dest], dest, 0, msgId, ACK, 0);
        sent := sent + [BuildHeader(ack)];
        assert BuildHeader(ack) + [] == BuildHeader(ack);
      }
    }

    method SendBroadcast(header: Header, payload: seq<Byte>)
      modifies this`sent
      ensures sent == old(sent) + SerializeAll(Burst(Frame(header, payload)))
    {
      var tries := 1;
      ghost var burst := SerializeAll(Burst(Frame(header, payload)));
      while tries < MAX_BCAST_TRIES
        invariant 1 <= tries <= MAX_BCAST_TRIES && sent == old(sent) + burst[..tries - 1]
      {
        var h := header.(nextHopAddress := 0, payloadLength := |payload| % 0x100);
        sent := sent + [AddHeaderToPayload(h, payload)];
        tries := tries + 1;
      }
    }
  }
}
