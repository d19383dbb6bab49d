/** Frames on the wire, and forwarding them hop by hop (src/backend/multihop-relay/MultihopRelay.cpp). */
module MultihopRelay {
  import opened PacketHeader
  import opened Fragmentation

  /** The next hop of every destination, as the routing table has it. */
  type Hops = map<int, uint8>

  function Serialize(f: Frame): (packet: Packet)
    ensures |packet| >= 4
  {
    AddHeaderToPayload(f.header, f.payload)
  }

  function Decode(packet: Packet): Frame
    requires |packet| >= 4
  {
    Frame(Parse(packet), packet[4..])
  }

  /** What a receiver decodes of a serialized frame. */
  function Wire(f: Frame): Frame { Frame(OnWire(f.header), f.payload) }

  lemma WireRoundTrip(f: Frame)
    ensures Decode(Serialize(f)) == Wire(f)
  {
    DecodeEncode(f.header, f.payload);
  }

  function Forward(f: Frame, hops: Hops): Frame
    requires f.header.destAddress in hops
  {
    Frame(f.header.(nextHopAddress := hops[f.header.destAddress]), f.payload)
  }

  function PrepareHeaderToForward(packet: Packet, hops: Hops): (forwarded: Packet)
    requires |packet| >= 4 && Parse(packet).destAddress in hops
    ensures |forwarded| == |packet|
  {
    var h := Parse(packet).(nextHopAddress := hops[Parse(packet).destAddress]);
    AddHeaderToPayload(h, packet[4..])
  }

  /** f is g with, at most, another next hop. */
  predicate Relayed(g: Frame, f: Frame) {
    f == Frame(g.header.(nextHopAddress := f.header.nextHopAddress), g.payload)
  }

  lemma HeadersFit(packet: Packet)
    requires |packet| >= 4
    ensures FitsWire(Parse(packet))
  {
    EncodeDecode(packet);
    DecodeEncode(Parse(packet), packet[4..]);
  }

  lemma RewrittenOnWire(h: Header, hop: uint8)
    requires FitsWire(h)
    ensures OnWire(h.(nextHopAddress := hop)) == h.(nextHopAddress := hop % 8)
  {
  }

  /** On the wire, forwarding rewrites the next hop and nothing else, so any number of relays does the same. */
  lemma ForwardingKeepsTheRest(packet: Packet, hops: Hops, g: Frame, f: Frame)
    requires |packet| >= 4 && f == Decode(packet) && Relayed(g, f) && f.header.destAddress in hops
    ensures Relayed(g, Decode(PrepareHeaderToForward(packet, hops)))
    ensures Decode(PrepareHeaderToForward(packet, hops)).header.nextHopAddress == hops[g.header.destAddress] % 8
  {
    HeadersFit(packet);
    var h := f.header;
    RewrittenOnWire(h, hops[h.destAddress]);
    DecodeEncode(h.(nextHopAddress := hops[h.destAddress]), f.payload);
  }
}
