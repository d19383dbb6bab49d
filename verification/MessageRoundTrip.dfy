/** A message through the fragmenter, the header codec and the reassembler, byte by byte. */
module MessageRoundTrip {
  import opened PacketHeader
  import opened Fragmentation
  import opened Reassembly
  import opened MultihopRelay
  import opened StopAndWaitReceiver

  /** The frame is fragment i of m, as the reassembler sees it. */
  predicate IsPart(f: Frame, m: Message, id: uint8, i: nat)
    requires i < FragmentCount(|m|)
  {
    && f.header.messageId == id && Number(f.header.fragmentId) == Number(i) && f.payload == Chunk(m, i)
    && (f.header.moreFragments != 0 <==> i + 1 < FragmentCount(|m|))
  }

  lemma NumberOnTheWire(i: nat)
    ensures Number(i % 0x1_0000 % 2048) == Number(i)
  {
  }

  lemma FragmentIsPart(m: Message, src: uint8, dst: uint8, hop: uint8, id: uint8, kind: uint8, i: nat)
    requires id < 8 && i < FragmentCount(|m|)
    ensures var f := FragmentOf(m, src, dst, hop, id, kind, i);
      && IsPart(Wire(f), m, id, i)
      && (Wire(f) == f <==> i % 0x1_0000 < 2048 && src < 8 && dst < 8 && hop < 8 && kind < 8)
  {
    FragmentShape(m, src, dst, hop, id, kind, i);
    NumberOnTheWire(i);
  }

  /** Every fragment decodes to a fragment of its message; to itself exactly when all its fields fit the header. */
  lemma {:induction false} FragmentOnTheWire(m: Message, src: uint8, dst: uint8, hop: uint8, id: uint8, kind: uint8,
                                             i: nat)
    requires id < 8 && i < FragmentCount(|m|)
    ensures var f := FragmentOf(m, src, dst, hop, id, kind, i);
      && Decode(Serialize(f)) == Wire(f)
      && IsPart(Wire(f), m, id, i)
      && (Wire(f) == f <==> i % 0x1_0000 < 2048 && src < 8 && dst < 8 && hop < 8 && kind < 8)
  {
    FragmentIsPart(m, src, dst, hop, id, kind, i);
    WireRoundTrip(FragmentOf(m, src, dst, hop, id, kind, i));
  }

  /** What the reassembler makes of a frame: its number is cut to 8 bits. */
  function InsertFrame(b: Buffers, f: Frame): Insertion {
    Insert(b, f.header.messageId, Number(f.header.fragmentId), f.header.moreFragments != 0, f.payload)
  }

  /** Inserts frames one after another; the result is that of the last. */
  function InsertAll(b: Buffers, frames: seq<Frame>): Insertion {
    if frames == [] then Insertion(b, [])
    else InsertFrame(InsertAll(b, frames[..|frames| - 1]).buffers, frames[|frames| - 1])
  }

  lemma {:induction false} InsertAllInOrder(b: Buffers, m: Message, frames: seq<Frame>, id: uint8)
    requires |frames| <= FragmentCount(|m|)
    requires forall i | 0 <= i < |frames| :: IsPart(frames[i], m, id, i)
    ensures InsertAll(b, frames) == InOrder(b, id, m, |frames|)
  {
    if frames != [] {
      InsertAllInOrder(b, m, frames[..|frames| - 1], id);
      assert IsPart(frames[|frames| - 1], m, id, |frames| - 1);
    }
  }

  function DecodeAll(packets: seq<Packet>): seq<Frame>
    requires forall i | 0 <= i < |packets| :: |packets[i]| >= 4
  {
    seq(|packets|, i requires 0 <= i < |packets| => Decode(packets[i]))
  }

  /**
   Fragment, serialize, parse and reassemble is the identity on a non-empty message exactly when it has at most
   7168 bytes; and no buffer is left behind in any case.
   */
  lemma {:induction false} RoundTrip(b: Buffers, m: Message, src: uint8, dst: uint8, hop: uint8, id: uint8, kind: uint8)
    requires m != [] && id < 8 && id !in b
    ensures var r := InsertAll(b, DecodeAll(SerializeAll(FragmentsOf(m, src, dst, hop, id, kind))));
      && r.buffers == b
      && (r.full == m <==> |m| <= MAX_MESSAGE_SIZE)
  {
    var n, frames := FragmentCount(|m|), DecodeAll(SerializeAll(FragmentsOf(m, src, dst, hop, id, kind)));
    forall i | 0 <= i < n ensures IsPart(frames[i], m, id, i) {
      FragmentOnTheWire(m, src, dst, hop, id, kind, i);
    }
    InsertAllInOrder(b, m, frames, id);
    InOrderDelivery(b, id, m, n);
  }
}
