/** Cutting a message into fragments (src/backend/fragmentation/Fragmenter.cpp). */
module Fragmentation {
  import opened PacketHeader

  const MAX_PAYLOAD_SIZE: nat := 28 // a packet of 32 bytes without its header

  /** The largest message whose fragment numbers fit the 8 bits that the reassembler takes: 256 chunks. */
  const MAX_MESSAGE_SIZE: nat := 7168

  // The solver is slow with products by a named constant, so the factor 28 is written out.

  type Message = seq<Byte>

  datatype Frame = Frame(header: Header, payload: seq<Byte>)

  function FragmentCount(size: nat): nat { (size + 27) / 28 }

  /** The i-th chunk of a message: 28 bytes, or what is left for the last one. */
  function Chunk(m: Message, i: nat): seq<Byte>
    requires i < FragmentCount(|m|)
  {
    if i * 28 + 28 <= |m| then m[i * 28..i * 28 + 28] else m[i * 28..]
  }

  function FragmentOf(m: Message, src: uint8, dst: uint8, hop: uint8, id: uint8, kind: uint8, i: nat): Frame
    requires i < FragmentCount(|m|)
  {
    Frame(Header(i % 0x1_0000, src, hop, dst, if i < FragmentCount(|m|) - 1 then 1 else 0, id, kind, |Chunk(m, i)|),
             Chunk(m, i))
  }

  function FragmentsOf(m: Message, src: uint8, dst: uint8, hop: uint8, id: uint8, kind: uint8): seq<Frame> {
    seq(FragmentCount(|m|), i requires 0 <= i < FragmentCount(|m|) => FragmentOf(m, src, dst, hop, id, kind, i))
  }

  method FragmentMessage(message: Message, src: uint8, dst: uint8, nextHop: uint8, msgId: uint8, kind: uint8)
    returns (fragments: seq<Frame>)
    ensures fragments == FragmentsOf(message, src, dst, nextHop, msgId, kind)
  {
    fragments := [];
    var totalFragments := (|message| + 27) / 28;
    var i := 0;
    while i < totalFragments
      invariant 0 <= i <= totalFragments
      invariant fragments == FragmentsOf(message, src, dst, nextHop, msgId, kind)[..i]
    {
      var start := i * 28;
      var end := if start + MAX_PAYLOAD_SIZE < |message| then start + MAX_PAYLOAD_SIZE else |message|;
      var chunk := message[start..end];
      assert chunk == Chunk(message, i);
      var h := Header(i % 0x1_0000, src, nextHop, dst, if i < totalFragments - 1 then 1 else 0, msgId, kind, |chunk|);
      fragments := fragments + [Frame(h, chunk)];
      i := i + 1;
    }
  }

  /** Every fragment carries between 1 and 28 bytes and all its addresses; only the last says that no more follow. */
  lemma FragmentShape(m: Message, src: uint8, dst: uint8, hop: uint8, id: uint8, kind: uint8, i: nat)
    requires i < FragmentCount(|m|)
    ensures var f := FragmentOf(m, src, dst, hop, id, kind, i);
      && 1 <= |f.payload| <= 28 && f.header.payloadLength == |f.payload|
      && (f.header.moreFragments == 0 <==> i == FragmentCount(|m|) - 1) && f.header.moreFragments <= 1
      && f.header.sourceAddress == src && f.header.destAddress == dst && f.header.nextHopAddress == hop
      && f.header.messageId == id && f.header.payloadType == kind && f.header.fragmentId == i % 0x1_0000
  {
  }

  /** The chunks from `lo` up to `hi`, joined. */
  function Chunks(m: Message, lo: nat, hi: nat): seq<Byte>
    requires lo <= hi <= FragmentCount(|m|)
  {
    if lo == hi then [] else Chunks(m, lo, hi - 1) + Chunk(m, hi - 1)
  }

  lemma CountBounds(size: nat, i: nat)
    ensures i < FragmentCount(size) <==> i * 28 < size
  {
  }

  function Offset(m: Message, i: nat): nat { if i * 28 <= |m| then i * 28 else |m| }

  /** Consecutive chunks join to a slice of the message. */
  lemma {:induction false} ChunksAreASlice(m: Message, lo: nat, hi: nat)
    requires lo <= hi <= FragmentCount(|m|)
    ensures Offset(m, lo) <= Offset(m, hi) && Chunks(m, lo, hi) == m[Offset(m, lo)..Offset(m, hi)]
    decreases hi
  {
    if lo < hi {
      ChunksAreASlice(m, lo, hi - 1);
      CountBounds(|m|, hi - 1);
      assert Chunk(m, hi - 1) == m[Offset(m, hi - 1)..Offset(m, hi)];
    }
  }

  lemma SliceToTheEnd(m: Message, from: nat)
    requires from <= |m|
    ensures m[from..|m|] == m[from..]
    ensures m[from..] == m <==> from == 0
  {
    assert |m[from..]| == |m| - from;
  }

  /** All chunks from `lo` on join to the rest of the message, so all chunks join to the message. */
  lemma {:induction false} ChunksToTheEnd(m: Message, lo: nat)
    requires lo < FragmentCount(|m|)
    ensures lo * 28 <= |m|
    ensures Chunks(m, lo, FragmentCount(|m|)) == m[lo * 28..]
    ensures Chunks(m, lo, FragmentCount(|m|)) == m <==> lo == 0
  {
    CountBounds(|m|, lo);
    CountBounds(|m|, FragmentCount(|m|));
    ChunksAreASlice(m, lo, FragmentCount(|m|));
    SliceToTheEnd(m, lo * 28);
  }
}
