/** What a node hands to its application when all it hears is broadcast traffic. */
module BroadcastDelivery {
  import opened PacketHeader
  import opened Fragmentation
  import opened Reassembly
  import opened StopAndWaitReceiver
  import opened FiniteSets

  /** A node after some traffic: its state, what it delivered, and how many frames it accepted. */
  datatype History = History(receiver: Receiver, delivered: seq<Delivery>, accepted: nat)

  /** A broadcast frame off the wire, as long as its header says. */
  predicate Heard(f: Frame) { FitsWire(f.header) && f.header.destAddress == 0 && Complete(f) }

  /** Its number is one that the reassembler does not cut. */
  predicate Uncut(f: Frame) { f.header.fragmentId < 0x100 }

  function Listen(h: History, f: Frame): History
    requires Heard(f)
  {
    var r := Receive(h.receiver, f, map[]);
    History(r.next, h.delivered + r.delivered, h.accepted + if Id(f) in h.receiver.seen then 0 else 1)
  }

  function ListenAll(h: History, frames: seq<Frame>): History
    requires forall f | f in frames :: Heard(f)
  {
    if frames == [] then h else Listen(ListenAll(h, frames[..|frames| - 1]), frames[|frames| - 1])
  }

  function New(me: uint8): History { History(Receiver(me, {}, map[]), [], 0) }

  function CountOf(delivered: seq<Delivery>, id: uint8): nat {
    if delivered == [] then 0
    else CountOf(delivered[..|delivered| - 1], id) + (if delivered[|delivered| - 1].messageId == id then 1 else 0)
  }

  /**
   Fragments in a buffer were accepted; a message delivered under an id leaves fragment 0 of that id marked as
   seen and out of the buffer.
   */
  ghost predicate OnceInv(h: History, id: uint8) {
    var fs := Buffer(h.receiver.buffers, id);
    && (forall k | 0 <= k < 0x100 && Has(fs.fragments, k) :: (id, k as uint16) in h.receiver.seen)
    && (fs.mfRecv ==> fs.totalFragments >= 1)
    && CountOf(h.delivered, id) <= 1
    && (CountOf(h.delivered, id) == 1 ==> (id, 0 as uint16) in h.receiver.seen && !Has(fs.fragments, 0))
  }

  lemma CountAppend(delivered: seq<Delivery>, more: seq<Delivery>, id: uint8)
    requires |more| <= 1
    ensures CountOf(delivered + more, id)
         == CountOf(delivered, id) + (if more != [] && more[0].messageId == id then 1 else 0)
  {
    if more == [] {
      assert delivered + more == delivered;
    } else {
      assert (delivered + more)[..|delivered|] == delivered;
    }
  }

  lemma Accepted(r0: Receiver, f: Frame, id: uint8, fs: FragmentSet, r: Reaction)
    requires Heard(f) && Uncut(f) && Id(f) !in r0.seen && f.header.messageId == id && r == Receive(r0, f, map[])
    requires fs == Store(Buffer(r0.buffers, id), f.header.fragmentId, f.header.moreFragments != 0, Payload(f))
    ensures r.next.seen == r0.seen + {Id(f)} && |r.delivered| <= 1
    ensures if r.delivered == [] then Buffer(r.next.buffers, id) == fs
                 || (fs.mfRecv && fs.totalFragments == 0 && Buffer(r.next.buffers, id) == EMPTY_SET)
            else Buffer(r.next.buffers, id) == EMPTY_SET && fs.mfRecv && Whole(fs.fragments, fs.totalFragments)
  {
    assert Number(f.header.fragmentId) == f.header.fragmentId;
    if Whole(fs.fragments, fs.totalFragments) && fs.totalFragments > 0 {
      assert Has(fs.fragments, fs.totalFragments - 1);
    }
  }

  lemma AcceptOnce(h: History, h': History, f: Frame, id: uint8, fs: FragmentSet, more: seq<Delivery>)
    requires Heard(f) && Uncut(f) && OnceInv(h, id) && Id(f) !in h.receiver.seen && f.header.messageId == id
    requires fs == Store(Buffer(h.receiver.buffers, id), f.header.fragmentId, f.header.moreFragments != 0, Payload(f))
    requires h'.receiver.seen == h.receiver.seen + {Id(f)} && h'.delivered == h.delivered + more && |more| <= 1
    requires if more == [] then Buffer(h'.receiver.buffers, id) == fs
             else Buffer(h'.receiver.buffers, id) == EMPTY_SET
                  && Whole(fs.fragments, fs.totalFragments) && fs.totalFragments > 0
    ensures OnceInv(h', id)
  {
    CountAppend(h.delivered, more, id);
    forall k | 0 <= k < 0x100 && Has(fs.fragments, k) ensures (id, k as uint16) in h'.receiver.seen {
      if k != f.header.fragmentId { assert Has(Buffer(h.receiver.buffers, id).fragments, k); }
    }
    if more != [] {
      assert Has(fs.fragments, 0);
    }
  }

  lemma ListenOnce(h: History, f: Frame, id: uint8)
    requires Heard(f) && Uncut(f) && OnceInv(h, id)
    ensures OnceInv(Listen(h, f), id)
  {
    var r := Receive(h.receiver, f, map[]);
    if Id(f) !in h.receiver.seen && f.header.messageId == id {
      var fs := Store(Buffer(h.receiver.buffers, id), f.header.fragmentId, f.header.moreFragments != 0, Payload(f));
      Accepted(h.receiver, f, id, fs, r);
      AcceptOnce(h, Listen(h, f), f, id, fs, r.delivered);
    } else {
      CountAppend(h.delivered, r.delivered, id);
    }
  }

  lemma {:induction false} ListenAllOnce(me: uint8, frames: seq<Frame>, id: uint8)
    requires forall f | f in frames :: Heard(f) && Uncut(f)
    ensures OnceInv(ListenAll(New(me), frames), id)
  {
    if frames != [] {
      ListenAllOnce(me, frames[..|frames| - 1], id);
      ListenOnce(ListenAll(New(me), frames[..|frames| - 1]), frames[|frames| - 1], id);
    }
  }

  /**
   Over its whole life a node that hears only broadcasts, with fragment numbers below 256, delivers at most one
   message per message id.
   */
  lemma AtMostOncePerId(me: uint8, frames: seq<Frame>, id: uint8)
    requires forall f | f in frames :: Heard(f) && Uncut(f)
    ensures CountOf(ListenAll(New(me), frames).delivered, id) <= 1
  {
    ListenAllOnce(me, frames, id);
  }

  function Single(number: uint16): Frame { Frame(Header(number, 1, 0, 0, 0, 0, DATA, 1), [42]) }

  lemma SingleDelivers(r: Receiver, f: Frame)
    requires f == Single(f.header.fragmentId) && Number(f.header.fragmentId) == 0 && Heard(f)
    requires Id(f) !in r.seen && 0 !in r.buffers
    ensures var reaction := Receive(r, f, map[]);
      && reaction.delivered == [Delivery(1, [42], true, 0)]
      && reaction.next.seen == r.seen + {Id(f)} && 0 !in reaction.next.buffers
  {
    assert Payload(f) == [42];
    var fs := Store(EMPTY_SET, 0, false, [42]);
    assert Part(fs.fragments, 0) == [42] && 0 in fs.fragments;
    assert Whole(fs.fragments, 1);
    assert Join(fs.fragments, 1) == Join(fs.fragments, 0) + [42] == [42];
  }

  lemma ListenSingle(h: History, f: Frame, h': History)
    requires f == Single(f.header.fragmentId) && Number(f.header.fragmentId) == 0 && Heard(f) && h' == Listen(h, f)
    requires Id(f) !in h.receiver.seen && 0 !in h.receiver.buffers
    ensures h'.receiver.seen == h.receiver.seen + {Id(f)} && 0 !in h'.receiver.buffers
    ensures CountOf(h'.delivered, 0) == CountOf(h.delivered, 0) + 1
  {
    SingleDelivers(h.receiver, f);
    CountAppend(h.delivered, Receive(h.receiver, f, map[]).delivered, 0);
  }

  lemma TwoSingles(h: History, a: Frame, h1: History, b: Frame, h2: History)
    requires a == Single(a.header.fragmentId) && Number(a.header.fragmentId) == 0 && Heard(a) && h1 == Listen(h, a)
    requires b == Single(b.header.fragmentId) && Number(b.header.fragmentId) == 0 && Heard(b) && h2 == Listen(h1, b)
    requires Id(a) != Id(b) && Id(a) !in h.receiver.seen && Id(b) !in h.receiver.seen && 0 !in h.receiver.buffers
    ensures CountOf(h2.delivered, 0) == CountOf(h.delivered, 0) + 2
  {
    ListenSingle(h, a, h1);
    ListenSingle(h1, b, h2);
  }

  lemma ListenTwo(h: History, a: Frame, b: Frame)
    requires Heard(a) && Heard(b)
    ensures ListenAll(h, [a, b]) == Listen(Listen(h, a), b)
  {
    assert [a][..0] == [];
    assert ListenAll(h, [a]) == Listen(h, a);
    assert [a, b][..1] == [a];
  }

  /**
   Two fragment numbers that differ but end in the same eight zeros are two fragments to the flood and one to the
   reassembler: a message of one fragment under each of them is delivered twice under one id.
   */
  lemma CutNumbersDeliverTwice(me: uint8, p: uint16, q: uint16)
    requires p < q < 2048 && Number(p) == Number(q) == 0
    ensures Heard(Single(p)) && Heard(Single(q))
    ensures CountOf(ListenAll(New(me), [Single(p), Single(q)]).delivered, 0) == 2
  {
    var h, a, b := New(me), Single(p), Single(q);
    TwoSingles(h, a, Listen(h, a), b, Listen(Listen(h, a), b));
    ListenTwo(h, a, b);
  }

  /** Broadcast frames with fragment numbers below the limit. */
  predicate NumbersBelow(frames: seq<Frame>, limit: nat) {
    forall f | f in frames :: Heard(f) && f.header.fragmentId < limit
  }

  /**
   Broadcasts with fragment numbers below a limit are delivered at most once per message id, in every run, exactly
   when the limit is at most 256.
   */
  lemma {:induction false} AtMostOnceIff(me: uint8, limit: nat)
    ensures limit <= 0x100
       <==> forall frames, id | NumbersBelow(frames, limit) :: CountOf(ListenAll(New(me), frames).delivered, id) <= 1
  {
    if limit <= 0x100 {
      forall frames, id | NumbersBelow(frames, limit) ensures CountOf(ListenAll(New(me), frames).delivered, id) <= 1 {
        AtMostOncePerId(me, frames, id);
      }
    } else {
      var p: uint16, q: uint16 := 0, 0x100;
      CutNumbersDeliverTwice(me, p, q);
      assert NumbersBelow([Single(p), Single(q)], limit);
    }
  }

  // ----- how much is accepted

  function IdsOf(m: uint8, count: nat): (r: set<(uint8, uint16)>)
    requires count <= 2048
    ensures |r| == count && forall p :: p in r <==> p.0 == m && p.1 < count
  {
    if count == 0 then {} else IdsOf(m, count - 1) + {(m, count - 1)}
  }

  function Pairs(messages: nat): (r: set<(uint8, uint16)>)
    requires messages <= 8
    ensures |r| == messages * 2048 && forall p :: p in r <==> p.0 < messages && p.1 < 2048
  {
    if messages == 0 then {}
    else
      var before, row := Pairs(messages - 1), IdsOf(messages - 1, 2048);
      assert before * row == {};
      before + row
  }

  lemma PairsBound(seen: set<(uint8, uint16)>, messages: nat)
    requires messages <= 8 && forall p | p in seen :: p.0 < messages && p.1 < 2048
    ensures |seen| <= messages * 2048
  {
    SubsetSize(seen, Pairs(messages));
  }

  lemma {:induction false} AcceptedAreSeen(me: uint8, frames: seq<Frame>)
    requires forall f | f in frames :: Heard(f)
    ensures ListenAll(New(me), frames).accepted == |ListenAll(New(me), frames).receiver.seen|
    ensures forall p | p in ListenAll(New(me), frames).receiver.seen :: p.0 < 8 && p.1 < 2048
  {
    if frames != [] {
      AcceptedAreSeen(me, frames[..|frames| - 1]);
      assert Heard(frames[|frames| - 1]);
    }
  }

  /** Every (message, fragment) pair is accepted at most once: 8 * 2048 frames over any run. */
  lemma AcceptedBound(me: uint8, frames: seq<Frame>)
    requires forall f | f in frames :: Heard(f)
    ensures ListenAll(New(me), frames).accepted <= 8 * 2048
  {
    AcceptedAreSeen(me, frames);
    PairsBound(ListenAll(New(me), frames).receiver.seen, 8);
  }
}
