/** A whole message sent as a broadcast: what its sender floods, and what a node makes of it. */
module BroadcastMessage {
  import opened PacketHeader
  import opened Fragmentation
  import opened Reassembly
  import opened MultihopRelay
  import opened StopAndWaitReceiver
  import opened BroadcastDelivery
  import S = StopAndWaitSender

  /** Fragment k of the message, as it is flooded. */
  predicate IsBroadcastOf(f: Frame, m: Message, src: uint8, id: uint8, k: nat) {
    && k < FragmentCount(|m|) <= 0x100
    && f.payload == Chunk(m, k)
    && f.header == Header(k, src, 0, 0, if k + 1 < FragmentCount(|m|) then 1 else 0, id, 1, |Chunk(m, k)|)
  }

  lemma SentBroadcast(m: Message, me: uint8, hop: uint8, id: uint8, k: nat, hops: Hops, g: Frame)
    requires Fits(m) && k < FragmentCount(|m|) && id < 8 && me < 8
    requires S.SentAs(g, FragmentOf(m, me, 0, hop, id, DATA, k), me, hops)
    ensures IsBroadcastOf(Wire(g), m, me, id, k)
  {
    FragmentShape(m, me, 0, hop, id, DATA, k);
  }

  /** Whatever the sender emits of the message is, on the wire, the fragment with the number that the log has. */
  lemma BroadcastIsSent(m: Message, hop: uint8, id: uint8, s: S.Sender, evs: seq<S.SenderEvent>, e: S.Emission,
                        fragments: seq<Frame>)
    requires Fits(m) && id < 8 && s.me < 8 && S.Idle(s) && fragments == FragmentsOf(m, s.me, 0, hop, id, DATA)
    requires e in S.Play(fragments, s, evs).sent && e.Own?
    ensures IsBroadcastOf(Wire(e.frame), m, s.me, id, e.index)
  {
    var i := S.EmissionsFollowTheirRoute(fragments, s, evs, e);
    SentBroadcast(m, s.me, hop, id, e.index, evs[i].hops, e.frame);
  }

  // ----- the receiving node

  /** The deliveries under one message id, in order. */
  function OfId(delivered: seq<Delivery>, id: uint8): seq<Delivery> {
    if delivered == [] then []
    else
      var last := delivered[|delivered| - 1];
      OfId(delivered[..|delivered| - 1], id) + (if last.messageId == id then [last] else [])
  }

  /** The numbers of the fragments with this message id. */
  function Numbers(frames: seq<Frame>, id: uint8): set<int> {
    if frames == [] then {}
    else
      var h := frames[|frames| - 1].header;
      Numbers(frames[..|frames| - 1], id) + (if h.messageId == id then {h.fragmentId as int} else {})
  }

  /** Broadcast traffic in which this id is used for the fragments of m only. */
  ghost predicate Carries(frames: seq<Frame>, m: Message, src: uint8, id: uint8) {
    forall f | f in frames ::
      Heard(f) && (f.header.messageId == id ==> IsBroadcastOf(f, m, src, id, f.header.fragmentId))
  }

  /** The node has seen and buffered nothing under this id. */
  ghost predicate FreshId(r: Receiver, id: uint8) { id !in r.buffers && forall p | p in r.seen :: p.0 != id }

  ghost predicate SeenAre(r: Receiver, id: uint8, got: set<int>) {
    forall k: uint16 :: (id, k) in r.seen <==> k as int in got
  }

  function Message(m: Message, src: uint8, id: uint8): Delivery { Delivery(src, m, true, id) }

  ghost predicate Received(h: History, before: seq<Delivery>, m: Message, src: uint8, id: uint8, got: set<int>) {
    && got <= All(m) && SeenAre(h.receiver, id, got)
    && if got == All(m) then id !in h.receiver.buffers && OfId(h.delivered, id) == before + [Message(m, src, id)]
       else Holds(Buffer(h.receiver.buffers, id), m, got) && OfId(h.delivered, id) == before
  }

  lemma OfIdAppend(delivered: seq<Delivery>, more: seq<Delivery>, id: uint8)
    requires |more| <= 1
    ensures OfId(delivered + more, id)
         == OfId(delivered, id) + (if more != [] && more[0].messageId == id then more else [])
  {
    if more == [] {
      assert delivered + more == delivered;
    } else {
      assert (delivered + more)[..|delivered|] == delivered;
    }
  }

  /** A fragment of m that is new is inserted, and one that completes m delivers it. */
  lemma NewFragment(r: Receiver, f: Frame, m: Message, src: uint8, id: uint8, k: nat, reaction: Reaction)
    requires Heard(f) && IsBroadcastOf(f, m, src, id, k) && Id(f) !in r.seen && reaction == Receive(r, f, map[])
    ensures reaction.next.seen == r.seen + {(id, k as uint16)}
    ensures reaction.next.buffers == InsertChunk(r.buffers, id, m, k).buffers
    ensures var full := InsertChunk(r.buffers, id, m, k).full;
      reaction.delivered == if full == [] then [] else [Delivery(src, full, true, id)]
  {
    assert Payload(f) == f.payload;
  }

  lemma ReceivedNext(h: History, h': History, before: seq<Delivery>, m: Message, src: uint8, id: uint8,
                     got: set<int>, k: nat, more: seq<Delivery>)
    requires Fits(m) && k < FragmentCount(|m|) && k !in got && Received(h, before, m, src, id, got)
    requires h'.receiver.seen == h.receiver.seen + {(id, k as uint16)}
    requires h'.receiver.buffers == InsertChunk(h.receiver.buffers, id, m, k).buffers
    requires var full := InsertChunk(h.receiver.buffers, id, m, k).full;
      more == if full == [] then [] else [Delivery(src, full, true, id)]
    requires h'.delivered == h.delivered + more
    ensures Received(h', before, m, src, id, got + {k as int})
  {
    assert k in All(m);
    InsertRefines(h.receiver.buffers, id, m, got, k);
    OfIdAppend(h.delivered, more, id);
  }

  lemma ListenFragment(h: History, f: Frame, before: seq<Delivery>, m: Message, src: uint8, id: uint8,
                       got: set<int>, k: nat)
    requires Fits(m) && Heard(f) && IsBroadcastOf(f, m, src, id, k) && Received(h, before, m, src, id, got)
    ensures Received(Listen(h, f), before, m, src, id, got + {k as int})
  {
    if k in got {
      SeenFragment(h, f, id, k);
      assert got + {k as int} == got;
    } else {
      var r := Receive(h.receiver, f, map[]);
      NewFragment(h.receiver, f, m, src, id, k, r);
      ReceivedNext(h, Listen(h, f), before, m, src, id, got, k, r.delivered);
    }
  }

  lemma SeenFragment(h: History, f: Frame, id: uint8, k: uint16)
    requires Heard(f) && Id(f) == (id, k) && (id, k) in h.receiver.seen
    ensures Listen(h, f) == h
  {
    assert h.delivered + [] == h.delivered;
  }

  lemma OtherReaction(r: Receiver, f: Frame, id: uint8, reaction: Reaction)
    requires Heard(f) && f.header.messageId != id && reaction == Receive(r, f, map[])
    ensures forall k: uint16 :: (id, k) in reaction.next.seen <==> (id, k) in r.seen
    ensures Buffer(reaction.next.buffers, id) == Buffer(r.buffers, id)
    ensures id in reaction.next.buffers <==> id in r.buffers
    ensures |reaction.delivered| <= 1 && forall d | d in reaction.delivered :: d.messageId != id
  {
  }

  lemma ListenOther(h: History, f: Frame, before: seq<Delivery>, m: Message, src: uint8, id: uint8, got: set<int>)
    requires Heard(f) && f.header.messageId != id && Received(h, before, m, src, id, got)
    ensures Received(Listen(h, f), before, m, src, id, got)
  {
    var r := Receive(h.receiver, f, map[]);
    OtherReaction(h.receiver, f, id, r);
    OfIdAppend(h.delivered, r.delivered, id);
  }

  lemma StartReceived(h: History, m: Message, src: uint8, id: uint8)
    requires Fits(m) && FreshId(h.receiver, id)
    ensures Received(h, OfId(h.delivered, id), m, src, id, {})
  {
    assert 0 in All(m);
  }

  lemma {:induction false} ListenAllReceived(h: History, frames: seq<Frame>, m: Message, src: uint8, id: uint8)
    requires Fits(m) && FreshId(h.receiver, id) && Carries(frames, m, src, id)
    ensures Received(ListenAll(h, frames), OfId(h.delivered, id), m, src, id, Numbers(frames, id))
  {
    if frames == [] {
      StartReceived(h, m, src, id);
    } else {
      var earlier, f := frames[..|frames| - 1], frames[|frames| - 1];
      assert f in frames && forall x | x in earlier :: x in frames;
      ListenAllReceived(h, earlier, m, src, id);
      var now, before, got := ListenAll(h, earlier), OfId(h.delivered, id), Numbers(earlier, id);
      if f.header.messageId == id {
        ListenFragment(now, f, before, m, src, id, got, f.header.fragmentId);
      } else {
        ListenOther(now, f, before, m, src, id, got);
        assert got + {} == got;
      }
    }
  }

  /**
   A node to which the id is new, whatever fragments of the broadcast it hears, in any order, with any repetitions and
   between any other broadcasts: it has delivered the message exactly once if it has heard all fragments, that is, has
   seen all of them, and not at all before.
   */
  lemma {:induction false} BroadcastIsDelivered(h: History, frames: seq<Frame>, m: Message, src: uint8, id: uint8)
    requires Fits(m) && FreshId(h.receiver, id) && Carries(frames, m, src, id)
    ensures var now := ListenAll(h, frames);
      && OfId(now.delivered, id)
         == OfId(h.delivered, id) + (if Numbers(frames, id) == All(m) then [Delivery(src, m, true, id)] else [])
      && (Numbers(frames, id) == All(m) <==> forall k: uint16 | k < FragmentCount(|m|) :: (id, k) in now.receiver.seen)
  {
    ListenAllReceived(h, frames, m, src, id);
    var now, got := ListenAll(h, frames), Numbers(frames, id);
    if forall k: uint16 | k < FragmentCount(|m|) :: (id, k) in now.receiver.seen {
      forall k | k in All(m) ensures k in got { assert (id, k as uint16) in now.receiver.seen; }
    }
  }
}
