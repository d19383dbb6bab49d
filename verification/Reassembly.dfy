/** Buffering fragments until a message is whole (src/backend/fragmentation/Reassembler.cpp). */
module Reassembly {
  import opened PacketHeader
  import opened Fragmentation

  datatype FragmentSet = FragmentSet(fragments: FragmentMap, isComplete: bool, totalFragments: nat, mfRecv: bool)

  type Buffers = map<uint8, FragmentSet>

  const EMPTY_SET := FragmentSet(map[], false, 0, false)

  function Buffer(b: Buffers, id: uint8): FragmentSet { if id in b then b[id] else EMPTY_SET }

  type FragmentMap = map<int, seq<Byte>>

  function Part(fragments: FragmentMap, i: int): seq<Byte> { if i in fragments then fragments[i] else [] }

  predicate Has(fragments: FragmentMap, i: int) { Part(fragments, i) != [] }

  /** Every fragment below the total has arrived with a payload. */
  predicate Whole(fragments: FragmentMap, total: nat) { forall i | 0 <= i < total :: Has(fragments, i) }

  function Join(fragments: FragmentMap, count: nat): seq<Byte>
    requires Whole(fragments, count)
  {
    if count == 0 then []
    else
      assert Has(fragments, count - 1);
      Join(fragments, count - 1) + fragments[count - 1]
  }

  /** Printing the buffer creates an empty entry for every id below `bound` that it lacks. */
  function Looked(fragments: FragmentMap, bound: nat): (r: FragmentMap)
    ensures forall i | i in fragments :: i in r && r[i] == fragments[i]
    ensures forall i :: Part(r, i) == Part(fragments, i)
  {
    if bound == 0 then fragments
    else
      var r := Looked(fragments, bound - 1);
      if bound - 1 in r then r else r[bound - 1 := []]
  }

  function Store(fs: FragmentSet, f: uint8, moreFragments: bool, payload: seq<Byte>): (fs': FragmentSet)
    ensures forall i :: Part(fs'.fragments, i) == if i == f then payload else Part(fs.fragments, i)
  {
    var fragments := Looked(fs.fragments[f := payload], f + 1);
    assert forall i :: Part(fragments, i) == Part(fs.fragments[f := payload], i);
    var total := if moreFragments then fs.totalFragments else f + 1;
    FragmentSet(fragments, Whole(fragments, total), total, fs.mfRecv || !moreFragments)
  }

  datatype Insertion = Insertion(buffers: Buffers, full: seq<Byte>)

  function Insert(b: Buffers, id: uint8, f: uint8, moreFragments: bool, payload: seq<Byte>): Insertion {
    var fs := Store(Buffer(b, id), f, moreFragments, payload);
    if fs.isComplete && fs.mfRecv then Insertion(b - {id}, Join(fs.fragments, fs.totalFragments))
    else Insertion(b[id := fs], [])
  }

  class Reassembler {
    var buffers: Buffers

    constructor ()
      ensures buffers == map[]
    {
      buffers := map[];
    }

    method InsertFragment(msgId: uint8, fragmentId: uint8, moreFragments: bool, payload: seq<Byte>)
      returns (full: seq<Byte>)
      modifies this
      ensures Insertion(buffers, full) == Insert(old(buffers), msgId, fragmentId, moreFragments, payload)
    {
      var fs := Buffer(buffers, msgId);
      fs := fs.(fragments := fs.fragments[fragmentId := payload]);
      ghost var stored := fs.fragments;
      var i := 0;
      while i <= fragmentId
        invariant 0 <= i <= fragmentId + 1
        invariant fs == Buffer(buffers, msgId).(fragments := Looked(stored, i))
      {
        if i !in fs.fragments {
          fs := fs.(fragments := fs.fragments[i := []]);
        }
        i := i + 1;
      }
      if !moreFragments {
        fs := fs.(totalFragments := fragmentId + 1, mfRecv := true);
      }
      var complete := CheckComplete(fs.fragments, fs.totalFragments);
      fs := fs.(isComplete := complete);
      full := [];
      if fs.isComplete && fs.mfRecv {
        full := JoinAll(fs.fragments, fs.totalFragments);
        buffers := buffers - {msgId};
      } else {
        buffers := buffers[msgId := fs];
      }
    }
  }

  /** The completeness loop of `insertFragment`. */
  method CheckComplete(fragments: FragmentMap, total: nat) returns (complete: bool)
    ensures complete == Whole(fragments, total)
  {
    complete := true;
    var i := 0;
    while i < total
      invariant 0 <= i <= total && complete == Whole(fragments, i)
    {
      if i in fragments {
        complete := complete && fragments[i] != [];
      } else {
        complete := false;
      }
      assert complete == (Whole(fragments, i) && Has(fragments, i));
      i := i + 1;
    }
  }

  /** The joining loops of `insertFragment`. */
  method JoinAll(fragments: FragmentMap, total: nat) returns (full: seq<Byte>)
    requires Whole(fragments, total)
    ensures full == Join(fragments, total)
  {
    full := [];
    var i := 0;
    while i < total
      invariant 0 <= i <= total && full == Join(fragments, i)
    {
      assert Has(fragments, i);
      var j := 0;
      while j < |fragments[i]|
        invariant 0 <= j <= |fragments[i]| && full == Join(fragments, i) + fragments[i][..j]
      {
        full := full + [fragments[i][j]];
        j := j + 1;
      }
      i := i + 1;
    }
  }

  // ----- one insertion, into any buffer

  lemma {:induction false} LookedKeys(fragments: FragmentMap, bound: nat)
    ensures forall i :: i in Looked(fragments, bound) <==> i in fragments || 0 <= i < bound
  {
    if bound > 0 { LookedKeys(fragments, bound - 1); }
  }

  lemma {:induction false} JoinSame(x: FragmentMap, y: FragmentMap, count: nat)
    requires Whole(x, count) && forall i :: Part(x, i) == Part(y, i)
    ensures Whole(y, count) && Join(x, count) == Join(y, count)
  {
    forall i | 0 <= i < count ensures Has(y, i) {
      assert Has(x, i) && Part(x, i) == Part(y, i);
    }
    if count > 0 {
      JoinSame(x, y, count - 1);
      assert Has(x, count - 1) && Part(x, count - 1) == Part(y, count - 1);
    }
  }

  lemma StoreKeys(fs: FragmentSet, f: uint8, more: bool, payload: seq<Byte>)
    ensures forall i :: i in Store(fs, f, more, payload).fragments <==> i in fs.fragments || 0 <= i <= f
  {
    LookedKeys(fs.fragments[f := payload], f + 1);
  }

  /**
   What an insertion does to any buffer: the payload replaces the part with its number, every number up to it gets
   an entry, a last fragment sets the total; if the total is known and all parts below it have bytes, they are
   delivered in order and the buffer is gone. Other messages' buffers are left alone.
   */
  lemma InsertOnAnyBuffer(b: Buffers, id: uint8, f: uint8, more: bool, payload: seq<Byte>,
                          parts: FragmentMap, total: nat)
    requires parts == Buffer(b, id).fragments[f := payload]
    requires total == if more then Buffer(b, id).totalFragments else f + 1
    ensures var r, was := Insert(b, id, f, more, payload), Buffer(b, id);
      && r.buffers - {id} == b - {id}
      && if (was.mfRecv || !more) && Whole(parts, total) then r.full == Join(parts, total) && id !in r.buffers
         else r.full == [] && id in r.buffers
              && r.buffers[id].totalFragments == total && r.buffers[id].mfRecv == (was.mfRecv || !more)
              && r.buffers[id].isComplete == Whole(parts, total)
              && (forall i :: Part(r.buffers[id].fragments, i) == Part(parts, i))
              && (forall i :: i in r.buffers[id].fragments <==> i in was.fragments || 0 <= i <= f)
  {
    var fs := Store(Buffer(b, id), f, more, payload);
    StoreKeys(Buffer(b, id), f, more, payload);
    assert forall i :: Part(fs.fragments, i) == Part(parts, i);
    assert Whole(fs.fragments, total) <==> Whole(parts, total) by {
      assert forall i :: Has(fs.fragments, i) <==> Has(parts, i);
    }
    if Whole(parts, total) { JoinSame(fs.fragments, parts, total); }
  }

  // ----- one message: the buffer refines the set of fragment numbers received

  /** The reassembler takes fragment ids of 8 bits, so a message it can rebuild has at most 256 fragments. */
  predicate Fits(m: Message) { 1 <= FragmentCount(|m|) <= 0x100 }

  function Below(n: nat): (r: set<int>)
    ensures forall i :: i in r <==> 0 <= i < n
  {
    if n == 0 then {} else Below(n - 1) + {n - 1}
  }

  function All(m: Message): set<int> { Below(FragmentCount(|m|)) }

  /** The buffer holds exactly the fragments `got` of m, and knows the total once the last one is among them. */
  ghost predicate Holds(fs: FragmentSet, m: Message, got: set<int>)
    requires got <= All(m)
  {
    && (forall i :: Has(fs.fragments, i) <==> i in got)
    && (forall i | i in got :: Part(fs.fragments, i) == Chunk(m, i))
    && (fs.mfRecv <==> FragmentCount(|m|) - 1 in got)
    && fs.totalFragments == if FragmentCount(|m|) - 1 in got then FragmentCount(|m|) else 0
  }

  function InsertChunk(b: Buffers, id: uint8, m: Message, i: nat): Insertion
    requires Fits(m) && i < FragmentCount(|m|)
  {
    Insert(b, id, i, i < FragmentCount(|m|) - 1, Chunk(m, i))
  }

  lemma {:induction false} JoinIsChunks(fragments: FragmentMap, m: Message, count: nat)
    requires count <= FragmentCount(|m|)
    requires forall i | 0 <= i < count :: Has(fragments, i) && Part(fragments, i) == Chunk(m, i)
    ensures Join(fragments, count) == Chunks(m, 0, count)
  {
    if count > 0 { JoinIsChunks(fragments, m, count - 1); }
  }

  lemma StoreHolds(fs: FragmentSet, m: Message, got: set<int>, i: nat)
    requires Fits(m) && got <= All(m) && i < FragmentCount(|m|) && Holds(fs, m, got)
    ensures var fs' := Store(fs, i, i < FragmentCount(|m|) - 1, Chunk(m, i));
      Holds(fs', m, got + {i}) && (fs'.isComplete <==> Whole(fs'.fragments, fs'.totalFragments))
  {
    assert Chunk(m, i) != [];
  }

  /** A buffer that knows the total is complete exactly when it holds all fragments. */
  lemma CompleteIsAll(fs: FragmentSet, m: Message, got: set<int>)
    requires Fits(m) && got <= All(m) && Holds(fs, m, got)
    ensures fs.mfRecv && Whole(fs.fragments, fs.totalFragments) <==> got == All(m)
  {
    if fs.mfRecv && Whole(fs.fragments, fs.totalFragments) {
      forall k | k in All(m) ensures k in got { assert Has(fs.fragments, k); }
    }
    assert FragmentCount(|m|) - 1 in All(m);
  }

  lemma JoinAllHeld(fs: FragmentSet, m: Message)
    requires Fits(m) && Holds(fs, m, All(m))
    ensures Whole(fs.fragments, fs.totalFragments) && Join(fs.fragments, fs.totalFragments) == m
  {
    CompleteIsAll(fs, m, All(m));
    assert FragmentCount(|m|) - 1 in All(m);
    JoinIsChunks(fs.fragments, m, FragmentCount(|m|));
    ChunksToTheEnd(m, 0);
  }

  /**
   The message is delivered at exactly the arrival that completes the set, byte for byte, and the buffer is
   then gone; every other arrival delivers nothing and adds its number to the set.
   */
  lemma InsertRefines(b: Buffers, id: uint8, m: Message, got: set<int>, i: nat)
    requires Fits(m) && got < All(m) && i < FragmentCount(|m|) && Holds(Buffer(b, id), m, got)
    ensures var r, got' := InsertChunk(b, id, m, i), got + {i};
      if got' == All(m) then r.full == m && r.buffers == b - {id}
      else r.full == [] && r.buffers == b[id := Buffer(r.buffers, id)] && Holds(Buffer(r.buffers, id), m, got')
  {
    var fs := Store(Buffer(b, id), i, i < FragmentCount(|m|) - 1, Chunk(m, i));
    StoreHolds(Buffer(b, id), m, got, i);
    CompleteIsAll(fs, m, got + {i});
    if got + {i} == All(m) { JoinAllHeld(fs, m); }
  }

  // ----- many messages, any order, any duplication, any loss

  datatype Arrival = Arrival(id: uint8, fragment: nat)

  type Messages = map<uint8, Message>

  ghost predicate Genuine(msgs: Messages, arrivals: seq<Arrival>) {
    forall a | a in arrivals :: a.id in msgs && Fits(msgs[a.id]) && a.fragment < FragmentCount(|msgs[a.id]|)
  }

  function After(b: Buffers, msgs: Messages, arrivals: seq<Arrival>): Buffers
    requires Genuine(msgs, arrivals)
  {
    if arrivals == [] then b
    else
      var a := arrivals[|arrivals| - 1];
      assert a in arrivals && Genuine(msgs, arrivals[..|arrivals| - 1]);
      InsertChunk(After(b, msgs, arrivals[..|arrivals| - 1]), a.id, msgs[a.id], a.fragment).buffers
  }

  /** The fragments of m held after one more arrival, of any message. */
  function GotNext(m: Message, id: uint8, got: set<int>, a: Arrival): set<int> {
    if a.id != id then got else if got + {a.fragment} == All(m) then {} else got + {a.fragment}
  }

  /** The numbers of a message's fragments received since it was last delivered. */
  function Got(m: Message, id: uint8, arrivals: seq<Arrival>): set<int> {
    if arrivals == [] then {} else GotNext(m, id, Got(m, id, arrivals[..|arrivals| - 1]), arrivals[|arrivals| - 1])
  }

  lemma ArrivalHolds(b: Buffers, msgs: Messages, got: set<int>, a: Arrival, id: uint8)
    requires a.id in msgs && Fits(msgs[a.id]) && a.fragment < FragmentCount(|msgs[a.id]|)
    requires id in msgs && Fits(msgs[id]) && got < All(msgs[id]) && Holds(Buffer(b, id), msgs[id], got)
    ensures GotNext(msgs[id], id, got, a) < All(msgs[id])
    ensures Holds(Buffer(InsertChunk(b, a.id, msgs[a.id], a.fragment).buffers, id), msgs[id],
                  GotNext(msgs[id], id, got, a))
  {
    if a.id == id {
      InsertRefines(b, id, msgs[id], got, a.fragment);
      assert a.fragment in All(msgs[id]);
    }
  }

  lemma {:induction false} AfterHolds(b: Buffers, msgs: Messages, arrivals: seq<Arrival>, id: uint8)
    requires Genuine(msgs, arrivals) && id in msgs && Fits(msgs[id]) && id !in b
    ensures Got(msgs[id], id, arrivals) < All(msgs[id])
    ensures Holds(Buffer(After(b, msgs, arrivals), id), msgs[id], Got(msgs[id], id, arrivals))
  {
    var m := msgs[id];
    if arrivals == [] {
      assert 0 in All(m);
    } else {
      var before, a := arrivals[..|arrivals| - 1], arrivals[|arrivals| - 1];
      assert a in arrivals && Genuine(msgs, before);
      AfterHolds(b, msgs, before, id);
      ArrivalHolds(After(b, msgs, before), msgs, Got(m, id, before), a, id);
    }
  }

  /**
   However the fragments of messages with distinct ids interleave, repeat or get lost, and however often
   buffers fill and empty: an arrival delivers its own whole message if it completes it, and nothing otherwise.
   */
  lemma {:induction false} NoMixedDelivery(b: Buffers, msgs: Messages, arrivals: seq<Arrival>, a: Arrival)
    requires Genuine(msgs, arrivals) && Genuine(msgs, [a]) && a.id !in b
    ensures a.id in msgs && Fits(msgs[a.id]) && a.fragment < FragmentCount(|msgs[a.id]|)
    ensures InsertChunk(After(b, msgs, arrivals), a.id, msgs[a.id], a.fragment).full
         == if Got(msgs[a.id], a.id, arrivals) + {a.fragment} == All(msgs[a.id]) then msgs[a.id] else []
  {
    assert a in [a];
    AfterHolds(b, msgs, arrivals, a.id);
    InsertRefines(After(b, msgs, arrivals), a.id, msgs[a.id], Got(msgs[a.id], a.id, arrivals), a.fragment);
  }

  /** How often the message with this id was delivered. */
  function Deliveries(b: Buffers, msgs: Messages, arrivals: seq<Arrival>, id: uint8): nat
    requires Genuine(msgs, arrivals)
  {
    if arrivals == [] then 0
    else
      var a, before := arrivals[|arrivals| - 1], arrivals[..|arrivals| - 1];
      assert a in arrivals && Genuine(msgs, before);
      Deliveries(b, msgs, before, id)
      + (if a.id == id && InsertChunk(After(b, msgs, before), id, msgs[id], a.fragment).full != [] then 1 else 0)
  }

  function Copies(arrivals: seq<Arrival>, a: Arrival): nat {
    if arrivals == [] then 0
    else Copies(arrivals[..|arrivals| - 1], a) + (if arrivals[|arrivals| - 1] == a then 1 else 0)
  }

  /** Each delivery uses up one copy of every fragment. */
  lemma {:induction false} DeliveriesUseCopies(b: Buffers, msgs: Messages, arrivals: seq<Arrival>, id: uint8, i: nat)
    requires Genuine(msgs, arrivals) && id in msgs && Fits(msgs[id]) && id !in b && i < FragmentCount(|msgs[id]|)
    ensures Deliveries(b, msgs, arrivals, id) + (if i in Got(msgs[id], id, arrivals) then 1 else 0)
         <= Copies(arrivals, Arrival(id, i))
  {
    if arrivals != [] {
      var before, a := arrivals[..|arrivals| - 1], arrivals[|arrivals| - 1];
      assert a in arrivals && Genuine(msgs, before);
      DeliveriesUseCopies(b, msgs, before, id, i);
      if a.id == id { NoMixedDelivery(b, msgs, before, a); }
      assert i in All(msgs[id]);
    }
  }

  // ----- more than 256 fragments

  /** The number under which the reassembler files a fragment. */
  function Number(i: nat): uint8 { i % 0x100 }

  /** What the last of the first `count` fragments of a message does when they arrive in order. */
  function InOrder(b: Buffers, id: uint8, m: Message, count: nat): Insertion
    requires count <= FragmentCount(|m|)
  {
    if count == 0 then Insertion(b, [])
    else
      Insert(InOrder(b, id, m, count - 1).buffers, id, Number(count - 1), count < FragmentCount(|m|),
             Chunk(m, count - 1))
  }

  /** Of the first `count` fragments the last 256 are held, each under its number in 8 bits. */
  ghost predicate HoldsLatest(fs: FragmentSet, m: Message, count: nat)
    requires count <= FragmentCount(|m|)
  {
    forall q: nat {:trigger Number(q)} | q < count <= q + 0x100 :: Part(fs.fragments, Number(q)) == Chunk(m, q)
  }

  lemma NumbersDiffer(q: nat, count: nat)
    requires q < count < q + 0x100
    ensures Number(q) != Number(count)
  {
  }

  lemma {:induction false} StoreLatest(fs: FragmentSet, m: Message, count: nat, f: uint8, more: bool)
    requires count < FragmentCount(|m|) && HoldsLatest(fs, m, count) && f == Number(count)
    ensures HoldsLatest(Store(fs, f, more, Chunk(m, count)), m, count + 1)
  {
    var fs' := Store(fs, f, more, Chunk(m, count));
    forall q: nat | q < count + 1 <= q + 0x100 ensures Part(fs'.fragments, Number(q)) == Chunk(m, q) {
      if q < count {
        NumbersDiffer(q, count);
        assert Part(fs.fragments, Number(q)) == Chunk(m, q);
      }
    }
  }

  lemma InOrderStep(b: Buffers, id: uint8, m: Message, count: nat, f: uint8)
    requires count < FragmentCount(|m|) && f == Number(count) && HoldsLatest(Buffer(b, id), m, count)
    requires !Buffer(b, id).mfRecv && Buffer(b, id).totalFragments == 0
    ensures var fs := Buffer(Insert(b, id, f, true, Chunk(m, count)).buffers, id);
      HoldsLatest(fs, m, count + 1) && !fs.mfRecv && fs.totalFragments == 0
  {
    StoreLatest(Buffer(b, id), m, count, f, true);
  }

  lemma {:induction false} InOrderHolds(b: Buffers, id: uint8, m: Message, count: nat)
    requires count < FragmentCount(|m|) && id !in b
    ensures var fs := Buffer(InOrder(b, id, m, count).buffers, id);
      HoldsLatest(fs, m, count) && !fs.mfRecv && fs.totalFragments == 0
  {
    if count > 0 {
      InOrderHolds(b, id, m, count - 1);
      InOrderStep(InOrder(b, id, m, count - 1).buffers, id, m, count - 1, Number(count - 1));
    }
  }

  lemma InsertKeepsOthers(b: Buffers, id: uint8, f: uint8, more: bool, payload: seq<Byte>)
    ensures Insert(b, id, f, more, payload).buffers - {id} == b - {id}
  {
  }

  lemma {:induction false} InOrderKeepsOthers(b: Buffers, id: uint8, m: Message, count: nat)
    requires count <= FragmentCount(|m|) && id !in b
    ensures InOrder(b, id, m, count).buffers - {id} == b
  {
    if count == 0 {
      assert b - {id} == b;
    } else {
      var before := InOrder(b, id, m, count - 1).buffers;
      InOrderKeepsOthers(b, id, m, count - 1);
      InsertKeepsOthers(before, id, Number(count - 1), count < FragmentCount(|m|), Chunk(m, count - 1));
    }
  }

  lemma {:induction false} JoinIsTail(fragments: FragmentMap, m: Message, first: nat, end: nat, count: nat)
    requires first + count == end <= FragmentCount(|m|) && Whole(fragments, count)
    requires forall i: nat | i < count :: Part(fragments, i) == Chunk(m, first + i)
    ensures Join(fragments, count) == Chunks(m, first, end)
  {
    if count > 0 {
      assert Has(fragments, count - 1) && Part(fragments, count - 1) == Chunk(m, end - 1);
      JoinIsTail(fragments, m, first, end - 1, count - 1);
    }
  }

  /** The fragment number from which the last block of up to 256 fragments starts. */
  function LastBlock(m: Message): nat
    requires m != []
  {
    (FragmentCount(|m|) - 1) / 0x100 * 0x100
  }

  lemma LastBlockNumbers(m: Message, n: nat, first: nat, f: nat)
    requires m != [] && n == FragmentCount(|m|) && first == LastBlock(m) && f == Number(n - 1)
    ensures first + f + 1 == n && first % 0x100 == 0
    ensures first == 0 <==> |m| <= MAX_MESSAGE_SIZE
  {
  }

  lemma NumberInBlock(first: nat, i: nat)
    requires first % 0x100 == 0 && i < 0x100
    ensures Number(first + i) == i
  {
  }

  lemma LastJoin(fs: FragmentSet, m: Message, n: nat, first: nat, f: uint8)
    requires n == FragmentCount(|m|) && first + f + 1 == n && first % 0x100 == 0 && HoldsLatest(fs, m, n)
    ensures Whole(fs.fragments, f + 1) && Join(fs.fragments, f + 1) == Chunks(m, first, n)
  {
    forall i: nat | i < f + 1 ensures Part(fs.fragments, i) == Chunk(m, first + i) != [] {
      NumberInBlock(first, i);
      assert Part(fs.fragments, Number(first + i)) == Chunk(m, first + i);
    }
    JoinIsTail(fs.fragments, m, first, n, f + 1);
  }

  lemma LastInsertion(b: Buffers, id: uint8, m: Message, n: nat, first: nat, f: uint8)
    requires m != [] && n == FragmentCount(|m|) && first + f + 1 == n && first % 0x100 == 0 && f == Number(n - 1)
    requires HoldsLatest(Buffer(b, id), m, n - 1)
    ensures Insert(b, id, f, false, Chunk(m, n - 1)) == Insertion(b - {id}, Chunks(m, first, n))
  {
    StoreLatest(Buffer(b, id), m, n - 1, f, false);
    LastJoin(Store(Buffer(b, id), f, false, Chunk(m, n - 1)), m, n, first, f);
  }

  lemma LastDelivery(last: Buffers, id: uint8, m: Message, n: nat, first: nat, f: uint8)
    requires m != [] && n == FragmentCount(|m|) && first + f + 1 == n && first % 0x100 == 0 && f == Number(n - 1)
    requires HoldsLatest(Buffer(last, id), m, n - 1)
    ensures first * 28 <= |m| && Insert(last, id, f, false, Chunk(m, n - 1)) == Insertion(last - {id}, m[first * 28..])
    ensures m[first * 28..] == m <==> first == 0
  {
    LastInsertion(last, id, m, n, first, f);
    ChunksToTheEnd(m, first);
  }

  lemma LastInOrder(b: Buffers, id: uint8, m: Message, n: nat)
    requires m != [] && n == FragmentCount(|m|)
    ensures InOrder(b, id, m, n) == Insert(InOrder(b, id, m, n - 1).buffers, id, Number(n - 1), false, Chunk(m, n - 1))
  {
  }

  lemma BeforeLast(b: Buffers, id: uint8, m: Message, n: nat, last: Buffers)
    requires m != [] && id !in b && n == FragmentCount(|m|) && last == InOrder(b, id, m, n - 1).buffers
    ensures HoldsLatest(Buffer(last, id), m, n - 1) && last - {id} == b
  {
    InOrderHolds(b, id, m, n - 1);
    InOrderKeepsOthers(b, id, m, n - 1);
  }

  /**
   Reassembling all fragments of any message in order returns its last block of at most 256 fragments, and so
   the message itself exactly when it has at most 7168 bytes: beyond that the 8-bit fragment ids collide.
   */
  lemma {:induction false} InOrderDelivery(b: Buffers, id: uint8, m: Message, n: nat)
    requires m != [] && id !in b && n == FragmentCount(|m|)
    ensures LastBlock(m) * 28 <= |m| && InOrder(b, id, m, n) == Insertion(b, m[LastBlock(m) * 28..])
    ensures InOrder(b, id, m, n).full == m <==> |m| <= MAX_MESSAGE_SIZE
  {
    var f := Number(n - 1);
    LastBlockNumbers(m, n, LastBlock(m), f);
    LastInOrder(b, id, m, n);
    var last := InOrder(b, id, m, n - 1).buffers;
    BeforeLast(b, id, m, n, last);
    LastDelivery(last, id, m, n, LastBlock(m), f);
  }
}
