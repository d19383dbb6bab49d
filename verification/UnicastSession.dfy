/**
 One reliable unicast message end to end: a sender, a receiver, and between them any number of relays over a
 channel that loses, reorders and duplicates, while other traffic with other message ids goes on.
 */
module UnicastSession {
  import opened PacketHeader
  import opened Fragmentation
  import opened Reassembly
  import opened MultihopRelay
  import S = StopAndWaitSender
  import R = StopAndWaitReceiver

  /** The message, its addresses, its id, and the next hop the fragmenter wrote into the headers. */
  datatype Job = Job(message: Message, src: uint8, dst: uint8, hop: uint8, id: uint8)

  /** What the code supports: 8-bit fragment numbers, a message id of three bits, two different addresses. */
  predicate Supported(job: Job) {
    && Fits(job.message) && job.id < 8 && job.src < 8 && 0 < job.dst < 8 && job.src != job.dst
  }

  function Fragments(job: Job): seq<Frame> {
    FragmentsOf(job.message, job.src, job.dst, job.hop, job.id, DATA)
  }

  /** The two ends, and all that the receiver ever sent and delivered. */
  datatype World = World(sender: S.Sender, receiver: R.Receiver, fromReceiver: seq<Frame>, delivered: seq<R.Delivery>)

  datatype Event =
    | SenderStep(ev: S.SenderEvent)
    | ToReceiver(frame: Frame, hops: Hops)
    | ToSender(frame: Frame, hops: Hops)

  /** A frame of other traffic: what a receiver decodes, with a message id of another session. */
  predicate Foreign(others: set<uint8>, f: Frame) { FitsWire(f.header) && f.header.messageId in others }

  ghost predicate SentBySender(w: World, f: Frame) {
    exists i :: 0 <= i < |w.sender.sent| && Relayed(Wire(w.sender.sent[i].frame), f)
  }

  ghost predicate SentByReceiver(w: World, f: Frame) {
    exists i :: 0 <= i < |w.fromReceiver| && Relayed(Wire(w.fromReceiver[i]), f)
  }

  /**
   The channel delivers only what was sent at some earlier time, as relays may have rewritten its next hop, or
   other traffic, which has message ids from `others`. It may deliver that late, repeatedly, in any order, or never.
   */
  ghost predicate Admissible(job: Job, others: set<uint8>, w: World, ev: Event) {
    match ev
    case SenderStep(e) => !e.HandleAck?
    case ToReceiver(f, hops) =>
      && R.Complete(f) && (R.MustForward(w.receiver, f.header) ==> f.header.destAddress in hops)
      && FitsWire(f.header) && (Foreign(others, f) || SentBySender(w, f))
    case ToSender(f, hops) => FitsWire(f.header) && (Foreign(others, f) || SentByReceiver(w, f))
  }

  function Next(job: Job, w: World, ev: Event): World
    requires ev.ToReceiver? ==>
      R.Complete(ev.frame) && (R.MustForward(w.receiver, ev.frame.header) ==> ev.frame.header.destAddress in ev.hops)
  {
    match ev
    case SenderStep(e) => w.(sender := S.Step(Fragments(job), w.sender, e))
    case ToReceiver(f, hops) =>
      var r := R.Receive(w.receiver, f, hops);
      w.(receiver := r.next, fromReceiver := w.fromReceiver + r.sent, delivered := w.delivered + r.delivered)
    case ToSender(f, hops) => w.(sender := S.Step(Fragments(job), w.sender, S.HandleAck(f, hops)))
  }

  ghost predicate StepAt(job: Job, others: set<uint8>, worlds: seq<World>, events: seq<Event>, i: nat)
    requires |worlds| == |events| + 1 && i < |events|
  {
    Admissible(job, others, worlds[i], events[i]) && worlds[i + 1] == Next(job, worlds[i], events[i])
  }

  ghost predicate Run(job: Job, others: set<uint8>, worlds: seq<World>, events: seq<Event>) {
    |worlds| == |events| + 1 && forall i: nat | i < |events| :: StepAt(job, others, worlds, events, i)
  }

  /** The start: an idle sender, and a receiver with no buffer for this id; it may hold any others. */
  predicate Start(job: Job, w: World) {
    && S.Idle(w.sender) && w.sender.me == job.src
    && w.receiver.me == job.dst && job.id !in w.receiver.buffers
    && w.fromReceiver == [] && w.delivered == []
  }

  function Original(job: Job): R.Delivery { R.Delivery(job.src, job.message, false, job.id) }

  // ----- the invariant

  /** The numbers of the fragments the receiver holds. */
  ghost function Held(job: Job, w: World): set<int> {
    set i | i in All(job.message) && Has(Buffer(w.receiver.buffers, job.id).fragments, i)
  }

  /** The receiver has the fragment, or has already delivered the message. */
  ghost predicate Arrived(job: Job, w: World, k: int) { k in Held(job, w) || Original(job) in w.delivered }

  predicate IsFragment(job: Job, f: Frame, k: nat)
    requires k < FragmentCount(|job.message|)
  {
    && f.payload == Chunk(job.message, k)
    && f.header == FragmentOf(job.message, job.src, job.dst, f.header.nextHopAddress, job.id, DATA, k).header
  }

  /** What the sender emitted under the session's id is the fragment whose number the log has. */
  predicate OwnEmission(job: Job, e: S.Emission) {
    e.Own? && e.index < FragmentCount(|job.message|) && IsFragment(job, Wire(e.frame), e.index)
  }

  ghost predicate ReceiverInv(job: Job, w: World)
    requires Supported(job)
  {
    BufferInv(job, w) && AcksTellTheTruth(job, w)
  }

  ghost predicate BufferInv(job: Job, w: World)
    requires Supported(job)
  {
    && w.receiver.me == job.dst
    && Held(job, w) < All(job.message)
    && Holds(Buffer(w.receiver.buffers, job.id), job.message, Held(job, w))
    && (forall d | d in w.delivered && d.messageId == job.id :: d == Original(job))
  }

  /** Whatever the receiver sent under the session's id acknowledges, to the sender, a fragment that arrived. */
  ghost predicate AcksTellTheTruth(job: Job, w: World) {
    forall g | g in w.fromReceiver && g.header.messageId % 8 == job.id :: AckTrue(job, w, g.header)
  }

  ghost predicate AckTrue(job: Job, w: World, h: Header) {
    h.fragmentId < 0x100 && h.destAddress == job.src && Arrived(job, w, h.fragmentId)
  }

  ghost predicate SenderInv(job: Job, w: World)
    requires Supported(job)
  {
    var s := w.sender;
    && s.me == job.src
    && |s.outcomes| <= FragmentCount(|job.message|)
    && (forall e | e in s.sent && e.frame.header.messageId % 8 == job.id :: OwnEmission(job, e))
    && (!s.phase.Between? ==>
          && |s.outcomes| < FragmentCount(|job.message|) && IsFragment(job, s.frame, |s.outcomes|)
          && s.currentMsgId == job.id && s.currentFragmentId == |s.outcomes|
          && (s.ackReceived ==> Arrived(job, w, |s.outcomes|)))
    && (forall k | 0 <= k < |s.outcomes| && s.outcomes[k].Acked? :: Arrived(job, w, k))
  }

  lemma StartInv(job: Job, w: World)
    requires Supported(job) && Start(job, w)
    ensures ReceiverInv(job, w) && SenderInv(job, w)
  {
    assert 0 in All(job.message);
  }

  lemma FragmentsFit(job: Job, k: nat)
    requires Supported(job) && k < FragmentCount(|job.message|)
    ensures k < 0x100 && 1 <= |Chunk(job.message, k)| <= MAX_PAYLOAD_SIZE
    ensures Fragments(job)[k] == FragmentOf(job.message, job.src, job.dst, job.hop, job.id, DATA, k)
  {
    FragmentShape(job.message, job.src, job.dst, job.hop, job.id, DATA, k);
  }

  lemma OwnFrameIsAccepted(job: Job, r: R.Receiver, f: Frame, hops: Hops, k: nat)
    requires Supported(job) && r.me == job.dst && k < FragmentCount(|job.message|) && IsFragment(job, f, k)
    ensures R.Complete(f) && !R.MustForward(r, f.header)
    ensures R.Receive(r, f, hops) == R.Accept(r, f, R.SendAck(r.me, f.header, hops))
    ensures R.Payload(f) == Chunk(job.message, k)
    ensures f.header.messageId == job.id && f.header.fragmentId == k < 0x100
    ensures f.header.moreFragments != 0 <==> k < FragmentCount(|job.message|) - 1
    ensures f.header.sourceAddress == job.src && f.header.destAddress != 0
  {
    FragmentsFit(job, k);
  }

  /** An arriving fragment of the session is acknowledged by its number, and inserted. */
  lemma OwnFrameInserted(job: Job, r: R.Receiver, f: Frame, hops: Hops, k: nat)
    requires Supported(job) && r.me == job.dst && k < FragmentCount(|job.message|) && IsFragment(job, f, k)
    ensures R.Complete(f) && !R.MustForward(r, f.header)
    ensures var ins, reaction := InsertChunk(r.buffers, job.id, job.message, k), R.Receive(r, f, hops);
      && reaction.next == r.(buffers := ins.buffers)
      && reaction.delivered == (if ins.full == [] then [] else [R.Delivery(job.src, ins.full, false, job.id)])
      && (forall g | g in reaction.sent ::
            g.header.fragmentId == k && g.header.messageId == job.id && g.header.destAddress == job.src)
  {
    OwnFrameIsAccepted(job, r, f, hops, k);
  }

  /** Traffic with another id leaves the session's buffer alone and answers with that other id. */
  lemma ForeignFrameKeepsApart(job: Job, r: R.Receiver, f: Frame, hops: Hops, reaction: R.Reaction)
    requires Supported(job) && FitsWire(f.header) && f.header.messageId != job.id
    requires R.Complete(f) && (R.MustForward(r, f.header) ==> f.header.destAddress in hops)
    requires reaction == R.Receive(r, f, hops)
    ensures reaction.next.me == r.me
    ensures Buffer(reaction.next.buffers, job.id) == Buffer(r.buffers, job.id)
    ensures forall g | g in reaction.sent :: g.header.messageId % 8 != job.id
    ensures forall d | d in reaction.delivered :: d.messageId != job.id
  {
    assert forall g | g in reaction.sent :: g.header.messageId == f.header.messageId;
  }

  lemma ForeignEffect(job: Job, w: World, w': World, sent: seq<Frame>, delivered: seq<R.Delivery>)
    requires Supported(job) && ReceiverInv(job, w) && w'.receiver.me == job.dst
    requires Buffer(w'.receiver.buffers, job.id) == Buffer(w.receiver.buffers, job.id)
    requires w'.fromReceiver == w.fromReceiver + sent && w'.delivered == w.delivered + delivered
    requires forall g | g in sent :: g.header.messageId % 8 != job.id
    requires forall d | d in delivered :: d.messageId != job.id
    ensures ReceiverInv(job, w')
    ensures forall k | Arrived(job, w, k) :: Arrived(job, w', k)
  {
    assert Held(job, w') == Held(job, w);
  }

  lemma ForeignFrameStep(job: Job, others: set<uint8>, w: World, f: Frame, hops: Hops)
    requires Supported(job) && ReceiverInv(job, w) && f.header.messageId != job.id
    requires Admissible(job, others, w, ToReceiver(f, hops))
    ensures ReceiverInv(job, Next(job, w, ToReceiver(f, hops)))
    ensures forall k | Arrived(job, w, k) :: Arrived(job, Next(job, w, ToReceiver(f, hops)), k)
  {
    var r := R.Receive(w.receiver, f, hops);
    ForeignFrameKeepsApart(job, w.receiver, f, hops, r);
    ForeignEffect(job, w, Next(job, w, ToReceiver(f, hops)), r.sent, r.delivered);
  }

  lemma ReceiverStep(job: Job, others: set<uint8>, w: World, f: Frame, hops: Hops)
    requires Supported(job) && job.id !in others && ReceiverInv(job, w) && SenderInv(job, w)
    requires Admissible(job, others, w, ToReceiver(f, hops))
    ensures ReceiverInv(job, Next(job, w, ToReceiver(f, hops)))
    ensures forall k | Arrived(job, w, k) :: Arrived(job, Next(job, w, ToReceiver(f, hops)), k)
  {
    if f.header.messageId != job.id {
      ForeignFrameStep(job, others, w, f, hops);
    } else {
      var k := SentFragment(job, w, f);
      OwnFrameStep(job, others, w, f, hops, k);
    }
  }

  /** What arrives of the session is one of its fragments. */
  lemma SentFragment(job: Job, w: World, f: Frame) returns (k: nat)
    requires Supported(job) && SenderInv(job, w) && SentBySender(w, f) && f.header.messageId == job.id
    ensures k < FragmentCount(|job.message|) && IsFragment(job, f, k)
  {
    var i :| 0 <= i < |w.sender.sent| && Relayed(Wire(w.sender.sent[i].frame), f);
    var e := w.sender.sent[i];
    assert e in w.sender.sent && OwnEmission(job, e);
    k := e.index;
  }

  lemma OwnFrameBuffered(job: Job, w: World, w': World, k: nat, full: Message)
    requires Supported(job) && BufferInv(job, w) && k < FragmentCount(|job.message|) && w'.receiver.me == job.dst
    requires w'.delivered == w.delivered + if full == [] then [] else [R.Delivery(job.src, full, false, job.id)]
    requires var got' := Held(job, w) + {k as int};
      if got' == All(job.message) then full == job.message && w'.receiver.buffers == w.receiver.buffers - {job.id}
      else full == [] && Holds(Buffer(w'.receiver.buffers, job.id), job.message, got')
    ensures BufferInv(job, w') && Arrived(job, w', k)
    ensures Held(job, w') == if Held(job, w) + {k as int} == All(job.message) then {} else Held(job, w) + {k as int}
    ensures forall j | Arrived(job, w, j) :: Arrived(job, w', j)
  {
    if full == [] {
      assert w'.delivered == w.delivered;
      assert Held(job, w') == Held(job, w) + {k as int};
    } else {
      assert w'.delivered[|w.delivered|] == Original(job);
      assert Held(job, w') == {} && 0 in All(job.message);
    }
  }

  lemma OwnFrameStep(job: Job, others: set<uint8>, w: World, f: Frame, hops: Hops, k: nat)
    requires Supported(job) && ReceiverInv(job, w) && k < FragmentCount(|job.message|) && IsFragment(job, f, k)
    requires Admissible(job, others, w, ToReceiver(f, hops))
    ensures ReceiverInv(job, Next(job, w, ToReceiver(f, hops)))
    ensures forall j | Arrived(job, w, j) :: Arrived(job, Next(job, w, ToReceiver(f, hops)), j)
  {
    var w' := Next(job, w, ToReceiver(f, hops));
    OwnFrameInserted(job, w.receiver, f, hops, k);
    InsertRefines(w.receiver.buffers, job.id, job.message, Held(job, w), k);
    OwnFrameBuffered(job, w, w', k, InsertChunk(w.receiver.buffers, job.id, job.message, k).full);
    FragmentsFit(job, k);
    assert AcksTellTheTruth(job, w');
  }

  // ----- the sender's side

  lemma OnWireFragment(job: Job, f: Frame, k: nat)
    requires Supported(job) && k < FragmentCount(|job.message|) && IsFragment(job, f, k)
    ensures IsFragment(job, Wire(f), k)
  {
    FragmentsFit(job, k);
  }

  lemma BeginStep(job: Job, w: World, hops: Hops)
    requires Supported(job) && SenderInv(job, w)
    ensures SenderInv(job, Next(job, w, SenderStep(S.Begin(hops))))
  {
    var s := w.sender;
    if s.phase.Between? && |s.outcomes| < FragmentCount(|job.message|) {
      FragmentsFit(job, |s.outcomes|);
    }
  }

  lemma EmitStep(job: Job, w: World)
    requires Supported(job) && SenderInv(job, w)
    ensures SenderInv(job, Next(job, w, SenderStep(S.Emit)))
  {
    if w.sender.phase.Emitting? {
      OnWireFragment(job, w.sender.frame, |w.sender.outcomes|);
    }
  }

  lemma SenderStepInv(job: Job, w: World, ev: S.SenderEvent)
    requires Supported(job) && SenderInv(job, w) && !ev.HandleAck?
    ensures SenderInv(job, Next(job, w, SenderStep(ev)))
  {
    match ev
    case Begin(hops) => BeginStep(job, w, hops);
    case Emit => EmitStep(job, w);
    case Timeout =>
    case Wake =>
  }

  lemma ForeignAckStep(job: Job, w: World, f: Frame, hops: Hops)
    requires Supported(job) && SenderInv(job, w) && FitsWire(f.header) && f.header.messageId != job.id
    ensures SenderInv(job, Next(job, w, ToSender(f, hops)))
  {
    assert f.header.messageId % 8 != job.id;
  }

  lemma OwnAckStep(job: Job, w: World, f: Frame, hops: Hops)
    requires Supported(job) && SenderInv(job, w) && AckTrue(job, w, f.header)
    ensures SenderInv(job, Next(job, w, ToSender(f, hops)))
  {
    assert !S.MustPassOn(w.sender, f.header);
  }

  lemma AckOnWire(job: Job, w: World, g: Frame, f: Frame)
    requires job.src < 8 && AckTrue(job, w, g.header) && Relayed(Wire(g), f)
    ensures AckTrue(job, w, f.header)
  {
    assert f.header.fragmentId == g.header.fragmentId && f.header.destAddress == g.header.destAddress;
  }

  /** What arrives under the session's id acknowledges a fragment that arrived. */
  lemma AckIsTrue(job: Job, w: World, f: Frame)
    requires Supported(job) && AcksTellTheTruth(job, w) && SentByReceiver(w, f) && f.header.messageId == job.id
    ensures AckTrue(job, w, f.header)
  {
    var i :| 0 <= i < |w.fromReceiver| && Relayed(Wire(w.fromReceiver[i]), f);
    assert w.fromReceiver[i] in w.fromReceiver;
    AckOnWire(job, w, w.fromReceiver[i], f);
  }

  /** A matching acknowledgement is never false. */
  lemma {:induction false} AckStep(job: Job, others: set<uint8>, w: World, f: Frame, hops: Hops)
    requires Supported(job) && job.id !in others && SenderInv(job, w) && AcksTellTheTruth(job, w)
    requires Admissible(job, others, w, ToSender(f, hops))
    ensures SenderInv(job, Next(job, w, ToSender(f, hops)))
  {
    if f.header.messageId != job.id {
      ForeignAckStep(job, w, f, hops);
    } else {
      AckIsTrue(job, w, f);
      OwnAckStep(job, w, f, hops);
    }
  }

  // ----- whole runs

  lemma StepInv(job: Job, others: set<uint8>, w: World, ev: Event)
    requires Supported(job) && job.id !in others && ReceiverInv(job, w) && SenderInv(job, w)
    requires Admissible(job, others, w, ev)
    ensures ReceiverInv(job, Next(job, w, ev)) && SenderInv(job, Next(job, w, ev))
  {
    match ev
    case SenderStep(e) => SenderStepInv(job, w, e);
    case ToReceiver(f, hops) => ReceiverStep(job, others, w, f, hops);
    case ToSender(f, hops) => AckStep(job, others, w, f, hops);
  }

  lemma {:induction false} RunInv(job: Job, others: set<uint8>, worlds: seq<World>, events: seq<Event>, i: nat)
    requires Supported(job) && job.id !in others
    requires Run(job, others, worlds, events) && Start(job, worlds[0]) && i < |worlds|
    ensures ReceiverInv(job, worlds[i]) && SenderInv(job, worlds[i])
  {
    if i == 0 {
      StartInv(job, worlds[0]);
    } else {
      RunInv(job, others, worlds, events, i - 1);
      assert StepAt(job, others, worlds, events, i - 1);
      StepInv(job, others, worlds[i - 1], events[i - 1]);
    }
  }

  /** The sender is done, and has an acknowledgement for every fragment. */
  predicate Finished(job: Job, w: World) {
    |w.sender.outcomes| == |Fragments(job)| && forall o | o in w.sender.outcomes :: o.Acked?
  }

  lemma FinishedMeansDelivered(job: Job, w: World)
    requires Supported(job) && BufferInv(job, w) && SenderInv(job, w) && Finished(job, w)
    ensures Original(job) in w.delivered
  {
    forall k | k in All(job.message) ensures Arrived(job, w, k) {
      assert w.sender.outcomes[k] in w.sender.outcomes;
    }
    assert Original(job) in w.delivered || All(job.message) <= Held(job, w);
  }

  /**
   End to end: at every moment of every run, what was delivered under the session's id is the original message,
   byte for byte, from the sender. And if the sender has finished with every fragment acknowledged, it was delivered.
   */
  lemma {:induction false} EndToEndDelivery(job: Job, others: set<uint8>, worlds: seq<World>, events: seq<Event>,
                                            i: nat)
    requires Supported(job) && job.id !in others
    requires Run(job, others, worlds, events) && Start(job, worlds[0]) && i < |worlds|
    ensures forall d | d in worlds[i].delivered && d.messageId == job.id :: d == Original(job)
    ensures Finished(job, worlds[i]) ==> Original(job) in worlds[i].delivered
  {
    RunInv(job, others, worlds, events, i);
    if Finished(job, worlds[i]) { FinishedMeansDelivered(job, worlds[i]); }
  }
}
