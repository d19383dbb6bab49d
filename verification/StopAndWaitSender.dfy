/**
 The sending side of the transport (src/backend/transport/StopAndWaitSender.cpp): one fragment at a time, up to
 seven attempts each, an acknowledgement or a timeout ending every wait. The value Sender and its steps say what
 threads may interleave; the class at the end runs the loops of the source against a script of the environment.
 */
module StopAndWaitSender {
  import opened PacketHeader
  import opened Fragmentation
  import opened MultihopRelay
  import DistanceVector
  import R = StopAndWaitReceiver

  const MAX_RETRIES: nat := 7

  /** Where `sendFragments` stands: between two fragments, about to emit, or waiting for an acknowledgement. */
  datatype Phase = Between | Emitting | Waiting

  /** How `sendWithRetry` ended for a fragment. */
  datatype Outcome = Acked | GaveUp | NoRoute | Flooded

  /** A frame handed to the send function: of the fragment with this number, or an acknowledgement passed on. */
  datatype Emission = Own(index: nat, frame: Frame) | PassedOn(frame: Frame)

  /** `outcomes` has an entry for each fragment that is done; `frame` is what the current one is sent as. */
  datatype Sender = Sender(
    me: uint8, currentMsgId: uint8, currentFragmentId: uint16, ackReceived: bool,
    phase: Phase, attempts: nat, frame: Frame, outcomes: seq<Outcome>, sent: seq<Emission>)

  datatype SenderEvent =
    | Begin(hops: Hops)
    | Emit
    | Timeout
    | Wake
    | HandleAck(ack: Frame, hops: Hops)

  function OwnAll(index: nat, frames: seq<Frame>): seq<Emission> {
    seq(|frames|, i requires 0 <= i < |frames| => Own(index, frames[i]))
  }

  /** The next fragment: its ids become current, and it is flooded, found unroutable, or made ready to emit. */
  function BeginNext(s: Sender, f: Frame, hops: Hops): Sender {
    var h := f.header.(sourceAddress := s.me);
    var s := s.(currentMsgId := h.messageId, currentFragmentId := h.fragmentId);
    if h.destAddress == 0 then
      s.(sent := s.sent + OwnAll(|s.outcomes|, R.Burst(Frame(h, f.payload))), outcomes := s.outcomes + [Flooded])
    else if h.destAddress !in hops then s.(outcomes := s.outcomes + [NoRoute])
    else
      s.(frame := Frame(h.(nextHopAddress := hops[h.destAddress], payloadLength := |f.payload| % 0x100), f.payload),
         ackReceived := false, attempts := 0, phase := Emitting)
  }

  predicate Matches(s: Sender, h: Header) {
    h.messageId == s.currentMsgId && h.fragmentId == s.currentFragmentId
  }

  predicate MustPassOn(s: Sender, h: Header) { h.destAddress != s.me && h.nextHopAddress == s.me }

  function Handle(s: Sender, ack: Frame, hops: Hops): Sender {
    var s := if MustPassOn(s, ack.header) && ack.header.destAddress in hops
             then s.(sent := s.sent + [PassedOn(Forward(ack, hops))]) else s;
    if Matches(s, ack.header) then s.(ackReceived := true) else s
  }

  /** One step. A step that the current phase does not allow leaves the sender as it is. */
  function Step(fragments: seq<Frame>, s: Sender, ev: SenderEvent): Sender {
    match ev
    case Begin(hops) =>
      if s.phase.Between? && |s.outcomes| < |fragments| then BeginNext(s, fragments[|s.outcomes|], hops) else s
    case Emit => if s.phase.Emitting? then s.(sent := s.sent + [Own(|s.outcomes|, s.frame)], phase := Waiting) else s
    case Timeout =>
      if s.phase.Waiting? && !s.ackReceived then
        if s.attempts + 1 < MAX_RETRIES then s.(attempts := s.attempts + 1, phase := Emitting)
        else s.(attempts := s.attempts + 1, phase := Between, outcomes := s.outcomes + [GaveUp])
      else s
    case Wake =>
      if s.phase.Waiting? && s.ackReceived then s.(phase := Between, outcomes := s.outcomes + [Acked]) else s
    case HandleAck(ack, hops) => Handle(s, ack, hops)
  }

  function Play(fragments: seq<Frame>, s: Sender, evs: seq<SenderEvent>): Sender {
    if evs == [] then s else Step(fragments, Play(fragments, s, evs[..|evs| - 1]), evs[|evs| - 1])
  }

  function NewSender(me: uint8): Sender {
    Sender(me, 0, 0, false, Between, 0, Frame(Header(0, 0, 0, 0, 0, 0, 0, 0), []), [], [])
  }

  predicate Idle(s: Sender) { s.phase.Between? && s.outcomes == [] && s.sent == [] }

  // ----- ordering and the bound on emissions

  function Emissions(sent: seq<Emission>, k: nat): nat {
    if sent == [] then 0
    else
      var last := sent[|sent| - 1];
      Emissions(sent[..|sent| - 1], k) + (if last.Own? && last.index == k then 1 else 0)
  }

  /** How often a fragment with this outcome was emitted. */
  predicate Accounts(outcome: Outcome, count: nat) {
    match outcome
    case Acked => 1 <= count <= 7
    case GaveUp => count == 7
    case NoRoute => count == 0
    case Flooded => count == 4
  }

  function Underway(s: Sender): nat {
    match s.phase
    case Between => 0
    case Emitting => s.attempts
    case Waiting => s.attempts + 1
  }

  /**
   Emissions are in the order of the fragments and belong to fragments that are done or current. Each done
   fragment was emitted as often as its outcome says, the current one once per attempt, later ones never.
   */
  ghost predicate Ordered(fragments: seq<Frame>, s: Sender) {
    Counted(fragments, s) && InSequence(s.sent, |s.outcomes|)
  }

  ghost predicate Counted(fragments: seq<Frame>, s: Sender) {
    && |s.outcomes| <= |fragments|
    && (!s.phase.Between? ==> |s.outcomes| < |fragments| && s.attempts < MAX_RETRIES)
    && (forall k: nat :: CountOk(s, k))
  }

  predicate CountOk(s: Sender, k: nat) {
    var count := Emissions(s.sent, k);
    if k < |s.outcomes| then Accounts(s.outcomes[k], count)
    else if k == |s.outcomes| then count == Underway(s)
    else count == 0
  }

  ghost predicate InSequence(sent: seq<Emission>, bound: nat) {
    forall i, j | 0 <= i <= j < |sent| && sent[i].Own? && sent[j].Own? :: sent[i].index <= sent[j].index <= bound
  }

  lemma {:induction false} EmissionsOfBurst(sent: seq<Emission>, k: nat, index: nat, frames: seq<Frame>)
    ensures Emissions(sent + OwnAll(index, frames), k) == Emissions(sent, k) + (if k == index then |frames| else 0)
  {
    var all := sent + OwnAll(index, frames);
    if frames == [] {
      assert all == sent;
    } else {
      EmissionsOfBurst(sent, k, index, frames[..|frames| - 1]);
      assert all[..|all| - 1] == sent + OwnAll(index, frames[..|frames| - 1]);
    }
  }

  lemma EmissionsOfOne(sent: seq<Emission>, k: nat, e: Emission)
    ensures Emissions(sent + [e], k) == Emissions(sent, k) + (if e.Own? && e.index == k then 1 else 0)
  {
    assert (sent + [e])[..|sent|] == sent;
  }

  lemma BeginOrdered(fragments: seq<Frame>, s: Sender, hops: Hops)
    requires Ordered(fragments, s) && s.phase.Between? && |s.outcomes| < |fragments|
    ensures Ordered(fragments, BeginNext(s, fragments[|s.outcomes|], hops))
  {
    var f, n := fragments[|s.outcomes|], |s.outcomes|;
    var s' := BeginNext(s, f, hops);
    var burst := R.Burst(Frame(f.header.(sourceAddress := s.me), f.payload));
    forall k: nat ensures CountOk(s', k) {
      assert CountOk(s, k);
      EmissionsOfBurst(s.sent, k, n, burst);
    }
    assert InSequence(s'.sent, |s'.outcomes|);
  }

  lemma InSequenceAppend(sent: seq<Emission>, e: Emission, bound: nat)
    requires InSequence(sent, bound) && (e.Own? ==> e.index == bound)
    ensures InSequence(sent + [e], bound)
  {
    forall i | 0 <= i < |sent| && sent[i].Own? ensures sent[i].index <= bound {
      assert sent[i].index <= sent[i].index <= bound;
    }
  }

  lemma EmitOrdered(fragments: seq<Frame>, s: Sender, s': Sender)
    requires Ordered(fragments, s) && s.phase.Emitting? && s' == Step(fragments, s, Emit)
    ensures Ordered(fragments, s')
  {
    var e := Own(|s.outcomes|, s.frame);
    forall k: nat ensures CountOk(s', k) {
      assert CountOk(s, k);
      EmissionsOfOne(s.sent, k, e);
    }
    InSequenceAppend(s.sent, e, |s.outcomes|);
  }

  lemma HandleOrdered(fragments: seq<Frame>, s: Sender, ack: Frame, hops: Hops)
    requires Ordered(fragments, s)
    ensures Ordered(fragments, Handle(s, ack, hops))
  {
    var s' := Handle(s, ack, hops);
    if MustPassOn(s, ack.header) && ack.header.destAddress in hops {
      var e := PassedOn(Forward(ack, hops));
      forall k: nat ensures CountOk(s', k) {
        assert CountOk(s, k);
        EmissionsOfOne(s.sent, k, e);
      }
      InSequenceAppend(s.sent, e, |s.outcomes|);
    } else {
      forall k: nat ensures CountOk(s', k) { assert CountOk(s, k); }
    }
  }

  lemma EndOrdered(fragments: seq<Frame>, s: Sender, s': Sender, outcome: Outcome)
    requires Ordered(fragments, s) && s.phase.Waiting? && s'.sent == s.sent
    requires (s'.outcomes == s.outcomes && s'.phase.Emitting? && s'.attempts == s.attempts + 1 < MAX_RETRIES)
          || (s'.outcomes == s.outcomes + [outcome] && s'.phase.Between? && Accounts(outcome, s.attempts + 1))
    ensures Ordered(fragments, s')
  {
    forall k: nat ensures CountOk(s', k) { assert CountOk(s, k); }
    assert InSequence(s'.sent, |s'.outcomes|);
  }

  lemma StepOrdered(fragments: seq<Frame>, s: Sender, ev: SenderEvent)
    requires Ordered(fragments, s)
    ensures Ordered(fragments, Step(fragments, s, ev))
  {
    match ev
    case Begin(hops) => if s.phase.Between? && |s.outcomes| < |fragments| { BeginOrdered(fragments, s, hops); }
    case Emit => if s.phase.Emitting? { EmitOrdered(fragments, s, Step(fragments, s, Emit)); }
    case Timeout => if s.phase.Waiting? && !s.ackReceived { EndOrdered(fragments, s, Step(fragments, s, ev), GaveUp); }
    case Wake => if s.phase.Waiting? && s.ackReceived { EndOrdered(fragments, s, Step(fragments, s, ev), Acked); }
    case HandleAck(ack, hops) => HandleOrdered(fragments, s, ack, hops);
  }

  lemma IdleOrdered(fragments: seq<Frame>, s: Sender)
    requires Idle(s)
    ensures Ordered(fragments, s)
  {
    forall k: nat ensures CountOk(s, k) {}
  }

  lemma {:induction false} PlayOrdered(fragments: seq<Frame>, s: Sender, evs: seq<SenderEvent>)
    requires Ordered(fragments, s)
    ensures Ordered(fragments, Play(fragments, s, evs))
  {
    if evs != [] {
      PlayOrdered(fragments, s, evs[..|evs| - 1]);
      StepOrdered(fragments, Play(fragments, s, evs[..|evs| - 1]), evs[|evs| - 1]);
    }
  }

  /**
   Over every run: a fragment is emitted only when each earlier one is acknowledged, or was emitted seven
   times, or could not be routed or needed no acknowledgement; and no fragment is emitted more than seven times.
   */
  lemma StopAndWait(fragments: seq<Frame>, s: Sender, evs: seq<SenderEvent>, j: nat, k: nat)
    requires Idle(s)
    ensures var t := Play(fragments, s, evs);
      && Emissions(t.sent, k) <= 7
      && (Emissions(t.sent, k) > 0 && j < k ==> j < |t.outcomes| && Accounts(t.outcomes[j], Emissions(t.sent, j)))
  {
    IdleOrdered(fragments, s);
    PlayOrdered(fragments, s, evs);
    var t := Play(fragments, s, evs);
    assert CountOk(t, k) && CountOk(t, j);
  }

  function OwnCount(sent: seq<Emission>): nat {
    if sent == [] then 0 else OwnCount(sent[..|sent| - 1]) + (if sent[|sent| - 1].Own? then 1 else 0)
  }

  function SumEmissions(sent: seq<Emission>, n: nat): nat {
    if n == 0 then 0 else SumEmissions(sent, n - 1) + Emissions(sent, n - 1)
  }

  lemma {:induction false} SumOfOne(sent: seq<Emission>, n: nat, e: Emission)
    ensures SumEmissions(sent + [e], n) == SumEmissions(sent, n) + (if e.Own? && e.index < n then 1 else 0)
  {
    if n > 0 {
      SumOfOne(sent, n - 1, e);
      EmissionsOfOne(sent, n - 1, e);
    }
  }

  lemma {:induction false} OwnCountIsSum(sent: seq<Emission>, n: nat)
    requires forall e | e in sent && e.Own? :: e.index < n
    ensures OwnCount(sent) == SumEmissions(sent, n)
  {
    if sent == [] {
      EmptySum(n);
    } else {
      var before, e := sent[..|sent| - 1], sent[|sent| - 1];
      assert before + [e] == sent && e in sent;
      OwnCountIsSum(before, n);
      SumOfOne(before, n, e);
    }
  }

  lemma {:induction false} EmptySum(n: nat)
    ensures SumEmissions([], n) == 0
  {
    if n > 0 { EmptySum(n - 1); }
  }

  lemma {:induction false} SumBound(sent: seq<Emission>, n: nat)
    requires forall k: nat | k < n :: Emissions(sent, k) <= 7
    ensures SumEmissions(sent, n) <= 7 * n
  {
    if n > 0 { SumBound(sent, n - 1); }
  }

  lemma {:induction false} OwnIndicesAreCounted(sent: seq<Emission>, i: nat)
    requires i < |sent| && sent[i].Own?
    ensures Emissions(sent, sent[i].index) > 0
  {
    if i < |sent| - 1 { OwnIndicesAreCounted(sent[..|sent| - 1], i); }
  }

  /** A message of n fragments causes at most 7n emissions, in any run. */
  lemma AtMostSevenEach(fragments: seq<Frame>, s: Sender, evs: seq<SenderEvent>)
    requires Idle(s)
    ensures OwnCount(Play(fragments, s, evs).sent) <= 7 * |fragments|
  {
    var t, n := Play(fragments, s, evs), |fragments|;
    IdleOrdered(fragments, s);
    PlayOrdered(fragments, s, evs);
    forall e | e in t.sent && e.Own? ensures e.index < n {
      var i :| 0 <= i < |t.sent| && t.sent[i] == e;
      OwnIndicesAreCounted(t.sent, i);
      assert CountOk(t, e.index);
    }
    OwnCountIsSum(t.sent, n);
    forall k: nat | k < n ensures Emissions(t.sent, k) <= 7 { StopAndWait(fragments, s, evs, 0, k); }
    SumBound(t.sent, n);
  }

  // ----- what is emitted

  /**
   An acknowledgement for another node that this node is the next hop of is passed on to the route's next hop, with
   nothing else changed, if there is a route; nothing else is ever emitted. Independently of that, one with the
   current ids is recorded.
   */
  lemma PassesOnExactly(s: Sender, ack: Frame, hops: Hops)
    ensures var h, t := ack.header, Handle(s, ack, hops);
      && t == s.(sent := t.sent, ackReceived := t.ackReceived)
      && (t.ackReceived <==> s.ackReceived || (h.messageId == s.currentMsgId && h.fragmentId == s.currentFragmentId))
      && if h.destAddress != s.me && h.nextHopAddress == s.me && h.destAddress in hops
         then t.sent == s.sent + [PassedOn(Frame(h.(nextHopAddress := hops[h.destAddress]), ack.payload))]
         else t.sent == s.sent
  {
  }

  /**
   With every fragment, flooded and unroutable ones included, its ids become those that acknowledgements are matched
   with; only for one with a route is the flag of an earlier acknowledgement cleared.
   */
  lemma BeginSetsIds(fragments: seq<Frame>, s: Sender, hops: Hops)
    requires s.phase.Between? && |s.outcomes| < |fragments|
    ensures var h, t := fragments[|s.outcomes|].header, Step(fragments, s, Begin(hops));
      && t.currentMsgId == h.messageId && t.currentFragmentId == h.fragmentId && t.me == s.me
      && if h.destAddress != 0 && h.destAddress in hops
         then t.phase.Emitting? && t.attempts == 0 && !t.ackReceived && t.outcomes == s.outcomes && t.sent == s.sent
         else t.phase.Between? && t.ackReceived == s.ackReceived && |t.outcomes| == |s.outcomes| + 1
  {
  }

  /** Event i of the run begins fragment k. */
  predicate BeganAt(fragments: seq<Frame>, s: Sender, evs: seq<SenderEvent>, i: nat, k: nat) {
    && i < |evs| && evs[i].Begin? && k < |fragments|
    && Play(fragments, s, evs[..i]).phase.Between? && |Play(fragments, s, evs[..i]).outcomes| == k
  }

  /** A fragment as a node sends it: with its own address, the route's next hop, and the length of the payload. */
  predicate SentAs(g: Frame, f: Frame, me: uint8, hops: Hops) {
    var h, length := f.header, |f.payload| % 0x100;
    if h.destAddress == 0
    then g == Frame(h.(sourceAddress := me, nextHopAddress := 0, payloadLength := length), f.payload)
    else
      && h.destAddress in hops
      && g == Frame(h.(sourceAddress := me, nextHopAddress := hops[h.destAddress], payloadLength := length), f.payload)
  }

  ghost predicate Routed(fragments: seq<Frame>, s: Sender, evs: seq<SenderEvent>, k: nat, g: Frame) {
    exists i: nat :: BeganAt(fragments, s, evs, i, k) && SentAs(g, fragments[k], s.me, evs[i].hops)
  }

  ghost predicate AllRouted(fragments: seq<Frame>, s: Sender, evs: seq<SenderEvent>, t: Sender) {
    && t.me == s.me
    && (forall e | e in t.sent && e.Own? :: Routed(fragments, s, evs, e.index, e.frame))
    && (!t.phase.Between? ==> Routed(fragments, s, evs, |t.outcomes|, t.frame))
  }

  lemma RoutedGrows(fragments: seq<Frame>, s: Sender, evs: seq<SenderEvent>, ev: SenderEvent, k: nat, g: Frame)
    requires Routed(fragments, s, evs, k, g)
    ensures Routed(fragments, s, evs + [ev], k, g)
  {
    var i: nat :| BeganAt(fragments, s, evs, i, k) && SentAs(g, fragments[k], s.me, evs[i].hops);
    assert (evs + [ev])[..i] == evs[..i];
    assert BeganAt(fragments, s, evs + [ev], i, k);
  }

  lemma BeginRouted(fragments: seq<Frame>, s: Sender, evs: seq<SenderEvent>, t: Sender, hops: Hops, g: Frame)
    requires t == Play(fragments, s, evs) && t.phase.Between? && |t.outcomes| < |fragments|
    requires SentAs(g, fragments[|t.outcomes|], s.me, hops)
    ensures Routed(fragments, s, evs + [Begin(hops)], |t.outcomes|, g)
  {
    assert (evs + [Begin(hops)])[..|evs|] == evs;
    assert BeganAt(fragments, s, evs + [Begin(hops)], |evs|, |t.outcomes|);
  }

  lemma StepRouted(fragments: seq<Frame>, s: Sender, evs: seq<SenderEvent>, t: Sender, ev: SenderEvent)
    requires t == Play(fragments, s, evs) && AllRouted(fragments, s, evs, t)
    ensures AllRouted(fragments, s, evs + [ev], Step(fragments, t, ev))
  {
    var t' := Step(fragments, t, ev);
    forall e | e in t.sent && e.Own? ensures Routed(fragments, s, evs + [ev], e.index, e.frame) {
      RoutedGrows(fragments, s, evs, ev, e.index, e.frame);
    }
    if !t.phase.Between? { RoutedGrows(fragments, s, evs, ev, |t.outcomes|, t.frame); }
    if ev.Begin? && t.phase.Between? && |t.outcomes| < |fragments| {
      var f := fragments[|t.outcomes|];
      if f.header.destAddress == 0 {
        var g := R.BroadcastCopy(Frame(f.header.(sourceAddress := t.me), f.payload));
        BeginRouted(fragments, s, evs, t, ev.hops, g);
        assert forall e | e in t'.sent :: e in t.sent || e == Own(|t.outcomes|, g);
      } else if f.header.destAddress in ev.hops {
        BeginRouted(fragments, s, evs, t, ev.hops, t'.frame);
      }
    }
  }

  lemma {:induction false} PlayRouted(fragments: seq<Frame>, s: Sender, evs: seq<SenderEvent>)
    requires Idle(s)
    ensures AllRouted(fragments, s, evs, Play(fragments, s, evs))
  {
    if evs != [] {
      var before, ev := evs[..|evs| - 1], evs[|evs| - 1];
      assert before + [ev] == evs;
      PlayRouted(fragments, s, before);
      StepRouted(fragments, s, before, Play(fragments, s, before), ev);
    }
  }

  /**
   In every run, what is emitted for a fragment is the fragment with this node as source, the length of its payload,
   and the next hop that the routing table had when the sender began with it; a broadcast has no next hop.
   */
  lemma EmissionsFollowTheirRoute(fragments: seq<Frame>, s: Sender, evs: seq<SenderEvent>, e: Emission) returns (i: nat)
    requires Idle(s) && e in Play(fragments, s, evs).sent && e.Own?
    ensures BeganAt(fragments, s, evs, i, e.index) && SentAs(e.frame, fragments[e.index], s.me, evs[i].hops)
  {
    PlayRouted(fragments, s, evs);
    assert Routed(fragments, s, evs, e.index, e.frame);
    i :| BeganAt(fragments, s, evs, i, e.index) && SentAs(e.frame, fragments[e.index], s.me, evs[i].hops);
  }

  // ----- termination

  /** What is left to do: fragments, then attempts, then the halves of an attempt. */
  function Remaining(fragments: seq<Frame>, s: Sender): int {
    15 * (|fragments| - |s.outcomes|)
    - (match s.phase case Between => 0 case Emitting => 2 * s.attempts + 1 case Waiting => 2 * s.attempts + 2)
  }

  /** Until all fragments are done some step of the sender is possible, and every such step leaves less to do. */
  lemma SenderTerminates(fragments: seq<Frame>, s: Sender, hops: Hops)
    requires Ordered(fragments, s)
    ensures Remaining(fragments, s) >= 0
    ensures |s.outcomes| < |fragments| ==>
      exists ev: SenderEvent :: !ev.HandleAck? && Remaining(fragments, Step(fragments, s, ev)) < Remaining(fragments, s)
    ensures forall ev: SenderEvent | !ev.HandleAck? && Step(fragments, s, ev) != s ::
      Remaining(fragments, Step(fragments, s, ev)) < Remaining(fragments, s)
    ensures forall ack, hs :: Remaining(fragments, Step(fragments, s, HandleAck(ack, hs))) == Remaining(fragments, s)
  {
    if |s.outcomes| < |fragments| {
      var ev := match s.phase
        case Between => Begin(hops)
        case Emitting => Emit
        case Waiting => if s.ackReceived then Wake else Timeout;
      assert Remaining(fragments, Step(fragments, s, ev)) < Remaining(fragments, s);
    }
  }

  // ----- message ids beyond the three bits of the header

  /** The acknowledgement of a fragment matches it exactly when its ids fit the header. */
  lemma AckMatchesInRange(s: Sender, f: Frame, receiver: uint8, hop: uint8)
    requires f.header.messageId == s.currentMsgId && f.header.fragmentId == s.currentFragmentId
    ensures Matches(s, Wire(R.AckFor(receiver, Wire(f).header, hop)).header)
       <==> s.currentMsgId < 8 && s.currentFragmentId < 2048
  {
  }

  ghost predicate FromTheWire(evs: seq<SenderEvent>) {
    forall ev | ev in evs && ev.HandleAck? :: FitsWire(ev.ack.header)
  }

  predicate FitsAck(h: Header) { h.messageId < 8 && h.fragmentId < 2048 }

  ghost predicate OnlyFitting(fragments: seq<Frame>, t: Sender) {
    && |t.outcomes| <= |fragments|
    && (forall j | 0 <= j < |t.outcomes| && t.outcomes[j].Acked? :: FitsAck(fragments[j].header))
    && (!t.phase.Between? ==>
          && |t.outcomes| < |fragments| && Matches(t, fragments[|t.outcomes|].header)
          && (t.ackReceived ==> FitsAck(fragments[|t.outcomes|].header)))
  }

  lemma StepOnlyFitting(fragments: seq<Frame>, t: Sender, ev: SenderEvent)
    requires OnlyFitting(fragments, t) && (ev.HandleAck? ==> FitsWire(ev.ack.header))
    ensures OnlyFitting(fragments, Step(fragments, t, ev))
  {
  }

  /** Only fragments whose ids fit the header are ever acknowledged, whatever was sent before and whatever arrives. */
  lemma {:induction false} AckedFragmentsFit(fragments: seq<Frame>, s: Sender, evs: seq<SenderEvent>)
    requires Idle(s) && FromTheWire(evs)
    ensures OnlyFitting(fragments, Play(fragments, s, evs))
  {
    if evs != [] {
      var before, ev := evs[..|evs| - 1], evs[|evs| - 1];
      assert ev in evs && forall x | x in before :: x in evs;
      AckedFragmentsFit(fragments, s, before);
      StepOnlyFitting(fragments, Play(fragments, s, before), ev);
    }
  }

  /**
   With a message id of 8 or more, whatever was sent before and whatever acknowledgements arrive, no fragment is
   ever acknowledged: sending ends, if it ends, with every unicast fragment given up.
   */
  lemma {:induction false} LargeIdsAreNeverAcked(fragments: seq<Frame>, s: Sender, evs: seq<SenderEvent>)
    requires Idle(s) && FromTheWire(evs)
    requires forall f | f in fragments :: f.header.messageId >= 8
    ensures var t := Play(fragments, s, evs);
      Acked !in t.outcomes && (!t.phase.Between? ==> !t.ackReceived && t.currentMsgId >= 8)
  {
    AckedFragmentsFit(fragments, s, evs);
    var t := Play(fragments, s, evs);
    assert forall j | 0 <= j < |t.outcomes| :: fragments[j] in fragments;
    if !t.phase.Between? { assert fragments[|t.outcomes|] in fragments; }
  }

  // ----- acknowledgements of other sessions

  /** What node a hears when node b acknowledges fragment k of a message with this id that a sent it. */
  function AckBetween(a: uint8, b: uint8, id: uint8, k: uint16): Frame {
    Wire(R.AckFor(b, Header(k, a, b, b, 0, id, DATA, 1), a))
  }

  lemma AckBetweenFits(a: uint8, b: uint8, id: uint8, k: uint16)
    requires id < 8
    ensures FitsWire(AckBetween(a, b, id, k).header) && AckBetween(a, b, id, k).header.messageId == id
  {
  }

  /** The acknowledgement belongs to a session of two other nodes of the network, with the same message id. */
  ghost predicate BetweenStrangers(me: uint8, id: uint8, ack: Frame) {
    exists a: uint8, b: uint8, k: uint16 ::
      && ack == AckBetween(a, b, id, k)
      && DistanceVector.IsAddress(a) && DistanceVector.IsAddress(b) && a != b && a != me && b != me && k < 2048
  }

  function StrangersAck(me: uint8, id: uint8, k: uint16): Frame {
    AckBetween(if me == 1 then 2 else 1, if me == 1 || me == 2 then 3 else 2, id, k)
  }

  lemma StrangersAckMatches(me: uint8, id: uint8, k: uint16)
    requires id < 8 && k < 2048
    ensures BetweenStrangers(me, id, StrangersAck(me, id, k))
    ensures var h := StrangersAck(me, id, k).header; h.nextHopAddress != me && h.messageId == id && h.fragmentId == k
  {
  }

  /** Four steps acknowledge the next fragment, though its acknowledgement passes between other nodes. */
  lemma StrangersRound(fragments: seq<Frame>, t: Sender, hops: Hops, ack: Frame)
    requires t.phase.Between? && |t.outcomes| < |fragments|
    requires var h := fragments[|t.outcomes|].header;
      && h.destAddress != 0 && h.destAddress in hops
      && ack.header.nextHopAddress != t.me
      && ack.header.messageId == h.messageId && ack.header.fragmentId == h.fragmentId
    ensures var t1 := Step(fragments, t, Begin(hops));
            var t3 := Step(fragments, Step(fragments, t1, Emit), HandleAck(ack, hops));
            var t4 := Step(fragments, t3, Wake);
      t4.phase.Between? && t4.me == t.me && t4.outcomes == t.outcomes + [Acked]
  {
  }

  lemma PlayAppend(fragments: seq<Frame>, s: Sender, evs: seq<SenderEvent>, ev: SenderEvent)
    ensures Play(fragments, s, evs + [ev]) == Step(fragments, Play(fragments, s, evs), ev)
  {
    assert (evs + [ev])[..|evs|] == evs;
  }

  /**
   Acknowledgements are matched by message id and fragment number alone. So for every message whose ids fit the
   header there is a run in which all that arrives are acknowledgements between other nodes, and all fragments end
   as acknowledged.
   */
  lemma {:induction false} StrangersAcksSuffice(fragments: seq<Frame>, s: Sender, hops: Hops, id: uint8, n: nat)
    returns (evs: seq<SenderEvent>)
    requires Idle(s) && n <= |fragments| && id < 8
    requires forall f | f in fragments :: f.header.destAddress != 0 && f.header.destAddress in hops
    requires forall f | f in fragments :: f.header.messageId == id && f.header.fragmentId < 2048
    ensures var t := Play(fragments, s, evs); t.phase.Between? && t.me == s.me && t.outcomes == seq(n, i => Acked)
    ensures forall ev | ev in evs && ev.HandleAck? :: BetweenStrangers(s.me, id, ev.ack)
  {
    if n == 0 {
      evs := [];
    } else {
      evs := StrangersAcksSuffice(fragments, s, hops, id, n - 1);
      assert fragments[n - 1] in fragments;
      var k := fragments[n - 1].header.fragmentId;
      var ack := StrangersAck(s.me, id, k);
      StrangersAckMatches(s.me, id, k);
      StrangersRound(fragments, Play(fragments, s, evs), hops, ack);
      PlayFour(fragments, s, evs, Begin(hops), Emit, HandleAck(ack, hops), Wake);
      evs := evs + [Begin(hops)] + [Emit] + [HandleAck(ack, hops)] + [Wake];
    }
  }

  lemma StrangersFit(me: uint8, id: uint8, evs: seq<SenderEvent>)
    requires forall ev | ev in evs && ev.HandleAck? :: BetweenStrangers(me, id, ev.ack)
    ensures FromTheWire(evs)
  {
  }

  /**
   A message with one id, to a routable destination, can be acknowledged in full exactly when its id and the
   numbers of its fragments fit the header.
   */
  lemma AckedInFullIff(fragments: seq<Frame>, s: Sender, hops: Hops, id: uint8)
    requires Idle(s) && fragments != []
    requires forall f | f in fragments ::
      f.header.destAddress != 0 && f.header.destAddress in hops && f.header.messageId == id
    ensures (exists evs :: FromTheWire(evs) && Play(fragments, s, evs).outcomes == seq(|fragments|, i => Acked))
       <==> id < 8 && forall f | f in fragments :: f.header.fragmentId < 2048
  {
    if id < 8 && forall f | f in fragments :: f.header.fragmentId < 2048 {
      var evs := StrangersAcksSuffice(fragments, s, hops, id, |fragments|);
      StrangersFit(s.me, id, evs);
    }
    if evs :| FromTheWire(evs) && Play(fragments, s, evs).outcomes == seq(|fragments|, i => Acked) {
      AckedFragmentsFit(fragments, s, evs);
      assert forall j | 0 <= j < |fragments| :: Play(fragments, s, evs).outcomes[j].Acked?;
      assert fragments[0] in fragments;
    }
  }

  lemma PlayFour(fragments: seq<Frame>, s: Sender, evs: seq<SenderEvent>,
                 e1: SenderEvent, e2: SenderEvent, e3: SenderEvent, e4: SenderEvent)
    ensures Play(fragments, s, evs + [e1] + [e2] + [e3] + [e4])
         == Step(fragments, Step(fragments, Step(fragments, Step(fragments, Play(fragments, s, evs), e1), e2), e3), e4)
  {
    PlayAppend(fragments, s, evs, e1);
    PlayAppend(fragments, s, evs + [e1], e2);
    PlayAppend(fragments, s, evs + [e1] + [e2], e3);
    PlayAppend(fragments, s, evs + [e1] + [e2] + [e3], e4);
  }

  // ----- the loops of the source, against a script of the environment

  type ShortPacket = p: Packet | |p| >= 4 witness [0, 0, 0, 0]

  /** What surrounds one fragment: the routes when it starts, and the acknowledgements handled in each wait. */
  datatype Turn = Turn(hops: Hops, waits: seq<seq<ShortPacket>>)

  function HandleAll(s: Sender, acks: seq<ShortPacket>, hops: Hops): (r: Sender)
    ensures r.(ackReceived := s.ackReceived, sent := s.sent) == s
  {
    if acks == [] then s else Handle(HandleAll(s, acks[..|acks| - 1], hops), Decode(acks[|acks| - 1]), hops)
  }

  function Arriving(turn: Turn, attempt: nat): seq<ShortPacket> {
    if attempt < |turn.waits| then turn.waits[attempt] else []
  }

  /** One attempt: emit, handle what arrives, and leave the wait. */
  function Attempt(fragments: seq<Frame>, s: Sender, turn: Turn): Sender {
    var heard := HandleAll(Step(fragments, s, Emit), Arriving(turn, s.attempts), turn.hops);
    Step(fragments, heard, if heard.ackReceived then Wake else Timeout)
  }

  function Attempts(fragments: seq<Frame>, s: Sender, turn: Turn, fuel: nat): Sender
    decreases fuel
  {
    if s.phase.Emitting? && fuel > 0 then Attempts(fragments, Attempt(fragments, s, turn), turn, fuel - 1) else s
  }

  function SendOne(fragments: seq<Frame>, s: Sender, turn: Turn): Sender {
    Attempts(fragments, Step(fragments, s, Begin(turn.hops)), turn, MAX_RETRIES)
  }

  function SendAll(fragments: seq<Frame>, s: Sender, turns: seq<Turn>): Sender
    decreases |turns|
  {
    if turns == [] then s
    else SendOne(fragments, SendAll(fragments, s, turns[..|turns| - 1]), turns[|turns| - 1])
  }

  // How the loop over the attempts ends, and after how many emissions.

  /** An acknowledgement with these ids arrives in the j-th wait. */
  predicate Hears(turn: Turn, j: nat, msg: uint8, frag: uint16) {
    exists p | p in Arriving(turn, j) :: Parse(p).messageId == msg && Parse(p).fragmentId == frag
  }

  /** The first wait from the j-th on in which such an acknowledgement arrives; 7 if there is none. */
  function FirstHeard(turn: Turn, j: nat, msg: uint8, frag: uint16): nat
    decreases 7 - j
  {
    if j >= 7 then 7 else if Hears(turn, j, msg, frag) then j else FirstHeard(turn, j + 1, msg, frag)
  }

  lemma {:induction false} HandleAllSpec(s: Sender, acks: seq<ShortPacket>, hops: Hops, k: nat)
    ensures HandleAll(s, acks, hops).ackReceived
       <==> || s.ackReceived
            || exists p | p in acks ::
                 Parse(p).messageId == s.currentMsgId && Parse(p).fragmentId == s.currentFragmentId
    ensures Emissions(HandleAll(s, acks, hops).sent, k) == Emissions(s.sent, k)
  {
    if acks != [] {
      var before, last := acks[..|acks| - 1], acks[|acks| - 1];
      assert acks == before + [last];
      HandleAllSpec(s, before, hops, k);
      var t, ack := HandleAll(s, before, hops), Decode(last);
      PassesOnExactly(t, ack, hops);
      if ack.header.destAddress in hops { EmissionsOfOne(t.sent, k, PassedOn(Forward(ack, hops))); }
    }
  }

  lemma EmittedSpec(fragments: seq<Frame>, s: Sender, emitted: Sender)
    requires s.phase.Emitting? && emitted == Step(fragments, s, Emit)
    ensures emitted == s.(sent := emitted.sent, phase := Waiting)
    ensures Emissions(emitted.sent, |s.outcomes|) == Emissions(s.sent, |s.outcomes|) + 1
  {
    EmissionsOfOne(s.sent, |s.outcomes|, Own(|s.outcomes|, s.frame));
  }

  lemma EndedSpec(fragments: seq<Frame>, heard: Sender, t: Sender)
    requires heard.phase.Waiting? && heard.attempts < 7
    requires t == Step(fragments, heard, if heard.ackReceived then Wake else Timeout)
    ensures t.sent == heard.sent && t.ackReceived == heard.ackReceived
    ensures t.currentMsgId == heard.currentMsgId && t.currentFragmentId == heard.currentFragmentId
    ensures if heard.ackReceived then t.phase.Between? && t.outcomes == heard.outcomes + [Acked]
            else if heard.attempts < 6
            then t.phase.Emitting? && t.outcomes == heard.outcomes && t.attempts == heard.attempts + 1
            else t.phase.Between? && t.outcomes == heard.outcomes + [GaveUp]
  {
  }

  lemma HeardSpec(s: Sender, turn: Turn, j: nat, k: nat, heard: Sender)
    requires heard == HandleAll(s, Arriving(turn, j), turn.hops) && !s.ackReceived
    ensures heard.(ackReceived := s.ackReceived, sent := s.sent) == s
    ensures heard.ackReceived <==> Hears(turn, j, s.currentMsgId, s.currentFragmentId)
    ensures Emissions(heard.sent, k) == Emissions(s.sent, k)
  {
    HandleAllSpec(s, Arriving(turn, j), turn.hops, k);
  }

  lemma AttemptSpec(fragments: seq<Frame>, s: Sender, turn: Turn, t: Sender)
    requires s.phase.Emitting? && !s.ackReceived && s.attempts < 7 && t == Attempt(fragments, s, turn)
    ensures t.currentMsgId == s.currentMsgId && t.currentFragmentId == s.currentFragmentId
    ensures Emissions(t.sent, |s.outcomes|) == Emissions(s.sent, |s.outcomes|) + 1
    ensures if Hears(turn, s.attempts, s.currentMsgId, s.currentFragmentId)
            then t.phase.Between? && t.outcomes == s.outcomes + [Acked]
            else if s.attempts < 6
            then t.phase.Emitting? && t.outcomes == s.outcomes && t.attempts == s.attempts + 1 && !t.ackReceived
            else t.phase.Between? && t.outcomes == s.outcomes + [GaveUp]
  {
    var emitted := Step(fragments, s, Emit);
    EmittedSpec(fragments, s, emitted);
    var heard := HandleAll(emitted, Arriving(turn, s.attempts), turn.hops);
    HeardSpec(emitted, turn, s.attempts, |s.outcomes|, heard);
    EndedSpec(fragments, heard, t);
  }

  lemma {:induction false} AttemptsSpec(fragments: seq<Frame>, s: Sender, turn: Turn, fuel: nat, j: nat)
    requires s.phase.Emitting? && !s.ackReceived && s.attempts + fuel == 7 && fuel > 0
    requires j == FirstHeard(turn, s.attempts, s.currentMsgId, s.currentFragmentId)
    ensures var t := Attempts(fragments, s, turn, fuel);
      && t.phase.Between? && t.outcomes == s.outcomes + [if j < 7 then Acked else GaveUp]
      && Emissions(t.sent, |s.outcomes|) == Emissions(s.sent, |s.outcomes|) + (if j < 7 then j + 1 else 7) - s.attempts
      && s.attempts <= j <= 7
    decreases fuel
  {
    var t := Attempt(fragments, s, turn);
    AttemptSpec(fragments, s, turn, t);
    if t.phase.Emitting? { AttemptsSpec(fragments, t, turn, fuel - 1, j); }
  }

  /**
   A unicast fragment with a route is emitted once per wait up to the first wait in which an acknowledgement with its
   ids arrives, and is then acknowledged; without one it is emitted seven times and given up. A broadcast is emitted
   four times, a fragment without a route not at all.
   */
  lemma SendOneOutcome(fragments: seq<Frame>, s: Sender, turn: Turn)
    requires s.phase.Between? && |s.outcomes| < |fragments|
    ensures var h, t, k := fragments[|s.outcomes|].header, SendOne(fragments, s, turn), |s.outcomes|;
            var j, count := FirstHeard(turn, 0, h.messageId, h.fragmentId), Emissions(t.sent, k) - Emissions(s.sent, k);
      t.phase.Between?
      && if h.destAddress == 0 then t.outcomes == s.outcomes + [Flooded] && count == 4
         else if h.destAddress !in turn.hops then t.outcomes == s.outcomes + [NoRoute] && count == 0
         else if j < 7 then t.outcomes == s.outcomes + [Acked] && count == j + 1
         else t.outcomes == s.outcomes + [GaveUp] && count == 7
  {
    var f, k := fragments[|s.outcomes|], |s.outcomes|;
    var begun := Step(fragments, s, Begin(turn.hops));
    if f.header.destAddress == 0 {
      EmissionsOfBurst(s.sent, k, k, R.Burst(Frame(f.header.(sourceAddress := s.me), f.payload)));
    } else if f.header.destAddress in turn.hops {
      AttemptsSpec(fragments, begun, turn, MAX_RETRIES, FirstHeard(turn, 0, f.header.messageId, f.header.fragmentId));
    }
  }

  // Every such run is a run of steps, so all that holds of steps holds of it.

  lemma {:induction false} HandleAllIsPlay(fragments: seq<Frame>, s: Sender, evs: seq<SenderEvent>,
                                           acks: seq<ShortPacket>, hops: Hops)
    returns (evs': seq<SenderEvent>)
    ensures Play(fragments, s, evs') == HandleAll(Play(fragments, s, evs), acks, hops)
  {
    if acks == [] {
      evs' := evs;
    } else {
      var before := HandleAllIsPlay(fragments, s, evs, acks[..|acks| - 1], hops);
      var ev := HandleAck(Decode(acks[|acks| - 1]), hops);
      PlayAppend(fragments, s, before, ev);
      evs' := before + [ev];
    }
  }

  lemma {:induction false} AttemptsArePlay(fragments: seq<Frame>, s: Sender, evs: seq<SenderEvent>,
                                           turn: Turn, fuel: nat)
    returns (evs': seq<SenderEvent>)
    ensures Play(fragments, s, evs') == Attempts(fragments, Play(fragments, s, evs), turn, fuel)
    decreases fuel
  {
    var t := Play(fragments, s, evs);
    if t.phase.Emitting? && fuel > 0 {
      PlayAppend(fragments, s, evs, Emit);
      var heard := HandleAllIsPlay(fragments, s, evs + [Emit], Arriving(turn, t.attempts), turn.hops);
      var ev := if Play(fragments, s, heard).ackReceived then Wake else Timeout;
      PlayAppend(fragments, s, heard, ev);
      evs' := AttemptsArePlay(fragments, s, heard + [ev], turn, fuel - 1);
    } else {
      evs' := evs;
    }
  }

  lemma {:induction false} SendAllIsPlay(fragments: seq<Frame>, s: Sender, turns: seq<Turn>)
    returns (evs: seq<SenderEvent>)
    ensures Play(fragments, s, evs) == SendAll(fragments, s, turns)
    decreases |turns|
  {
    if turns == [] {
      evs := [];
    } else {
      var before := SendAllIsPlay(fragments, s, turns[..|turns| - 1]);
      var turn := turns[|turns| - 1];
      PlayAppend(fragments, s, before, Begin(turn.hops));
      evs := AttemptsArePlay(fragments, s, before + [Begin(turn.hops)], turn, MAX_RETRIES);
    }
  }

  function Frames(sent: seq<Emission>): seq<Frame> { seq(|sent|, i requires 0 <= i < |sent| => sent[i].frame) }

  lemma FramesAppend(sent: seq<Emission>, more: seq<Emission>, frames: seq<Frame>)
    requires Frames(more) == frames
    ensures Frames(sent + more) == Frames(sent) + frames
    ensures R.SerializeAll(Frames(sent + more)) == R.SerializeAll(Frames(sent)) + R.SerializeAll(frames)
  {
    assert Frames(sent + more) == Frames(sent) + frames;
  }

  /** One more call of the send function, of a frame of the log. */
  lemma LogOne(sent: seq<Packet>, base: nat, log: seq<Emission>, e: Emission, packet: Packet)
    requires base <= |sent| && sent[base..] == R.SerializeAll(Frames(log)) && packet == Serialize(e.frame)
    ensures (sent + [packet])[base..] == R.SerializeAll(Frames(log + [e]))
    ensures (sent + [packet])[..base] == sent[..base]
  {
    FramesAppend(log, [e], [e.frame]);
    assert (sent + [packet])[base..] == sent[base..] + [packet];
  }

  class StopAndWaitSender {
    const me: uint8
    var currentMsgId: uint8
    var currentFragmentId: uint16
    var ackReceived: bool
    // The calls of the send function; those from `base` on belong to the latest message.
    var sent: seq<Packet>
    ghost var base: nat
    // The value that the object stands for.
    ghost var abs: Sender

    ghost predicate Valid()
      reads this
    {
      && abs.me == me && abs.currentMsgId == currentMsgId && abs.currentFragmentId == currentFragmentId
      && abs.ackReceived == ackReceived
      && base <= |sent| && sent[base..] == R.SerializeAll(Frames(abs.sent))
    }

    constructor (me: uint8)
      ensures Valid() && Idle(abs) && sent == []
    {
      this.me := me;
      currentMsgId, currentFragmentId, ackReceived, sent := 0, 0, false, [];
      base := 0;
      abs := NewSender(me);
    }

    predicate CanPassOn(packet: ShortPacket, hops: Hops) {
      var h := Parse(packet);
      h.destAddress != me && h.nextHopAddress == me ==> h.destAddress in hops
    }

    method HandleAckPacket(packet: ShortPacket, hops: Hops)
      requires Valid() && CanPassOn(packet, hops)
      modifies this
      ensures Valid() && abs == Handle(old(abs), Decode(packet), hops)
      ensures base == old(base) && sent[..base] == old(sent[..base])
    {
      var h := Parse(packet);
      if h.destAddress != me && h.nextHopAddress == me {
        LogOne(sent, base, abs.sent, PassedOn(Forward(Decode(packet), hops)), PrepareHeaderToForward(packet, hops));
        sent := sent + [PrepareHeaderToForward(packet, hops)];
      }
      if h.messageId == currentMsgId && h.fragmentId == currentFragmentId {
        ackReceived := true;
      }
      abs := Handle(abs, Decode(packet), hops);
    }

    /** Sends the fragments of one message; the script says what the environment does meanwhile. */
    method SendFragments(fragments: seq<Frame>, turns: seq<Turn>)
      requires Valid() && abs.phase.Between? && |turns| == |fragments|
      requires forall t, k, p | t in turns && 0 <= k < |t.waits| && p in t.waits[k] :: CanPassOn(p, t.hops)
      modifies this
      ensures Valid() && abs.phase.Between? && |abs.outcomes| == |fragments|
      ensures abs == SendAll(fragments, old(abs).(outcomes := [], sent := []), turns)
      ensures base == |old(sent)| && sent[..base] == old(sent)
    {
      base := |sent|;
      abs := abs.(outcomes := [], sent := []);
      ghost var start := abs;
      var i := 0;
      while i < |fragments|
        invariant 0 <= i <= |fragments| && Valid() && abs.phase.Between? && |abs.outcomes| == i
        invariant abs == SendAll(fragments, start, turns[..i])
        invariant base == |old(sent)| && sent[..base] == old(sent)
      {
        assert turns[..i + 1][..i] == turns[..i];
        SendWithRetry(fragments, i, turns[i]);
        i := i + 1;
      }
      assert turns[..i] == turns;
    }

    method SendWithRetry(fragments: seq<Frame>, i: nat, turn: Turn)
      requires Valid() && abs.phase.Between? && i < |fragments| && |abs.outcomes| == i
      requires forall k, p | 0 <= k < |turn.waits| && p in turn.waits[k] :: CanPassOn(p, turn.hops)
      modifies this
      ensures Valid() && abs.phase.Between? && |abs.outcomes| == i + 1
      ensures abs == SendOne(fragments, old(abs), turn)
      ensures base == old(base) && sent[..base] == old(sent[..base])
    {
      var unicast, packet := Prepare(fragments, i, turn.hops);
      if !unicast {
        return;
      }
      ghost var begun := abs;
      var attempts := 0;
      while attempts < MAX_RETRIES
        invariant 0 <= attempts <= MAX_RETRIES && Valid()
        invariant if attempts < MAX_RETRIES then Trying(fragments, i, attempts, packet)
                  else abs.phase.Between? && |abs.outcomes| == i + 1
        invariant Attempts(fragments, abs, turn, MAX_RETRIES - attempts)
               == Attempts(fragments, begun, turn, MAX_RETRIES)
        invariant base == old(base) && sent[..base] == old(sent[..base])
      {
        var delivered := TryOnce(fragments, i, turn, attempts, packet);
        if delivered {
          return;
        }
        attempts := attempts + 1;
      }
    }

    /** The part of `sendWithRetry` before its loop: a broadcast is sent, a unicast packet is made if it has a route. */
    method Prepare(fragments: seq<Frame>, i: nat, hops: Hops) returns (unicast: bool, packet: Packet)
      requires Valid() && abs.phase.Between? && i < |fragments| && |abs.outcomes| == i
      modifies this
      ensures Valid() && abs == Step(fragments, old(abs), Begin(hops))
      ensures if unicast then Trying(fragments, i, 0, packet) else abs.phase.Between? && |abs.outcomes| == i + 1
      ensures base == old(base) && sent[..base] == old(sent[..base])
    {
      var header := fragments[i].header.(sourceAddress := me);
      var payload := fragments[i].payload;
      currentMsgId := header.messageId;
      currentFragmentId := header.fragmentId;
      unicast, packet := false, [];
      if header.destAddress == 0 {
        ghost var burst := R.Burst(Frame(header, payload));
        FramesAppend(abs.sent, OwnAll(i, burst), burst);
        SendBroadcast(header, payload);
      } else if header.destAddress in hops {
        header := header.(nextHopAddress := hops[header.destAddress], payloadLength := |payload| % 0x100);
        unicast, packet := true, AddHeaderToPayload(header, payload);
        ackReceived := false;
      }
      abs := Step(fragments, abs, Begin(hops));
    }

    ghost predicate Trying(fragments: seq<Frame>, i: nat, attempts: nat, packet: Packet)
      reads this
    {
      && abs.phase.Emitting? && abs.attempts == attempts && Serialize(abs.frame) == packet
      && |abs.outcomes| == i < |fragments|
    }

    /** The body of the retry loop: emit, then wait for the acknowledgement or the timeout. */
    method TryOnce(fragments: seq<Frame>, i: nat, turn: Turn, attempts: nat, packet: Packet) returns (delivered: bool)
      requires Valid() && attempts < MAX_RETRIES && Trying(fragments, i, attempts, packet)
      requires forall k, p | 0 <= k < |turn.waits| && p in turn.waits[k] :: CanPassOn(p, turn.hops)
      modifies this
      ensures Valid() && abs == Attempt(fragments, old(abs), turn)
      ensures base == old(base) && sent[..base] == old(sent[..base])
      ensures if delivered || attempts + 1 == MAX_RETRIES then abs.phase.Between? && |abs.outcomes| == i + 1
              else Trying(fragments, i, attempts + 1, packet)
    {
      EmitPacket(fragments, packet);
      HandleAcks(if attempts < |turn.waits| then turn.waits[attempts] else [], turn.hops);
      delivered := ackReceived;
      abs := Step(fragments, abs, if delivered then Wake else Timeout);
    }

    method EmitPacket(fragments: seq<Frame>, packet: Packet)
      requires Valid() && abs.phase.Emitting? && Serialize(abs.frame) == packet
      modifies this
      ensures Valid() && abs == Step(fragments, old(abs), Emit)
      ensures base == old(base) && sent[..base] == old(sent[..base])
    {
      LogOne(sent, base, abs.sent, Own(|abs.outcomes|, abs.frame), packet);
      sent := sent + [packet];
      abs := Step(fragments, abs, Emit);
    }

    /** The other threads' part of a wait. */
    method HandleAcks(acks: seq<ShortPacket>, hops: Hops)
      requires Valid() && forall p | p in acks :: CanPassOn(p, hops)
      modifies this
      ensures Valid() && abs == HandleAll(old(abs), acks, hops)
      ensures base == old(base) && sent[..base] == old(sent[..base])
    {
      var k := 0;
      while k < |acks|
        invariant 0 <= k <= |acks| && Valid() && abs == HandleAll(old(abs), acks[..k], hops)
        invariant base == old(base) && sent[..base] == old(sent[..base])
      {
        assert acks[..k + 1][..k] == acks[..k];
        HandleAckPacket(acks[k], hops);
        k := k + 1;
      }
      assert acks[..k] == acks;
    }

    method SendBroadcast(header: Header, payload: seq<Byte>)
      modifies this`sent
      ensures sent == old(sent) + R.SerializeAll(R.Burst(Frame(header, payload)))
    {
      var tries := 1;
      ghost var burst := R.SerializeAll(R.Burst(Frame(header, payload)));
      while tries < R.MAX_BCAST_TRIES
        invariant 1 <= tries <= R.MAX_BCAST_TRIES && sent == old(sent) + burst[..tries - 1]
      {
        var h := header.(nextHopAddress := 0, payloadLength := |payload| % 0x100);
        sent := sent + [AddHeaderToPayload(h, payload)];
        tries := tries + 1;
      }
    }
  }
}
