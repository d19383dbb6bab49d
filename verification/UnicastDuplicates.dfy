/** How often a session delivers its message when the channel does not duplicate. */
module UnicastDuplicates {
  import opened PacketHeader
  import opened Fragmentation
  import opened Reassembly
  import opened MultihopRelay
  import opened FiniteSets
  import S = StopAndWaitSender
  import R = StopAndWaitReceiver
  import opened UnicastSession

  predicate OwnArrival(job: Job, ev: Event) { ev.ToReceiver? && ev.frame.header.messageId == job.id }

  /** `origin` names, for each arrival of the session, the emission that it came from; no emission arrives twice. */
  ghost predicate NoDuplicates(job: Job, worlds: seq<World>, events: seq<Event>, origin: seq<nat>)
    requires |worlds| == |events| + 1 == |origin| + 1
  {
    && (forall i | 0 <= i < |events| && OwnArrival(job, events[i]) :: CameFrom(worlds[i], events[i].frame, origin[i]))
    && (forall i, j | 0 <= i < j < |events| && OwnArrival(job, events[i]) && OwnArrival(job, events[j]) ::
          origin[i] != origin[j])
  }

  predicate CameFrom(w: World, f: Frame, p: nat) {
    p < |w.sender.sent| && Relayed(Wire(w.sender.sent[p].frame), f)
  }

  // ----- every delivery uses up an arrival of fragment 0

  predicate Opens(job: Job, ev: Event) { OwnArrival(job, ev) && ev.frame.header.fragmentId == 0 }

  function Openings(job: Job, events: seq<Event>): set<nat> { set j: nat | j < |events| && Opens(job, events[j]) }

  function Delivered(job: Job, w: World): nat { multiset(w.delivered)[Original(job)] }

  ghost function Used(job: Job, w: World): nat { Delivered(job, w) + if 0 in Held(job, w) then 1 else 0 }

  lemma ForeignUses(job: Job, w: World, f: Frame, hops: Hops)
    requires Supported(job) && f.header.messageId != job.id && FitsWire(f.header)
    requires R.Complete(f) && (R.MustForward(w.receiver, f.header) ==> f.header.destAddress in hops)
    ensures Used(job, Next(job, w, ToReceiver(f, hops))) == Used(job, w)
  {
    var w', r := Next(job, w, ToReceiver(f, hops)), R.Receive(w.receiver, f, hops);
    ForeignFrameKeepsApart(job, w.receiver, f, hops, r);
    assert Held(job, w') == Held(job, w);
    assert multiset(w'.delivered) == multiset(w.delivered) + multiset(r.delivered);
    assert Original(job) !in r.delivered;
  }

  lemma OwnUses(job: Job, w: World, w': World, f: Frame, hops: Hops, k: nat)
    requires Supported(job) && BufferInv(job, w) && k < FragmentCount(|job.message|) && IsFragment(job, f, k)
    requires R.Complete(f) && !R.MustForward(w.receiver, f.header) && w' == Next(job, w, ToReceiver(f, hops))
    ensures Used(job, w') <= Used(job, w) + (if k == 0 then 1 else 0)
  {
    OwnFrameInserted(job, w.receiver, f, hops, k);
    InsertRefines(w.receiver.buffers, job.id, job.message, Held(job, w), k);
    var full := InsertChunk(w.receiver.buffers, job.id, job.message, k).full;
    OwnFrameBuffered(job, w, w', k, full);
    assert 0 in All(job.message);
    if full == [] {
      assert w'.delivered == w.delivered;
    } else {
      assert multiset(w'.delivered) == multiset(w.delivered) + multiset([Original(job)]);
    }
  }

  lemma StepUses(job: Job, others: set<uint8>, w: World, ev: Event)
    requires Supported(job) && job.id !in others && BufferInv(job, w) && SenderInv(job, w)
    requires Admissible(job, others, w, ev)
    ensures Used(job, Next(job, w, ev)) <= Used(job, w) + (if Opens(job, ev) then 1 else 0)
  {
    match ev
    case SenderStep(_) =>
      assert Held(job, Next(job, w, ev)) == Held(job, w);
    case ToSender(_, _) =>
      assert Held(job, Next(job, w, ev)) == Held(job, w);
    case ToReceiver(f, hops) =>
      if f.header.messageId != job.id {
        ForeignUses(job, w, f, hops);
      } else {
        var k := SentFragment(job, w, f);
        OwnFrameIsAccepted(job, w.receiver, f, hops, k);
        OwnUses(job, w, Next(job, w, ev), f, hops, k);
      }
  }

  lemma OpeningsAppend(job: Job, events: seq<Event>, ev: Event)
    ensures |Openings(job, events + [ev])| == |Openings(job, events)| + (if Opens(job, ev) then 1 else 0)
  {
    var n := |events|;
    assert Openings(job, events + [ev]) == Openings(job, events) + (if Opens(job, ev) then {n} else {});
  }

  lemma UsesNext(job: Job, others: set<uint8>, w: World, w': World, before: seq<Event>, ev: Event)
    requires Supported(job) && job.id !in others && BufferInv(job, w) && SenderInv(job, w)
    requires Admissible(job, others, w, ev) && w' == Next(job, w, ev) && Used(job, w) <= |Openings(job, before)|
    ensures Used(job, w') <= |Openings(job, before + [ev])|
  {
    StepUses(job, others, w, ev);
    OpeningsAppend(job, before, ev);
  }

  lemma StartUses(job: Job, w: World)
    requires Start(job, w)
    ensures Used(job, w) == 0
  {
    assert Held(job, w) == {};
  }

  lemma RunUsesNext(job: Job, others: set<uint8>, worlds: seq<World>, events: seq<Event>, i: nat, before: seq<Event>)
    requires Supported(job) && job.id !in others && Run(job, others, worlds, events) && Start(job, worlds[0])
    requires i < |events| && Used(job, worlds[i]) <= |Openings(job, before)|
    ensures Used(job, worlds[i + 1]) <= |Openings(job, before + [events[i]])|
  {
    RunInv(job, others, worlds, events, i);
    assert StepAt(job, others, worlds, events, i);
    UsesNext(job, others, worlds[i], worlds[i + 1], before, events[i]);
  }

  lemma {:induction false} RunUses(job: Job, others: set<uint8>, worlds: seq<World>, events: seq<Event>, i: nat,
                                   w: World, before: seq<Event>)
    requires Supported(job) && job.id !in others && Run(job, others, worlds, events) && Start(job, worlds[0])
    requires i < |worlds| && w == worlds[i] && before == events[..i]
    ensures Used(job, w) <= |Openings(job, before)|
  {
    if i == 0 {
      StartUses(job, w);
    } else {
      RunUses(job, others, worlds, events, i - 1, worlds[i - 1], events[..i - 1]);
      RunUsesNext(job, others, worlds, events, i - 1, events[..i - 1]);
      assert before == events[..i - 1] + [events[i - 1]];
    }
  }

  // ----- arrivals of fragment 0 come from different emissions of fragment 0

  function Positions(sent: seq<S.Emission>, k: nat): set<nat> {
    set p: nat | p < |sent| && sent[p].Own? && sent[p].index == k
  }

  lemma {:induction false} PositionsAreEmissions(sent: seq<S.Emission>, k: nat)
    ensures |Positions(sent, k)| == S.Emissions(sent, k)
  {
    if sent != [] {
      var before, last := sent[..|sent| - 1], sent[|sent| - 1];
      PositionsAreEmissions(before, k);
      var n := |before|;
      assert Positions(sent, k) == Positions(before, k) + (if last.Own? && last.index == k then {n} else {});
    }
  }

  lemma {:induction false} SentGrows(job: Job, others: set<uint8>, worlds: seq<World>, events: seq<Event>,
                                     i: nat, j: nat)
    requires Run(job, others, worlds, events) && i <= j < |worlds|
    ensures worlds[i].sender.sent <= worlds[j].sender.sent
    decreases j
  {
    if i < j {
      SentGrows(job, others, worlds, events, i, j - 1);
      assert StepAt(job, others, worlds, events, j - 1);
    }
  }

  lemma OriginOfOpening(job: Job, w: World, f: Frame, p: nat)
    requires Supported(job) && SenderInv(job, w) && CameFrom(w, f, p)
    requires f.header.messageId == job.id && f.header.fragmentId == 0
    ensures w.sender.sent[p].Own? && w.sender.sent[p].index == 0
  {
    var e := w.sender.sent[p];
    assert e in w.sender.sent && OwnEmission(job, e);
    FragmentsFit(job, e.index);
  }

  lemma OpeningsFromEmissions(job: Job, others: set<uint8>, worlds: seq<World>, events: seq<Event>, origin: seq<nat>)
    requires Supported(job) && job.id !in others
    requires Run(job, others, worlds, events) && Start(job, worlds[0])
    requires |origin| == |events| && NoDuplicates(job, worlds, events, origin)
    ensures |Openings(job, events)| <= S.Emissions(worlds[|events|].sender.sent, 0)
  {
    var sent := worlds[|events|].sender.sent;
    forall i | i in Openings(job, events) ensures origin[i] in Positions(sent, 0) {
      RunInv(job, others, worlds, events, i);
      OriginOfOpening(job, worlds[i], events[i].frame, origin[i]);
      SentGrows(job, others, worlds, events, i, |events|);
    }
    InjectionSize(Openings(job, events), Positions(sent, 0), origin);
    PositionsAreEmissions(sent, 0);
  }

  lemma {:induction false} RunOrdered(job: Job, others: set<uint8>, worlds: seq<World>, events: seq<Event>, i: nat)
    requires Run(job, others, worlds, events) && S.Idle(worlds[0].sender) && i < |worlds|
    ensures S.Ordered(Fragments(job), worlds[i].sender)
  {
    if i == 0 {
      S.IdleOrdered(Fragments(job), worlds[0].sender);
    } else {
      RunOrdered(job, others, worlds, events, i - 1);
      assert StepAt(job, others, worlds, events, i - 1);
      var s := worlds[i - 1].sender;
      match events[i - 1]
      case SenderStep(e) => S.StepOrdered(Fragments(job), s, e);
      case ToSender(f, hops) => S.StepOrdered(Fragments(job), s, S.HandleAck(f, hops));
      case ToReceiver(f, hops) =>
    }
  }

  /**
   Over a channel that loses and reorders but does not duplicate, the receiver delivers the session's message at
   most seven times, in every run and whatever the other sessions send.
   */
  lemma AtMostSevenDeliveries(job: Job, others: set<uint8>, worlds: seq<World>, events: seq<Event>, origin: seq<nat>)
    requires Supported(job) && job.id !in others
    requires Run(job, others, worlds, events) && Start(job, worlds[0])
    requires |origin| == |events| && NoDuplicates(job, worlds, events, origin)
    ensures multiset(worlds[|events|].delivered)[Original(job)] <= 7
  {
    assert events[..|events|] == events;
    RunUses(job, others, worlds, events, |events|, worlds[|events|], events);
    OpeningsFromEmissions(job, others, worlds, events, origin);
    RunOrdered(job, others, worlds, events, |events|);
    assert S.CountOk(worlds[|events|].sender, 0);
  }
}
