/**
 How a unicast session can end: it can always be completed, and being acknowledged means being delivered exactly
 when no other session has its message id.
 */
module UnicastOutcomes {
  import opened PacketHeader
  import opened Fragmentation
  import opened MultihopRelay
  import S = StopAndWaitSender
  import R = StopAndWaitReceiver
  import opened UnicastSession

  // ----- a run without losses

  lemma RunAppend(job: Job, others: set<uint8>, worlds: seq<World>, events: seq<Event>, ev: Event)
    requires Run(job, others, worlds, events) && Admissible(job, others, worlds[|events|], ev)
    ensures Run(job, others, worlds + [Next(job, worlds[|events|], ev)], events + [ev])
  {
    var worlds', events' := worlds + [Next(job, worlds[|events|], ev)], events + [ev];
    forall i: nat | i < |events'| ensures StepAt(job, others, worlds', events', i) {
      if i < |events| { assert StepAt(job, others, worlds, events, i); }
    }
  }

  /** The sender has the first k fragments acknowledged and is about to send the next. */
  ghost predicate AckedUpTo(job: Job, w: World, k: nat) {
    w.sender.phase.Between? && w.sender.outcomes == seq(k, i => S.Acked)
  }

  /** The frame of fragment k is on its way: begun and emitted, its acknowledgement not heard. */
  predicate Waiting(job: Job, w: World, k: nat)
    requires k < FragmentCount(|job.message|)
  {
    && w.sender.phase.Waiting? && w.sender.me == job.src && |w.sender.outcomes| == k
    && w.sender.currentMsgId == job.id && w.sender.currentFragmentId == k
    && w.sender.sent != [] && IsFragment(job, Wire(w.sender.sent[|w.sender.sent| - 1].frame), k)
  }

  lemma SendNext(job: Job, w: World, hops: Hops, k: nat)
    requires Supported(job) && SenderInv(job, w) && AckedUpTo(job, w, k) && k < FragmentCount(|job.message|)
    requires job.dst as int in hops
    ensures var w' := Next(job, Next(job, w, SenderStep(S.Begin(hops))), SenderStep(S.Emit));
      Waiting(job, w', k) && w'.sender.outcomes == w.sender.outcomes && w'.receiver == w.receiver
  {
    FragmentsFit(job, k);
    var w1 := Next(job, w, SenderStep(S.Begin(hops)));
    BeginStep(job, w, hops);
    OnWireFragment(job, w1.sender.frame, k);
  }

  /** What the sender last emitted can arrive at the receiver, and is acknowledged. */
  lemma Arrive(job: Job, w: World, f: Frame, back: Hops, k: nat)
    requires Supported(job) && k < FragmentCount(|job.message|) && Waiting(job, w, k) && w.receiver.me == job.dst
    requires job.src as int in back && f == Wire(w.sender.sent[|w.sender.sent| - 1].frame)
    ensures Admissible(job, {}, w, ToReceiver(f, back))
    ensures var w' := Next(job, w, ToReceiver(f, back));
      && w'.sender == w.sender && w'.fromReceiver != []
      && Acknowledges(job, w'.fromReceiver[|w'.fromReceiver| - 1].header, k)
  {
    OwnFrameIsAccepted(job, w.receiver, f, back, k);
    assert Relayed(Wire(w.sender.sent[|w.sender.sent| - 1].frame), f);
  }

  predicate Acknowledges(job: Job, h: Header, k: nat) {
    h.messageId == job.id && h.fragmentId == k && h.destAddress == job.src
  }

  lemma AckFits(job: Job, g: Frame, k: nat)
    requires Supported(job) && k < 0x100 && Acknowledges(job, g.header, k)
    ensures FitsWire(Wire(g).header) && Acknowledges(job, Wire(g).header, k)
  {
  }

  lemma EndWait(job: Job, w: World, f: Frame, hops: Hops, k: nat)
    requires k < FragmentCount(|job.message|) && Waiting(job, w, k) && Acknowledges(job, f.header, k)
    ensures var w' := Next(job, Next(job, w, ToSender(f, hops)), SenderStep(S.Wake));
      w'.sender.phase.Between? && w'.sender.outcomes == w.sender.outcomes + [S.Acked]
  {
  }

  /** The receiver's last acknowledgement can arrive at the sender, and ends the wait. */
  lemma HearAck(job: Job, w: World, f: Frame, hops: Hops, k: nat)
    requires Supported(job) && k < FragmentCount(|job.message|) && Waiting(job, w, k) && w.fromReceiver != []
    requires f == Wire(w.fromReceiver[|w.fromReceiver| - 1])
    requires Acknowledges(job, w.fromReceiver[|w.fromReceiver| - 1].header, k)
    ensures Admissible(job, {}, w, ToSender(f, hops))
    ensures var w' := Next(job, Next(job, w, ToSender(f, hops)), SenderStep(S.Wake));
      w'.sender.phase.Between? && w'.sender.outcomes == w.sender.outcomes + [S.Acked]
  {
    FragmentsFit(job, k);
    AckFits(job, w.fromReceiver[|w.fromReceiver| - 1], k);
    EndWait(job, w, f, hops, k);
    assert Relayed(Wire(w.fromReceiver[|w.fromReceiver| - 1]), f);
  }

  lemma SendHalf(job: Job, worlds: seq<World>, events: seq<Event>, hops: Hops, k: nat)
    returns (worlds': seq<World>, events': seq<Event>)
    requires Supported(job) && Run(job, {}, worlds, events) && Start(job, worlds[0])
    requires AckedUpTo(job, worlds[|events|], k) && k < FragmentCount(|job.message|) && job.dst as int in hops
    ensures Run(job, {}, worlds', events') && worlds'[0] == worlds[0] && |events'| == |events| + 2
    ensures Waiting(job, worlds'[|events'|], k)
    ensures worlds'[|events'|].sender.outcomes == worlds[|events|].sender.outcomes
  {
    var w := worlds[|events|];
    RunInv(job, {}, worlds, events, |events|);
    SendNext(job, w, hops, k);
    var w1 := Next(job, w, SenderStep(S.Begin(hops)));
    RunAppend(job, {}, worlds, events, SenderStep(S.Begin(hops)));
    RunAppend(job, {}, worlds + [w1], events + [SenderStep(S.Begin(hops))], SenderStep(S.Emit));
    worlds' := worlds + [w1] + [Next(job, w1, SenderStep(S.Emit))];
    events' := events + [SenderStep(S.Begin(hops))] + [SenderStep(S.Emit)];
  }

  /** The fragment arrives, its acknowledgement is heard, and the sender wakes. */
  lemma Reply(job: Job, w: World, hops: Hops, back: Hops, k: nat) returns (e1: Event, w1: World, e2: Event, w2: World)
    requires Supported(job) && k < FragmentCount(|job.message|) && Waiting(job, w, k) && w.receiver.me == job.dst
    requires job.src as int in back
    ensures Admissible(job, {}, w, e1) && w1 == Next(job, w, e1)
    ensures Admissible(job, {}, w1, e2) && w2 == Next(job, w1, e2)
    ensures var s := Next(job, w2, SenderStep(S.Wake)).sender;
      s.phase.Between? && s.outcomes == w.sender.outcomes + [S.Acked]
  {
    e1 := ToReceiver(Wire(w.sender.sent[|w.sender.sent| - 1].frame), back);
    Arrive(job, w, e1.frame, back, k);
    w1 := Next(job, w, e1);
    e2 := ToSender(Wire(w1.fromReceiver[|w1.fromReceiver| - 1]), hops);
    HearAck(job, w1, e2.frame, hops, k);
    w2 := Next(job, w1, e2);
  }

  lemma ReplyHalf(job: Job, worlds: seq<World>, events: seq<Event>, hops: Hops, back: Hops, k: nat)
    returns (worlds': seq<World>, events': seq<Event>)
    requires Supported(job) && Run(job, {}, worlds, events) && Start(job, worlds[0])
    requires k < FragmentCount(|job.message|) && Waiting(job, worlds[|events|], k) && job.src as int in back
    ensures Run(job, {}, worlds', events') && worlds'[0] == worlds[0] && |events'| == |events| + 3
    ensures var s := worlds'[|events'|].sender;
      s.phase.Between? && s.outcomes == worlds[|events|].sender.outcomes + [S.Acked]
  {
    RunInv(job, {}, worlds, events, |events|);
    var e1, w1, e2, w2 := Reply(job, worlds[|events|], hops, back, k);
    RunAppend(job, {}, worlds, events, e1);
    RunAppend(job, {}, worlds + [w1], events + [e1], e2);
    RunAppend(job, {}, worlds + [w1] + [w2], events + [e1] + [e2], SenderStep(S.Wake));
    worlds' := worlds + [w1] + [w2] + [Next(job, w2, SenderStep(S.Wake))];
    events' := events + [e1] + [e2] + [SenderStep(S.Wake)];
  }

  /** The first k fragments in five events each, none of them a loss, a repetition or a timeout. */
  lemma {:induction false} Rounds(job: Job, w: World, hops: Hops, back: Hops, k: nat)
    returns (worlds: seq<World>, events: seq<Event>)
    requires Supported(job) && Start(job, w) && k <= FragmentCount(|job.message|)
    requires job.dst as int in hops && job.src as int in back
    ensures Run(job, {}, worlds, events) && worlds[0] == w && |events| == 5 * k && AckedUpTo(job, worlds[|events|], k)
  {
    if k == 0 {
      worlds, events := [w], [];
    } else {
      worlds, events := Rounds(job, w, hops, back, k - 1);
      worlds, events := SendHalf(job, worlds, events, hops, k - 1);
      worlds, events := ReplyHalf(job, worlds, events, hops, back, k - 1);
    }
  }

  /**
   With routes in both tables and a channel that loses nothing, every session can be completed: in five events a
   fragment, with every fragment acknowledged and the message delivered.
   */
  lemma SessionCompletes(job: Job, w: World, hops: Hops, back: Hops) returns (worlds: seq<World>, events: seq<Event>)
    requires Supported(job) && Start(job, w) && job.dst as int in hops && job.src as int in back
    ensures Run(job, {}, worlds, events) && worlds[0] == w && |events| == 5 * FragmentCount(|job.message|)
    ensures Finished(job, worlds[|events|]) && Original(job) in worlds[|events|].delivered
  {
    worlds, events := Rounds(job, w, hops, back, FragmentCount(|job.message|));
    EndToEndDelivery(job, {}, worlds, events, |events|);
  }

  // ----- sessions that share an id

  function NewWorld(job: Job): World {
    World(S.NewSender(job.src), R.Receiver(job.dst, {}, map[]), [], [])
  }

  function Lift(ev: S.SenderEvent): Event {
    match ev
    case HandleAck(ack, hops) => ToSender(ack, hops)
    case _ => SenderStep(ev)
  }

  /** A run of the sender alone, in which all that arrives is other traffic, is a run of the session. */
  lemma {:induction false} SenderAlone(job: Job, others: set<uint8>, evs: seq<S.SenderEvent>)
    returns (worlds: seq<World>, events: seq<Event>)
    requires forall ev | ev in evs && ev.HandleAck? :: Foreign(others, ev.ack)
    ensures Run(job, others, worlds, events) && worlds[0] == NewWorld(job)
    ensures worlds[|events|] == NewWorld(job).(sender := S.Play(Fragments(job), S.NewSender(job.src), evs))
    ensures forall e | e in events :: !e.ToReceiver? && (e.ToSender? ==> S.HandleAck(e.frame, e.hops) in evs)
  {
    if evs == [] {
      worlds, events := [NewWorld(job)], [];
    } else {
      var before, ev := evs[..|evs| - 1], evs[|evs| - 1];
      assert ev in evs && forall x | x in before :: x in evs;
      worlds, events := SenderAlone(job, others, before);
      RunAppend(job, others, worlds, events, Lift(ev));
      worlds, events := worlds + [Next(job, worlds[|events|], Lift(ev))], events + [Lift(ev)];
    }
  }

  lemma FragmentsOfJob(job: Job)
    requires Supported(job)
    ensures forall f | f in Fragments(job) ::
      f.header.destAddress == job.dst && f.header.messageId == job.id && f.header.fragmentId < 2048
  {
    forall k | 0 <= k < |Fragments(job)| ensures
        var h := Fragments(job)[k].header; h.destAddress == job.dst && h.messageId == job.id && h.fragmentId < 2048 {
      FragmentsFit(job, k);
    }
  }

  lemma StrangersAreForeign(job: Job, others: set<uint8>, ack: Frame)
    requires Supported(job) && job.id in others && S.BetweenStrangers(job.src, job.id, ack)
    ensures Foreign(others, ack)
  {
    var a: uint8, b: uint8, k: uint16 :| ack == S.AckBetween(a, b, job.id, k);
    S.AckBetweenFits(a, b, job.id, k);
  }

  /** If another session has the same id, its acknowledgements can end all waits although nothing was delivered. */
  lemma SharedIdLosesMessage(job: Job, others: set<uint8>) returns (worlds: seq<World>, events: seq<Event>)
    requires Supported(job) && job.id in others
    ensures Run(job, others, worlds, events) && Start(job, worlds[0])
    ensures Finished(job, worlds[|events|]) && worlds[|events|].delivered == []
    ensures forall ev | ev in events ::
      !ev.ToReceiver? && (ev.ToSender? ==> S.BetweenStrangers(job.src, job.id, ev.frame))
  {
    FragmentsOfJob(job);
    var evs := StrangersScript(job, Fragments(job));
    forall ev | ev in evs && ev.HandleAck? ensures Foreign(others, ev.ack) {
      StrangersAreForeign(job, others, ev.ack);
    }
    worlds, events := SenderAlone(job, others, evs);
  }

  lemma StrangersScript(job: Job, fragments: seq<Frame>) returns (evs: seq<S.SenderEvent>)
    requires Supported(job) && forall f | f in fragments ::
      f.header.destAddress == job.dst && f.header.messageId == job.id && f.header.fragmentId < 2048
    ensures var outcomes := S.Play(fragments, S.NewSender(job.src), evs).outcomes;
      |outcomes| == |fragments| && forall o | o in outcomes :: o.Acked?
    ensures forall ev | ev in evs && ev.HandleAck? :: S.BetweenStrangers(job.src, job.id, ev.ack)
  {
    evs := S.StrangersAcksSuffice(fragments, S.NewSender(job.src), map[job.dst as int := job.dst], job.id, |fragments|);
  }

  /**
   Every finished run has delivered the message, whatever the channel and the other sessions do, exactly when no
   other session has its message id.
   */
  lemma AckedMeansDeliveredIff(job: Job, others: set<uint8>)
    requires Supported(job)
    ensures job.id !in others
       <==> forall worlds: seq<World>, events: seq<Event> |
              Run(job, others, worlds, events) && Start(job, worlds[0]) && Finished(job, worlds[|events|]) ::
              Original(job) in worlds[|events|].delivered
  {
    if job.id in others {
      var worlds, events := SharedIdLosesMessage(job, others);
      assert Original(job) !in worlds[|events|].delivered;
    } else {
      forall worlds: seq<World>, events: seq<Event> |
          Run(job, others, worlds, events) && Start(job, worlds[0]) && Finished(job, worlds[|events|])
        ensures Original(job) in worlds[|events|].delivered
      {
        EndToEndDelivery(job, others, worlds, events, |events|);
      }
    }
  }
}
