/**
 Seven deliveries do happen without any duplication by the channel: when all acknowledgements are lost, the seven
 copies of every fragment can arrive one set after another.
 */
module SevenDeliveries {
  import opened Fragmentation
  import opened Reassembly
  import opened MultihopRelay
  import S = StopAndWaitSender
  import R = StopAndWaitReceiver
  import opened UnicastSession
  import opened UnicastDuplicates
  import opened UnicastOutcomes

  // ----- the sender gives up on every fragment

  /** The first m emissions are seven copies of each fragment, in order. */
  ghost predicate Copied(job: Job, sent: seq<S.Emission>, m: nat) {
    |sent| == m && forall p: nat | p < m :: CopyOf(job, sent[p], p / 7)
  }

  predicate CopyOf(job: Job, e: S.Emission, k: nat) {
    k < FragmentCount(|job.message|) && e == S.Own(k, e.frame) && IsFragment(job, Wire(e.frame), k)
  }

  /** The sender is about to emit fragment k for the (a + 1)-th time. */
  ghost predicate Trying(job: Job, w: World, k: nat, a: nat) {
    && k < FragmentCount(|job.message|) && a < S.MAX_RETRIES
    && w.sender.phase.Emitting? && w.sender.attempts == a && |w.sender.outcomes| == k && !w.sender.ackReceived
    && IsFragment(job, w.sender.frame, k) && Copied(job, w.sender.sent, 7 * k + a)
  }

  ghost predicate GaveUp(job: Job, w: World, k: nat) {
    w.sender.phase.Between? && |w.sender.outcomes| == k && Copied(job, w.sender.sent, 7 * k)
  }

  /** Nothing has reached the receiver. */
  ghost predicate SenderOnly(job: Job, worlds: seq<World>, events: seq<Event>, w: World) {
    && Run(job, {}, worlds, events) && worlds[0] == w && (forall ev | ev in events :: ev.SenderStep?)
    && worlds[|events|].receiver == w.receiver && worlds[|events|].delivered == w.delivered
  }

  lemma SenderOnlyAppend(job: Job, worlds: seq<World>, events: seq<Event>, w: World, ev: S.SenderEvent)
    requires SenderOnly(job, worlds, events, w) && !ev.HandleAck?
    ensures SenderOnly(job, worlds + [Next(job, worlds[|events|], SenderStep(ev))], events + [SenderStep(ev)], w)
  {
    RunAppend(job, {}, worlds, events, SenderStep(ev));
  }

  lemma BeginFragment(job: Job, w: World, hops: Hops, k: nat)
    requires Supported(job) && SenderInv(job, w) && GaveUp(job, w, k) && k < FragmentCount(|job.message|)
    requires job.dst as int in hops
    ensures Trying(job, Next(job, w, SenderStep(S.Begin(hops))), k, 0)
  {
    FragmentsFit(job, k);
    BeginStep(job, w, hops);
  }

  lemma CopyIndex(k: nat, a: nat)
    requires a < 7
    ensures (7 * k + a) / 7 == k && (7 * k + a) % 7 == a
  {
  }

  lemma EmitAndTimeout(job: Job, w: World, k: nat, a: nat)
    requires Supported(job) && Trying(job, w, k, a)
    ensures var w' := Next(job, Next(job, w, SenderStep(S.Emit)), SenderStep(S.Timeout));
      if a + 1 < S.MAX_RETRIES then Trying(job, w', k, a + 1) else GaveUp(job, w', k + 1)
  {
    OnWireFragment(job, w.sender.frame, k);
    CopyIndex(k, a);
  }

  lemma {:induction false} Attempts(job: Job, worlds: seq<World>, events: seq<Event>, w: World, k: nat, a: nat)
    returns (worlds': seq<World>, events': seq<Event>)
    requires Supported(job) && SenderOnly(job, worlds, events, w) && Trying(job, worlds[|events|], k, a)
    ensures SenderOnly(job, worlds', events', w) && GaveUp(job, worlds'[|events'|], k + 1)
    decreases S.MAX_RETRIES - a
  {
    var w1 := Next(job, worlds[|events|], SenderStep(S.Emit));
    EmitAndTimeout(job, worlds[|events|], k, a);
    SenderOnlyAppend(job, worlds, events, w, S.Emit);
    SenderOnlyAppend(job, worlds + [w1], events + [SenderStep(S.Emit)], w, S.Timeout);
    worlds' := worlds + [w1] + [Next(job, w1, SenderStep(S.Timeout))];
    events' := events + [SenderStep(S.Emit)] + [SenderStep(S.Timeout)];
    if a + 1 < S.MAX_RETRIES {
      worlds', events' := Attempts(job, worlds', events', w, k, a + 1);
    }
  }

  lemma {:induction false} SendInVain(job: Job, w: World, hops: Hops, k: nat)
    returns (worlds: seq<World>, events: seq<Event>)
    requires Supported(job) && Start(job, w) && k <= FragmentCount(|job.message|) && job.dst as int in hops
    ensures SenderOnly(job, worlds, events, w) && GaveUp(job, worlds[|events|], k)
  {
    if k == 0 {
      worlds, events := [w], [];
    } else {
      worlds, events := SendInVain(job, w, hops, k - 1);
      RunInv(job, {}, worlds, events, |events|);
      BeginFragment(job, worlds[|events|], hops, k - 1);
      SenderOnlyAppend(job, worlds, events, w, S.Begin(hops));
      worlds := worlds + [Next(job, worlds[|events|], SenderStep(S.Begin(hops)))];
      events := events + [SenderStep(S.Begin(hops))];
      worlds, events := Attempts(job, worlds, events, w, k - 1, 0);
    }
  }

  // ----- the copies arrive, one set after another

  /** Emission p is a copy of one of the first c sets, or of the first k fragments of the next set. */
  predicate Earlier(p: nat, c: nat, k: nat) { p % 7 < c || (p % 7 == c && p / 7 < k) }

  /** The arrivals so far came from different emissions, c sets and k fragments of the next one. */
  ghost predicate InSets(job: Job, worlds: seq<World>, events: seq<Event>, origin: seq<nat>, c: nat, k: nat) {
    && |worlds| == |events| + 1 == |origin| + 1 && NoDuplicates(job, worlds, events, origin)
    && forall i | 0 <= i < |events| && OwnArrival(job, events[i]) :: Earlier(origin[i], c, k)
  }

  /** All copies are sent, c messages delivered and k fragments held. */
  ghost predicate Stage(job: Job, w: World, c: nat, k: nat) {
    && Copied(job, w.sender.sent, 7 * FragmentCount(|job.message|))
    && Held(job, w) == Below(k) && Delivered(job, w) == c
  }

  ghost predicate Deaf(job: Job, worlds: seq<World>, events: seq<Event>, w: World) {
    Run(job, {}, worlds, events) && worlds[0] == w && forall ev | ev in events :: !ev.ToSender?
  }

  ghost predicate Progress(job: Job, worlds: seq<World>, events: seq<Event>, origin: seq<nat>, w: World, c: nat, k: nat)
  {
    && Deaf(job, worlds, events, w)
    && InSets(job, worlds, events, origin, c, k)
    && Stage(job, worlds[|events|], c, k)
  }

  lemma NoDuplicatesAppend(job: Job, worlds: seq<World>, events: seq<Event>, origin: seq<nat>,
                           w': World, ev: Event, p: nat)
    requires |worlds| == |events| + 1 == |origin| + 1 && NoDuplicates(job, worlds, events, origin)
    requires ev.ToReceiver? && CameFrom(worlds[|events|], ev.frame, p)
    requires forall i | 0 <= i < |events| && OwnArrival(job, events[i]) :: origin[i] != p
    ensures NoDuplicates(job, worlds + [w'], events + [ev], origin + [p])
  {
  }

  /** One more copy of fragment k arrives. */
  lemma NextArrival(job: Job, w: World, hops: Hops, k: nat, p: nat) returns (ev: Event, w': World)
    requires Supported(job) && BufferInv(job, w) && k < FragmentCount(|job.message|) && Held(job, w) == Below(k)
    requires p < |w.sender.sent| && CopyOf(job, w.sender.sent[p], k)
    ensures Admissible(job, {}, w, ev) && w' == Next(job, w, ev) && w'.sender == w.sender
    ensures ev.ToReceiver? && CameFrom(w, ev.frame, p)
    ensures if k + 1 == FragmentCount(|job.message|)
            then Held(job, w') == Below(0) && Delivered(job, w') == Delivered(job, w) + 1
            else Held(job, w') == Below(k + 1) && Delivered(job, w') == Delivered(job, w)
  {
    var f := Wire(w.sender.sent[p].frame);
    ev := ToReceiver(f, hops);
    assert Relayed(Wire(w.sender.sent[p].frame), f);
    OwnFrameIsAccepted(job, w.receiver, f, hops, k);
    w' := Next(job, w, ev);
    CopyArrives(job, w, f, hops, k, w');
  }

  lemma CopyArrives(job: Job, w: World, f: Frame, hops: Hops, k: nat, w': World)
    requires Supported(job) && BufferInv(job, w) && k < FragmentCount(|job.message|) && Held(job, w) == Below(k)
    requires IsFragment(job, f, k) && R.Complete(f) && !R.MustForward(w.receiver, f.header)
    requires w' == Next(job, w, ToReceiver(f, hops))
    ensures if k + 1 == FragmentCount(|job.message|)
            then Held(job, w') == Below(0) && Delivered(job, w') == Delivered(job, w) + 1
            else Held(job, w') == Below(k + 1) && Delivered(job, w') == Delivered(job, w)
  {
    assert Below(k) + {k as int} == Below(k + 1) && Below(0) == {};
    AllBelow(job, k + 1);
    OwnFrameInserted(job, w.receiver, f, hops, k);
    InsertRefines(w.receiver.buffers, job.id, job.message, Held(job, w), k);
    var full := InsertChunk(w.receiver.buffers, job.id, job.message, k).full;
    OwnFrameBuffered(job, w, w', k, full);
    if full == [] {
      assert w'.delivered == w.delivered;
    } else {
      assert multiset(w'.delivered) == multiset(w.delivered) + multiset([Original(job)]);
    }
  }

  lemma AllBelow(job: Job, k: nat)
    requires k <= FragmentCount(|job.message|)
    ensures Below(k) == All(job.message) <==> k == FragmentCount(|job.message|)
  {
    if k < FragmentCount(|job.message|) { assert k in All(job.message) && k !in Below(k); }
  }

  lemma EarlierGrows(p: nat, c: nat, k: nat, c': nat, k': nat)
    requires c < 7 && ((c' == c && k' == k + 1) || (c' == c + 1 && k' == 0))
    ensures Earlier(p, c, k) ==> p != 7 * k + c && Earlier(p, c', k')
    ensures Earlier(7 * k + c, c', k')
  {
    CopyIndex(k, c);
  }

  lemma InSetsNext(job: Job, worlds: seq<World>, events: seq<Event>, origin: seq<nat>, c: nat, k: nat,
                   ev: Event, next: World, p: nat, c': nat, k': nat)
    requires InSets(job, worlds, events, origin, c, k) && p == 7 * k + c
    requires c < 7 && ((c' == c && k' == k + 1) || (c' == c + 1 && k' == 0))
    requires ev.ToReceiver? && CameFrom(worlds[|events|], ev.frame, p)
    ensures InSets(job, worlds + [next], events + [ev], origin + [p], c', k')
  {
    forall i | 0 <= i < |events| && OwnArrival(job, events[i]) ensures origin[i] != p && Earlier(origin[i], c', k') {
      EarlierGrows(origin[i], c, k, c', k');
    }
    EarlierGrows(p, c, k, c', k');
    NoDuplicatesAppend(job, worlds, events, origin, next, ev, p);
  }

  lemma StageNext(job: Job, w: World, hops: Hops, c: nat, k: nat, p: nat, c': nat, k': nat)
    returns (ev: Event, w': World)
    requires Supported(job) && BufferInv(job, w) && k < FragmentCount(|job.message|) && c < 7 && p == 7 * k + c
    requires if k + 1 == FragmentCount(|job.message|) then c' == c + 1 && k' == 0 else c' == c && k' == k + 1
    requires Stage(job, w, c, k)
    ensures ev.ToReceiver? && Admissible(job, {}, w, ev) && w' == Next(job, w, ev) && CameFrom(w, ev.frame, p)
    ensures Stage(job, w', c', k')
  {
    CopyIndex(k, c);
    assert CopyOf(job, w.sender.sent[p], p / 7);
    ev, w' := NextArrival(job, w, hops, k, p);
  }

  lemma DeafNext(job: Job, worlds: seq<World>, events: seq<Event>, w: World, ev: Event, next: World)
    requires Deaf(job, worlds, events, w) && ev.ToReceiver?
    requires Admissible(job, {}, worlds[|events|], ev) && next == Next(job, worlds[|events|], ev)
    ensures Deaf(job, worlds + [next], events + [ev], w)
  {
    RunAppend(job, {}, worlds, events, ev);
  }

  lemma DeafStageNext(job: Job, worlds: seq<World>, events: seq<Event>, w: World, hops: Hops,
                      c: nat, k: nat, p: nat, c': nat, k': nat)
    returns (ev: Event, next: World)
    requires Supported(job) && Start(job, w) && c < 7 && k < FragmentCount(|job.message|) && p == 7 * k + c
    requires if k + 1 == FragmentCount(|job.message|) then c' == c + 1 && k' == 0 else c' == c && k' == k + 1
    requires Deaf(job, worlds, events, w) && Stage(job, worlds[|events|], c, k)
    ensures ev.ToReceiver? && CameFrom(worlds[|events|], ev.frame, p)
    ensures Deaf(job, worlds + [next], events + [ev], w) && Stage(job, next, c', k')
  {
    RunInv(job, {}, worlds, events, |events|);
    ev, next := StageNext(job, worlds[|events|], hops, c, k, p, c', k');
    DeafNext(job, worlds, events, w, ev, next);
  }

  lemma OneArrival(job: Job, worlds: seq<World>, events: seq<Event>, origin: seq<nat>, w: World, hops: Hops,
                   c: nat, k: nat, p: nat, c': nat, k': nat)
    returns (ev: Event, next: World)
    requires Supported(job) && Start(job, w) && c < 7 && k < FragmentCount(|job.message|) && p == 7 * k + c
    requires if k + 1 == FragmentCount(|job.message|) then c' == c + 1 && k' == 0 else c' == c && k' == k + 1
    requires Progress(job, worlds, events, origin, w, c, k)
    ensures Deaf(job, worlds + [next], events + [ev], w) && Stage(job, next, c', k')
    ensures InSets(job, worlds + [next], events + [ev], origin + [p], c', k')
  {
    ev, next := DeafStageNext(job, worlds, events, w, hops, c, k, p, c', k');
    InSetsNext(job, worlds, events, origin, c, k, ev, next, p, c', k');
  }

  lemma {:induction false} Arrivals(job: Job, worlds: seq<World>, events: seq<Event>, origin: seq<nat>, w: World,
                                    hops: Hops, c: nat, k: nat)
    returns (worlds': seq<World>, events': seq<Event>, origin': seq<nat>)
    requires Supported(job) && Start(job, w) && c <= 7 && k < FragmentCount(|job.message|) && (c == 7 ==> k == 0)
    requires Progress(job, worlds, events, origin, w, c, k)
    ensures Progress(job, worlds', events', origin', w, 7, 0)
    decreases 7 - c, FragmentCount(|job.message|) - k
  {
    if c == 7 {
      worlds', events', origin' := worlds, events, origin;
    } else {
      var full := k + 1 == FragmentCount(|job.message|);
      var c', k' := if full then c + 1 else c, if full then 0 else k + 1;
      var ev, next := OneArrival(job, worlds, events, origin, w, hops, c, k, 7 * k + c, c', k');
      worlds', events', origin' :=
        Arrivals(job, worlds + [next], events + [ev], origin + [7 * k + c], w, hops, c', k');
    }
  }

  lemma AllInFlight(job: Job, worlds: seq<World>, events: seq<Event>, w: World)
    requires Supported(job) && Start(job, w) && SenderOnly(job, worlds, events, w)
    requires GaveUp(job, worlds[|events|], FragmentCount(|job.message|))
    ensures Progress(job, worlds, events, seq(|events|, i => 0), w, 0, 0)
  {
    assert Held(job, worlds[|events|]) == Below(0);
    forall i | 0 <= i < |events| ensures !OwnArrival(job, events[i]) {
      assert events[i] in events;
    }
  }

  /** For every session, from every start with a route, the bound of seven deliveries is attained. */
  lemma SevenDeliveriesHappen(job: Job, w: World, hops: Hops, back: Hops)
    returns (worlds: seq<World>, events: seq<Event>, origin: seq<nat>)
    requires Supported(job) && Start(job, w) && job.dst as int in hops
    ensures Run(job, {}, worlds, events) && worlds[0] == w && forall ev | ev in events :: !ev.ToSender?
    ensures |origin| == |events| && NoDuplicates(job, worlds, events, origin)
    ensures multiset(worlds[|events|].delivered)[Original(job)] == 7
  {
    worlds, events := SendInVain(job, w, hops, FragmentCount(|job.message|));
    AllInFlight(job, worlds, events, w);
    worlds, events, origin := Arrivals(job, worlds, events, seq(|events|, i => 0), w, back, 0, 0);
  }
}
