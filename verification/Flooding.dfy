/**
 Controlled flooding: one broadcast fragment in a network of any size and shape. Every transmission reaches the
 neighbours of its sender one by one, in any order; a node that sees the fragment for the first time relays it
 in a burst of four.
 */
module Flooding {
  import opened PacketHeader
  import opened Fragmentation
  import opened MultihopRelay
  import opened StopAndWaitReceiver
  import S = StopAndWaitSender
  import opened FiniteSets

  /** `(u, w) in links`: u hears w. */
  type Topology = set<(int, int)>

  /**
   `pending` counts the transmissions each node still has to make, `flight` the copies on their way to each
   node, `transmissions` those made so far.
   */
  datatype Flood = Flood(nodes: map<int, Receiver>, pending: multiset<int>, flight: multiset<int>, transmissions: nat)

  datatype Move = Transmit(from: int) | Hear(at: int) | Lose(at: int)

  /** The broadcast fragment, as it is on the wire: nothing is cut off and no next hop is set. */
  predicate IsBroadcast(f: Frame) {
    && FitsWire(f.header) && f.header.destAddress == 0 && f.header.nextHopAddress == 0
    && f.header.payloadLength == |f.payload|
  }

  ghost function Hearers(links: Topology, s: Flood, w: int): set<int> { set u | u in s.nodes && (u, w) in links }

  ghost function Apply(links: Topology, f: Frame, s: Flood, move: Move): Flood
    requires IsBroadcast(f)
  {
    match move
    case Transmit(w) =>
      if w in s.pending then
        s.(pending := s.pending - multiset{w}, flight := s.flight + multiset(Hearers(links, s, w)),
           transmissions := s.transmissions + 1)
      else s
    case Hear(u) =>
      if u in s.flight && u in s.nodes then
        var reaction := Receive(s.nodes[u], f, map[]);
        s.(nodes := s.nodes[u := reaction.next], flight := s.flight - multiset{u},
           pending := s.pending + multiset(seq(|reaction.sent|, i => u)))
      else s
    case Lose(u) => if u in s.flight then s.(flight := s.flight - multiset{u}) else s
  }

  ghost predicate Seen(f: Frame, s: Flood, u: int) { u in s.nodes && Id(f) in s.nodes[u].seen }

  ghost function SeenBy(f: Frame, s: Flood): set<int> { set u | u in s.nodes && Seen(f, s, u) }

  /** A node that has seen the fragment ignores it; another one marks it and relays exactly this frame, four times. */
  lemma Reacts(f: Frame, r: Receiver)
    requires IsBroadcast(f)
    ensures var reaction := Receive(r, f, map[]);
      if Id(f) in r.seen then reaction == Reaction(r, [], [])
      else reaction.next.seen == r.seen + {Id(f)} && |reaction.sent| == 4
           && forall g | g in reaction.sent :: Wire(g) == f
  {
    assert Payload(f) == f.payload;
  }

  /** The sender starts a flood with four copies of this frame. */
  lemma OriginBurst(s: S.Sender, f: Frame, hops: Hops)
    requires f.header.destAddress == 0 && |f.payload| < 32 && s.me < 8
    requires FitsWire(f.header.(sourceAddress := s.me, nextHopAddress := 0, payloadLength := |f.payload|))
    ensures var b := Frame(f.header.(sourceAddress := s.me, nextHopAddress := 0, payloadLength := |f.payload|),
                           f.payload);
            var s' := S.BeginNext(s, f, hops);
      && IsBroadcast(b)
      && |s'.sent| == |s.sent| + 4
      && forall i | |s.sent| <= i < |s'.sent| :: Wire(s'.sent[i].frame) == b
  {
  }

  ghost function Run(links: Topology, f: Frame, s: Flood, moves: seq<Move>): Flood
    requires IsBroadcast(f)
  {
    if moves == [] then s else Apply(links, f, Run(links, f, s, moves[..|moves| - 1]), moves[|moves| - 1])
  }

  /** The origin's burst is about to be sent, and the fragment is fresh: no node has seen it. */
  ghost predicate Start(f: Frame, s: Flood, origin: int) {
    && s.pending == multiset{origin, origin, origin, origin} && s.flight == multiset{} && s.transmissions == 0
    && SeenBy(f, s) == {}
  }

  // ----- the bound

  ghost function Unseen(f: Frame, s: Flood): set<int> { s.nodes.Keys - SeenBy(f, s) }

  ghost predicate Accounted(f: Frame, s: Flood) {
    && s.transmissions + |s.pending| == 4 * (1 + |SeenBy(f, s)|)
    && forall u | u in s.flight :: u in s.nodes
  }

  lemma HearEffect(links: Topology, f: Frame, s: Flood, u: int)
    requires IsBroadcast(f) && u in s.flight && u in s.nodes
    ensures var s' := Apply(links, f, s, Hear(u));
      && s'.nodes.Keys == s.nodes.Keys && s'.flight == s.flight - multiset{u} && s'.transmissions == s.transmissions
      && SeenBy(f, s') == SeenBy(f, s) + {u}
      && if Seen(f, s, u) then s'.pending == s.pending
         else |s'.pending| == |s.pending| + 4 && s.pending <= s'.pending && u in s'.pending
  {
    Reacts(f, s.nodes[u]);
    var s' := Apply(links, f, s, Hear(u));
    assert forall v | v in s.nodes && v != u :: Seen(f, s', v) <==> Seen(f, s, v);
    if !Seen(f, s, u) {
      var more := seq(MAX_BCAST_TRIES - 1, i => u);
      assert s'.pending == s.pending + multiset(more);
      assert more[0] == u && u in multiset(more);
    } else {
      assert seq(0, i => u) == [];
    }
  }

  lemma OtherEffect(links: Topology, f: Frame, s: Flood, move: Move)
    requires IsBroadcast(f) && !move.Hear?
    ensures var s' := Apply(links, f, s, move);
      && s'.nodes == s.nodes && SeenBy(f, s') == SeenBy(f, s)
      && s'.transmissions + |s'.pending| == s.transmissions + |s.pending|
      && (forall u | u in s'.flight :: u in s.flight || u in s.nodes)
      && (s' == s || |s'.pending| < |s.pending| || (s'.pending == s.pending && |s'.flight| < |s.flight|))
  {
    var s' := Apply(links, f, s, move);
    assert SeenBy(f, s') == SeenBy(f, s);
  }

  lemma ApplyAccounted(links: Topology, f: Frame, s: Flood, move: Move)
    requires IsBroadcast(f) && Accounted(f, s)
    ensures Accounted(f, Apply(links, f, s, move)) && Apply(links, f, s, move).nodes.Keys == s.nodes.Keys
  {
    if !move.Hear? {
      OtherEffect(links, f, s, move);
    } else if move.at in s.flight {
      HearAccounted(links, f, s, move.at, Apply(links, f, s, move));
    }
  }

  lemma HearAccounted(links: Topology, f: Frame, s: Flood, u: int, s': Flood)
    requires IsBroadcast(f) && Accounted(f, s) && u in s.flight && s' == Apply(links, f, s, Hear(u))
    ensures Accounted(f, s') && s'.nodes.Keys == s.nodes.Keys
    ensures |Unseen(f, s')| < |Unseen(f, s)|
         || (Unseen(f, s') == Unseen(f, s) && s'.pending == s.pending && |s'.flight| < |s.flight|)
  {
    HearEffect(links, f, s, u);
    if Seen(f, s, u) {
      assert SeenBy(f, s') == SeenBy(f, s);
    } else {
      assert Unseen(f, s) == Unseen(f, s') + {u};
    }
  }

  lemma {:induction false} RunAccounted(links: Topology, f: Frame, s: Flood, moves: seq<Move>)
    requires IsBroadcast(f) && Accounted(f, s)
    ensures Accounted(f, Run(links, f, s, moves)) && Run(links, f, s, moves).nodes.Keys == s.nodes.Keys
  {
    if moves != [] {
      RunAccounted(links, f, s, moves[..|moves| - 1]);
      ApplyAccounted(links, f, Run(links, f, s, moves[..|moves| - 1]), moves[|moves| - 1]);
    }
  }

  /** In a network of N nodes a fragment is transmitted at most 4(N + 1) times, losses or not. */
  lemma {:induction false} FloodBound(links: Topology, f: Frame, s: Flood, origin: int, moves: seq<Move>)
    requires IsBroadcast(f) && Start(f, s, origin)
    ensures Run(links, f, s, moves).transmissions <= 4 * (|s.nodes| + 1)
  {
    RunAccounted(links, f, s, moves);
    var t := Run(links, f, s, moves);
    SubsetSize(SeenBy(f, t), t.nodes.Keys);
  }

  // ----- termination

  /**
   Every move that does something shrinks the nodes yet to see the fragment, or the transmissions due, or the
   copies in flight.
   */
  lemma {:induction false} FloodTerminates(links: Topology, f: Frame, s: Flood, move: Move)
    requires IsBroadcast(f) && Accounted(f, s) && Apply(links, f, s, move) != s
    ensures var t := Apply(links, f, s, move);
      || |Unseen(f, t)| < |Unseen(f, s)|
      || (Unseen(f, t) == Unseen(f, s) && |t.pending| < |s.pending|)
      || (Unseen(f, t) == Unseen(f, s) && t.pending == s.pending && |t.flight| < |s.flight|)
  {
    if move.Hear? {
      HearAccounted(links, f, s, move.at, Apply(links, f, s, move));
    } else {
      OtherEffect(links, f, s, move);
    }
  }

  // ----- coverage

  /** Who hears a node that has the fragment has seen it, or a copy is on its way or still due. */
  ghost predicate Covering(links: Topology, f: Frame, s: Flood, origin: int) {
    forall u, w | u in s.nodes && (u, w) in links && (w == origin || Seen(f, s, w)) ::
      w in s.pending || u in s.flight || Seen(f, s, u)
  }

  lemma ApplyCovering(links: Topology, f: Frame, s: Flood, origin: int, move: Move)
    requires IsBroadcast(f) && Accounted(f, s) && Covering(links, f, s, origin) && !move.Lose?
    ensures Covering(links, f, Apply(links, f, s, move), origin)
  {
    var t := Apply(links, f, s, move);
    match move
    case Transmit(w) =>
      if w in s.pending {
        assert SeenBy(f, t) == SeenBy(f, s);
        assert forall u | u in Hearers(links, s, w) :: u in t.flight;
      }
    case Hear(x) =>
      if x in s.flight {
        HearEffect(links, f, s, x);
        forall u, w | u in t.nodes && (u, w) in links && (w == origin || Seen(f, t, w))
          ensures w in t.pending || u in t.flight || Seen(f, t, u)
        {
          assert Seen(f, t, w) ==> w in SeenBy(f, t);
          assert u in SeenBy(f, t) ==> Seen(f, t, u);
          if Seen(f, s, u) { assert u in SeenBy(f, s); }
          if Seen(f, t, w) && w != x { assert w in SeenBy(f, s); }
        }
      }
  }

  lemma {:induction false} RunCovering(links: Topology, f: Frame, s: Flood, origin: int, moves: seq<Move>)
    requires IsBroadcast(f) && Accounted(f, s) && Covering(links, f, s, origin)
    requires forall m | m in moves :: !m.Lose?
    ensures Accounted(f, Run(links, f, s, moves)) && Covering(links, f, Run(links, f, s, moves), origin)
    ensures Run(links, f, s, moves).nodes.Keys == s.nodes.Keys
  {
    if moves != [] {
      var before, m := moves[..|moves| - 1], moves[|moves| - 1];
      assert m in moves && forall x | x in before :: x in moves;
      RunCovering(links, f, s, origin, before);
      ApplyAccounted(links, f, Run(links, f, s, before), m);
      ApplyCovering(links, f, Run(links, f, s, before), origin, m);
    }
  }

  /** u can be reached from the origin in exactly k hops. */
  ghost predicate Reached(links: Topology, nodes: set<int>, origin: int, u: int, k: nat)
    decreases k
  {
    if k == 0 then u == origin else u in nodes && exists w :: (u, w) in links && Reached(links, nodes, origin, w, k - 1)
  }

  lemma {:induction false} QuietMeansSeen(links: Topology, f: Frame, t: Flood, origin: int, u: int, k: nat)
    requires Covering(links, f, t, origin) && t.pending == multiset{} && t.flight == multiset{}
    requires k > 0 && Reached(links, t.nodes.Keys, origin, u, k)
    ensures Seen(f, t, u)
    decreases k
  {
    var w :| (u, w) in links && Reached(links, t.nodes.Keys, origin, w, k - 1);
    if k > 1 { QuietMeansSeen(links, f, t, origin, w, k - 1); }
  }

  /** Without losses, when nothing is due and nothing in flight, every node at one hop or more has seen the fragment. */
  lemma {:induction false} FloodCoverage(links: Topology, f: Frame, s: Flood, origin: int, moves: seq<Move>,
                                         u: int, k: nat)
    requires IsBroadcast(f) && Start(f, s, origin) && forall m | m in moves :: !m.Lose?
    requires Run(links, f, s, moves).pending == multiset{} && Run(links, f, s, moves).flight == multiset{}
    requires k > 0 && Reached(links, s.nodes.Keys, origin, u, k)
    ensures Seen(f, Run(links, f, s, moves), u)
  {
    assert forall w :: Seen(f, s, w) ==> w in SeenBy(f, s);
    RunCovering(links, f, s, origin, moves);
    QuietMeansSeen(links, f, Run(links, f, s, moves), origin, u, k);
  }
}
