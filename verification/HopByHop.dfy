/**
 Unicast frames follow the routing tables: in a converged network what a sender emits reaches its destination on a
 shortest way, relayed by the receivers in between, and the acknowledgement comes back, passed on by the senders.
 */
module HopByHop {
  import opened PacketHeader
  import opened DistanceVector
  import opened RoutingNetwork
  import opened RoutingConvergence
  import opened Fragmentation
  import opened MultihopRelay
  import S = StopAndWaitSender
  import R = StopAndWaitReceiver

  /** The next hops of a node's routing table, as the transport reads them. */
  function HopsOf(n: Node): Hops { map a: int | 1 <= a <= MAX_NODE_NUMBER :: n.table[a].nextHop }

  ghost predicate Symmetric(links: Links) { forall u, w | (u, w) in links :: (w, u) in links }

  /** t is reached by a run that ends with r rounds in which no row expired, in a symmetric topology. */
  ghost predicate Converged(links: Links, s: Net, steps: seq<Step>, budget: nat, marks: seq<nat>, t: Net, r: nat) {
    && RoutingNetwork.Start(s) && Joins(links, s) && Symmetric(links)
    && Rounds(links, s, steps, marks) && Window(links, s, steps, marks[0], budget)
    && t == Exec(links, s, steps) && |marks| == r + 1
  }

  /** Data frames are relayed by the receiving side of a node, acknowledgements by its sending side. */
  datatype Role = Data | Acknowledgement

  /** Node w, whatever it is doing, answers the frame g by sending g' and nothing else. */
  ghost predicate Relays(role: Role, w: Address, g: Frame, hops: Hops, g': Frame)
    requires g.header.destAddress in hops && R.Complete(g)
  {
    match role
    case Data => forall r: R.Receiver | r.me == w :: R.Receive(r, g, hops) == R.Reaction(r, [g'], [])
    case Acknowledgement => forall x: S.Sender | x.me == w :: S.Handle(x, g, hops).sent == x.sent + [S.PassedOn(g')]
  }

  /** Node w takes the frame g for itself: it forwards nothing, and an acknowledgement it waits for is recorded. */
  ghost predicate Keeps(role: Role, w: Address, g: Frame)
    requires R.Complete(g)
  {
    match role
    case Data => forall r: R.Receiver | r.me == w :: !R.MustForward(r, g.header)
    case Acknowledgement => forall x: S.Sender, hops: Hops | x.me == w ::
      S.Handle(x, g, hops) == x.(ackReceived := x.ackReceived || S.Matches(x, g.header))
  }

  /**
   The frame g, just transmitted by u, is taken over k - 1 relays to its destination: its next hop hears u, and
   takes it, or transmits what the next node on the way hears.
   */
  ghost predicate Travels(role: Role, links: Links, t: Net, g: Frame, u: Address, k: nat)
    decreases k
  {
    var w, dst := g.header.nextHopAddress, g.header.destAddress;
    && k >= 1 && FitsWire(g.header) && R.Complete(g)
    && IsAddress(w) && (w, u) in links && w in t.nodes && IsAddress(dst)
    && (w == dst <==> k == 1)
    && (w == dst ==> Keeps(role, w, g))
    && (w != dst ==>
          var hops := HopsOf(t.nodes[w]);
          var g' := Frame(g.header.(nextHopAddress := hops[dst]), g.payload);
          Relays(role, w, g, hops, g') && Travels(role, links, t, g', w, k - 1))
  }

  lemma NextHop(links: Links, s: Net, steps: seq<Step>, budget: nat, marks: seq<nat>, t: Net, r: nat,
                u: Address, v: Address, k: nat)
    returns (w: Address)
    requires Converged(links, s, steps, budget, marks, t, r)
    requires u in t.nodes && Distance(links, u, v, k) && 1 <= k <= r
    ensures u != v && w == t.nodes[u].table[v].nextHop && w in t.nodes
    ensures (w, u) in links && Distance(links, w, v, k - 1) && (w == v <==> k == 1)
  {
    StartInv(s);
    ExecInv(links, s, steps);
    Convergence(links, s, steps, budget, marks, u, v, k);
    RoutesAreSound(links, s, steps, u, v);
    DistancesAreShort(links, u, v, k);
    assert u != v by { assert Walk(links, v, v, 0); }
    w := t.nodes[u].table[v].nextHop;
    assert (u, w) in links && Walk(links, w, v, k - 1);
    WalkAhead(links, u, w, v, k);
  }

  lemma RelayRole(role: Role, w: Address, g: Frame, hops: Hops)
    requires g.header.nextHopAddress == w != g.header.destAddress && g.header.destAddress != 0
    requires g.header.destAddress in hops && R.Complete(g)
    ensures Relays(role, w, g, hops, Frame(g.header.(nextHopAddress := hops[g.header.destAddress]), g.payload))
  {
    match role
    case Data =>
    case Acknowledgement =>
      forall x: S.Sender | x.me == w ensures
          S.Handle(x, g, hops).sent
          == x.sent + [S.PassedOn(Frame(g.header.(nextHopAddress := hops[g.header.destAddress]), g.payload))] {
        S.PassesOnExactly(x, g, hops);
      }
  }

  lemma KeepRole(role: Role, w: Address, g: Frame)
    requires g.header.destAddress == w && R.Complete(g)
    ensures Keeps(role, w, g)
  {
  }

  /**
   A frame whose next hop is the one in the table of the node that transmits it reaches its destination in exactly as
   many hops as that is away, for destinations at most r hops away.
   */
  lemma {:induction false} FramesTakeShortestWays(role: Role, links: Links, s: Net, steps: seq<Step>, budget: nat,
                                                  marks: seq<nat>, t: Net, r: nat,
                                                  u: Address, v: Address, k: nat, g: Frame)
    requires Converged(links, s, steps, budget, marks, t, r)
    requires u in t.nodes && Distance(links, u, v, k) && 1 <= k <= r
    requires g.header.destAddress == v && g.header.nextHopAddress == t.nodes[u].table[v].nextHop
    requires FitsWire(g.header) && R.Complete(g)
    ensures Travels(role, links, t, g, u, k)
    decreases k
  {
    var w := NextHop(links, s, steps, budget, marks, t, r, u, v, k);
    if k == 1 {
      KeepRole(role, w, g);
    } else {
      var hops := HopsOf(t.nodes[w]);
      var next := NextHop(links, s, steps, budget, marks, t, r, w, v, k - 1);
      RelayRole(role, w, g, hops);
      FramesTakeShortestWays(role, links, s, steps, budget, marks, t, r, w, v, k - 1,
                             Frame(g.header.(nextHopAddress := hops[v]), g.payload));
    }
  }

  lemma SentFrame(f: Frame, me: uint8, hops: Hops, g: Frame)
    requires S.SentAs(g, f, me, hops) && f.header.destAddress != 0 && FitsWire(f.header) && |f.payload| < 32 && me < 8
    requires hops[f.header.destAddress] < 8
    ensures FitsWire(Wire(g).header) && R.Complete(Wire(g)) && Wire(g).header.destAddress == f.header.destAddress
    ensures Wire(g).header.nextHopAddress == hops[f.header.destAddress]
  {
  }

  lemma EmittedFrame(u: Address, hops: Hops, fragments: seq<Frame>, x: S.Sender, evs: seq<S.SenderEvent>, e: S.Emission)
    returns (f: Frame)
    requires S.Idle(x) && x.me == u && forall ev | ev in evs && ev.Begin? :: ev.hops == hops
    requires e in S.Play(fragments, x, evs).sent && e.Own?
    ensures f in fragments && S.SentAs(e.frame, f, u, hops)
  {
    var i := S.EmissionsFollowTheirRoute(fragments, x, evs, e);
    f := fragments[e.index];
    assert evs[i] in evs;
  }

  /** Whatever a node in a converged network emits of a message, reading its own table, travels to its destination. */
  lemma EmittedFragmentsTravel(links: Links, s: Net, steps: seq<Step>, budget: nat, marks: seq<nat>, t: Net, r: nat,
                               u: Address, v: Address, k: nat,
                               fragments: seq<Frame>, x: S.Sender, evs: seq<S.SenderEvent>, e: S.Emission)
    requires Converged(links, s, steps, budget, marks, t, r)
    requires u in t.nodes && Distance(links, u, v, k) && 1 <= k <= r
    requires S.Idle(x) && x.me == u && forall ev | ev in evs && ev.Begin? :: ev.hops == HopsOf(t.nodes[u])
    requires e in S.Play(fragments, x, evs).sent && e.Own?
    requires forall f | f in fragments :: f.header.destAddress == v && FitsWire(f.header) && |f.payload| < 32
    ensures Travels(Data, links, t, Wire(e.frame), u, k)
  {
    var f := EmittedFrame(u, HopsOf(t.nodes[u]), fragments, x, evs, e);
    var w := NextHop(links, s, steps, budget, marks, t, r, u, v, k);
    SentFrame(f, u, HopsOf(t.nodes[u]), e.frame);
    FramesTakeShortestWays(Data, links, s, steps, budget, marks, t, r, u, v, k, Wire(e.frame));
  }

  lemma AckFrame(x: R.Receiver, f: Frame, hops: Hops) returns (g: Frame)
    requires x.me == f.header.destAddress != 0 && R.Complete(f) && FitsWire(f.header) && f.header.sourceAddress in hops
    requires hops[f.header.sourceAddress] < 8
    ensures R.Receive(x, f, hops).sent == [g] && R.IsAckOf(g, f.header, x.me, hops[f.header.sourceAddress])
    ensures Wire(g) == g && FitsWire(g.header) && R.Complete(g)
  {
    R.Disposition(x, f, hops);
    g := R.Receive(x, f, hops).sent[0];
  }

  /** The acknowledgement of a fragment travels back to the node that it came from. */
  lemma AcknowledgementsTravelBack(links: Links, s: Net, steps: seq<Step>, budget: nat, marks: seq<nat>, t: Net, r: nat,
                                   u: Address, v: Address, k: nat, x: R.Receiver, f: Frame)
    returns (g: Frame)
    requires Converged(links, s, steps, budget, marks, t, r)
    requires u in t.nodes && Distance(links, u, v, k) && 1 <= k <= r
    requires x.me == u == f.header.destAddress && f.header.sourceAddress == v && R.Complete(f) && FitsWire(f.header)
    ensures R.Receive(x, f, HopsOf(t.nodes[u])).sent == [g]
    ensures R.IsAckOf(g, f.header, u, t.nodes[u].table[v].nextHop)
    ensures Travels(Acknowledgement, links, t, Wire(g), u, k)
  {
    var w := NextHop(links, s, steps, budget, marks, t, r, u, v, k);
    g := AckFrame(x, f, HopsOf(t.nodes[u]));
    FramesTakeShortestWays(Acknowledgement, links, s, steps, budget, marks, t, r, u, v, k, g);
  }
}
