/**
 A network of routing nodes: any number of tables of DistanceVector.dfy that broadcast, hear each other's
 echoes late, twice or never, and tick, in any order. A step that is not enabled leaves the network unchanged.
 */
module RoutingNetwork {
  import opened DistanceVector

  /** `(u, w) in links`: u hears w. */
  type Links = set<(Address, Address)>

  /** Every echo that was ever broadcast stays in flight: it may be heard again, at any later time. */
  datatype Net = Net(nodes: map<Address, Node>, flight: set<Echo>)

  datatype Step =
    | Broadcast(from: Address)
    | Deliver(to: Address, echo: Echo)
    | TickNode(node: Address)

  function Apply(links: Links, s: Net, step: Step): Net {
    match step
    case Broadcast(w) => if w in s.nodes then s.(flight := s.flight + {EchoOf(s.nodes[w])}) else s
    case Deliver(u, e) =>
      if u in s.nodes && e in s.flight && (u, e.src) in links && e.src != u
      then s.(nodes := s.nodes[u := RegisterEcho(s.nodes[u], e)]) else s
    case TickNode(u) => if u in s.nodes then s.(nodes := s.nodes[u := Tick(s.nodes[u])]) else s
  }

  function Exec(links: Links, s: Net, steps: seq<Step>): Net {
    if steps == [] then s
    else Apply(links, Exec(links, s, steps[..|steps| - 1]), steps[|steps| - 1])
  }

  /** All nodes have just settled on their addresses, and nothing is in flight. */
  ghost predicate Start(s: Net) {
    (forall u | u in s.nodes :: s.nodes[u].me == u && Settled(s.nodes[u])) && s.flight == {}
  }

  // ----- what every step keeps, whatever the topology does

  ghost predicate NetInv(s: Net) {
    && (forall u | u in s.nodes :: s.nodes[u].me == u && NodeInv(s.nodes[u]))
    && (forall e | e in s.flight :: EchoInv(e))
  }

  lemma ApplyInv(links: Links, s: Net, step: Step)
    requires NetInv(s)
    ensures NetInv(Apply(links, s, step))
    ensures Apply(links, s, step).nodes.Keys == s.nodes.Keys
  {
    match step
    case Broadcast(w) => if w in s.nodes { EchoOfInv(s.nodes[w]); }
    case Deliver(u, e) => if u in s.nodes && e in s.flight && e.src != u { RegisterEchoInv(s.nodes[u], e); }
    case TickNode(u) => if u in s.nodes { TickInv(s.nodes[u]); }
  }

  lemma {:induction false} ExecInv(links: Links, s: Net, steps: seq<Step>)
    requires NetInv(s)
    ensures NetInv(Exec(links, s, steps))
    ensures Exec(links, s, steps).nodes.Keys == s.nodes.Keys
  {
    if steps != [] {
      ExecInv(links, s, steps[..|steps| - 1]);
      ApplyInv(links, Exec(links, s, steps[..|steps| - 1]), steps[|steps| - 1]);
    }
  }

  lemma StartInv(s: Net)
    requires Start(s)
    ensures NetInv(s)
  {
    forall u | u in s.nodes ensures NodeInv(s.nodes[u]) { SettledInv(s.nodes[u]); }
  }

  /**
   In every reachable state all costs, in tables and in flight, are at most INFINITY_COST, and the barrier
   against counting up never rejects an offer.
   */
  lemma {:induction false} CostsAreBounded(links: Links, s: Net, steps: seq<Step>)
    requires Start(s)
    ensures var s' := Exec(links, s, steps);
      && (forall u, a: Address | u in s'.nodes :: s'.nodes[u].table[a].cost <= INFINITY_COST)
      && (forall e, a: Address | e in s'.flight :: e.costs[a] <= INFINITY_COST
                                                   && e.costs[a] + LINK_COST <= MAXIMUM_COST)
  {
    StartInv(s);
    ExecInv(links, s, steps);
    var s' := Exec(links, s, steps);
    forall u, a: Address | u in s'.nodes ensures s'.nodes[u].table[a].cost <= INFINITY_COST {
      assert RowOk(s'.nodes[u], a);
    }
  }

  /**
   In every reachable state a row that names a next hop names an active neighbour that is reached directly
   by an unexpired row of cost 1. So no purge ever leaves a row behind a dead neighbour.
   */
  lemma {:induction false} NextHopsAreLive(links: Links, s: Net, steps: seq<Step>, u: Address, a: Address)
    requires Start(s) && u in s.nodes && a != u
    ensures u in Exec(links, s, steps).nodes
    ensures var n := Exec(links, s, steps).nodes[u]; n.table[a].nextHop != 0 ==> Live(n, n.table[a].nextHop)
  {
    StartInv(s);
    ExecInv(links, s, steps);
    assert RowOk(Exec(links, s, steps).nodes[u], a);
  }

  // ----- route soundness in a static topology

  /** There is a way of exactly k links from u to v. */
  ghost predicate Walk(links: Links, u: Address, v: Address, k: nat)
    decreases k
  {
    if k == 0 then u == v else exists w: Address :: (u, w) in links && Walk(links, w, v, k - 1)
  }

  ghost predicate SoundRow(links: Links, n: Node, v: Address) {
    v != n.me && n.table[v].cost < INFINITY_COST ==>
      var hop := n.table[v].nextHop;
      IsAddress(hop) && (n.me, hop) in links && n.table[v].cost >= 1 && Walk(links, hop, v, n.table[v].cost - 1)
  }

  ghost predicate SoundNode(links: Links, n: Node) { forall v: Address :: SoundRow(links, n, v) }

  ghost predicate SoundEcho(links: Links, e: Echo) {
    forall v: Address | e.costs[v] < INFINITY_COST :: Walk(links, e.src, v, e.costs[v])
  }

  ghost predicate Sound(links: Links, s: Net) {
    && (forall u | u in s.nodes :: SoundNode(links, s.nodes[u]))
    && (forall e | e in s.flight :: SoundEcho(links, e))
  }

  lemma CostIsWalk(links: Links, n: Node, v: Address)
    requires NodeInv(n) && SoundNode(links, n) && n.table[v].cost < INFINITY_COST
    ensures Walk(links, n.me, v, n.table[v].cost)
  {
    assert RowOk(n, v) && SoundRow(links, n, v);
    if v != n.me {
      var hop: Address := n.table[v].nextHop;
      assert (n.me, hop) in links && Walk(links, hop, v, n.table[v].cost - 1);
    }
  }

  lemma EchoOfSound(links: Links, n: Node)
    requires NodeInv(n) && SoundNode(links, n)
    ensures SoundEcho(links, EchoOf(n))
  {
    forall v: Address | EchoOf(n).costs[v] < INFINITY_COST ensures Walk(links, n.me, v, EchoOf(n).costs[v]) {
      CostIsWalk(links, n, v);
    }
  }

  lemma RegisterEchoSoundRow(links: Links, n: Node, e: Echo, v: Address)
    requires RowOk(n, v) && EchoInv(e) && e.src != n.me && (n.me, e.src) in links
    requires SoundRow(links, n, v) && SoundEcho(links, e)
    ensures SoundRow(links, RegisterEcho(n, e), v)
  {
    if v != n.me { EchoRowSpec(n, e, v); }
  }

  lemma RegisterEchoSound(links: Links, n: Node, e: Echo)
    requires NodeInv(n) && EchoInv(e) && e.src != n.me && (n.me, e.src) in links
    requires SoundNode(links, n) && SoundEcho(links, e)
    ensures SoundNode(links, RegisterEcho(n, e))
  {
    forall v: Address ensures SoundRow(links, RegisterEcho(n, e), v) {
      RegisterEchoSoundRow(links, n, e, v);
    }
  }

  lemma TickSoundRow(links: Links, n: Node, v: Address)
    requires NodeInv(n) && SoundRow(links, n, v)
    ensures SoundRow(links, Tick(n), v)
  {
    if v != n.me { TickRow(n, v); }
  }

  lemma TickSound(links: Links, n: Node)
    requires NodeInv(n) && SoundNode(links, n)
    ensures SoundNode(links, Tick(n))
  {
    forall v: Address ensures SoundRow(links, Tick(n), v) {
      TickSoundRow(links, n, v);
    }
  }

  lemma ApplySound(links: Links, s: Net, step: Step)
    requires NetInv(s) && Sound(links, s)
    ensures Sound(links, Apply(links, s, step))
  {
    match step
    case Broadcast(w) => if w in s.nodes { EchoOfSound(links, s.nodes[w]); }
    case Deliver(u, e) =>
      if u in s.nodes && e in s.flight && (u, e.src) in links && e.src != u {
        RegisterEchoSound(links, s.nodes[u], e);
      }
    case TickNode(u) => if u in s.nodes { TickSound(links, s.nodes[u]); }
  }

  lemma {:induction false} ExecSound(links: Links, s: Net, steps: seq<Step>)
    requires NetInv(s) && Sound(links, s)
    ensures NetInv(Exec(links, s, steps)) && Sound(links, Exec(links, s, steps))
  {
    ExecInv(links, s, steps);
    if steps != [] {
      var before := steps[..|steps| - 1];
      ExecInv(links, s, before);
      ExecSound(links, s, before);
      ApplySound(links, Exec(links, s, before), steps[|steps| - 1]);
    }
  }

  lemma StartSound(links: Links, s: Net)
    requires Start(s)
    ensures NetInv(s) && Sound(links, s)
  {
    StartInv(s);
    forall u | u in s.nodes ensures SoundNode(links, s.nodes[u]) {
      forall v: Address ensures SoundRow(links, s.nodes[u], v) { assert RowOk(s.nodes[u], v); }
    }
  }

  /**
   Over all runs of a static topology, with any old echoes in flight: a finite cost c for v at u has a real
   neighbour of u as next hop, from which v is exactly c - 1 links away; so u itself is c links away.
   */
  lemma {:induction false} RoutesAreSound(links: Links, s: Net, steps: seq<Step>, u: Address, v: Address)
    requires Start(s) && u in s.nodes
    ensures u in Exec(links, s, steps).nodes
    ensures SoundRow(links, Exec(links, s, steps).nodes[u], v)
    ensures var c := Exec(links, s, steps).nodes[u].table[v].cost; c < INFINITY_COST ==> Walk(links, u, v, c)
  {
    StartSound(links, s);
    ExecSound(links, s, steps);
    ExecInv(links, s, steps);
    var n := Exec(links, s, steps).nodes[u];
    assert SoundNode(links, n);
    if n.table[v].cost < INFINITY_COST { CostIsWalk(links, n, v); }
  }
}
