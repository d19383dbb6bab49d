/**
 What ageing guarantees: a silent neighbour is purged, and routes to a node that went silent die out, however
 the other nodes keep echoing old costs to each other.
 */
module RoutingAgeing {
  import opened DistanceVector

  // ----- one node, any interleaving of echoes and ticks

  datatype NodeEvent = Hear(echo: Echo) | Ticked(paused: bool)

  function React(n: Node, ev: NodeEvent): Node {
    match ev
    case Hear(e) => RegisterEcho(n, e)
    case Ticked(paused) => if paused then n else Tick(n)
  }

  function Run(n: Node, evs: seq<NodeEvent>): Node {
    if evs == [] then n else React(Run(n, evs[..|evs| - 1]), evs[|evs| - 1])
  }

  function UnpausedTicks(evs: seq<NodeEvent>): nat {
    if evs == [] then 0
    else UnpausedTicks(evs[..|evs| - 1]) + (if evs[|evs| - 1] == Ticked(false) then 1 else 0)
  }

  /** The events bring echoes of other nodes, and none of `i`. */
  ghost predicate SilentFrom(n: Node, evs: seq<NodeEvent>, i: Address) {
    forall ev | ev in evs && ev.Hear? :: EchoInv(ev.echo) && ev.echo.src != n.me && ev.echo.src != i
  }

  /** No row leads through `i`, or its direct row has at most `left` ticks to live. */
  ghost predicate Fading(n: Node, i: Address, left: int) {
    n.table[i].nextHop == i ==> n.table[i].ttl <= left
  }

  lemma ReactFades(n: Node, ev: NodeEvent, i: Address, left: int)
    requires NodeInv(n) && i != n.me && Fading(n, i, left)
    requires ev.Hear? ==> EchoInv(ev.echo) && ev.echo.src != n.me && ev.echo.src != i
    ensures NodeInv(React(n, ev)) && React(n, ev).me == n.me
    ensures Fading(React(n, ev), i, if ev == Ticked(false) then left - 1 else left)
  {
    assert RowOk(n, i);
    match ev
    case Hear(e) =>
      RegisterEchoInv(n, e);
      EchoRowSpec(n, e, i);
    case Ticked(paused) =>
      if !paused {
        TickInv(n);
        TickRow(n, i);
      }
  }

  lemma {:induction false} RunFades(n: Node, evs: seq<NodeEvent>, i: Address)
    requires NodeInv(n) && i != n.me && SilentFrom(n, evs, i)
    ensures NodeInv(Run(n, evs)) && Run(n, evs).me == n.me
    ensures Fading(Run(n, evs), i, MAX_TTL - UnpausedTicks(evs))
  {
    if evs == [] {
      assert RowOk(n, i);
    } else {
      var before := evs[..|evs| - 1];
      assert SilentFrom(n, before, i);
      RunFades(n, before, i);
      assert evs[|evs| - 1] in evs;
      ReactFades(Run(n, before), evs[|evs| - 1], i, MAX_TTL - UnpausedTicks(before));
    }
  }

  /**
   After 40 unpaused ticks in which no echo of `i` was processed, however many others were, no row of another
   node leads through `i`; and so it stays until an echo of `i` is processed.
   */
  lemma SilentNeighbourIsPurged(n: Node, evs: seq<NodeEvent>, i: Address, a: Address)
    requires NodeInv(n) && i != n.me && SilentFrom(n, evs, i) && UnpausedTicks(evs) >= MAX_TTL
    ensures a != n.me ==> Run(n, evs).table[a].nextHop != i
  {
    RunFades(n, evs, i);
    var n' := Run(n, evs);
    assert RowOk(n', i);
    assert RowOk(n', a);
  }

  /** The events bring well-formed echoes of other nodes, those of the neighbour included. */
  ghost predicate WellFormed(n: Node, evs: seq<NodeEvent>) {
    forall ev | ev in evs && ev.Hear? :: EchoInv(ev.echo) && ev.echo.src != n.me
  }

  /** The node is unreachable, and no row leads through it. */
  ghost predicate Lost(n: Node, i: Address) {
    n.table[i].cost == INFINITY_COST && forall a: Address | a != n.me :: n.table[a].nextHop != i
  }

  lemma ReactAges(n: Node, ev: NodeEvent, i: Address)
    requires NodeInv(n) && i != n.me && Live(n, i)
    requires ev.Hear? ==> EchoInv(ev.echo) && ev.echo.src != n.me
    ensures NodeInv(React(n, ev)) && React(n, ev).me == n.me
    ensures var ttl := n.table[i].ttl - (if ev == Ticked(false) then 1 else 0);
      if ttl > 0 then Live(React(n, ev), i) && React(n, ev).table[i].ttl == ttl
      else Lost(React(n, ev), i)
  {
    assert RowOk(n, i);
    match ev
    case Hear(e) =>
      RegisterEchoInv(n, e);
      LiveRowStable(n, e, i);
    case Ticked(paused) =>
      if !paused {
        TickInv(n);
        TickRow(n, i);
        if n.table[i].ttl == 1 {
          forall a: Address | a != n.me ensures Tick(n).table[a].nextHop != i { assert RowOk(Tick(n), a); }
        }
      }
  }

  /**
   A live neighbour is kept for exactly the ticks that its row has to live and then lost, however often it is heard
   meanwhile: hearing it does not renew the row. So no neighbour outlives 40 ticks in one piece.
   */
  lemma {:induction false} HeardNeighbourIsLost(n: Node, evs: seq<NodeEvent>, i: Address) returns (k: nat)
    requires NodeInv(n) && i != n.me && Live(n, i) && WellFormed(n, evs)
    ensures k <= |evs|
    ensures if UnpausedTicks(evs) < n.table[i].ttl
            then Live(Run(n, evs), i) && Run(n, evs).table[i].ttl == n.table[i].ttl - UnpausedTicks(evs)
                 && NodeInv(Run(n, evs)) && Run(n, evs).me == n.me
            else Lost(Run(n, evs[..k]), i) && UnpausedTicks(evs[..k]) == n.table[i].ttl <= MAX_TTL
  {
    assert RowOk(n, i);
    k := |evs|;
    assert evs[..k] == evs;
    if evs != [] {
      var before, ev := evs[..|evs| - 1], evs[|evs| - 1];
      assert ev in evs && forall x | x in before :: x in evs;
      var j := HeardNeighbourIsLost(n, before, i);
      if UnpausedTicks(before) < n.table[i].ttl {
        ReactAges(Run(n, before), ev, i);
      } else {
        k := j;
        assert evs[..k] == before[..k];
      }
    }
  }

  // ----- a network in which echoes are heard late, but not arbitrarily late

  /** How often each node has ticked; entry 0 is unused. */
  type Clock = c: seq<nat> | |c| == MAX_NODE_NUMBER + 1 witness seq(MAX_NODE_NUMBER + 1, i => 0)

  /** A broadcast echo, with the number of ticks of its sender when it was built. */
  datatype Sent = Sent(echo: Echo, stamp: nat)

  datatype Network = Network(nodes: map<Address, Node>, flight: set<Sent>, clock: Clock)

  datatype Move =
    | Broadcast(from: Address)
    | Overhear(to: Address, sent: Sent)
    | Exchange(to: Address, from: Address)
    | TickAt(node: Address)

  /** Its sender has ticked fewer than `delay` times since it built the echo. */
  predicate Young(delay: nat, clock: Clock, x: Sent) { clock[x.echo.src] - x.stamp < delay }

  /**
   A broadcast echo may be heard late, repeatedly or never, but only while it is young. An exchanged echo is heard
   at the moment it is built; with a delay of 0 nothing else is heard.
   */
  function Do(delay: nat, s: Network, m: Move): Network {
    match m
    case Broadcast(w) =>
      if w in s.nodes then s.(flight := s.flight + {Sent(EchoOf(s.nodes[w]), s.clock[w])}) else s
    case Overhear(u, x) =>
      if u in s.nodes && x in s.flight && x.echo.src != u && Young(delay, s.clock, x)
      then s.(nodes := s.nodes[u := RegisterEcho(s.nodes[u], x.echo)]) else s
    case Exchange(u, w) =>
      if u in s.nodes && w in s.nodes && u != w
      then s.(nodes := s.nodes[u := RegisterEcho(s.nodes[u], EchoOf(s.nodes[w]))]) else s
    case TickAt(u) =>
      if u in s.nodes then s.(nodes := s.nodes[u := Tick(s.nodes[u])], clock := s.clock[u := s.clock[u] + 1]) else s
  }

  function DoAll(delay: nat, s: Network, ms: seq<Move>): Network {
    if ms == [] then s else Do(delay, DoAll(delay, s, ms[..|ms| - 1]), ms[|ms| - 1])
  }

  function TicksAt(ms: seq<Move>, u: Address): nat {
    if ms == [] then 0 else TicksAt(ms[..|ms| - 1], u) + (if ms[|ms| - 1] == TickAt(u) then 1 else 0)
  }

  ghost predicate NetworkInv(s: Network) {
    && (forall u | u in s.nodes :: s.nodes[u].me == u && NodeInv(s.nodes[u]))
    && (forall x | x in s.flight :: EchoInv(x.echo) && x.echo.src in s.nodes && x.stamp <= s.clock[x.echo.src])
  }

  /** No echo of v is processed. */
  ghost predicate Unheard(ms: seq<Move>, v: Address) { forall m | m in ms :: NotOf(m, v) }

  predicate NotOf(m: Move, v: Address) {
    (m.Overhear? ==> m.sent.echo.src != v) && (m.Exchange? ==> m.from != v)
  }

  /** Every other node ticks at least n times. */
  ghost predicate AllTick(s: Network, v: Address, ms: seq<Move>, n: nat) {
    forall u | u in s.nodes && u != v :: TicksAt(ms, u) >= n
  }

  /** All other nodes hold a cost of at least c for v. */
  ghost predicate CostsFrom(s: Network, v: Address, c: nat) {
    forall u | u in s.nodes && u != v :: s.nodes[u].table[v].cost >= c
  }

  /** What can still be heard from other nodes advertises a cost of at least c for v. */
  ghost predicate OffersFrom(delay: nat, s: Network, v: Address, c: nat) {
    forall x | x in s.flight && x.echo.src != v && Young(delay, s.clock, x) :: x.echo.costs[v] >= c
  }

  lemma DoInv(delay: nat, s: Network, m: Move)
    requires NetworkInv(s)
    ensures NetworkInv(Do(delay, s, m)) && Do(delay, s, m).nodes.Keys == s.nodes.Keys
    ensures forall u: Address | u in s.nodes ::
      Do(delay, s, m).clock[u] == s.clock[u] + (if m == TickAt(u) then 1 else 0)
  {
    match m
    case Broadcast(w) => if w in s.nodes { EchoOfInv(s.nodes[w]); }
    case Overhear(u, x) => if u in s.nodes && x in s.flight && x.echo.src != u { RegisterEchoInv(s.nodes[u], x.echo); }
    case Exchange(u, w) =>
      if u in s.nodes && w in s.nodes && u != w {
        EchoOfInv(s.nodes[w]);
        RegisterEchoInv(s.nodes[u], EchoOf(s.nodes[w]));
      }
    case TickAt(u) => if u in s.nodes { TickInv(s.nodes[u]); }
  }

  lemma {:induction false} DoAllInv(delay: nat, s: Network, ms: seq<Move>)
    requires NetworkInv(s)
    ensures NetworkInv(DoAll(delay, s, ms)) && DoAll(delay, s, ms).nodes.Keys == s.nodes.Keys
    ensures forall u: Address | u in s.nodes :: DoAll(delay, s, ms).clock[u] == s.clock[u] + TicksAt(ms, u)
  {
    if ms != [] {
      DoAllInv(delay, s, ms[..|ms| - 1]);
      DoInv(delay, DoAll(delay, s, ms[..|ms| - 1]), ms[|ms| - 1]);
    }
  }

  // ----- first half of a phase: old echoes run out

  lemma HearFrom(n: Node, e: Echo, v: Address, c: nat)
    requires NodeInv(n) && EchoInv(e) && e.src != n.me && v != n.me
    requires e.costs[v] + 1 >= c && n.table[v].cost >= c
    ensures RegisterEcho(n, e).table[v].cost >= c
  {
    assert RowOk(n, v);
    EchoRowSpec(n, e, v);
  }

  lemma TickFrom(n: Node, v: Address, c: nat)
    requires NodeInv(n) && v != n.me && n.table[v].cost >= c && c <= INFINITY_COST
    ensures Tick(n).table[v].cost >= c
  {
    TickRow(n, v);
  }

  lemma DoCostsFrom(delay: nat, s: Network, v: Address, c: nat, m: Move)
    requires NetworkInv(s) && 1 <= c <= INFINITY_COST && CostsFrom(s, v, c) && OffersFrom(delay, s, v, c - 1)
    requires NotOf(m, v)
    ensures CostsFrom(Do(delay, s, m), v, c)
  {
    match m
    case Broadcast(_) =>
    case Overhear(u, x) =>
      if u in s.nodes && u != v && x in s.flight && x.echo.src != u && Young(delay, s.clock, x) {
        HearFrom(s.nodes[u], x.echo, v, c);
      }
    case Exchange(u, w) =>
      if u in s.nodes && w in s.nodes && u != w && u != v {
        EchoOfInv(s.nodes[w]);
        HearFrom(s.nodes[u], EchoOf(s.nodes[w]), v, c);
      }
    case TickAt(u) => if u in s.nodes && u != v { TickFrom(s.nodes[u], v, c); }
  }

  /** An echo that was built after its sender had ticked as in `since` advertises a cost of at least c. */
  ghost predicate NewOffersFrom(s: Network, v: Address, c: nat, since: Clock) {
    forall x | x in s.flight && x.echo.src != v && x.stamp > since[x.echo.src] :: x.echo.costs[v] >= c
  }

  lemma DoOffers(delay: nat, s: Network, v: Address, low: nat, c: nat, since: Clock, m: Move)
    requires NetworkInv(s) && low <= c && CostsFrom(s, v, c)
    requires OffersFrom(delay, s, v, low) && NewOffersFrom(s, v, c, since)
    ensures OffersFrom(delay, Do(delay, s, m), v, low) && NewOffersFrom(Do(delay, s, m), v, c, since)
  {
  }

  lemma {:induction false} Draining(delay: nat, s: Network, v: Address, c: nat, ms: seq<Move>)
    requires NetworkInv(s) && 1 <= c <= INFINITY_COST && Unheard(ms, v)
    requires CostsFrom(s, v, c) && OffersFrom(delay, s, v, c - 1)
    ensures var t := DoAll(delay, s, ms);
      CostsFrom(t, v, c) && OffersFrom(delay, t, v, c - 1) && NewOffersFrom(t, v, c, s.clock)
  {
    if ms != [] {
      var before, m := ms[..|ms| - 1], ms[|ms| - 1];
      assert m in ms && Unheard(before, v);
      Draining(delay, s, v, c, before);
      DoAllInv(delay, s, before);
      DoCostsFrom(delay, DoAll(delay, s, before), v, c, m);
      DoOffers(delay, DoAll(delay, s, before), v, c - 1, c, s.clock, m);
    }
  }

  /** Once every other node has ticked `delay` times, no old offer can be heard any more. */
  lemma Drained(delay: nat, s: Network, v: Address, c: nat, ms: seq<Move>)
    requires NetworkInv(s) && 1 <= c <= INFINITY_COST && Unheard(ms, v) && AllTick(s, v, ms, delay)
    requires CostsFrom(s, v, c) && OffersFrom(delay, s, v, c - 1)
    ensures NetworkInv(DoAll(delay, s, ms)) && DoAll(delay, s, ms).nodes.Keys == s.nodes.Keys
    ensures CostsFrom(DoAll(delay, s, ms), v, c) && OffersFrom(delay, DoAll(delay, s, ms), v, c)
  {
    Draining(delay, s, v, c, ms);
    DoAllInv(delay, s, ms);
  }

  // ----- second half of a phase: the rows of the lowest cost expire

  /** The row for v costs more than c, or its next hop has at most `left` ticks to live. */
  ghost predicate Dying(n: Node, v: Address, c: nat, left: int) {
    n.table[v].cost > c || (IsAddress(n.table[v].nextHop) && n.table[n.table[v].nextHop].ttl <= left)
  }

  lemma HearDying(n: Node, e: Echo, v: Address, c: nat, left: int)
    requires NodeInv(n) && EchoInv(e) && e.src != n.me && v != n.me
    requires e.costs[v] >= c && n.table[v].cost >= c && c < INFINITY_COST && Dying(n, v, c, left)
    ensures Dying(RegisterEcho(n, e), v, c, left)
  {
    EchoRowSpec(n, e, v);
    assert RowOk(n, v);
    if n.table[v].cost <= c {
      var hop: Address := n.table[v].nextHop;
      assert RowOk(n, hop);
      LiveRowStable(n, e, hop);
    }
  }

  lemma TickDying(n: Node, v: Address, c: nat, left: int)
    requires NodeInv(n) && v != n.me && n.table[v].cost >= c && c < INFINITY_COST && Dying(n, v, c, left)
    ensures Dying(Tick(n), v, c, left - 1)
  {
    assert RowOk(n, v);
    TickRow(n, v);
    if n.table[v].cost <= c {
      var hop: Address := n.table[v].nextHop;
      assert RowOk(n, hop);
      TickRow(n, hop);
    }
  }

  ghost predicate AllDying(s: Network, v: Address, c: nat, ms: seq<Move>) {
    forall u | u in s.nodes && u != v :: Dying(s.nodes[u], v, c, MAX_TTL - TicksAt(ms, u))
  }

  lemma DoDying(delay: nat, s: Network, v: Address, c: nat, before: seq<Move>, m: Move)
    requires NetworkInv(s) && c < INFINITY_COST && CostsFrom(s, v, c) && OffersFrom(delay, s, v, c)
    requires AllDying(s, v, c, before) && NotOf(m, v)
    ensures AllDying(Do(delay, s, m), v, c, before + [m])
  {
    assert (before + [m])[..|before|] == before;
    forall u | u in s.nodes && u != v
      ensures Dying(Do(delay, s, m).nodes[u], v, c, MAX_TTL - TicksAt(before + [m], u))
    {
      var left := MAX_TTL - TicksAt(before, u);
      if m == TickAt(u) {
        TickDying(s.nodes[u], v, c, left);
      } else if m.Overhear? && m.to == u && m.sent in s.flight && m.sent.echo.src != u
                && Young(delay, s.clock, m.sent) {
        HearDying(s.nodes[u], m.sent.echo, v, c, left);
      } else if m.Exchange? && m.to == u && m.from in s.nodes && m.from != u {
        EchoOfInv(s.nodes[m.from]);
        HearDying(s.nodes[u], EchoOf(s.nodes[m.from]), v, c, left);
      }
    }
  }

  lemma {:induction false} Expiring(delay: nat, s: Network, v: Address, c: nat, ms: seq<Move>)
    requires NetworkInv(s) && 1 <= c < INFINITY_COST && Unheard(ms, v)
    requires CostsFrom(s, v, c) && OffersFrom(delay, s, v, c)
    ensures var t := DoAll(delay, s, ms);
      CostsFrom(t, v, c) && OffersFrom(delay, t, v, c) && AllDying(t, v, c, ms)
  {
    if ms == [] {
      forall u | u in s.nodes && u != v ensures Dying(s.nodes[u], v, c, MAX_TTL) {
        assert RowOk(s.nodes[u], v);
        if s.nodes[u].table[v].nextHop != 0 { assert RowOk(s.nodes[u], s.nodes[u].table[v].nextHop); }
      }
    } else {
      var before, m := ms[..|ms| - 1], ms[|ms| - 1];
      assert before + [m] == ms && m in ms && Unheard(before, v);
      Expiring(delay, s, v, c, before);
      DoAllInv(delay, s, before);
      var t := DoAll(delay, s, before);
      DoCostsFrom(delay, t, v, c, m);
      DoOffers(delay, t, v, c, c, t.clock, m);
      DoDying(delay, t, v, c, before, m);
    }
  }

  lemma Expired(delay: nat, s: Network, v: Address, c: nat, ms: seq<Move>)
    requires NetworkInv(s) && 1 <= c < INFINITY_COST && Unheard(ms, v) && AllTick(s, v, ms, MAX_TTL)
    requires CostsFrom(s, v, c) && OffersFrom(delay, s, v, c)
    ensures NetworkInv(DoAll(delay, s, ms)) && DoAll(delay, s, ms).nodes.Keys == s.nodes.Keys
    ensures CostsFrom(DoAll(delay, s, ms), v, c + 1) && OffersFrom(delay, DoAll(delay, s, ms), v, c)
  {
    Expiring(delay, s, v, c, ms);
    DoAllInv(delay, s, ms);
    var t := DoAll(delay, s, ms);
    forall u | u in t.nodes && u != v ensures t.nodes[u].table[v].cost >= c + 1 {
      assert RowOk(t.nodes[u], v);
      if IsAddress(t.nodes[u].table[v].nextHop) { assert RowOk(t.nodes[u], t.nodes[u].table[v].nextHop); }
    }
  }

  // ----- all phases

  /** In a phase every other node ticks `delay` times, and after that 40 times; with a delay of 0, just 40 times. */
  datatype Phase = Phase(drain: seq<Move>, expire: seq<Move>)

  ghost predicate SilentPhase(delay: nat, s: Network, v: Address, p: Phase) {
    && Unheard(p.drain, v) && AllTick(s, v, p.drain, delay)
    && Unheard(p.expire, v) && AllTick(s, v, p.expire, MAX_TTL)
  }

  function DoPhase(delay: nat, s: Network, p: Phase): Network { DoAll(delay, DoAll(delay, s, p.drain), p.expire) }

  /** A phase without an echo of v raises the cheapest cost that any other node holds for v. */
  lemma PhaseRaises(delay: nat, s: Network, v: Address, c: nat, p: Phase)
    requires NetworkInv(s) && 1 <= c < INFINITY_COST && SilentPhase(delay, s, v, p)
    requires CostsFrom(s, v, c) && OffersFrom(delay, s, v, c - 1)
    ensures NetworkInv(DoPhase(delay, s, p)) && DoPhase(delay, s, p).nodes.Keys == s.nodes.Keys
    ensures CostsFrom(DoPhase(delay, s, p), v, c + 1) && OffersFrom(delay, DoPhase(delay, s, p), v, c)
  {
    Drained(delay, s, v, c, p.drain);
    Expired(delay, DoAll(delay, s, p.drain), v, c, p.expire);
  }

  function DoPhases(delay: nat, s: Network, phases: seq<Phase>): Network {
    if phases == [] then s else DoPhase(delay, DoPhases(delay, s, phases[..|phases| - 1]), phases[|phases| - 1])
  }

  /**
   Once no echo of v is processed, and echoes are heard fewer than `delay` ticks of their sender late, every phase
   rules out one more cost: after c phases no other table holds a route to v of cost at most c, whatever the other
   nodes exchange and whatever was in flight at the start. The fourth phase leaves no finite cost.
   */
  lemma {:induction false} GhostRoutesDie(delay: nat, s: Network, v: Address, phases: seq<Phase>)
    requires NetworkInv(s) && |phases| < INFINITY_COST
    requires forall p | p in phases :: SilentPhase(delay, s, v, p)
    ensures NetworkInv(DoPhases(delay, s, phases)) && DoPhases(delay, s, phases).nodes.Keys == s.nodes.Keys
    ensures CostsFrom(DoPhases(delay, s, phases), v, |phases| + 1)
    ensures OffersFrom(delay, DoPhases(delay, s, phases), v, |phases|)
  {
    if phases == [] {
      forall u | u in s.nodes && u != v ensures s.nodes[u].table[v].cost >= 1 { assert RowOk(s.nodes[u], v); }
    } else {
      var before, p := phases[..|phases| - 1], phases[|phases| - 1];
      assert p in phases && forall x | x in before :: x in phases;
      GhostRoutesDie(delay, s, v, before);
      PhaseRaises(delay, DoPhases(delay, s, before), v, |phases|, p);
    }
  }
}
