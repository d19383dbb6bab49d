/**
 The distance-vector routing table of one node, as a value, and what one echo and one tick do to it
 (src/backend/routing/VectorRoutingProtocol.cpp). The class that updates the table in place is in
 VectorRoutingProtocol.dfy; runs of a whole network are in RoutingNetwork.dfy.
 */
module DistanceVector {
  import opened PacketHeader

  const MAX_NODE_NUMBER := 4
  const INFINITY_COST: uint8 := 5
  const MAXIMUM_COST: uint8 := 7
  const MAX_TTL: uint8 := 40
  const LINK_COST: uint8 := 1
  const WAIT_FIRST_ECHO_RECV_TIMEOUT: nat := 30

  type Address = a: int | 1 <= a <= MAX_NODE_NUMBER witness 1

  predicate IsAddress(x: int) { 1 <= x <= MAX_NODE_NUMBER }

  datatype Row = Row(nextHop: uint8, cost: uint8, destination: uint8, ttl: uint8)

  // One entry per address; entry 0 is unused.
  type Table = t: seq<Row> | |t| == MAX_NODE_NUMBER + 1 witness seq(MAX_NODE_NUMBER + 1, i => Row(0, 0, 0, 0))

  type Costs = c: seq<uint8> | |c| == MAX_NODE_NUMBER + 1 witness seq(MAX_NODE_NUMBER + 1, i => 0)

  const UNUSED := Row(0, 0, 0, 0)

  function Rows(f: Address -> Row): Table {
    seq(MAX_NODE_NUMBER + 1, a requires 0 <= a <= MAX_NODE_NUMBER => if a == 0 then UNUSED else f(a))
  }

  /**
   A node with a settled address: its table, the set of neighbours it holds for active, whether it heard an
   echo before, and what was left of its wait for a first echo when it settled.
   */
  datatype Node = Node(me: Address, table: Table, active: set<int>, firstTableReceived: bool, waitLeft: nat)

  /** An advertised table: who sent it and its cost for every destination. */
  datatype Echo = Echo(src: Address, costs: Costs)

  function EchoOf(n: Node): Echo {
    Echo(n.me, seq(MAX_NODE_NUMBER + 1, a requires 0 <= a <= MAX_NODE_NUMBER => if a == 0 then 0 else n.table[a].cost))
  }

  // ----- processing an echo

  /** The row of a sender that was unreachable so far becomes a direct route. */
  function Discover(src: Address, row: Row): Row {
    if row.cost == INFINITY_COST then Row(src, LINK_COST, src, MAX_TTL) else row
  }

  /** The cost of a destination behind a neighbour that advertises it, in an `unsigned char`. */
  function Offer(advertised: uint8): uint8 { (advertised + LINK_COST) % 0x100 }

  predicate Takes(row: Row, advertised: uint8) {
    && advertised != INFINITY_COST && Offer(advertised) <= MAXIMUM_COST
    && (row.cost > Offer(advertised) || row.cost == INFINITY_COST || row.ttl == 0)
  }

  /** One advertised cost against one row of the table. */
  function Merge(src: Address, advertised: uint8, row: Row): Row {
    if Takes(row, advertised) then row.(cost := Offer(advertised), nextHop := src, ttl := MAX_TTL) else row
  }

  function EchoRow(n: Node, e: Echo, a: Address): Row {
    if a == n.me then
      if !n.firstTableReceived || n.waitLeft == 0 then n.table[a].(nextHop := n.me, cost := 0, destination := n.me)
      else n.table[a]
    else if a == e.src then Merge(e.src, e.costs[a], Discover(e.src, n.table[a]))
    else Merge(e.src, e.costs[a], n.table[a])
  }

  function WithRow(n: Node, a: Address, row: Row): Node { n.(table := n.table[a := row]) }

  /** The node's own row, before the first echo or once its wait is over. */
  function OwnRowSet(n: Node): Node {
    if !n.firstTableReceived || n.waitLeft == 0
    then n.(table := n.table[n.me := n.table[n.me].(nextHop := n.me, cost := 0, destination := n.me)]) else n
  }

  function RegisterEcho(n: Node, e: Echo): Node {
    n.(table := Rows((a: Address) => EchoRow(n, e, a)), active := n.active + {e.src}, firstTableReceived := true)
  }

  // ----- one tick

  function Older(row: Row): Row { if row.ttl > 0 then row.(ttl := row.ttl - 1) else row }

  function Age(n: Node, a: Address): Row {
    if a == n.me then Older(n.table[a]).(cost := 0) else Older(n.table[a])
  }

  function AgeAll(n: Node): Node {
    var table: Table := Rows((a: Address) => Age(n, a));
    n.(table := table, active := set i | i in n.active && !(IsAddress(i) && table[i].ttl == 0))
  }

  /** The neighbour is inactive and was reached directly: everything routed through it is lost. */
  predicate DeadHop(n: Node, hop: uint8) {
    IsAddress(hop) && hop != n.me && hop !in n.active && n.table[hop].nextHop == hop
  }

  function PurgeRow(n: Node, a: Address): Row {
    var row := n.table[a];
    if DeadHop(n, row.nextHop) then row.(cost := INFINITY_COST, nextHop := 0) else row
  }

  function Purge(n: Node): Node {
    n.(table := Rows((a: Address) => PurgeRow(n, a)))
  }

  function Tick(n: Node): Node { Purge(AgeAll(n)) }

  // ----- both for arbitrary tables and bytes, also those that no node in order has or sends

  /**
   What an echo with any cost bytes does to any table. A cost of 5 offers nothing; 7 to 254 are too high; 6 is
   accepted like a lower cost; 255 wraps around to an offer of cost 0.
   */
  lemma EchoOnAnyTable(n: Node, e: Echo, a: Address)
    requires e.src != n.me && n.table[a].destination == a
    ensures var row, adv, r := n.table[a], e.costs[a], RegisterEcho(n, e).table[a];
      if a == n.me then
        r == if n.firstTableReceived && n.waitLeft > 0 then row else Row(n.me, 0, n.me, row.ttl)
      else
        var found := if a == e.src && row.cost == 5 then Row(a, 1, a, 40) else row;
        var offer := if adv == 255 then 0 else adv + 1;
        r == if (adv <= 4 || adv == 6 || adv == 255) && (offer < found.cost || found.cost == 5 || found.ttl == 0)
             then Row(e.src, offer, a, 40) else found
    ensures var r := RegisterEcho(n, e);
      r.me == n.me && r.waitLeft == n.waitLeft && r.firstTableReceived
      && forall i :: i in r.active <==> i in n.active || i == e.src
  {
    assert RegisterEcho(n, e).table[a] == EchoRow(n, e, a);
  }

  /** What a tick does to any table: which rows it ages, which it purges, and which neighbours stay active. */
  lemma TickOnAnyTable(n: Node, a: Address)
    ensures var row, hop := n.table[a], n.table[a].nextHop;
            var left := if row.ttl > 0 then row.ttl - 1 else 0;
            var gone := 1 <= hop <= 4 && hop != n.me && n.table[hop].nextHop == hop
                        && (hop !in n.active || n.table[hop].ttl <= 1);
      Tick(n).table[a] == if gone then Row(0, 5, row.destination, left)
                          else Row(hop, if a == n.me then 0 else row.cost, row.destination, left)
    ensures var r := Tick(n);
      r.me == n.me && r.waitLeft == n.waitLeft && r.firstTableReceived == n.firstTableReceived
      && forall i :: i in r.active <==> i in n.active && !(1 <= i <= 4 && n.table[i].ttl <= 1)
  {
    assert AgeAll(n).table[a] == Age(n, a) && Tick(n).table[a] == PurgeRow(AgeAll(n), a);
    if IsAddress(n.table[a].nextHop) {
      var hop: Address := n.table[a].nextHop;
      assert AgeAll(n).table[hop] == Age(n, hop);
    }
    forall i: Address ensures AgeAll(n).table[i].ttl == 0 <==> n.table[i].ttl <= 1 {
      assert AgeAll(n).table[i] == Age(n, i);
    }
  }

  // ----- the invariant of a node

  /** The neighbour `hop` is reached directly, by a row that has not expired, and is held for active. */
  ghost predicate Live(n: Node, hop: uint8) {
    && IsAddress(hop) && hop != n.me && hop in n.active
    && n.table[hop].nextHop == hop && n.table[hop].cost == 1 && n.table[hop].ttl > 0
  }

  ghost predicate RowOk(n: Node, a: Address) {
    var row := n.table[a];
    && row.destination == a
    && row.cost <= INFINITY_COST
    && row.ttl <= MAX_TTL
    && (if a == n.me then row.cost == 0 && (row.nextHop == 0 || row.nextHop == a)
        else
          && (row.nextHop == 0 ==> row.cost == INFINITY_COST)
          && (row.nextHop != 0 ==> Live(n, row.nextHop))
          && 1 <= row.cost
          && (row.cost == 1 <==> row.nextHop == a))
  }

  ghost predicate NodeInv(n: Node) { forall a: Address :: RowOk(n, a) }

  ghost predicate EchoInv(e: Echo) {
    forall a: Address :: e.costs[a] <= INFINITY_COST && (e.costs[a] == 0 <==> a == e.src)
  }

  /** A node that has just settled on its address and has heard nothing. */
  ghost predicate Settled(n: Node) {
    forall a: Address ::
      var row := n.table[a];
      && row.destination == a && row.ttl <= MAX_TTL
      && (if a == n.me then row.cost == 0 && (row.nextHop == 0 || row.nextHop == a)
          else row.cost == INFINITY_COST && row.nextHop == 0)
  }

  function InitialNode(me: Address, waitLeft: nat): Node {
    Node(me, Rows((a: Address) => Row(0, INFINITY_COST, a, MAX_TTL)), {}, false, waitLeft)
  }

  /**
   A tick of a node that has no address yet and still waits for a first echo. Its own row is a row like the others,
   and its count of ticks to wait goes down.
   */
  function WaitingTick(n: Node): Node
    requires n.waitLeft > 0
  {
    var table: Table := Rows((a: Address) => Older(n.table[a]));
    Purge(n.(table := table, active := set i | i in n.active && !(IsAddress(i) && table[i].ttl == 0)))
    .(waitLeft := n.waitLeft - 1)
  }

  function Wait(n: Node, ticks: nat): Node
    requires ticks <= n.waitLeft
    ensures Wait(n, ticks).waitLeft == n.waitLeft - ticks
  {
    if ticks == 0 then n else WaitingTick(Wait(n, ticks - 1))
  }

  ghost predicate Blank(n: Node) {
    n.active == {} && forall a: Address ::
      var row := n.table[a];
      row.nextHop == 0 && row.cost == INFINITY_COST && row.destination == a && row.ttl <= MAX_TTL
  }

  lemma WaitingTickKeepsBlank(n: Node)
    requires Blank(n) && n.waitLeft > 0
    ensures Blank(WaitingTick(n)) && WaitingTick(n).me == n.me
    ensures forall a: Address :: WaitingTick(n).table[a] == Older(n.table[a])
  {
    var aged := n.(table := Rows((a: Address) => Older(n.table[a])));
    forall a: Address ensures WaitingTick(n).table[a] == Older(n.table[a]) {
      assert aged.table[a] == Older(n.table[a]);
    }
  }

  lemma {:induction false} WaitKeepsBlank(n: Node, ticks: nat)
    requires Blank(n) && ticks <= n.waitLeft
    ensures Blank(Wait(n, ticks)) && Wait(n, ticks).me == n.me
    ensures forall a: Address | ticks <= n.table[a].ttl :: Wait(n, ticks).table[a].ttl == n.table[a].ttl - ticks
  {
    if ticks > 0 {
      WaitKeepsBlank(n, ticks - 1);
      WaitingTickKeepsBlank(Wait(n, ticks - 1));
    }
  }

  lemma BlankThenTick(n: Node)
    requires Blank(n)
    ensures Settled(Tick(n)) && forall a: Address :: Tick(n).table[a].ttl == Older(n.table[a]).ttl
  {
    forall a: Address ensures Tick(n).table[a] == PurgeRow(AgeAll(n), a) && AgeAll(n).table[a] == Age(n, a) {}
  }

  /**
   A freshly constructed node that hears nothing is settled by the first tick in which it has its address, after
   any number of waiting ticks. Its rows have aged by all of them: 9 ticks are left after the full wait of 30.
   */
  lemma FirstTickSettles(me: Address, waited: nat)
    requires waited <= 30
    ensures Wait(InitialNode(me, WAIT_FIRST_ECHO_RECV_TIMEOUT), waited).waitLeft == 30 - waited
    ensures var n := Tick(Wait(InitialNode(me, WAIT_FIRST_ECHO_RECV_TIMEOUT), waited));
      Settled(n) && n.me == me && forall a: Address :: n.table[a].ttl == 39 - waited
  {
    var n := InitialNode(me, WAIT_FIRST_ECHO_RECV_TIMEOUT);
    WaitKeepsBlank(n, waited);
    BlankThenTick(Wait(n, waited));
  }

  lemma SettledInv(n: Node)
    requires Settled(n)
    ensures NodeInv(n)
  {
  }

  lemma EchoOfInv(n: Node)
    requires NodeInv(n)
    ensures EchoInv(EchoOf(n))
  {
    forall a: Address ensures EchoOf(n).costs[a] <= INFINITY_COST && (EchoOf(n).costs[a] == 0 <==> a == n.me) {
      assert RowOk(n, a);
    }
  }

  /** When an advertised cost replaces a row: it is finite, and cheaper, or the row is unreachable or expired. */
  predicate Accepts(row: Row, advertised: uint8) {
    advertised < INFINITY_COST && (row.cost > advertised + 1 || row.cost == INFINITY_COST || row.ttl == 0)
  }

  /**
   For well-formed echoes an echo does one thing to a row: it replaces it, or it leaves it alone. The
   separate insertion of a new neighbour never makes a difference, and the barrier never fires.
   */
  lemma EchoRowSpec(n: Node, e: Echo, a: Address)
    requires RowOk(n, a) && EchoInv(e) && e.src != n.me && a != n.me
    ensures RegisterEcho(n, e).table[a]
         == if Accepts(n.table[a], e.costs[a]) then Row(e.src, e.costs[a] + 1, a, 40) else n.table[a]
    ensures e.costs[a] + LINK_COST <= MAXIMUM_COST
  {
    assert 0 <= e.costs[a] <= INFINITY_COST && (e.costs[a] == 0 <==> a == e.src);
    assert RegisterEcho(n, e).table[a] == EchoRow(n, e, a);
  }

  /** A live direct row ignores every echo: nothing can be cheaper, and only an expired row is replaced. */
  lemma LiveRowStable(n: Node, e: Echo, hop: Address)
    requires RowOk(n, hop) && EchoInv(e) && e.src != n.me && Live(n, hop)
    ensures RegisterEcho(n, e).table[hop] == n.table[hop]
    ensures Live(RegisterEcho(n, e), hop)
  {
    EchoRowSpec(n, e, hop);
  }

  /** After an echo its sender is a live neighbour. */
  lemma SenderLive(n: Node, e: Echo)
    requires RowOk(n, e.src) && EchoInv(e) && e.src != n.me
    ensures Live(RegisterEcho(n, e), e.src)
  {
    EchoRowSpec(n, e, e.src);
    assert e.costs[e.src] == 0;
  }

  lemma RegisterEchoRow(n: Node, e: Echo, a: Address)
    requires NodeInv(n) && EchoInv(e) && e.src != n.me
    ensures RowOk(RegisterEcho(n, e), a)
  {
    assert RowOk(n, a);
    if a != n.me {
      assert RowOk(n, e.src);
      SenderLive(n, e);
      EchoRowSpec(n, e, a);
      assert 0 <= e.costs[a] <= INFINITY_COST && (e.costs[a] == 0 <==> a == e.src);
      if n.table[a].nextHop != 0 {
        var hop: Address := n.table[a].nextHop;
        assert RowOk(n, hop);
        LiveRowStable(n, e, hop);
      }
    } else {
      assert RegisterEcho(n, e).table[a] == EchoRow(n, e, a);
    }
  }

  lemma RegisterEchoInv(n: Node, e: Echo)
    requires NodeInv(n) && EchoInv(e) && e.src != n.me
    ensures NodeInv(RegisterEcho(n, e))
  {
    forall a: Address ensures RowOk(RegisterEcho(n, e), a) {
      RegisterEchoRow(n, e, a);
    }
  }

  /** The direct row of `hop` does not expire in the coming tick. */
  predicate Survives(n: Node, hop: uint8) { IsAddress(hop) && n.table[hop].ttl > 1 }

  /** A tick keeps a row or purges it; it keeps the row exactly when its next hop outlives the tick. */
  lemma TickRow(n: Node, a: Address)
    requires NodeInv(n) && a != n.me
    ensures var row, ttl := n.table[a], n.table[a].ttl - (if n.table[a].ttl > 0 then 1 else 0);
      Tick(n).table[a] == if Survives(n, row.nextHop) then row.(ttl := ttl) else Row(0, INFINITY_COST, a, ttl)
  {
    assert RowOk(n, a);
    assert AgeAll(n).table[a] == Age(n, a);
    assert Tick(n).table[a] == PurgeRow(AgeAll(n), a);
    if n.table[a].nextHop != 0 {
      var hop: Address := n.table[a].nextHop;
      assert AgeAll(n).table[hop] == Age(n, hop);
    }
  }

  lemma TickRowOk(n: Node, a: Address)
    requires NodeInv(n)
    ensures RowOk(Tick(n), a)
  {
    assert RowOk(n, a);
    if a == n.me {
      assert AgeAll(n).table[a] == Age(n, a);
      assert Tick(n).table[a] == PurgeRow(AgeAll(n), a);
    } else {
      TickRow(n, a);
      if n.table[a].nextHop != 0 {
        var hop: Address := n.table[a].nextHop;
        assert RowOk(n, hop) && Live(n, hop);
        TickRow(n, hop);
      }
    }
  }

  lemma TickInv(n: Node)
    requires NodeInv(n)
    ensures NodeInv(Tick(n))
  {
    forall a: Address ensures RowOk(Tick(n), a) {
      TickRowOk(n, a);
    }
  }
}
