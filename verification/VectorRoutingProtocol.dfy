/**
 The routing protocol object: it updates the rows of its table, the neighbour flags and the time-to-lives in
 place. Its methods are proved against the values of DistanceVector.dfy. It also turns its table into an echo
 and an echo back into a table.
 */
module VectorRoutingProtocol {
  import opened PacketHeader
  import opened DistanceVector
  import opened AddressCollision

  // ----- echoes as packets

  /** A row as `process_payload` reads it from an echo. */
  datatype Advert = Advert(nextHop: uint8, destination: uint8, cost: uint8)

  function SerializedRows(t: Table, count: nat): (b: seq<Byte>)
    requires count <= MAX_NODE_NUMBER
    ensures |b| == 2 * count
  {
    if count == 0 then []
    else SerializedRows(t, count - 1) + [ToByte(t[count].destination), ToByte(t[count].cost)]
  }

  function EchoHeader(me: uint8, dest: uint8): Header {
    Header(0, me, dest, dest, 0, 1, ECHO, 8)
  }

  function EchoPacket(n: Node, dest: uint8): Packet {
    AddHeaderToPayload(EchoHeader(n.me, dest), SerializedRows(n.table, MAX_NODE_NUMBER))
  }

  function Adverts(src: uint8, body: seq<Byte>, pairs: nat): map<uint8, Advert>
    requires 2 * pairs <= |body|
  {
    if pairs == 0 then map[]
    else
      var key := FromByte(body[2 * pairs - 2]);
      Adverts(src, body, pairs - 1)[key := Advert(src, key, FromByte(body[2 * pairs - 1]))]
  }

  /** The body holds as many bytes as `process_payload` reads: pairs, up to the length in the header. */
  predicate HoldsPairs(h: Header, body: seq<Byte>) {
    h.payloadLength + h.payloadLength % 2 <= |body|
  }

  function ReceivedTable(h: Header, body: seq<Byte>): map<uint8, Advert>
    requires HoldsPairs(h, body)
  {
    Adverts(h.sourceAddress, body, (h.payloadLength + 1) / 2)
  }

  /** An echo that a node with an address sent, with a row for every destination but the hearer. */
  predicate FitToHear(h: Header, body: seq<Byte>, me: uint8) {
    && HoldsPairs(h, body)
    && IsAddress(h.sourceAddress)
    && forall a | 1 <= a <= MAX_NODE_NUMBER && a != me :: a in ReceivedTable(h, body)
  }

  function AdvertisedCost(m: map<uint8, Advert>, a: uint8): uint8 {
    if a in m then m[a].cost else INFINITY_COST
  }

  function ReceivedEcho(h: Header, body: seq<Byte>): Echo
    requires HoldsPairs(h, body) && IsAddress(h.sourceAddress)
  {
    var m := ReceivedTable(h, body);
    Echo(h.sourceAddress,
         [0, AdvertisedCost(m, 1), AdvertisedCost(m, 2), AdvertisedCost(m, 3), AdvertisedCost(m, 4)])
  }

  predicate PairFor(body: seq<Byte>, i: nat, key: uint8)
    requires 2 * i + 1 < |body|
  {
    FromByte(body[2 * i]) == key
  }

  /** Of all pairs for a destination the last one counts, and every row leads to the sender. */
  lemma {:induction false} LastPairCounts(src: uint8, body: seq<Byte>, pairs: nat, key: uint8) returns (i: nat)
    requires 2 * pairs <= |body|
    ensures if key in Adverts(src, body, pairs) then
              && i < pairs && PairFor(body, i, key) && (forall j: nat | i < j < pairs :: !PairFor(body, j, key))
              && Adverts(src, body, pairs)[key] == Advert(src, key, FromByte(body[2 * i + 1]))
            else forall j: nat | j < pairs :: !PairFor(body, j, key)
  {
    i := 0;
    if pairs > 0 {
      var before := LastPairCounts(src, body, pairs - 1, key);
      i := if PairFor(body, pairs - 1, key) then pairs - 1 else before;
    }
  }

  /** The table read from any echo: the pairs that begin before the declared length, the last one of a destination. */
  lemma ReceivedRow(h: Header, body: seq<Byte>, key: uint8) returns (i: nat)
    requires HoldsPairs(h, body)
    ensures if key in ReceivedTable(h, body) then
              && 2 * i < h.payloadLength && PairFor(body, i, key)
              && (forall j: nat | i < j && 2 * j < h.payloadLength :: !PairFor(body, j, key))
              && ReceivedTable(h, body)[key] == Advert(h.sourceAddress, key, FromByte(body[2 * i + 1]))
            else forall j: nat | 2 * j < h.payloadLength :: !PairFor(body, j, key)
  {
    i := LastPairCounts(h.sourceAddress, body, (h.payloadLength + 1) / 2, key);
  }

  lemma AdvertsOfRows(src: uint8, t: Table, count: nat)
    requires count <= MAX_NODE_NUMBER && forall a: Address :: t[a].destination == a
    ensures var m := Adverts(src, SerializedRows(t, MAX_NODE_NUMBER), count);
      && (forall a :: a in m <==> 1 <= a <= count)
      && (forall a: Address | a <= count :: m[a] == Advert(src, a, t[a].cost))
  {
    if count > 0 {
      AdvertsOfRows(src, t, count - 1);
      RowBytes(t, count);
      FromToByte(t[count].destination);
      FromToByte(t[count].cost);
    }
  }

  lemma {:induction false} RowBytesUpTo(t: Table, i: nat, count: nat)
    requires 0 < i <= count <= MAX_NODE_NUMBER
    ensures SerializedRows(t, count)[2 * i - 2] == ToByte(t[i].destination)
    ensures SerializedRows(t, count)[2 * i - 1] == ToByte(t[i].cost)
  {
    if i < count { RowBytesUpTo(t, i, count - 1); }
  }

  lemma RowBytes(t: Table, i: nat)
    requires 0 < i <= MAX_NODE_NUMBER
    ensures SerializedRows(t, MAX_NODE_NUMBER)[2 * i - 2] == ToByte(t[i].destination)
    ensures SerializedRows(t, MAX_NODE_NUMBER)[2 * i - 1] == ToByte(t[i].cost)
  {
    RowBytesUpTo(t, i, MAX_NODE_NUMBER);
  }

  lemma EchoOnWire(n: Node, dest: uint8)
    ensures Parse(EchoPacket(n, dest)) == Header(0, n.me, dest % 8, dest % 8, 0, 1, 0, 8)
    ensures EchoPacket(n, dest)[4..] == SerializedRows(n.table, MAX_NODE_NUMBER)
  {
    DecodeEncode(EchoHeader(n.me, dest), SerializedRows(n.table, MAX_NODE_NUMBER));
  }

  lemma EchoContents(n: Node, h: Header, body: seq<Byte>)
    requires forall a: Address :: n.table[a].destination == a
    requires h.sourceAddress == n.me && h.payloadLength == 8 && body == SerializedRows(n.table, MAX_NODE_NUMBER)
    ensures HoldsPairs(h, body)
    ensures forall a :: a in ReceivedTable(h, body) <==> 1 <= a <= MAX_NODE_NUMBER
    ensures forall a: Address :: ReceivedTable(h, body)[a] == Advert(n.me, a, n.table[a].cost)
    ensures ReceivedEcho(h, body) == EchoOf(n)
  {
    AdvertsOfRows(n.me, n.table, MAX_NODE_NUMBER);
    var m := ReceivedTable(h, body);
    assert forall a: Address :: AdvertisedCost(m, a) == n.table[a].cost;
  }

  /**
   Reading a built echo yields the header of an echo to `dest` and, for every row, its cost behind the sender as
   next hop, and nothing else.
   */
  lemma EchoRoundTrip(n: Node, dest: uint8, h: Header, body: seq<Byte>)
    requires forall a: Address :: n.table[a].destination == a
    requires h == Parse(EchoPacket(n, dest)) && body == EchoPacket(n, dest)[4..]
    ensures HoldsPairs(h, body) && h == Header(0, n.me, dest % 8, dest % 8, 0, 1, 0, 8) && |body| == 8
    ensures forall a :: a in ReceivedTable(h, body) <==> 1 <= a <= MAX_NODE_NUMBER
    ensures forall a: Address :: ReceivedTable(h, body)[a] == Advert(n.me, a, n.table[a].cost)
    ensures ReceivedEcho(h, body) == EchoOf(n)
  {
    EchoOnWire(n, dest);
    EchoContents(n, h, body);
  }

  // ----- which echoes count as a change that the node has to broadcast

  predicate NewsworthyRow(src: uint8, advertised: uint8, row: Row) {
    if advertised == INFINITY_COST then row.nextHop == src
    else Takes(row, advertised) || (row.cost < Offer(advertised) <= MAXIMUM_COST && row.nextHop != src)
  }

  /** The row as the echo's merge finds it: its sender is no longer unreachable. */
  function Found(n: Node, src: Address, a: Address): Row {
    if a == src then Discover(src, n.table[a]) else n.table[a]
  }

  predicate Newsworthy(n: Node, e: Echo, a: Address) { NewsworthyRow(e.src, e.costs[a], Found(n, e.src, a)) }

  ghost predicate NewsBelow(n: Node, e: Echo, bound: int) {
    exists a: Address :: a < bound && a != n.me && Newsworthy(n, e, a)
  }

  ghost predicate ChangesMade(n: Node, e: Echo) {
    n.table[e.src].cost == INFINITY_COST || NewsBelow(n, e, MAX_NODE_NUMBER + 1)
  }

  /** An echo that counts as no change leaves the rows of all other nodes as they are. */
  lemma SilentEchoChangesNothing(n: Node, e: Echo, a: Address)
    requires !ChangesMade(n, e) && a != n.me && e.src != n.me
    ensures RegisterEcho(n, e).table[a] == n.table[a]
  {
    assert RegisterEcho(n, e).table[a] == EchoRow(n, e, a);
    assert !Newsworthy(n, e, a);
  }

  /** The echo offers a finite route that is worse than one held through another neighbour. */
  predicate WorseOffer(n: Node, e: Echo, a: Address) {
    e.costs[a] < 5 && n.table[a].cost < e.costs[a] + 1 && n.table[a].nextHop != e.src
  }

  /** The echo announces that a destination reached through its sender is lost. */
  predicate LostRoute(n: Node, e: Echo, a: Address) { e.costs[a] == 5 && n.table[a].nextHop == e.src }

  /** The echo repeats a route of cost 5, which counts as unreachable and so is installed again as it was. */
  predicate Reinstalled(n: Node, e: Echo, a: Address) { e.costs[a] == 4 && n.table[a] == Row(e.src, 5, a, 40) }

  /** The echo changes the row, or it is one of the three kinds of news that leave the row as it is. */
  ghost predicate Noticed(n: Node, e: Echo, a: Address) {
    || RegisterEcho(n, e).table[a] != n.table[a]
    || WorseOffer(n, e, a) || LostRoute(n, e, a) || Reinstalled(n, e, a)
  }

  lemma NewsworthyIff(n: Node, e: Echo, a: Address)
    requires NodeInv(n) && EchoInv(e) && e.src != n.me && a != n.me && n.table[e.src].cost != 5
    ensures Newsworthy(n, e, a) <==> Noticed(n, e, a)
  {
    assert RowOk(n, a);
    EchoRowSpec(n, e, a);
    assert 0 <= e.costs[a] <= 5 && (e.costs[a] == 0 <==> a == e.src);
  }

  /**
   What makes a node broadcast: the sender was unreachable, or for another node the row changes, or a better route is
   known than the one offered, or the sender lost a route that leads through it, or a route of cost 5 is installed
   once more.
   */
  lemma ChangesMadeIff(n: Node, e: Echo)
    requires NodeInv(n) && EchoInv(e) && e.src != n.me
    ensures ChangesMade(n, e) <==> n.table[e.src].cost == 5 || exists a: Address :: a != n.me && Noticed(n, e, a)
  {
    if n.table[e.src].cost != 5 {
      forall a: Address | a != n.me ensures Newsworthy(n, e, a) <==> Noticed(n, e, a) {
        NewsworthyIff(n, e, a);
      }
    }
  }

  // ----- the object

  // Each loop is tracked by the state it has reached when it has handled the rows below `bound`.

  function Greeted(n: Node, src: Address): Node {
    n.(table := Rows((a: Address) =>
         if a == n.me && (!n.firstTableReceived || n.waitLeft == 0)
         then n.table[a].(nextHop := n.me, cost := 0, destination := n.me) else Found(n, src, a)),
       active := n.active + {src})
  }

  lemma GreetSteps(n: Node, src: Address, heard: Node)
    requires n.table[0] == UNUSED && src != n.me && heard == OwnRowSet(n).(active := n.active + {src as int})
    ensures heard.table[src] == n.table[src]
    ensures Greeted(n, src)
         == if n.table[src].cost == INFINITY_COST then WithRow(heard, src, Row(src, LINK_COST, src, MAX_TTL))
            else heard
  {
    SameNode(Greeted(n, src),
             if n.table[src].cost == INFINITY_COST then WithRow(heard, src, Row(src, LINK_COST, src, MAX_TTL))
             else heard);
  }

  function MergedBelow(n: Node, e: Echo, bound: int): Node {
    var g := Greeted(n, e.src);
    g.(table := Rows((a: Address) => if a == n.me || a < bound then EchoRow(n, e, a) else g.table[a]))
  }

  lemma NewsLoop(n: Node, e: Echo, i: Address)
    ensures !NewsBelow(n, e, 1)
    ensures NewsBelow(n, e, i + 1) <==> NewsBelow(n, e, i) || (i != n.me && Newsworthy(n, e, i))
  {
  }

  function AgedBelow(n: Node, bound: int): Node {
    n.(table := Rows((a: Address) => if a < bound then Age(n, a) else n.table[a]),
       active := set i | i in n.active && !(IsAddress(i) && i < bound && Age(n, i).ttl == 0))
  }

  function Dropped(row: Row, hop: uint8): Row {
    if row.nextHop == hop then row.(cost := INFINITY_COST, nextHop := 0) else row
  }

  function DroppedBelow(n: Node, hop: uint8, bound: int): Node {
    n.(table := Rows((a: Address) => if a < bound then Dropped(n.table[a], hop) else n.table[a]))
  }

  function PurgedBelow(n: Node, bound: int): Node {
    n.(table := Rows((a: Address) => if n.table[a].nextHop < bound then PurgeRow(n, a) else n.table[a]))
  }

  lemma SameNode(n: Node, m: Node)
    requires n.me == m.me && n.firstTableReceived == m.firstTableReceived && n.waitLeft == m.waitLeft
    requires n.table[0] == m.table[0] && forall a: Address :: n.table[a] == m.table[a]
    requires n.active == m.active
    ensures n == m
  {
    forall i | 0 <= i < |n.table| ensures n.table[i] == m.table[i] {
      if i != 0 { var a: Address := i; assert n.table[a] == m.table[a]; }
    }
    assert n.table == m.table;
  }

  lemma PurgeLoop(n: Node, i: Address)
    requires n.table[0] == UNUSED
    ensures PurgedBelow(n, 1) == n && PurgedBelow(n, MAX_NODE_NUMBER + 1) == Purge(n)
    ensures PurgedBelow(n, i).table[i].nextHop == i <==> n.table[i].nextHop == i
    ensures PurgedBelow(n, i + 1)
         == if DeadHop(n, i) then DroppedBelow(PurgedBelow(n, i), i, MAX_NODE_NUMBER + 1) else PurgedBelow(n, i)
  {
    SameNode(PurgedBelow(n, 1), n);
    SameNode(PurgedBelow(n, MAX_NODE_NUMBER + 1), Purge(n));
    SameNode(PurgedBelow(n, i + 1),
             if DeadHop(n, i) then DroppedBelow(PurgedBelow(n, i), i, MAX_NODE_NUMBER + 1) else PurgedBelow(n, i));
  }

  lemma DropLoop(n: Node, hop: uint8, j: Address)
    requires n.table[0] == UNUSED
    ensures DroppedBelow(n, hop, 1) == n
    ensures DroppedBelow(n, hop, j).table[j] == n.table[j]
    ensures DroppedBelow(n, hop, j + 1) == WithRow(DroppedBelow(n, hop, j), j, Dropped(n.table[j], hop))
  {
    SameNode(DroppedBelow(n, hop, 1), n);
    SameNode(DroppedBelow(n, hop, j + 1), WithRow(DroppedBelow(n, hop, j), j, Dropped(n.table[j], hop)));
  }

  lemma AgeBounds(n: Node)
    requires n.table[0] == UNUSED
    ensures AgedBelow(n, 1) == n && AgedBelow(n, MAX_NODE_NUMBER + 1) == AgeAll(n)
  {
    SameNode(AgedBelow(n, 1), n);
    SameNode(AgedBelow(n, MAX_NODE_NUMBER + 1), AgeAll(n));
  }

  lemma AgeNext(n: Node, i: Address)
    requires n.table[0] == UNUSED
    ensures AgedBelow(n, i).table[i] == n.table[i]
    ensures AgedBelow(n, i + 1) == WithRow(AgedBelow(n, i), i, Age(n, i)).(
              active := AgedBelow(n, i).active - if Age(n, i).ttl == 0 then {i as int} else {})
  {
    SameNode(AgedBelow(n, i + 1), WithRow(AgedBelow(n, i), i, Age(n, i)).(
               active := AgedBelow(n, i).active - if Age(n, i).ttl == 0 then {i as int} else {}));
  }

  lemma MergeBounds(n: Node, e: Echo)
    requires n.table[0] == UNUSED && e.src != n.me
    ensures MergedBelow(n, e, 1) == Greeted(n, e.src)
    ensures MergedBelow(n, e, MAX_NODE_NUMBER + 1).(firstTableReceived := true) == RegisterEcho(n, e)
  {
    SameNode(MergedBelow(n, e, 1), Greeted(n, e.src));
    SameNode(MergedBelow(n, e, MAX_NODE_NUMBER + 1).(firstTableReceived := true), RegisterEcho(n, e));
  }

  lemma MergeNext(n: Node, e: Echo, i: Address)
    requires n.table[0] == UNUSED && e.src != n.me
    ensures i != n.me ==> MergedBelow(n, e, i).table[i] == Found(n, e.src, i)
    ensures MergedBelow(n, e, i + 1)
         == if i == n.me then MergedBelow(n, e, i)
            else WithRow(MergedBelow(n, e, i), i, Merge(e.src, e.costs[i], Found(n, e.src, i)))
  {
    SameNode(MergedBelow(n, e, i + 1),
             if i == n.me then MergedBelow(n, e, i)
             else WithRow(MergedBelow(n, e, i), i, Merge(e.src, e.costs[i], Found(n, e.src, i))));
  }

  function CollisionMergedBelow(c: Node, e: Echo, bound: int): Node {
    c.(table := Rows((a: Address) =>
      if a == e.src || bound <= a then c.table[a] else Merge(e.src, e.costs[a], c.table[a])))
  }

  lemma CollisionBounds(c: Node, e: Echo)
    requires c.table[0] == UNUSED
    ensures CollisionMergedBelow(c, e, 1) == c
  {
    SameNode(CollisionMergedBelow(c, e, 1), c);
  }

  lemma CollisionNext(c: Node, e: Echo, i: Address)
    requires c.table[0] == UNUSED
    ensures CollisionMergedBelow(c, e, i).table[i] == c.table[i]
    ensures CollisionMergedBelow(c, e, i + 1)
         == if i == e.src then CollisionMergedBelow(c, e, i)
            else WithRow(CollisionMergedBelow(c, e, i), i, Merge(e.src, e.costs[i], c.table[i]))
  {
    SameNode(CollisionMergedBelow(c, e, i + 1),
             if i == e.src then CollisionMergedBelow(c, e, i)
             else WithRow(CollisionMergedBelow(c, e, i), i, Merge(e.src, e.costs[i], c.table[i])));
  }

  lemma CollisionEnd(n: Node, e: Echo, drawn: Address)
    requires n.table[0] == UNUSED && e.src == n.me
    ensures CollisionMergedBelow(Collided(n, drawn), e, MAX_NODE_NUMBER + 1).(firstTableReceived := true)
         == Collide(n, e, drawn)
  {
    SameNode(CollisionMergedBelow(Collided(n, drawn), e, MAX_NODE_NUMBER + 1).(firstTableReceived := true),
             Collide(n, e, drawn));
  }

  class Route {
    var nextHop: uint8
    var cost: uint8
    var destinationNode: uint8
    var ttl: uint8

    constructor (nextHop: uint8, cost: uint8, destinationNode: uint8, ttl: uint8)
      ensures Value() == Row(nextHop, cost, destinationNode, ttl)
    {
      this.nextHop, this.cost, this.destinationNode, this.ttl := nextHop, cost, destinationNode, ttl;
    }

    function Value(): Row
      reads this
    {
      Row(nextHop, cost, destinationNode, ttl)
    }

    /** The loop body of `tick`: the time-to-live, and the cost of the node's own row. */
    method Age(own: bool)
      modifies this
      ensures Value() == Row(old(nextHop), if own then 0 else old(cost), old(destinationNode),
                             if old(ttl) > 0 then old(ttl) - 1 else old(ttl))
    {
      if ttl > 0 {
        ttl := ttl - 1;
      }
      if own {
        cost := 0;
      }
    }

    /** The loop body of `register_echo`: one advertised cost against this row. */
    method Merge(src: Address, advertised: uint8) returns (changed: bool)
      modifies this
      ensures Value() == DistanceVector.Merge(src, advertised, old(Value()))
      ensures changed == NewsworthyRow(src, advertised, old(Value()))
    {
      changed := false;
      if advertised != INFINITY_COST {
        var potentialNewCost: uint8 := (advertised + LINK_COST) % 0x100;
        if !(potentialNewCost > MAXIMUM_COST) {
          if cost > potentialNewCost || cost == INFINITY_COST || ttl <= 0 {
            changed := true;
            cost := potentialNewCost;
            nextHop := src;
            ttl := MAX_TTL;
          } else if potentialNewCost > cost && nextHop != src {
            changed := true;
          }
        }
      } else if nextHop == src {
        changed := true;
      }
    }
  }

  class Protocol {
    var myAddr: Address
    var myRoutingTable: map<int, Route>
    var neighbors: map<int, bool>
    var firstTableReceived: bool
    var waitFirstEchoRecvTo: nat
    var paused: bool

    ghost predicate Valid()
      reads this
    {
      && (forall a: Address :: a in myRoutingTable)
      && (forall a: Address, b: Address :: a != b ==> myRoutingTable[a] != myRoutingTable[b])
    }

    ghost function Routes(): set<Route>
      reads this
    {
      set a: Address | a in myRoutingTable :: myRoutingTable[a]
    }

    ghost function State(): Node
      reads this, Routes()
      requires Valid()
    {
      Node(myAddr,
           [UNUSED, myRoutingTable[1].Value(), myRoutingTable[2].Value(), myRoutingTable[3].Value(),
            myRoutingTable[4].Value()],
           (set i | i in neighbors && neighbors[i]), firstTableReceived, waitFirstEchoRecvTo)
    }

    constructor (me: Address, waitLeft: nat)
      ensures Valid() && fresh(Routes()) && State() == InitialNode(me, waitLeft) && !paused
    {
      myAddr := me;
      neighbors, firstTableReceived, waitFirstEchoRecvTo, paused := map[], false, waitLeft, false;
      myRoutingTable := map[];
      new;
      var i := 1;
      while i <= MAX_NODE_NUMBER
        invariant 1 <= i <= MAX_NODE_NUMBER + 1
        invariant forall a :: a in myRoutingTable <==> 1 <= a < i
        invariant forall a | 1 <= a < i ::
            fresh(myRoutingTable[a]) && myRoutingTable[a].Value() == Row(0, INFINITY_COST, a, MAX_TTL)
        invariant forall a, b | 1 <= a < b < i :: myRoutingTable[a] != myRoutingTable[b]
        invariant myAddr == me && neighbors == map[] && !firstTableReceived
        invariant waitFirstEchoRecvTo == waitLeft && !paused
      {
        var r := new Route(0, INFINITY_COST, i, MAX_TTL);
        myRoutingTable := myRoutingTable[i := r];
        i := i + 1;
      }
    }

    /** Reads the rows of an echo; every one leads to its sender. */
    method ProcessPayload(payload: Packet) returns (table: map<uint8, Advert>)
      requires |payload| >= 4 && HoldsPairs(Parse(payload), payload[4..])
      ensures table == ReceivedTable(Parse(payload), payload[4..])
    {
      var h := Parse(payload);
      var serialized := payload[4..];
      table := map[];
      var i := 0;
      while i < h.payloadLength
        invariant i % 2 == 0 && 0 <= i <= h.payloadLength + h.payloadLength % 2
        invariant table == Adverts(h.sourceAddress, serialized, i / 2)
      {
        var destination := FromByte(serialized[i]);
        table := table[destination := Advert(h.sourceAddress, destination, FromByte(serialized[i + 1]))];
        i := i + 2;
      }
    }

    /** The table as an echo, addressed to `dest`. */
    method BuildCustomEcho(dest: uint8) returns (packet: Packet)
      requires Valid()
      ensures packet == EchoPacket(State(), dest)
    {
      var payload: seq<Byte> := [];
      var i := 1;
      while i <= MAX_NODE_NUMBER
        invariant 1 <= i <= MAX_NODE_NUMBER + 1
        invariant payload == SerializedRows(State().table, i - 1)
      {
        payload := payload + [ToByte(myRoutingTable[i].destinationNode)];
        payload := payload + [ToByte(myRoutingTable[i].cost)];
        i := i + 1;
      }
      packet := AddHeaderToPayload(EchoHeader(myAddr, dest), payload);
    }

    /** The first half of `register_echo`: the node's own row, and a sender that was unreachable. */
    method Greet(src: Address) returns (discovered: bool)
      requires Valid() && src != myAddr
      modifies this`neighbors, Routes()
      ensures Valid() && State() == Greeted(old(State()), src)
      ensures discovered == (old(State()).table[src].cost == INFINITY_COST)
    {
      ghost var n := State();
      SetOwnRow();
      RegisterActiveNeighbour(src);
      GreetSteps(n, src, State());
      discovered := myRoutingTable[src].cost == INFINITY_COST;
      if discovered {
        SetRow(src, src, LINK_COST, MAX_TTL);
      }
    }

    method SetOwnRow()
      requires Valid()
      modifies Routes()
      ensures Valid() && State() == OwnRowSet(old(State()))
    {
      if !firstTableReceived || waitFirstEchoRecvTo <= 0 {
        SetRow(myAddr, myAddr, 0, myRoutingTable[myAddr].ttl);
      }
    }

    method SetRow(a: Address, nextHop: uint8, cost: uint8, ttl: uint8)
      requires Valid()
      modifies myRoutingTable[a]
      ensures Valid() && State() == WithRow(old(State()), a, Row(nextHop, cost, a, ttl))
    {
      ghost var n := State();
      var r := myRoutingTable[a];
      r.destinationNode := a;
      r.nextHop := nextHop;
      r.cost := cost;
      r.ttl := ttl;
      SameNode(State(), WithRow(n, a, Row(nextHop, cost, a, ttl)));
    }

    method RegisterActiveNeighbour(i: Address)
      requires Valid()
      modifies this`neighbors
      ensures Valid() && State() == old(State()).(active := old(State()).active + {i as int})
    {
      neighbors := neighbors[i := true];
    }

    method PutNeighbourAsInactive(i: Address)
      requires Valid()
      modifies this`neighbors
      ensures Valid() && State() == old(State()).(active := old(State()).active - {i as int})
    {
      neighbors := neighbors[i := false];
    }

    /** `drawn` is the address that the address generator yields if the echo carries this node's own address. */
    method RegisterEcho(payload: Packet, drawn: Address) returns (changesHaveBeenMade: bool)
      requires Valid()
      requires |payload| >= 4 && FitToHear(Parse(payload), payload[4..], myAddr)
      modifies this`neighbors, this`firstTableReceived, this`myAddr, Routes()
      ensures Valid()
      ensures var e := ReceivedEcho(Parse(payload), payload[4..]);
        if e.src == old(myAddr) then State() == Collide(old(State()), e, drawn) && changesHaveBeenMade
        else State() == DistanceVector.RegisterEcho(old(State()), e)
             && changesHaveBeenMade == ChangesMade(old(State()), e)
    {
      var h := Parse(payload);
      var received := ProcessPayload(payload);
      if h.sourceAddress == myAddr {
        MergeCollision(received, drawn, ReceivedEcho(h, payload[4..]));
        changesHaveBeenMade := true;
      } else {
        changesHaveBeenMade := MergeAll(h.sourceAddress, received, ReceivedEcho(h, payload[4..]));
      }
    }

    /** `register_echo` for an echo that carries this node's own address. */
    method MergeCollision(received: map<uint8, Advert>, drawn: Address, ghost e: Echo)
      requires Valid() && e.src == myAddr
      requires forall a: Address | a != myAddr :: a in received && received[a].cost == e.costs[a]
      modifies this`neighbors, this`firstTableReceived, this`myAddr, Routes()
      ensures Valid() && State() == Collide(old(State()), e, drawn)
    {
      var me := myAddr;
      CollisionEnd(State(), e, drawn);
      Collision(drawn);
      CollisionBounds(State(), e);
      MergeCollisionRows(me, received, e, State());
      firstTableReceived := true;
    }

    /** The loop of `register_echo`, which skips the address that the node had before. */
    method MergeCollisionRows(me: Address, received: map<uint8, Advert>, ghost e: Echo, ghost c: Node)
      requires Valid() && e.src == me && State() == CollisionMergedBelow(c, e, 1) && c.table[0] == UNUSED
      requires forall a: Address | a != me :: a in received && received[a].cost == e.costs[a]
      modifies Routes()
      ensures Valid() && State() == CollisionMergedBelow(c, e, MAX_NODE_NUMBER + 1)
    {
      var i := 1;
      while i <= MAX_NODE_NUMBER
        invariant 1 <= i <= MAX_NODE_NUMBER + 1 && Valid()
        invariant State() == CollisionMergedBelow(c, e, i)
      {
        CollisionNext(c, e, i);
        if i != me {
          var _ := MergeRow(i, me, received[i].cost);
        }
        i := i + 1;
      }
    }

    /** The steps before the loop: the colliding neighbour is registered like a new one, after a new address. */
    method Collision(drawn: Address)
      requires Valid()
      modifies this`neighbors, this`myAddr, Routes()
      ensures Valid() && State() == Collided(old(State()), drawn)
    {
      var me := myAddr;
      SetOwnRow();
      RegisterActiveNeighbour(me);
      HandleCollision(drawn);
      SetRow(me, me, LINK_COST, MAX_TTL);
    }

    method HandleCollision(drawn: Address)
      requires Valid()
      modifies this`myAddr, myRoutingTable[drawn]
      ensures Valid()
      ensures State() == if !firstTableReceived then old(State())
                         else WithRow(old(State()), drawn, Row(drawn, 0, drawn, MAX_TTL)).(me := drawn)
    {
      if firstTableReceived {
        myAddr := drawn;
        SetRow(drawn, drawn, 0, MAX_TTL);
      }
    }

    /** `register_echo` for an echo of another node: the new neighbour, and every advertised cost. */
    method MergeAll(src: Address, received: map<uint8, Advert>, ghost e: Echo) returns (changesHaveBeenMade: bool)
      requires Valid() && src != myAddr && e.src == src
      requires forall a: Address | a != myAddr :: a in received && received[a].cost == e.costs[a]
      modifies this`neighbors, this`firstTableReceived, Routes()
      ensures Valid() && State() == DistanceVector.RegisterEcho(old(State()), e)
      ensures changesHaveBeenMade == ChangesMade(old(State()), e)
    {
      ghost var n := State();
      var discovered := Greet(src);
      MergeBounds(n, e);
      var changed := MergeRows(src, received, e, n);
      changesHaveBeenMade := discovered || changed;
      firstTableReceived := true;
    }

    /** The loop of `register_echo`. */
    method MergeRows(src: Address, received: map<uint8, Advert>, ghost e: Echo, ghost n: Node) returns (found: bool)
      requires Valid() && n.me == myAddr != src && e.src == src && n.table[0] == UNUSED
      requires State() == MergedBelow(n, e, 1)
      requires forall a: Address | a != myAddr :: a in received && received[a].cost == e.costs[a]
      modifies Routes()
      ensures Valid() && State() == MergedBelow(n, e, MAX_NODE_NUMBER + 1)
      ensures found == NewsBelow(n, e, MAX_NODE_NUMBER + 1)
    {
      found := false;
      NewsLoop(n, e, 1);
      var i := 1;
      while i <= MAX_NODE_NUMBER
        invariant 1 <= i <= MAX_NODE_NUMBER + 1 && Valid()
        invariant State() == MergedBelow(n, e, i) && found == NewsBelow(n, e, i)
      {
        MergeNext(n, e, i);
        NewsLoop(n, e, i);
        if i != myAddr {
          var changed := MergeRow(i, src, received[i].cost);
          found := found || changed;
        }
        i := i + 1;
      }
    }

    method MergeRow(i: Address, src: Address, advertised: uint8) returns (changed: bool)
      requires Valid()
      modifies myRoutingTable[i]
      ensures Valid()
      ensures State() == WithRow(old(State()), i, DistanceVector.Merge(src, advertised, old(State()).table[i]))
      ensures changed == NewsworthyRow(src, advertised, old(State()).table[i])
    {
      ghost var n := State();
      changed := myRoutingTable[i].Merge(src, advertised);
      SameNode(State(), WithRow(n, i, DistanceVector.Merge(src, advertised, n.table[i])));
    }

    /** Purges every row behind a neighbour that was reached directly and is no longer active. */
    method InactiveNeighboursHandling()
      requires Valid()
      modifies Routes()
      ensures Valid() && State() == Purge(old(State()))
    {
      ghost var n := State();
      PurgeLoop(n, 1);
      var i := 1;
      while i <= MAX_NODE_NUMBER
        invariant 1 <= i <= MAX_NODE_NUMBER + 1 && Valid()
        invariant State() == PurgedBelow(n, i)
      {
        PurgeLoop(n, i);
        if !(i in neighbors && neighbors[i]) && myRoutingTable[i].nextHop == i && i != myAddr {
          DropRoutesThrough(i);
        }
        i := i + 1;
      }
    }

    /** The inner loop of the purge. */
    method DropRoutesThrough(hop: Address)
      requires Valid()
      modifies Routes()
      ensures Valid() && State() == DroppedBelow(old(State()), hop, MAX_NODE_NUMBER + 1)
    {
      ghost var n := State();
      DropLoop(n, hop, 1);
      var j := 1;
      while j <= MAX_NODE_NUMBER
        invariant 1 <= j <= MAX_NODE_NUMBER + 1 && Valid()
        invariant State() == DroppedBelow(n, hop, j)
      {
        DropLoop(n, hop, j);
        DropRoute(j, hop);
        j := j + 1;
      }
    }

    method DropRoute(j: Address, hop: Address)
      requires Valid()
      modifies myRoutingTable[j]
      ensures Valid() && State() == WithRow(old(State()), j, Dropped(old(State()).table[j], hop))
    {
      ghost var n := State();
      if myRoutingTable[j].nextHop == hop {
        myRoutingTable[j].cost := INFINITY_COST;
        myRoutingTable[j].nextHop := 0;
      }
      SameNode(State(), WithRow(n, j, Dropped(n.table[j], hop)));
    }

    /** One turn of the ticking loop of a settled node. */
    method Tick()
      requires Valid()
      modifies this`neighbors, Routes()
      ensures Valid() && State() == if paused then old(State()) else DistanceVector.Tick(old(State()))
    {
      if !paused {
        ghost var n := State();
        AgeBounds(n);
        var i := 1;
        while i <= MAX_NODE_NUMBER
          invariant 1 <= i <= MAX_NODE_NUMBER + 1 && Valid()
          invariant State() == AgedBelow(n, i)
        {
          AgeNext(n, i);
          AgeRow(i);
          i := i + 1;
        }
        InactiveNeighboursHandling();
      }
    }

    method AgeRow(i: Address)
      requires Valid()
      modifies this`neighbors, myRoutingTable[i]
      ensures Valid()
      ensures State() == WithRow(old(State()), i, Age(old(State()), i)).(
                           active := old(State()).active - if Age(old(State()), i).ttl == 0 then {i as int} else {})
    {
      myRoutingTable[i].Age(i == myAddr);
      ghost var n := old(State());
      SameNode(State(), WithRow(n, i, Age(n, i)));
      if myRoutingTable[i].ttl <= 0 {
        PutNeighbourAsInactive(i);
      }
    }
  }
}
