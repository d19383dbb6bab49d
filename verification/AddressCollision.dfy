/**
 An echo that carries the hearer's own address: the recovery may draw another address. What it does to the table,
 and when it leaves the table in order. Which address is drawn is a parameter.
 */
module AddressCollision {
  import opened DistanceVector

  /** The state before the merge: a new address only after a first table, and then the old one is a neighbour's. */
  function Collided(n: Node, drawn: Address): Node {
    var greeted := OwnRowSet(n).(active := n.active + {n.me as int});
    var moved :=
      if n.firstTableReceived then WithRow(greeted, drawn, Row(drawn, 0, drawn, MAX_TTL)).(me := drawn) else greeted;
    WithRow(moved, n.me, Row(n.me, LINK_COST, n.me, MAX_TTL))
  }

  function Collide(n: Node, e: Echo, drawn: Address): Node {
    var c := Collided(n, drawn);
    c.(table := Rows((a: Address) => if a == n.me then c.table[a] else Merge(n.me, e.costs[a], c.table[a])),
       firstTableReceived := true)
  }

  /** Rows behind the drawn address are replaced by the echo. */
  ghost predicate FreesDrawn(n: Node, e: Echo, drawn: Address) {
    forall a: Address | a != n.me && a != drawn && n.table[a].nextHop == drawn :: Accepts(n.table[a], e.costs[a])
  }

  /** Every row after a collision, whether or not the node moves to another address. */
  lemma CollideRow(n: Node, e: Echo, drawn: Address, a: Address)
    requires NodeInv(n) && EchoInv(e) && e.src == n.me
    ensures Collide(n, e, drawn).me == (if n.firstTableReceived then drawn else n.me)
    ensures Collide(n, e, drawn).active == n.active + {n.me as int} && Collide(n, e, drawn).firstTableReceived
    ensures Collide(n, e, drawn).table[a]
         == if a == n.me then Row(n.me, 1, n.me, 40)
            else if n.firstTableReceived && a == drawn then Row(drawn, 0, drawn, 40)
            else if Accepts(n.table[a], e.costs[a]) then Row(n.me, e.costs[a] + 1, a, 40)
            else n.table[a]
  {
    assert RowOk(n, a);
    assert 0 <= e.costs[a] <= INFINITY_COST && (e.costs[a] == 0 <==> a == e.src);
    var c := Collided(n, drawn);
    assert Collide(n, e, drawn).table[a] == if a == n.me then c.table[a] else Merge(n.me, e.costs[a], c.table[a]);
  }

  lemma CollideRowOk(n: Node, e: Echo, drawn: Address, a: Address)
    requires NodeInv(n) && EchoInv(e) && e.src == n.me && n.firstTableReceived && drawn != n.me
    requires FreesDrawn(n, e, drawn)
    ensures RowOk(Collide(n, e, drawn), a)
  {
    var n' := Collide(n, e, drawn);
    CollideRow(n, e, drawn, a);
    CollideRow(n, e, drawn, n.me);
    assert RowOk(n, a);
    assert 0 <= e.costs[a] <= INFINITY_COST && (e.costs[a] == 0 <==> a == e.src);
    var hop := n'.table[a].nextHop;
    if a != n.me && a != drawn && hop == n.table[a].nextHop != 0 && hop != n.me {
      assert RowOk(n, hop);
      CollideRow(n, e, drawn, hop);
      assert e.costs[hop] != 0;
    }
  }

  /**
   The recovery leaves a table in order exactly when it happens after a first table, draws another address, and
   that address was no next hop of a row that the echo does not replace. Otherwise the node's own row has cost 1,
   or a row leads through the node itself.
   */
  lemma CollisionKeepsOrderIff(n: Node, e: Echo, drawn: Address)
    requires NodeInv(n) && EchoInv(e) && e.src == n.me
    ensures NodeInv(Collide(n, e, drawn)) <==> n.firstTableReceived && drawn != n.me && FreesDrawn(n, e, drawn)
  {
    var n' := Collide(n, e, drawn);
    if n.firstTableReceived && drawn != n.me {
      if FreesDrawn(n, e, drawn) {
        forall a: Address ensures RowOk(n', a) { CollideRowOk(n, e, drawn, a); }
      } else {
        var a: Address :| a != n.me && a != drawn && n.table[a].nextHop == drawn && !Accepts(n.table[a], e.costs[a]);
        CollideRow(n, e, drawn, a);
        assert !RowOk(n', a);
      }
    } else {
      assert n'.table[n.me] == Collided(n, drawn).table[n.me] && !RowOk(n', n.me);
    }
  }

  /** An address that the generator takes for unused was unreachable after the last echo, or has expired since. */
  predicate Unused(n: Node, a: Address) { n.table[a].cost == INFINITY_COST || n.table[a].ttl == 0 }

  lemma UnusedIsNoHop(n: Node, e: Echo, drawn: Address)
    requires NodeInv(n) && drawn != n.me && Unused(n, drawn)
    ensures FreesDrawn(n, e, drawn)
  {
    forall a: Address | a != n.me && a != drawn ensures n.table[a].nextHop != drawn {
      assert RowOk(n, a);
    }
  }

  /**
   For every address that the generator can yield, the old one or an unused one, the recovery leaves the table in
   order exactly when it happens after a first table and yields another address.
   */
  lemma RecoveryKeepsOrderIff(n: Node, e: Echo, drawn: Address)
    requires NodeInv(n) && EchoInv(e) && e.src == n.me && (drawn == n.me || Unused(n, drawn))
    ensures NodeInv(Collide(n, e, drawn)) <==> n.firstTableReceived && drawn != n.me
  {
    CollisionKeepsOrderIff(n, e, drawn);
    if drawn != n.me { UnusedIsNoHop(n, e, drawn); }
  }
}
