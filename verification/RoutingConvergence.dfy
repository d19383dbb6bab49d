/**
 Convergence of the distance-vector protocol in a static topology: after r rounds of exchanged echoes every cost up
 to r is the hop distance, if no row expires meanwhile.
 */
module RoutingConvergence {
  import opened DistanceVector
  import opened RoutingNetwork

  /** The links join nodes of the network. */
  ghost predicate Joins(links: Links, s: Net) {
    forall u, w | (u, w) in links :: u in s.nodes && w in s.nodes
  }

  ghost predicate Distance(links: Links, u: Address, v: Address, k: nat) {
    Walk(links, u, v, k) && forall j: nat | j < k :: !Walk(links, u, v, j)
  }

  /** Every row but a node's own has more than `left(u)` ticks to live at node u. */
  ghost predicate Fresh(s: Net, left: Address -> int) {
    forall u, v: Address | u in s.nodes && v != u :: s.nodes[u].table[v].ttl > left(u)
  }

  function At(links: Links, s: Net, steps: seq<Step>, i: nat): Net
    requires i <= |steps|
  {
    Exec(links, s, steps[..i])
  }

  /** Between the two moments every node hears, from each of its neighbours, an echo built after the first. */
  ghost predicate Round(links: Links, s: Net, steps: seq<Step>, lo: nat, hi: nat)
    requires lo <= hi <= |steps|
  {
    forall u, w | (u, w) in links :: exists i, j :: Exchange(links, s, steps, lo, hi, u, w, i, j)
  }

  ghost predicate Exchange(links: Links, s: Net, steps: seq<Step>, lo: nat, hi: nat,
                           u: Address, w: Address, i: nat, j: nat)
    requires lo <= hi <= |steps|
  {
    && lo <= i < j < hi
    && steps[i] == Broadcast(w) && w in At(links, s, steps, i).nodes
    && steps[j] == Deliver(u, EchoOf(At(links, s, steps, i).nodes[w]))
  }

  function TicksIn(steps: seq<Step>, lo: nat, hi: nat, u: Address): nat
    requires lo <= hi <= |steps|
  {
    if lo == hi then 0 else TicksIn(steps, lo, hi - 1, u) + (if steps[hi - 1] == TickNode(u) then 1 else 0)
  }

  /** The ticks that are left at i to a node that may tick `budget` times from `base` on. */
  function Left(steps: seq<Step>, base: nat, i: nat, budget: nat): Address -> int
    requires base <= i <= |steps|
  {
    (u: Address) => budget - TicksIn(steps, base, i, u)
  }

  /** From `base` on no node ticks more often than the budget says. */
  ghost predicate FewTicks(steps: seq<Step>, base: nat, budget: nat) {
    && base <= |steps| && budget < MAX_TTL
    && forall u: Address, i | base <= i <= |steps| :: TicksIn(steps, base, i, u) <= budget
  }

  /** At the start of the window every row but a node's own outlives the ticks of the window. */
  ghost predicate Window(links: Links, s: Net, steps: seq<Step>, base: nat, budget: nat) {
    FewTicks(steps, base, budget) && Fresh(At(links, s, steps, base), Left(steps, base, base, budget))
  }

  /** `marks` are the ends of consecutive rounds. */
  ghost predicate Rounds(links: Links, s: Net, steps: seq<Step>, marks: seq<nat>) {
    && |marks| > 0
    && (forall r | 0 <= r < |marks| :: marks[r] <= |steps|)
    && (forall r | 0 <= r < |marks| - 1 :: marks[r] <= marks[r + 1] && Round(links, s, steps, marks[r], marks[r + 1]))
  }

  // ----- between ticks costs only fall

  ghost predicate Improves(s: Net, t: Net) {
    && s.nodes.Keys == t.nodes.Keys
    && s.flight <= t.flight
    && (forall u, v: Address | u in s.nodes :: t.nodes[u].table[v].cost <= s.nodes[u].table[v].cost)
  }

  lemma HearImproves(n: Node, e: Echo, v: Address, left: int)
    requires NodeInv(n) && EchoInv(e) && e.src != n.me && (v != n.me ==> n.table[v].ttl > left) && 0 <= left < MAX_TTL
    ensures RegisterEcho(n, e).table[v].cost <= n.table[v].cost
    ensures RegisterEcho(n, e).table[v].cost <= e.costs[v] + 1
    ensures v != n.me ==> RegisterEcho(n, e).table[v].ttl > left
  {
    assert RowOk(n, v);
    if v != n.me {
      EchoRowSpec(n, e, v);
    } else {
      assert RegisterEcho(n, e).table[v] == EchoRow(n, e, v);
    }
  }

  lemma TickImproves(n: Node, v: Address, left: int)
    requires NodeInv(n) && left >= 1 && forall a: Address | a != n.me :: n.table[a].ttl > left
    ensures Tick(n).table[v].cost <= n.table[v].cost
    ensures v != n.me ==> Tick(n).table[v].ttl > left - 1
  {
    assert RowOk(n, v);
    if v == n.me {
      TickRowOk(n, v);
    } else {
      TickRow(n, v);
      if n.table[v].nextHop != 0 {
        var hop: Address := n.table[v].nextHop;
        assert Live(n, hop) && n.table[hop].ttl > left;
      }
    }
  }

  lemma ApplyImproves(links: Links, s: Net, step: Step, left: Address -> int, left': Address -> int)
    requires NetInv(s) && Fresh(s, left)
    requires forall u: Address :: 0 <= left'(u) == left(u) - (if step == TickNode(u) then 1 else 0) < MAX_TTL
    ensures Improves(s, Apply(links, s, step)) && Fresh(Apply(links, s, step), left')
  {
    if step.Deliver? && step.to in s.nodes && step.echo in s.flight && step.echo.src != step.to {
      var n := s.nodes[step.to];
      forall v: Address ensures
          && RegisterEcho(n, step.echo).table[v].cost <= n.table[v].cost
          && (v != n.me ==> RegisterEcho(n, step.echo).table[v].ttl > left(n.me)) {
        HearImproves(n, step.echo, v, left(n.me));
      }
    } else if step.TickNode? && step.node in s.nodes {
      var n := s.nodes[step.node];
      forall v: Address ensures
          && Tick(n).table[v].cost <= n.table[v].cost && (v != n.me ==> Tick(n).table[v].ttl > left'(n.me)) {
        TickImproves(n, v, left(n.me));
      }
    }
  }

  lemma ExecSplit(links: Links, s: Net, steps: seq<Step>, i: nat)
    requires i < |steps|
    ensures At(links, s, steps, i + 1) == Apply(links, At(links, s, steps, i), steps[i])
  {
    assert steps[..i + 1][..i] == steps[..i];
  }

  lemma StepImproves(links: Links, s: Net, steps: seq<Step>, base: nat, budget: nat, i: nat)
    requires NetInv(s) && FewTicks(steps, base, budget) && base <= i < |steps|
    requires Fresh(At(links, s, steps, i), Left(steps, base, i, budget))
    ensures Improves(At(links, s, steps, i), At(links, s, steps, i + 1))
    ensures Fresh(At(links, s, steps, i + 1), Left(steps, base, i + 1, budget))
  {
    ExecInv(links, s, steps[..i]);
    ExecSplit(links, s, steps, i);
    ApplyImproves(links, At(links, s, steps, i), steps[i],
                  Left(steps, base, i, budget), Left(steps, base, i + 1, budget));
  }

  lemma {:induction false} StaysFresh(links: Links, s: Net, steps: seq<Step>, base: nat, budget: nat, i: nat)
    requires NetInv(s) && Window(links, s, steps, base, budget) && base <= i <= |steps|
    ensures Fresh(At(links, s, steps, i), Left(steps, base, i, budget))
  {
    if base < i {
      StaysFresh(links, s, steps, base, budget, i - 1);
      StepImproves(links, s, steps, base, budget, i - 1);
    }
  }

  lemma {:induction false} SegmentImproves(links: Links, s: Net, steps: seq<Step>, base: nat, budget: nat,
                                           lo: nat, hi: nat)
    requires NetInv(s) && Window(links, s, steps, base, budget) && base <= lo <= hi <= |steps|
    ensures Improves(At(links, s, steps, lo), At(links, s, steps, hi))
    decreases hi
  {
    if lo < hi {
      SegmentImproves(links, s, steps, base, budget, lo, hi - 1);
      StaysFresh(links, s, steps, base, budget, hi - 1);
      StepImproves(links, s, steps, base, budget, hi - 1);
    }
  }

  // ----- one round

  /** Costs are at most the length of every walk of at most r links. */
  ghost predicate Upper(links: Links, s: Net, r: nat) {
    forall u, v: Address, k: nat | u in s.nodes && k <= r && Walk(links, u, v, k) :: s.nodes[u].table[v].cost <= k
  }

  lemma UpperZero(links: Links, s: Net)
    requires NetInv(s)
    ensures Upper(links, s, 0)
  {
    forall u, v: Address, k: nat | u in s.nodes && k <= 0 && Walk(links, u, v, k)
      ensures s.nodes[u].table[v].cost <= k
    {
      assert RowOk(s.nodes[u], v);
    }
  }

  lemma ExchangeLowers(links: Links, s: Net, steps: seq<Step>, base: nat, budget: nat, lo: nat, hi: nat,
                       u: Address, w: Address, i: nat, j: nat, v: Address)
    requires NetInv(s) && Window(links, s, steps, base, budget) && base <= lo <= hi <= |steps|
    requires (u, w) in links && u in s.nodes && u != w && Exchange(links, s, steps, lo, hi, u, w, i, j)
    ensures u in At(links, s, steps, hi).nodes && w in At(links, s, steps, lo).nodes
    ensures At(links, s, steps, hi).nodes[u].table[v].cost <= At(links, s, steps, lo).nodes[w].table[v].cost + 1
  {
    ExecInv(links, s, steps[..i]);
    ExecInv(links, s, steps[..j]);
    SegmentImproves(links, s, steps, base, budget, lo, i);
    SegmentImproves(links, s, steps, base, budget, lo, i + 1);
    SegmentImproves(links, s, steps, base, budget, i + 1, j);
    SegmentImproves(links, s, steps, base, budget, lo, j);
    SegmentImproves(links, s, steps, base, budget, lo, j + 1);
    SegmentImproves(links, s, steps, base, budget, j + 1, hi);
    ExecSplit(links, s, steps, i);
    ExecSplit(links, s, steps, j);
    StaysFresh(links, s, steps, base, budget, j);
    var e := EchoOf(At(links, s, steps, i).nodes[w]);
    assert e in At(links, s, steps, i + 1).flight;
    HearImproves(At(links, s, steps, j).nodes[u], e, v, 0);
  }

  lemma RoundLowers(links: Links, s: Net, steps: seq<Step>, base: nat, budget: nat, lo: nat, hi: nat, r: nat,
                    u: Address, v: Address)
    requires NetInv(s) && Joins(links, s) && Window(links, s, steps, base, budget) && base <= lo <= hi <= |steps|
    requires Round(links, s, steps, lo, hi) && Upper(links, At(links, s, steps, lo), r)
    requires u in s.nodes && Walk(links, u, v, r + 1)
    ensures u in At(links, s, steps, hi).nodes
    ensures At(links, s, steps, hi).nodes[u].table[v].cost <= r + 1
  {
    var w: Address :| (u, w) in links && Walk(links, w, v, r);
    var i, j :| Exchange(links, s, steps, lo, hi, u, w, i, j);
    ExecInv(links, s, steps[..hi]);
    ExecInv(links, s, steps[..lo]);
    if u == w {
      SegmentImproves(links, s, steps, base, budget, lo, hi);
    } else {
      ExchangeLowers(links, s, steps, base, budget, lo, hi, u, w, i, j, v);
    }
  }

  lemma RoundRaises(links: Links, s: Net, steps: seq<Step>, base: nat, budget: nat, lo: nat, hi: nat, r: nat)
    requires NetInv(s) && Joins(links, s) && Window(links, s, steps, base, budget) && base <= lo <= hi <= |steps|
    requires Round(links, s, steps, lo, hi) && Upper(links, At(links, s, steps, lo), r)
    ensures Upper(links, At(links, s, steps, hi), r + 1)
  {
    ExecInv(links, s, steps[..lo]);
    ExecInv(links, s, steps[..hi]);
    SegmentImproves(links, s, steps, base, budget, lo, hi);
    var t := At(links, s, steps, hi);
    forall u, v: Address, k: nat | u in t.nodes && k <= r + 1 && Walk(links, u, v, k)
      ensures t.nodes[u].table[v].cost <= k
    {
      if k == r + 1 { RoundLowers(links, s, steps, base, budget, lo, hi, r, u, v); }
    }
  }

  lemma {:induction false} RoundsRaise(links: Links, s: Net, steps: seq<Step>, budget: nat, marks: seq<nat>, r: nat)
    requires NetInv(s) && Joins(links, s) && Rounds(links, s, steps, marks) && r < |marks|
    requires Window(links, s, steps, marks[0], budget)
    ensures marks[0] <= marks[r] && Upper(links, At(links, s, steps, marks[r]), r)
  {
    if r == 0 {
      ExecInv(links, s, steps[..marks[0]]);
      UpperZero(links, At(links, s, steps, marks[0]));
    } else {
      RoundsRaise(links, s, steps, budget, marks, r - 1);
      RoundRaises(links, s, steps, marks[0], budget, marks[r - 1], marks[r], r - 1);
    }
  }

  // ----- hop distances in a network of four addresses

  lemma WalkExtends(links: Links, u: Address, w: Address, v: Address, j: nat)
    requires (u, w) in links
    ensures Walk(links, w, v, j) ==> Walk(links, u, v, j + 1)
  {
  }

  lemma WalkAhead(links: Links, u: Address, w: Address, v: Address, k: nat)
    requires Distance(links, u, v, k) && k >= 1 && (u, w) in links && Walk(links, w, v, k - 1)
    ensures Distance(links, w, v, k - 1) && (w == v <==> k == 1)
  {
    forall j: nat | j < k - 1 ensures !Walk(links, w, v, j) {
      WalkExtends(links, u, w, v, j);
    }
    assert w == v ==> Walk(links, w, v, 0);
  }

  lemma NextOnShortestWalk(links: Links, u: Address, v: Address, k: nat) returns (w: Address)
    requires Distance(links, u, v, k) && k > 0
    ensures (u, w) in links && Distance(links, w, v, k - 1)
  {
    w :| (u, w) in links && Walk(links, w, v, k - 1);
    WalkAhead(links, u, w, v, k);
  }

  /** Four addresses leave no room for a shortest walk of four links. */
  lemma DistancesAreShort(links: Links, u: Address, v: Address, k: nat)
    requires Distance(links, u, v, k)
    ensures k < MAX_NODE_NUMBER
    decreases k
  {
    if k > MAX_NODE_NUMBER {
      var w := NextOnShortestWalk(links, u, v, k);
      DistancesAreShort(links, w, v, k - 1);
    } else if k == MAX_NODE_NUMBER {
      var w3 := NextOnShortestWalk(links, u, v, 4);
      var w2 := NextOnShortestWalk(links, w3, v, 3);
      var w1 := NextOnShortestWalk(links, w2, v, 2);
      assert false;
    }
  }

  /**
   From any reachable state: after r rounds the cost of every pair at hop distance at most r is that distance, if
   no node ticks more than `budget` < 40 times meanwhile and every row outlived that many ticks at the start. With
   a budget of 0 the rows only have to be unexpired.
   */
  lemma {:induction false} Convergence(links: Links, s: Net, steps: seq<Step>, budget: nat, marks: seq<nat>,
                                       u: Address, v: Address, k: nat)
    requires Start(s) && Joins(links, s) && Rounds(links, s, steps, marks)
    requires Window(links, s, steps, marks[0], budget)
    requires u in s.nodes && Distance(links, u, v, k) && k <= |marks| - 1
    ensures u in Exec(links, s, steps).nodes
    ensures Exec(links, s, steps).nodes[u].table[v].cost == k
  {
    StartInv(s);
    var r := |marks| - 1;
    RoundsRaise(links, s, steps, budget, marks, r);
    ExecInv(links, s, steps[..marks[r]]);
    SegmentImproves(links, s, steps, marks[0], budget, marks[0], marks[r]);
    SegmentImproves(links, s, steps, marks[0], budget, marks[r], |steps|);
    assert steps[..|steps|] == steps;
    RoutesAreSound(links, s, steps, u, v);
    DistancesAreShort(links, u, v, k);
  }

  lemma {:induction false} ShortestWalk(links: Links, u: Address, v: Address, k: nat) returns (d: nat)
    requires Walk(links, u, v, k)
    ensures d <= k && Distance(links, u, v, d)
  {
    if j: nat :| j < k && Walk(links, u, v, j) {
      d := ShortestWalk(links, u, v, j);
    } else {
      d := k;
    }
  }

  /** Three rounds are enough for every table to be exact: hop distances, and infinity for what cannot be reached. */
  lemma ExactAfterThreeRounds(links: Links, s: Net, steps: seq<Step>, budget: nat, marks: seq<nat>,
                              u: Address, v: Address)
    requires Start(s) && Joins(links, s) && Rounds(links, s, steps, marks) && |marks| >= MAX_NODE_NUMBER
    requires Window(links, s, steps, marks[0], budget)
    requires u in s.nodes
    ensures u in Exec(links, s, steps).nodes
    ensures var c := Exec(links, s, steps).nodes[u].table[v].cost;
      if c < INFINITY_COST then Distance(links, u, v, c) else forall k: nat :: !Walk(links, u, v, k)
  {
    RoutesAreSound(links, s, steps, u, v);
    StartInv(s);
    ExecInv(links, s, steps);
    assert RowOk(Exec(links, s, steps).nodes[u], v);
    if k: nat :| Walk(links, u, v, k) {
      var d := ShortestWalk(links, u, v, k);
      DistancesAreShort(links, u, v, d);
      Convergence(links, s, steps, budget, marks, u, v, d);
    }
  }
}
