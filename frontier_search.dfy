/**
 * The dijsktra(start, end) frontier search of old/NewAlgorithm.cpp over the
 * adjacency of graph.h: a boundary of (node, cost, route) entries popped in
 * order of cost, a set of reached nodes, and edgesFrom(n) read through
 * getNeighbors(n).
 */
module FrontierSearch {
  import opened MuseumObjects
  import opened Graphs

  /** A boundary entry: a node, the cost of reaching it, and the route before it (the node not yet appended). */
  datatype Entry = Entry(node: Id, cost: real, route: seq<Id>)

  /** The cost half of the result: infinity when there is no route. */
  datatype Distance = Finite(value: real) | Infinite

  // ---------------------------------------------------------------------
  // Walks over an adjacency

  /** A non-empty sequence of nodes, each a neighbour of the one before. */
  predicate IsWalk(adj: Adjacency, w: seq<Id>) {
    |w| >= 1 && forall k :: 0 <= k < |w| - 1 ==> w[k + 1] in Row(adj, w[k])
  }

  predicate IsRoute(adj: Adjacency, s: Id, t: Id, w: seq<Id>) {
    IsWalk(adj, w) && w[0] == s && w[|w| - 1] == t
  }

  ghost predicate Reachable(adj: Adjacency, s: Id, t: Id) {
    exists w :: IsRoute(adj, s, t, w)
  }

  function StepCost(adj: Adjacency, a: Id, b: Id): real {
    if b in Row(adj, a) then Row(adj, a)[b] else 0.0
  }

  /** The total weight of the edges along w. */
  function WalkCost(adj: Adjacency, w: seq<Id>): real {
    if |w| <= 1 then 0.0 else WalkCost(adj, w[..|w| - 1]) + StepCost(adj, w[|w| - 2], w[|w| - 1])
  }

  /** No stored weight is negative. */
  ghost predicate NonNegative(adj: Adjacency) {
    forall a, b :: b in Row(adj, a) ==> Row(adj, a)[b] >= 0.0
  }

  /** Every id the adjacency mentions, as a vertex or as a neighbour. */
  function AllIds(adj: Adjacency): set<Id> {
    adj.Keys + (set a, b | a in adj && b in adj[a] :: b)
  }

  lemma WalkExtend(adj: Adjacency, w: seq<Id>, v: Id)
    requires IsWalk(adj, w) && v in Row(adj, w[|w| - 1])
    ensures IsWalk(adj, w + [v]) && (w + [v])[0] == w[0]
    ensures WalkCost(adj, w + [v]) == WalkCost(adj, w) + Row(adj, w[|w| - 1])[v]
  {
    assert (w + [v])[..|w|] == w;
  }

  lemma WalkPrefix(adj: Adjacency, w: seq<Id>)
    requires IsWalk(adj, w) && |w| >= 2
    ensures IsWalk(adj, w[..|w| - 1]) && w[..|w| - 1][0] == w[0]
    ensures w[|w| - 1] in Row(adj, w[|w| - 2])
    ensures WalkCost(adj, w) == WalkCost(adj, w[..|w| - 1]) + Row(adj, w[|w| - 2])[w[|w| - 1]]
  {
    assert w[|w| - 2 + 1] in Row(adj, w[|w| - 2]);
  }

  /** With non-negative weights no walk costs less than nothing. */
  lemma {:induction false} WalkCostNonNegative(adj: Adjacency, w: seq<Id>)
    requires NonNegative(adj)
    ensures WalkCost(adj, w) >= 0.0
  {
    if |w| > 1 {
      WalkCostNonNegative(adj, w[..|w| - 1]);
    }
  }

  /** A walk that starts inside a set closed under neighbours stays inside it. */
  lemma {:induction false} ClosedSetTrapsWalks(adj: Adjacency, closed: set<Id>, w: seq<Id>)
    requires IsWalk(adj, w) && w[0] in closed
    requires forall u, v :: u in closed && v in Row(adj, u) ==> v in closed
    ensures w[|w| - 1] in closed
  {
    if |w| > 1 {
      WalkPrefix(adj, w);
      ClosedSetTrapsWalks(adj, closed, w[..|w| - 1]);
    }
  }

  /** Walks and their costs depend on the rows alone, so the empty rows getNeighbors inserts change neither. */
  lemma {:induction false} SameRowsSameWalks(adj: Adjacency, other: Adjacency, w: seq<Id>)
    requires forall x :: Row(adj, x) == Row(other, x)
    ensures IsWalk(adj, w) == IsWalk(other, w)
    ensures WalkCost(adj, w) == WalkCost(other, w)
  {
    if |w| > 1 {
      SameRowsSameWalks(adj, other, w[..|w| - 1]);
    }
  }

  lemma SameRowsSameAnswers(adj: Adjacency, other: Adjacency, s: Id, t: Id)
    requires forall x :: Row(adj, x) == Row(other, x)
    ensures Reachable(adj, s, t) == Reachable(other, s, t)
    ensures NonNegative(adj) == NonNegative(other)
    ensures forall w :: IsRoute(adj, s, t, w) == IsRoute(other, s, t, w) && WalkCost(adj, w) == WalkCost(other, w)
  {
    forall w
      ensures IsRoute(adj, s, t, w) == IsRoute(other, s, t, w) && WalkCost(adj, w) == WalkCost(other, w)
    {
      SameRowsSameWalks(adj, other, w);
    }
  }

  // ---------------------------------------------------------------------
  // The boundary and the search invariant

  /** boundry.pop(): the boundary without its k-th entry. */
  function Remove(frontier: seq<Entry>, k: nat): seq<Entry>
    requires k < |frontier|
  {
    frontier[..k] + frontier[k + 1..]
  }

  lemma RemoveMembers(frontier: seq<Entry>, k: nat, e: Entry)
    requires k < |frontier|
    ensures e in Remove(frontier, k) ==> e in frontier
    ensures e in frontier && e != frontier[k] ==> e in Remove(frontier, k)
    ensures |Remove(frontier, k)| == |frontier| - 1
  {
    if e in frontier && e != frontier[k] {
      var j :| 0 <= j < |frontier| && frontier[j] == e;
      if j < k {
        assert Remove(frontier, k)[j] == e;
      } else {
        assert Remove(frontier, k)[j - 1] == e;
      }
    }
  }

  /** The k-th entry has the lowest cost: boundry.top(). */
  predicate IsMin(frontier: seq<Entry>, k: nat)
    requires k < |frontier|
  {
    forall j :: 0 <= j < |frontier| ==> frontier[k].cost <= frontier[j].cost
  }

  /** e is what boundry.insert(edge.dest, cost + edge.cost, route) adds for an edge in neighbours. */
  predicate Expands(neighbours: map<Id, real>, cost: real, route: seq<Id>, e: Entry) {
    e.node in neighbours && e == Entry(e.node, cost + neighbours[e.node], route)
  }

  /** The route of an entry, with its node appended, is a walk from start whose weight is the entry's cost. */
  predicate EntryIsRoute(adj: Adjacency, start: Id, e: Entry) {
    IsRoute(adj, start, e.node, e.route + [e.node]) && e.cost == WalkCost(adj, e.route + [e.node])
  }

  ghost predicate EntriesAreRoutes(adj: Adjacency, start: Id, frontier: seq<Entry>) {
    forall e :: e in frontier ==> e.node in AllIds(adj) + {start} && EntryIsRoute(adj, start, e)
  }

  /** Some boundary entry for v costs at most bound. */
  ghost predicate Pending(frontier: seq<Entry>, v: Id, bound: real) {
    exists e :: e in frontier && e.node == v && e.cost <= bound
  }

  /** Each edge out of a reached node into an unreached one has an entry at most as costly on the boundary. */
  ghost predicate Covered(adj: Adjacency, reached: set<Id>, best: map<Id, real>, frontier: seq<Entry>) {
    forall u, v :: u in reached && u in best && v in Row(adj, u) && v !in reached ==>
      Pending(frontier, v, best[u] + Row(adj, u)[v])
  }

  /** Each reached node was reached at the cost of a cheapest walk to it. */
  ghost predicate Settled(adj: Adjacency, start: Id, reached: set<Id>, best: map<Id, real>) {
    forall u, w :: u in reached && u in best && IsRoute(adj, start, u, w) ==> best[u] <= WalkCost(adj, w)
  }

  /**
   * What holds at the head of the search loop; best is the cost at which
   * each reached node was popped.
   */
  ghost predicate SearchInvariant(adj: Adjacency, start: Id, end: Id, reached: set<Id>, best: map<Id, real>, frontier: seq<Entry>) {
    && reached <= AllIds(adj) + {start}
    && best.Keys == reached
    && end !in reached
    && EntriesAreRoutes(adj, start, frontier)
    && (reached == {} ==> frontier == [Entry(start, 0.0, [])])
    && (reached != {} ==> start in reached)
    && Covered(adj, reached, best, frontier)
    && (NonNegative(adj) ==> Settled(adj, start, reached, best))
  }

  /**
   * The comment's claim: with non-negative weights, a walk from start to a
   * node not yet reached costs at least as much as some boundary entry.
   */
  lemma {:induction false} FrontierBoundsWalk(adj: Adjacency, start: Id, reached: set<Id>, best: map<Id, real>,
                                              frontier: seq<Entry>, w: seq<Id>) returns (e: Entry)
    requires NonNegative(adj)
    requires IsWalk(adj, w) && w[0] == start && w[|w| - 1] !in reached
    requires start in reached || Entry(start, 0.0, []) in frontier
    requires reached <= best.Keys
    requires Covered(adj, reached, best, frontier) && Settled(adj, start, reached, best)
    ensures e in frontier && e.cost <= WalkCost(adj, w)
  {
    if |w| == 1 {
      e := Entry(start, 0.0, []);
    } else {
      WalkPrefix(adj, w);
      var front := w[..|w| - 1];
      var u, v := w[|w| - 2], w[|w| - 1];
      assert front[|front| - 1] == u;
      if u in reached {
        assert IsRoute(adj, start, u, front);
        assert Pending(frontier, v, best[u] + Row(adj, u)[v]);
        e :| e in frontier && e.node == v && e.cost <= best[u] + Row(adj, u)[v];
      } else {
        e := FrontierBoundsWalk(adj, start, reached, best, frontier, front);
        assert Row(adj, u)[v] >= 0.0;
      }
    }
  }

  /** Popping an already reached node and ignoring it keeps the invariant. */
  lemma DiscardStep(adj: Adjacency, start: Id, end: Id, reached: set<Id>, best: map<Id, real>, frontier: seq<Entry>, k: nat)
    requires SearchInvariant(adj, start, end, reached, best, frontier)
    requires k < |frontier| && frontier[k].node in reached
    ensures SearchInvariant(adj, start, end, reached, best, Remove(frontier, k))
  {
    var rest := Remove(frontier, k);
    forall e | e in rest
      ensures e in frontier
    {
      RemoveMembers(frontier, k, e);
    }
    assert EntriesAreRoutes(adj, start, rest);
    forall u, v | u in reached && u in best && v in Row(adj, u) && v !in reached
      ensures Pending(rest, v, best[u] + Row(adj, u)[v])
    {
      var e :| e in frontier && e.node == v && e.cost <= best[u] + Row(adj, u)[v];
      RemoveMembers(frontier, k, e);
    }
  }

  /** Reaching the popped node at its cost and pushing its neighbours keeps the invariant. */
  lemma SettleStep(adj: Adjacency, start: Id, end: Id, reached: set<Id>, best: map<Id, real>,
                   frontier: seq<Entry>, k: nat, next: seq<Entry>)
    requires SearchInvariant(adj, start, end, reached, best, frontier)
    requires k < |frontier| && IsMin(frontier, k)
    requires frontier[k].node !in reached && frontier[k].node != end
    requires forall e :: e in next <==>
      (e in Remove(frontier, k) || Expands(Row(adj, frontier[k].node), frontier[k].cost, frontier[k].route + [frontier[k].node], e))
    ensures SearchInvariant(adj, start, end, reached + {frontier[k].node}, best[frontier[k].node := frontier[k].cost], next)
  {
    var top := frontier[k];
    assert top in frontier;
    assert reached == {} ==> top == Entry(start, 0.0, []);
    SettleEntries(adj, start, frontier, k, next);
    SettleCovered(adj, reached, best, frontier, k, next);
    if NonNegative(adj) {
      SettleSettled(adj, start, reached, best, frontier, k);
    }
  }

  /** Each pushed entry extends the popped entry's walk by one edge. */
  lemma SettleEntries(adj: Adjacency, start: Id, frontier: seq<Entry>, k: nat, next: seq<Entry>)
    requires EntriesAreRoutes(adj, start, frontier)
    requires k < |frontier|
    requires forall e :: e in next <==>
      (e in Remove(frontier, k) || Expands(Row(adj, frontier[k].node), frontier[k].cost, frontier[k].route + [frontier[k].node], e))
    ensures EntriesAreRoutes(adj, start, next)
  {
    var top := frontier[k];
    var n, path := top.node, top.route + [top.node];
    assert top in frontier;
    assert EntryIsRoute(adj, start, top);
    forall e | e in next
      ensures e.node in AllIds(adj) + {start} && EntryIsRoute(adj, start, e)
    {
      RemoveMembers(frontier, k, e);
      if !(e in Remove(frontier, k)) {
        assert n in adj && e.node in adj[n];
        WalkExtend(adj, path, e.node);
        assert e.route + [e.node] == path + [e.node];
      }
    }
  }

  /** After the push, every edge out of the newly reached node is covered too. */
  lemma SettleCovered(adj: Adjacency, reached: set<Id>, best: map<Id, real>, frontier: seq<Entry>, k: nat, next: seq<Entry>)
    requires Covered(adj, reached, best, frontier)
    requires k < |frontier| && frontier[k].node !in reached
    requires forall e :: e in next <==>
      (e in Remove(frontier, k) || Expands(Row(adj, frontier[k].node), frontier[k].cost, frontier[k].route + [frontier[k].node], e))
    ensures Covered(adj, reached + {frontier[k].node}, best[frontier[k].node := frontier[k].cost], next)
  {
    var top := frontier[k];
    var n, path := top.node, top.route + [top.node];
    var reached', best' := reached + {n}, best[n := top.cost];
    forall u, v | u in reached' && u in best' && v in Row(adj, u) && v !in reached'
      ensures Pending(next, v, best'[u] + Row(adj, u)[v])
    {
      if u == n {
        var e := Entry(v, top.cost + Row(adj, n)[v], path);
        assert Expands(Row(adj, n), top.cost, path, e);
      } else {
        var e :| e in frontier && e.node == v && e.cost <= best[u] + Row(adj, u)[v];
        RemoveMembers(frontier, k, e);
      }
    }
  }

  /** The cheapest boundary entry for an unreached node is a cheapest walk to it. */
  lemma SettleSettled(adj: Adjacency, start: Id, reached: set<Id>, best: map<Id, real>, frontier: seq<Entry>, k: nat)
    requires NonNegative(adj) && Settled(adj, start, reached, best) && Covered(adj, reached, best, frontier)
    requires reached <= best.Keys
    requires start in reached || Entry(start, 0.0, []) in frontier
    requires k < |frontier| && IsMin(frontier, k) && frontier[k].node !in reached
    ensures Settled(adj, start, reached + {frontier[k].node}, best[frontier[k].node := frontier[k].cost])
  {
    var n := frontier[k].node;
    forall u, w | u in reached + {n} && u in best[n := frontier[k].cost] && IsRoute(adj, start, u, w)
      ensures best[n := frontier[k].cost][u] <= WalkCost(adj, w)
    {
      if u == n {
        var e := FrontierBoundsWalk(adj, start, reached, best, frontier, w);
        var j :| 0 <= j < |frontier| && frontier[j] == e;
      }
    }
  }

  /** When end is popped, its cost is no more than that of any walk from start to end. */
  lemma FoundIsCheapest(adj: Adjacency, start: Id, end: Id, reached: set<Id>, best: map<Id, real>,
                        frontier: seq<Entry>, k: nat, w: seq<Id>)
    requires SearchInvariant(adj, start, end, reached, best, frontier)
    requires k < |frontier| && IsMin(frontier, k) && frontier[k].node == end
    requires NonNegative(adj) && IsRoute(adj, start, end, w)
    ensures frontier[k].cost <= WalkCost(adj, w)
  {
    assert reached == {} ==> frontier[k] == Entry(start, 0.0, []);
    var e := FrontierBoundsWalk(adj, start, reached, best, frontier, w);
    var j :| 0 <= j < |frontier| && frontier[j] == e;
  }

  /** An empty boundary means the reached nodes are closed under neighbours, so end cannot be reached. */
  lemma ExhaustedMeansUnreachable(adj: Adjacency, start: Id, end: Id, reached: set<Id>, best: map<Id, real>)
    requires SearchInvariant(adj, start, end, reached, best, [])
    ensures !Reachable(adj, start, end)
  {
    forall u, v | u in reached && v in Row(adj, u)
      ensures v in reached
    {
      assert !Pending([], v, best[u] + Row(adj, u)[v]);
    }
    forall w | IsWalk(adj, w) && w[0] == start
      ensures w[|w| - 1] != end
    {
      ClosedSetTrapsWalks(adj, reached, w);
    }
  }

  // ---------------------------------------------------------------------
  // The search

  /** boundry.top(): the position of the first entry of lowest cost. */
  method MinIndex(frontier: seq<Entry>) returns (k: nat)
    requires |frontier| > 0
    ensures k < |frontier| && IsMin(frontier, k)
    ensures forall j :: 0 <= j < k ==> frontier[j].cost > frontier[k].cost
  {
    k := 0;
    var j := 1;
    while j < |frontier|
      invariant 1 <= j <= |frontier| && k < j
      invariant forall i :: 0 <= i < j ==> frontier[k].cost <= frontier[i].cost
      invariant forall i :: 0 <= i < k ==> frontier[i].cost > frontier[k].cost
    {
      if frontier[j].cost < frontier[k].cost {
        k := j;
      }
      j := j + 1;
    }
  }

  /** The foreach over edgesFrom(node): one boundary entry per neighbour, each carrying route. */
  method PushNeighbours(g: Graph, boundary: seq<Entry>, node: Id, cost: real, route: seq<Id>) returns (next: seq<Entry>)
    modifies g
    ensures g.adjacency == AddVertex(old(g.adjacency), node)
    ensures forall e :: e in next <==> e in boundary || Expands(Row(old(g.adjacency), node), cost, route, e)
    ensures |next| == |boundary| + |Row(old(g.adjacency), node)|
    ensures next[..|boundary|] == boundary
    ensures forall e :: e in next[|boundary|..] <==> Expands(Row(old(g.adjacency), node), cost, route, e)
  {
    var neighbours := g.GetNeighbors(node);
    next := boundary;
    var pending := neighbours.Keys;
    ghost var done: set<Id> := {};
    while pending != {}
      invariant done + pending == neighbours.Keys && done !! pending
      invariant |next| == |boundary| + |done|
      invariant next[..|boundary|] == boundary
      invariant forall e :: e in next[|boundary|..] <==>
        (e.node in done && e == Entry(e.node, cost + neighbours[e.node], route))
      invariant g.adjacency == AddVertex(old(g.adjacency), node)
      decreases |pending|
    {
      var v :| v in pending;
      ghost var tail := next[|boundary|..];
      assert v !in done;
      next := next + [Entry(v, cost + neighbours[v], route)];
      assert next[|boundary|..] == tail + [Entry(v, cost + neighbours[v], route)];
      pending := pending - {v};
      done := done + {v};
    }
    assert next == boundary + next[|boundary|..];
  }

  predicate Distinct(xs: seq<Id>) {
    forall i, j :: 0 <= i < j < |xs| ==> xs[i] != xs[j]
  }

  predicate Sorted(xs: seq<real>) {
    forall i, j :: 0 <= i <= j < |xs| ==> xs[i] <= xs[j]
  }

  /**
   * The state of dijsktra at the head of its loop, next to adj, the
   * adjacency it started from; current is the adjacency now.
   */
  ghost predicate Progress(adj: Adjacency, start: Id, end: Id, reached: set<Id>, best: map<Id, real>, frontier: seq<Entry>,
                           expanded: seq<Id>, popped: seq<real>, current: Adjacency) {
    && (start != end ==> SearchInvariant(adj, start, end, reached, best, frontier))
    && (start == end ==> reached == {} && frontier == [Entry(start, 0.0, [])])
    && Expansion(adj, start, reached, expanded)
    && SameRows(adj, current, expanded)
    && PoppedInOrder(adj, popped, frontier)
  }

  /** expanded lists the reached nodes, once each, all reachable from start. */
  ghost predicate Expansion(adj: Adjacency, start: Id, reached: set<Id>, expanded: seq<Id>) {
    && (forall x :: x in expanded <==> x in reached)
    && (forall x :: x in expanded ==> Reachable(adj, start, x))
    && Distinct(expanded)
  }

  /** current is adj with an empty row inserted for each expanded node that was not a vertex. */
  ghost predicate SameRows(adj: Adjacency, current: Adjacency, expanded: seq<Id>) {
    && (forall x :: x in current <==> x in adj || x in expanded)
    && (forall x :: Row(current, x) == Row(adj, x))
  }

  /** With non-negative weights the popped costs are sorted and bound the boundary from below. */
  ghost predicate PoppedInOrder(adj: Adjacency, popped: seq<real>, frontier: seq<Entry>) {
    NonNegative(adj) ==> Sorted(popped) && (|popped| > 0 ==> forall e :: e in frontier ==> popped[|popped| - 1] <= e.cost)
  }

  lemma InitialProgress(adj: Adjacency, start: Id, end: Id)
    ensures Progress(adj, start, end, {}, map[], [Entry(start, 0.0, [])], [], [], adj)
  {
  }

  /** The continue branch: the popped entry's node was reached before. */
  lemma DiscardProgress(adj: Adjacency, start: Id, end: Id, reached: set<Id>, best: map<Id, real>, frontier: seq<Entry>,
                        k: nat, expanded: seq<Id>, popped: seq<real>, current: Adjacency)
    requires start != end
    requires Progress(adj, start, end, reached, best, frontier, expanded, popped, current)
    requires k < |frontier| && IsMin(frontier, k) && frontier[k].node in reached
    ensures Progress(adj, start, end, reached, best, Remove(frontier, k), expanded, popped + [frontier[k].cost], current)
    ensures |Remove(frontier, k)| < |frontier|
  {
    DiscardStep(adj, start, end, reached, best, frontier, k);
    RemoveMembers(frontier, k, frontier[k]);
    PoppedDiscardStep(adj, frontier, k, popped);
  }

  /** With non-negative weights the popped costs stay sorted when an entry is discarded. */
  lemma PoppedDiscardStep(adj: Adjacency, frontier: seq<Entry>, k: nat, popped: seq<real>)
    requires k < |frontier| && IsMin(frontier, k)
    requires PoppedInOrder(adj, popped, frontier)
    ensures PoppedInOrder(adj, popped + [frontier[k].cost], Remove(frontier, k))
  {
    assert frontier[k] in frontier;
    if NonNegative(adj) {
      forall e | e in Remove(frontier, k)
        ensures frontier[k].cost <= e.cost
      {
        RemoveMembers(frontier, k, e);
      }
    }
  }

  /** getNeighbors(n) inserts n as a vertex with no edges and changes no row. */
  lemma AddVertexKeepsRows(adj: Adjacency, current: Adjacency, expanded: seq<Id>, n: Id)
    requires SameRows(adj, current, expanded)
    ensures SameRows(adj, AddVertex(current, n), expanded + [n])
  {
  }

  /** The expansion branch: the popped node is reached and its neighbours are pushed. */
  lemma SettleProgress(adj: Adjacency, start: Id, end: Id, reached: set<Id>, best: map<Id, real>, frontier: seq<Entry>,
                       k: nat, next: seq<Entry>, expanded: seq<Id>, popped: seq<real>, current: Adjacency)
    requires start != end
    requires Progress(adj, start, end, reached, best, frontier, expanded, popped, current)
    requires k < |frontier| && IsMin(frontier, k)
    requires frontier[k].node !in reached && frontier[k].node != end
    requires forall e :: e in next <==>
      (e in Remove(frontier, k) || Expands(Row(current, frontier[k].node), frontier[k].cost, frontier[k].route + [frontier[k].node], e))
    ensures var n, c := frontier[k].node, frontier[k].cost;
      Progress(adj, start, end, reached + {n}, best[n := c], next, expanded + [n], popped + [c], AddVertex(current, n))
    ensures frontier[k].node in AllIds(adj) + {start} - reached
  {
    var top := frontier[k];
    var n := top.node;
    assert top in frontier;
    assert EntryIsRoute(adj, start, top);
    assert Row(current, n) == Row(adj, n);
    ExpandedStep(adj, start, reached, expanded, n, top.route + [n]);
    AddVertexKeepsRows(adj, current, expanded, n);
    SettleStep(adj, start, end, reached, best, frontier, k, next);
    PoppedStep(adj, frontier, k, next, popped, current);
  }

  /** The bookkeeping of expanded when n is reached along route. */
  lemma ExpandedStep(adj: Adjacency, start: Id, reached: set<Id>, expanded: seq<Id>, n: Id, route: seq<Id>)
    requires Expansion(adj, start, reached, expanded)
    requires n !in reached && IsRoute(adj, start, n, route)
    ensures Expansion(adj, start, reached + {n}, expanded + [n])
  {
  }

  /** With non-negative weights the popped costs stay sorted through an expansion. */
  lemma PoppedStep(adj: Adjacency, frontier: seq<Entry>, k: nat, next: seq<Entry>, popped: seq<real>, current: Adjacency)
    requires k < |frontier| && IsMin(frontier, k)
    requires forall x :: Row(current, x) == Row(adj, x)
    requires PoppedInOrder(adj, popped, frontier)
    requires forall e :: e in next <==>
      (e in Remove(frontier, k) || Expands(Row(current, frontier[k].node), frontier[k].cost, frontier[k].route + [frontier[k].node], e))
    ensures PoppedInOrder(adj, popped + [frontier[k].cost], next)
  {
    var top := frontier[k];
    assert top in frontier;
    if NonNegative(adj) {
      forall e | e in next
        ensures top.cost <= e.cost
      {
        RemoveMembers(frontier, k, e);
        if e !in Remove(frontier, k) {
          assert Row(adj, top.node)[e.node] >= 0.0;
        }
      }
    }
  }

  /** The return branch: end was popped. */
  lemma FoundResult(adj: Adjacency, start: Id, end: Id, reached: set<Id>, best: map<Id, real>, frontier: seq<Entry>,
                    k: nat, expanded: seq<Id>, popped: seq<real>, current: Adjacency)
    requires Progress(adj, start, end, reached, best, frontier, expanded, popped, current)
    requires k < |frontier| && IsMin(frontier, k) && frontier[k].node == end
    ensures var route := frontier[k].route + [end];
      && IsRoute(adj, start, end, route) && frontier[k].cost == WalkCost(adj, route) && Reachable(adj, start, end)
      && (start == end ==> route == [end] && frontier[k].cost == 0.0)
      && (NonNegative(adj) ==> forall w :: IsRoute(adj, start, end, w) ==> WalkCost(adj, route) <= WalkCost(adj, w))
      && (NonNegative(adj) ==> Sorted(popped + [frontier[k].cost]))
      && end !in expanded
  {
    var top := frontier[k];
    var route := top.route + [end];
    assert top in frontier;
    if start == end {
      assert route == [end];
      if NonNegative(adj) {
        forall w | IsRoute(adj, start, end, w)
          ensures WalkCost(adj, route) <= WalkCost(adj, w)
        {
          WalkCostNonNegative(adj, w);
        }
      }
    } else {
      assert EntryIsRoute(adj, start, top);
      if NonNegative(adj) {
        forall w | IsRoute(adj, start, end, w)
          ensures WalkCost(adj, route) <= WalkCost(adj, w)
        {
          FoundIsCheapest(adj, start, end, reached, best, frontier, k, w);
        }
      }
    }
    assert IsRoute(adj, start, end, route);
  }

  /** The fall-through: the boundary emptied before end was popped. */
  lemma ExhaustedResult(adj: Adjacency, start: Id, end: Id, reached: set<Id>, best: map<Id, real>,
                        expanded: seq<Id>, popped: seq<real>, current: Adjacency)
    requires Progress(adj, start, end, reached, best, [], expanded, popped, current)
    ensures !Reachable(adj, start, end) && end !in expanded
  {
    assert start != end;
    ExhaustedMeansUnreachable(adj, start, end, reached, best);
  }

  /**
   * dijsktra(start, end). Returns the cost and the route; expanded lists the
   * nodes added to reachedNodes, in order, and popped the costs of the
   * entries taken from the boundary.
   */
  method Dijkstra(g: Graph, start: Id, end: Id)
    returns (cost: Distance, route: seq<Id>, ghost expanded: seq<Id>, ghost popped: seq<real>)
    modifies g
    ensures route == [] <==> cost == Infinite
    ensures route == [] <==> !Reachable(old(g.adjacency), start, end)
    ensures route != [] ==> IsRoute(old(g.adjacency), start, end, route) && cost == Finite(WalkCost(old(g.adjacency), route))
    ensures start == end ==> route == [end] && cost == Finite(0.0)
    ensures NonNegative(old(g.adjacency)) && route != [] ==>
      forall w :: IsRoute(old(g.adjacency), start, end, w) ==> WalkCost(old(g.adjacency), route) <= WalkCost(old(g.adjacency), w)
    ensures NonNegative(old(g.adjacency)) ==> Sorted(popped)
    ensures |expanded| <= |popped|
    ensures route != [] ==> |expanded| < |popped|
    ensures Distinct(expanded) && end !in expanded
    ensures forall x :: x in expanded ==> Reachable(old(g.adjacency), start, x)
    ensures forall x :: x in g.adjacency <==> x in old(g.adjacency) || x in expanded
    ensures forall x :: Row(g.adjacency, x) == Row(old(g.adjacency), x)
  {
    ghost var adj := g.adjacency;
    ghost var best: map<Id, real> := map[];
    var reachedNodes: set<Id> := {};
    var boundary := [Entry(start, 0.0, [])];
    expanded, popped := [], [];
    InitialProgress(adj, start, end);
    while boundary != []
      invariant Progress(adj, start, end, reachedNodes, best, boundary, expanded, popped, g.adjacency)
      invariant |expanded| <= |popped|
      decreases |AllIds(adj) + {start} - reachedNodes|, |boundary|
    {
      var k := MinIndex(boundary);
      var top := boundary[k];
      if top.node == end {
        FoundResult(adj, start, end, reachedNodes, best, boundary, k, expanded, popped, g.adjacency);
        return Finite(top.cost), top.route + [end], expanded, popped + [top.cost];
      }
      if top.node in reachedNodes {
        DiscardProgress(adj, start, end, reachedNodes, best, boundary, k, expanded, popped, g.adjacency);
        boundary, popped := Remove(boundary, k), popped + [top.cost];
        continue;
      }
      var route := top.route + [top.node];
      ghost var current := g.adjacency;
      var next := PushNeighbours(g, Remove(boundary, k), top.node, top.cost, route);
      SettleProgress(adj, start, end, reachedNodes, best, boundary, k, next, expanded, popped, current);
      assert AllIds(adj) + {start} - (reachedNodes + {top.node}) < AllIds(adj) + {start} - reachedNodes;
      reachedNodes, best := reachedNodes + {top.node}, best[top.node := top.cost];
      expanded, popped := expanded + [top.node], popped + [top.cost];
      boundary := next;
    }
    ExhaustedResult(adj, start, end, reachedNodes, best, expanded, popped, g.adjacency);
    return Infinite, [], expanded, popped;
  }
}
