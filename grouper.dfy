/**
 * MuseumObjectGrouper<T>::groupObjects and fillGraph (main.cpp): every
 * ordered pair of distinct positions whose score is within the threshold
 * becomes an edge of the graph.
 */
module Grouping {
  import opened Wrappers
  import opened MuseumObjects
  import opened Graphs

  /** The comparator a grouper is instantiated with. */
  datatype Metric = ByDate | ByArtist | ByLocation

  function Score(metric: Metric, a: MuseumObject, b: MuseumObject): (r: real)
    ensures r >= 0.0
    ensures metric != ByDate ==> r == 0.0 || r == 1.0
  {
    match metric
    case ByDate => DateScore(a, b)
    case ByArtist => ArtistScore(a, b)
    case ByLocation => LocationScore(a, b)
  }

  /** All three comparators are symmetric. */
  lemma ScoreIsSymmetric(metric: Metric, a: MuseumObject, b: MuseumObject)
    ensures Score(metric, a, b) == Score(metric, b, a)
  {
    ScoresAreSymmetric(a, b);
  }

  /** One addEdge call of the grouper. */
  datatype Edge = Edge(from: Id, to: Id, weight: real)

  function EdgeOf(metric: Metric, objs: seq<MuseumObject>, i: nat, j: nat): Edge
    requires i < |objs| && j < |objs|
  {
    Edge(objs[i].objectId, objs[j].objectId, Score(metric, objs[i], objs[j]))
  }

  /** The pair at positions i and j is written: distinct positions (the address test) and a score within maxCost. */
  predicate Written(metric: Metric, maxCost: real, objs: seq<MuseumObject>, i: nat, j: nat)
    requires i < |objs| && j < |objs|
  {
    i != j && Score(metric, objs[i], objs[j]) <= maxCost
  }

  /** The edges the inner loop writes for oLeft = objs[i] while oRight runs over objs[..j]. */
  function RowEdges(metric: Metric, maxCost: real, objs: seq<MuseumObject>, i: nat, j: nat): seq<Edge>
    requires i < |objs| && j <= |objs|
  {
    if j == 0 then []
    else
      var written := if Written(metric, maxCost, objs, i, j - 1) then [EdgeOf(metric, objs, i, j - 1)] else [];
      RowEdges(metric, maxCost, objs, i, j - 1) + written
  }

  /** The edges the outer loop writes while oLeft runs over objs[..i], in order. */
  function AllEdges(metric: Metric, maxCost: real, objs: seq<MuseumObject>, i: nat): seq<Edge>
    requires i <= |objs|
  {
    if i == 0 then []
    else AllEdges(metric, maxCost, objs, i - 1) + RowEdges(metric, maxCost, objs, i - 1, |objs|)
  }

  /** addEdge for each edge of es, first to last. */
  function ApplyEdges(adj: Adjacency, es: seq<Edge>): Adjacency {
    if |es| == 0 then adj
    else
      var e := es[|es| - 1];
      AddEdgeTo(ApplyEdges(adj, es[..|es| - 1]), e.from, e.to, e.weight)
  }

  /** What groupObjects leaves in a graph that held adj. */
  function Grouped(adj: Adjacency, metric: Metric, maxCost: real, objs: seq<MuseumObject>): Adjacency {
    ApplyEdges(adj, AllEdges(metric, maxCost, objs, |objs|))
  }

  /** The weight of the last edge of es over the pair {x, y}, if any. */
  function LastWeight(es: seq<Edge>, x: Id, y: Id): Option<real> {
    if |es| == 0 then None
    else
      var e := es[|es| - 1];
      if Joins(e.from, e.to, x, y) then Some(e.weight) else LastWeight(es[..|es| - 1], x, y)
  }

  function Endpoints(es: seq<Edge>): set<Id> {
    if |es| == 0 then {} else Endpoints(es[..|es| - 1]) + {es[|es| - 1].from, es[|es| - 1].to}
  }

  predicate UniqueIds(objs: seq<MuseumObject>) {
    forall p, q :: 0 <= p < |objs| && 0 <= q < |objs| && p != q ==> objs[p].objectId != objs[q].objectId
  }

  // ---------------------------------------------------------------------
  // The grouper and the menu

  /** groupObjects: the outer loop runs oLeft over the objects, the inner one oRight. */
  method GroupObjects(maxCost: real, metric: Metric, graph: Graph, objects: seq<MuseumObject>)
    modifies graph
    ensures graph.adjacency == Grouped(old(graph.adjacency), metric, maxCost, objects)
    ensures old(graph.Valid()) ==> graph.Valid()
  {
    ghost var start := graph.adjacency;
    var i := 0;
    while i < |objects|
      invariant 0 <= i <= |objects|
      invariant graph.adjacency == ApplyEdges(start, AllEdges(metric, maxCost, objects, i))
    {
      GroupedStep(start, metric, maxCost, objects, i);
      GroupRow(maxCost, metric, graph, objects, i);
      i := i + 1;
    }
    if old(graph.Valid()) {
      ApplyEdgesKeepsSymmetry(start, AllEdges(metric, maxCost, objects, |objects|));
    }
  }

  /** One pass of the inner loop: oLeft is objects[i]; one addEdge per written pair. */
  method GroupRow(maxCost: real, metric: Metric, graph: Graph, objects: seq<MuseumObject>, i: nat)
    requires i < |objects|
    modifies graph
    ensures graph.adjacency == ApplyEdges(old(graph.adjacency), RowEdges(metric, maxCost, objects, i, |objects|))
    ensures old(graph.Valid()) ==> graph.Valid()
  {
    ghost var start := graph.adjacency;
    var j := 0;
    while j < |objects|
      invariant 0 <= j <= |objects|
      invariant graph.adjacency == ApplyEdges(start, RowEdges(metric, maxCost, objects, i, j))
    {
      if i != j {
        var similarityCost := Score(metric, objects[i], objects[j]);
        if similarityCost <= maxCost {
          assert RowEdges(metric, maxCost, objects, i, j + 1) == RowEdges(metric, maxCost, objects, i, j) + [EdgeOf(metric, objects, i, j)];
          ApplyEdgesSnoc(start, RowEdges(metric, maxCost, objects, i, j), EdgeOf(metric, objects, i, j));
          graph.AddEdge(objects[i], objects[j], similarityCost);
        } else {
          assert RowEdges(metric, maxCost, objects, i, j + 1) == RowEdges(metric, maxCost, objects, i, j);
        }
      } else {
        assert RowEdges(metric, maxCost, objects, i, j + 1) == RowEdges(metric, maxCost, objects, i, j);
      }
      j := j + 1;
    }
    if old(graph.Valid()) {
      ApplyEdgesKeepsSymmetry(start, RowEdges(metric, maxCost, objects, i, |objects|));
    }
  }

  /** The outer loop's progress: row i follows the rows before it. */
  lemma GroupedStep(adj: Adjacency, metric: Metric, maxCost: real, objs: seq<MuseumObject>, i: nat)
    requires i < |objs|
    ensures ApplyEdges(adj, AllEdges(metric, maxCost, objs, i + 1)) ==
      ApplyEdges(ApplyEdges(adj, AllEdges(metric, maxCost, objs, i)), RowEdges(metric, maxCost, objs, i, |objs|))
  {
    ApplyEdgesConcat(adj, AllEdges(metric, maxCost, objs, i), RowEdges(metric, maxCost, objs, i, |objs|));
  }

  /** addEdge keeps the adjacency symmetric, so a run of addEdge calls does too. */
  lemma {:induction false} ApplyEdgesKeepsSymmetry(adj: Adjacency, es: seq<Edge>)
    requires Symmetric(adj)
    ensures Symmetric(ApplyEdges(adj, es))
  {
    if |es| > 0 {
      var e := es[|es| - 1];
      ApplyEdgesKeepsSymmetry(adj, es[..|es| - 1]);
      AddEdgeKeepsSymmetry(ApplyEdges(adj, es[..|es| - 1]), e.from, e.to, e.weight);
    }
  }

  /** Applying two runs of edges one after the other is applying their concatenation. */
  lemma {:induction false} ApplyEdgesConcat(adj: Adjacency, es: seq<Edge>, fs: seq<Edge>)
    ensures ApplyEdges(adj, es + fs) == ApplyEdges(ApplyEdges(adj, es), fs)
  {
    if |fs| == 0 {
      assert es + fs == es;
    } else {
      assert (es + fs)[..|es + fs| - 1] == es + fs[..|fs| - 1];
      assert (es + fs)[|es + fs| - 1] == fs[|fs| - 1];
      ApplyEdgesConcat(adj, es, fs[..|fs| - 1]);
    }
  }

  /** One more edge is one more addEdge. */
  lemma ApplyEdgesSnoc(adj: Adjacency, es: seq<Edge>, e: Edge)
    ensures ApplyEdges(adj, es + [e]) == AddEdgeTo(ApplyEdges(adj, es), e.from, e.to, e.weight)
  {
    assert (es + [e])[..|es|] == es;
  }

  /** fillGraph: menu choice 1, 2 or 3 picks the comparator and threshold; any other choice does nothing. */
  method FillGraph(groupingMethod: int, dest: Graph, src: seq<MuseumObject>)
    modifies dest
    ensures groupingMethod == 1 ==> dest.adjacency == Grouped(old(dest.adjacency), ByDate, 100.0, src)
    ensures groupingMethod == 2 ==> dest.adjacency == Grouped(old(dest.adjacency), ByArtist, 2.0, src)
    ensures groupingMethod == 3 ==> dest.adjacency == Grouped(old(dest.adjacency), ByLocation, 2.0, src)
    ensures groupingMethod !in {1, 2, 3} ==> dest.adjacency == old(dest.adjacency)
    ensures old(dest.Valid()) ==> dest.Valid()
  {
    match groupingMethod
    case 1 => GroupObjects(100.0, ByDate, dest, src);
    case 2 => GroupObjects(2.0, ByArtist, dest, src);
    case 3 => GroupObjects(2.0, ByLocation, dest, src);
    case _ =>
  }

  // ---------------------------------------------------------------------
  // Applying edges

  /** After a run of addEdge calls, a pair weighs what the last edge over it wrote, or what it weighed before. */
  lemma {:induction false} ApplyEdgesWeight(adj: Adjacency, es: seq<Edge>, x: Id, y: Id)
    ensures WeightIn(ApplyEdges(adj, es), x, y) ==
      if LastWeight(es, x, y).Some? then LastWeight(es, x, y) else WeightIn(adj, x, y)
  {
    if |es| > 0 {
      var e := es[|es| - 1];
      ApplyEdgesWeight(adj, es[..|es| - 1], x, y);
      AddEdgeWeight(ApplyEdges(adj, es[..|es| - 1]), e.from, e.to, e.weight, x, y);
    }
  }

  /** A run of addEdge calls adds exactly the endpoints of its edges as vertices. */
  lemma {:induction false} ApplyEdgesVertices(adj: Adjacency, es: seq<Edge>)
    ensures ApplyEdges(adj, es).Keys == adj.Keys + Endpoints(es)
  {
    if |es| > 0 {
      ApplyEdgesVertices(adj, es[..|es| - 1]);
    }
  }

  /** If every edge over {x, y} weighs w and there is one, the last one weighs w. */
  lemma {:induction false} LastWeightUniform(es: seq<Edge>, x: Id, y: Id, w: real, k: nat)
    requires k < |es| && Joins(es[k].from, es[k].to, x, y)
    requires forall e :: e in es && Joins(e.from, e.to, x, y) ==> e.weight == w
    ensures LastWeight(es, x, y) == Some(w)
  {
    var e := es[|es| - 1];
    if !Joins(e.from, e.to, x, y) {
      assert k < |es| - 1;
      var front := es[..|es| - 1];
      assert front[k] == es[k];
      assert forall f :: f in front ==> f in es;
      LastWeightUniform(front, x, y, w, k);
    }
  }

  /** No edge over {x, y}: no last weight. */
  lemma {:induction false} LastWeightAbsent(es: seq<Edge>, x: Id, y: Id)
    requires forall e :: e in es ==> !Joins(e.from, e.to, x, y)
    ensures LastWeight(es, x, y) == None
  {
    if |es| > 0 {
      var front := es[..|es| - 1];
      assert forall f :: f in front ==> f in es;
      LastWeightAbsent(front, x, y);
    }
  }

  /** Some edge over {x, y}: a last weight exists. */
  lemma {:induction false} LastWeightPresent(es: seq<Edge>, x: Id, y: Id, k: nat)
    requires k < |es| && Joins(es[k].from, es[k].to, x, y)
    ensures LastWeight(es, x, y).Some?
  {
    var e := es[|es| - 1];
    if !Joins(e.from, e.to, x, y) {
      var front := es[..|es| - 1];
      assert front[k] == es[k];
      LastWeightPresent(front, x, y, k);
    }
  }

  // ---------------------------------------------------------------------
  // Which edges the loops write

  /** Every edge of an inner pass comes from a written pair in that row. */
  lemma {:induction false} RowEdgeOrigin(metric: Metric, maxCost: real, objs: seq<MuseumObject>, i: nat, j: nat, e: Edge)
    returns (q: nat)
    requires i < |objs| && j <= |objs|
    requires e in RowEdges(metric, maxCost, objs, i, j)
    ensures q < j && Written(metric, maxCost, objs, i, q) && e == EdgeOf(metric, objs, i, q)
  {
    if e in RowEdges(metric, maxCost, objs, i, j - 1) {
      q := RowEdgeOrigin(metric, maxCost, objs, i, j - 1, e);
    } else {
      q := j - 1;
    }
  }

  /** Every written pair of a row has its edge in that inner pass. */
  lemma {:induction false} RowEdgeWritten(metric: Metric, maxCost: real, objs: seq<MuseumObject>, i: nat, j: nat, q: nat)
    requires i < |objs| && q < j <= |objs|
    requires Written(metric, maxCost, objs, i, q)
    ensures EdgeOf(metric, objs, i, q) in RowEdges(metric, maxCost, objs, i, j)
  {
    if q < j - 1 {
      RowEdgeWritten(metric, maxCost, objs, i, j - 1, q);
    }
  }

  /** Every edge the outer loop writes comes from a written pair. */
  lemma {:induction false} EdgeOrigin(metric: Metric, maxCost: real, objs: seq<MuseumObject>, i: nat, e: Edge)
    returns (p: nat, q: nat)
    requires i <= |objs|
    requires e in AllEdges(metric, maxCost, objs, i)
    ensures p < i && q < |objs| && Written(metric, maxCost, objs, p, q) && e == EdgeOf(metric, objs, p, q)
  {
    var k := i - 1;
    var prefix, row := AllEdges(metric, maxCost, objs, k), RowEdges(metric, maxCost, objs, k, |objs|);
    assert AllEdges(metric, maxCost, objs, i) == prefix + row;
    if e in prefix {
      p, q := EdgeOrigin(metric, maxCost, objs, k, e);
    } else {
      q := RowEdgeOrigin(metric, maxCost, objs, k, |objs|, e);
      p := k;
    }
  }

  /** Every written pair has its edge among those the outer loop writes. */
  lemma {:induction false} EdgeWritten(metric: Metric, maxCost: real, objs: seq<MuseumObject>, i: nat, p: nat, q: nat)
    requires p < i <= |objs| && q < |objs|
    requires Written(metric, maxCost, objs, p, q)
    ensures EdgeOf(metric, objs, p, q) in AllEdges(metric, maxCost, objs, i)
  {
    if p < i - 1 {
      EdgeWritten(metric, maxCost, objs, i - 1, p, q);
    } else {
      RowEdgeWritten(metric, maxCost, objs, p, |objs|, q);
    }
  }

  /** An edge is written exactly when it comes from a written pair of positions. */
  lemma AllEdgesMembers(metric: Metric, maxCost: real, objs: seq<MuseumObject>, e: Edge)
    ensures e in AllEdges(metric, maxCost, objs, |objs|) <==>
      exists p, q :: 0 <= p < |objs| && 0 <= q < |objs| && Written(metric, maxCost, objs, p, q) && e == EdgeOf(metric, objs, p, q)
  {
    if e in AllEdges(metric, maxCost, objs, |objs|) {
      var p, q := EdgeOrigin(metric, maxCost, objs, |objs|, e);
    }
    if exists p, q :: 0 <= p < |objs| && 0 <= q < |objs| && Written(metric, maxCost, objs, p, q) && e == EdgeOf(metric, objs, p, q) {
      var p, q :| 0 <= p < |objs| && 0 <= q < |objs| && Written(metric, maxCost, objs, p, q) && e == EdgeOf(metric, objs, p, q);
      EdgeWritten(metric, maxCost, objs, |objs|, p, q);
    }
  }

  /** The position of a written edge in the sequence of all edges. */
  lemma WrittenEdgeIndex(metric: Metric, maxCost: real, objs: seq<MuseumObject>, p: nat, q: nat) returns (k: nat)
    requires p < |objs| && q < |objs| && Written(metric, maxCost, objs, p, q)
    ensures k < |AllEdges(metric, maxCost, objs, |objs|)|
    ensures AllEdges(metric, maxCost, objs, |objs|)[k] == EdgeOf(metric, objs, p, q)
  {
    EdgeWritten(metric, maxCost, objs, |objs|, p, q);
    var es := AllEdges(metric, maxCost, objs, |objs|);
    k :| 0 <= k < |es| && es[k] == EdgeOf(metric, objs, p, q);
  }

  // ---------------------------------------------------------------------
  // Properties of groupObjects

  /**
   * With distinct ids, the pair at positions i and j carries its score
   * exactly when the score is within maxCost, and keeps its old weight
   * otherwise.
   */
  lemma GroupedWeight(adj: Adjacency, metric: Metric, maxCost: real, objs: seq<MuseumObject>, i: nat, j: nat)
    requires UniqueIds(objs)
    requires i < |objs| && j < |objs| && i != j
    ensures var score := Score(metric, objs[i], objs[j]);
      WeightIn(Grouped(adj, metric, maxCost, objs), objs[i].objectId, objs[j].objectId) ==
        if score <= maxCost then Some(score) else WeightIn(adj, objs[i].objectId, objs[j].objectId)
  {
    var x, y := objs[i].objectId, objs[j].objectId;
    var score := Score(metric, objs[i], objs[j]);
    var es := AllEdges(metric, maxCost, objs, |objs|);
    ApplyEdgesWeight(adj, es, x, y);
    forall e | e in es && Joins(e.from, e.to, x, y)
      ensures e.weight == score && score <= maxCost
    {
      var p, q := EdgeOrigin(metric, maxCost, objs, |objs|, e);
      assert (p == i && q == j) || (p == j && q == i);
      ScoreIsSymmetric(metric, objs[i], objs[j]);
    }
    if score <= maxCost {
      var k := WrittenEdgeIndex(metric, maxCost, objs, i, j);
      LastWeightUniform(es, x, y, score, k);
    } else {
      LastWeightAbsent(es, x, y);
    }
  }

  /** A pair with an end that is not the id of any object keeps its weight, in both directions. */
  lemma GroupingKeepsUnrelatedPairs(adj: Adjacency, metric: Metric, maxCost: real, objs: seq<MuseumObject>, x: Id, y: Id)
    requires forall p :: 0 <= p < |objs| ==> objs[p].objectId != x
    ensures WeightIn(Grouped(adj, metric, maxCost, objs), x, y) == WeightIn(adj, x, y)
    ensures WeightIn(Grouped(adj, metric, maxCost, objs), y, x) == WeightIn(adj, y, x)
  {
    var es := AllEdges(metric, maxCost, objs, |objs|);
    forall e | e in es
      ensures e.from != x && e.to != x
    {
      var p, q := EdgeOrigin(metric, maxCost, objs, |objs|, e);
    }
    LastWeightAbsent(es, x, y);
    LastWeightAbsent(es, y, x);
    ApplyEdgesWeight(adj, es, x, y);
    ApplyEdgesWeight(adj, es, y, x);
  }

  /** groupObjects only adds and overwrites: every vertex and every stored pair survives. */
  lemma GroupingOnlyAdds(adj: Adjacency, metric: Metric, maxCost: real, objs: seq<MuseumObject>, x: Id, y: Id)
    ensures adj.Keys <= Grouped(adj, metric, maxCost, objs).Keys
    ensures WeightIn(adj, x, y).Some? ==> WeightIn(Grouped(adj, metric, maxCost, objs), x, y).Some?
  {
    ApplyEdgesVertices(adj, AllEdges(metric, maxCost, objs, |objs|));
    ApplyEdgesWeight(adj, AllEdges(metric, maxCost, objs, |objs|), x, y);
  }

  /**
   * The self-test compares positions, not ids: two entries with the same id
   * at different positions give that id a self-loop when their score is
   * within maxCost.
   */
  lemma DuplicateIdSelfLoop(adj: Adjacency, metric: Metric, maxCost: real, objs: seq<MuseumObject>, i: nat, j: nat)
    requires i < |objs| && j < |objs| && i != j && objs[i].objectId == objs[j].objectId
    requires Score(metric, objs[i], objs[j]) <= maxCost
    ensures WeightIn(Grouped(adj, metric, maxCost, objs), objs[i].objectId, objs[i].objectId).Some?
  {
    var x := objs[i].objectId;
    var es := AllEdges(metric, maxCost, objs, |objs|);
    var k := WrittenEdgeIndex(metric, maxCost, objs, i, j);
    LastWeightPresent(es, x, x, k);
    ApplyEdgesWeight(adj, es, x, x);
  }

  /** Two different positions hold id x and score within maxCost: the only way the address test lets a self-loop through. */
  predicate SharedIdWritten(metric: Metric, maxCost: real, objs: seq<MuseumObject>, x: Id) {
    exists p, q :: 0 <= p < |objs| && 0 <= q < |objs| &&
      objs[p].objectId == x && objs[q].objectId == x && Written(metric, maxCost, objs, p, q)
  }

  /**
   * groupObjects writes a self-loop on x exactly when two different
   * positions share the id x and score within maxCost; otherwise the pair
   * (x, x) keeps its old weight.
   */
  lemma SelfLoops(adj: Adjacency, metric: Metric, maxCost: real, objs: seq<MuseumObject>, x: Id)
    ensures SharedIdWritten(metric, maxCost, objs, x) ==> WeightIn(Grouped(adj, metric, maxCost, objs), x, x).Some?
    ensures !SharedIdWritten(metric, maxCost, objs, x) ==> WeightIn(Grouped(adj, metric, maxCost, objs), x, x) == WeightIn(adj, x, x)
  {
    var es := AllEdges(metric, maxCost, objs, |objs|);
    if SharedIdWritten(metric, maxCost, objs, x) {
      var p, q :| 0 <= p < |objs| && 0 <= q < |objs| &&
        objs[p].objectId == x && objs[q].objectId == x && Written(metric, maxCost, objs, p, q);
      DuplicateIdSelfLoop(adj, metric, maxCost, objs, p, q);
    } else {
      forall e | e in es
        ensures !Joins(e.from, e.to, x, x)
      {
        var p, q := EdgeOrigin(metric, maxCost, objs, |objs|, e);
      }
      LastWeightAbsent(es, x, x);
      ApplyEdgesWeight(adj, es, x, x);
    }
  }

  /** With distinct ids, as the address test intends, groupObjects adds no self-loop. */
  lemma GroupingAddsNoSelfLoop(adj: Adjacency, metric: Metric, maxCost: real, objs: seq<MuseumObject>, x: Id)
    requires UniqueIds(objs)
    ensures WeightIn(Grouped(adj, metric, maxCost, objs), x, x) == WeightIn(adj, x, x)
  {
    SelfLoops(adj, metric, maxCost, objs, x);
  }

  /** Running groupObjects twice leaves what running it once leaves. */
  lemma GroupingIsIdempotent(adj: Adjacency, metric: Metric, maxCost: real, objs: seq<MuseumObject>)
    ensures Grouped(Grouped(adj, metric, maxCost, objs), metric, maxCost, objs) == Grouped(adj, metric, maxCost, objs)
  {
    var es := AllEdges(metric, maxCost, objs, |objs|);
    var once := ApplyEdges(adj, es);
    ApplyEdgesVertices(adj, es);
    ApplyEdgesVertices(once, es);
    forall x, y
      ensures WeightIn(ApplyEdges(once, es), x, y) == WeightIn(once, x, y)
    {
      ApplyEdgesWeight(adj, es, x, y);
      ApplyEdgesWeight(once, es, x, y);
    }
    AdjacencyEquality(ApplyEdges(once, es), once);
  }

  /** With a metric in {0, 1} and threshold 2, an inner loop over j objects writes j edges, less the self-pair. */
  lemma {:induction false} RowEdgesCount(metric: Metric, objs: seq<MuseumObject>, i: nat, j: nat)
    requires metric != ByDate && i < |objs| && j <= |objs|
    ensures |RowEdges(metric, 2.0, objs, i, j)| == if i < j then j - 1 else j
  {
    if j > 0 {
      RowEdgesCount(metric, objs, i, j - 1);
    }
  }

  lemma {:induction false} AllEdgesCount(metric: Metric, objs: seq<MuseumObject>, i: nat)
    requires metric != ByDate && i <= |objs|
    ensures |AllEdges(metric, 2.0, objs, i)| == i * (|objs| - 1)
  {
    if i > 0 {
      AllEdgesCount(metric, objs, i - 1);
      RowEdgesCount(metric, objs, i - 1, |objs|);
      assert (i - 1) * (|objs| - 1) + (|objs| - 1) == i * (|objs| - 1);
    }
  }

  /**
   * Grouping by artist or by location with threshold 2 writes an edge for
   * every ordered pair of distinct positions: n * (n - 1) addEdge calls,
   * and every such pair ends up connected.
   */
  lemma ArtistAndLocationConnectAll(adj: Adjacency, metric: Metric, objs: seq<MuseumObject>, p: nat, q: nat)
    requires metric != ByDate
    requires p < |objs| && q < |objs| && p != q
    ensures |AllEdges(metric, 2.0, objs, |objs|)| == |objs| * (|objs| - 1)
    ensures EdgeOf(metric, objs, p, q) in AllEdges(metric, 2.0, objs, |objs|)
    ensures WeightIn(Grouped(adj, metric, 2.0, objs), objs[p].objectId, objs[q].objectId).Some?
  {
    AllEdgesCount(metric, objs, |objs|);
    var es := AllEdges(metric, 2.0, objs, |objs|);
    var k := WrittenEdgeIndex(metric, 2.0, objs, p, q);
    LastWeightPresent(es, objs[p].objectId, objs[q].objectId, k);
    ApplyEdgesWeight(adj, es, objs[p].objectId, objs[q].objectId);
  }
}
