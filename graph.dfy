/**
 * The weighted undirected graph of graph.h, instantiated with museum objects.
 * std::map orders its keys with MuseumObject::operator<, which compares
 * objectId alone, so the adjacency is keyed by objectId.
 */
module Graphs {
  import opened Wrappers
  import opened MuseumObjects

  type Adjacency = map<Id, map<Id, real>>

  /** The neighbour map of a, or the empty map where a is not a vertex (what operator[] would insert). */
  function Row(adj: Adjacency, a: Id): map<Id, real> {
    if a in adj then adj[a] else map[]
  }

  /** `adj[a][b] = w`: operator[] creates a's row if needed, then the entry is overwritten. */
  function Put(adj: Adjacency, a: Id, b: Id, w: real): Adjacency {
    adj[a := Row(adj, a)[b := w]]
  }

  /** The adjacency after addEdge(a, b, w): both directions, a first. */
  function AddEdgeTo(adj: Adjacency, a: Id, b: Id, w: real): Adjacency {
    Put(Put(adj, a, b, w), b, a, w)
  }

  /** The adjacency after it has been indexed at a: an unknown a gains an empty row. */
  function AddVertex(adj: Adjacency, a: Id): Adjacency {
    if a in adj then adj else adj[a := map[]]
  }

  /** The stored weight of the pair (a, b), if any. */
  function WeightIn(adj: Adjacency, a: Id, b: Id): (r: Option<real>)
    ensures r.Some? <==> a in adj && b in adj[a]
    ensures r.Some? ==> r.value == adj[a][b]
  {
    if a in adj && b in adj[a] then Some(adj[a][b]) else None
  }

  /** Every stored weight a -> b is matched by the same weight b -> a. */
  ghost predicate Symmetric(adj: Adjacency) {
    forall a, b :: a in adj && b in adj[a] ==> b in adj && a in adj[b] && adj[b][a] == adj[a][b]
  }

  class Graph {
    var adjacency: Adjacency

    ghost predicate Valid()
      reads this
    {
      Symmetric(adjacency)
    }

    constructor ()
      ensures adjacency == map[]
      ensures Valid()
    {
      adjacency := map[];
    }

    /** addEdge: writes the weight from a to b, then from b to a. */
    method AddEdge(a: MuseumObject, b: MuseumObject, weight: real)
      modifies this
      ensures adjacency == AddEdgeTo(old(adjacency), a.objectId, b.objectId, weight)
      ensures old(Valid()) ==> Valid()
    {
      var row := Row(adjacency, a.objectId);
      adjacency := adjacency[a.objectId := row[b.objectId := weight]];
      row := Row(adjacency, b.objectId);
      adjacency := adjacency[b.objectId := row[a.objectId := weight]];
      assert old(Valid()) ==> Valid() by {
        if old(Valid()) {
          AddEdgeKeepsSymmetry(old(adjacency), a.objectId, b.objectId, weight);
        }
      }
    }

    /** getWeight: none unless a is a vertex and b one of its neighbours; the short-circuit keeps the map unchanged. */
    method GetWeight(a: MuseumObject, b: MuseumObject) returns (r: Option<real>)
      ensures r == WeightIn(adjacency, a.objectId, b.objectId)
    {
      if a.objectId !in adjacency || b.objectId !in adjacency[a.objectId] {
        return None;
      }
      return Some(adjacency[a.objectId][b.objectId]);
    }

    /** getNeighbors: returns a's row; indexing the map inserts an empty row for an unknown vertex. */
    method GetNeighbors(a: Id) returns (r: map<Id, real>)
      modifies this
      ensures adjacency == AddVertex(old(adjacency), a)
      ensures r == Row(old(adjacency), a)
      ensures old(Valid()) ==> Valid()
    {
      if a !in adjacency {
        adjacency := adjacency[a := map[]];
      }
      r := adjacency[a];
    }
  }

  /** Whether an edge (a, b) stands for the unordered pair {x, y}. */
  predicate Joins(a: Id, b: Id, x: Id, y: Id) {
    (a == x && b == y) || (a == y && b == x)
  }

  // ---------------------------------------------------------------------
  // Properties of addEdge and getNeighbors

  /** The weight of any pair after addEdge(a, b, w): w for {a, b}, the old weight otherwise. */
  lemma AddEdgeWeight(adj: Adjacency, a: Id, b: Id, w: real, x: Id, y: Id)
    ensures WeightIn(AddEdgeTo(adj, a, b, w), x, y) == if Joins(a, b, x, y) then Some(w) else WeightIn(adj, x, y)
  {
  }

  /** Two adjacencies with the same vertices and the same weight for every pair are equal. */
  lemma AdjacencyEquality(m: Adjacency, n: Adjacency)
    requires m.Keys == n.Keys
    requires forall x, y :: WeightIn(m, x, y) == WeightIn(n, x, y)
    ensures m == n
  {
    forall x | x in m
      ensures m[x] == n[x]
    {
      forall y | y in m[x]
        ensures y in n[x] && m[x][y] == n[x][y]
      {
        assert WeightIn(m, x, y) == WeightIn(n, x, y);
      }
      forall y | y in n[x]
        ensures y in m[x]
      {
        assert WeightIn(m, x, y) == WeightIn(n, x, y);
      }
    }
  }

  /** After addEdge(a, b, w) both directions weigh w. */
  lemma AddEdgeBothDirections(adj: Adjacency, a: Id, b: Id, w: real)
    ensures WeightIn(AddEdgeTo(adj, a, b, w), a, b) == Some(w)
    ensures WeightIn(AddEdgeTo(adj, a, b, w), b, a) == Some(w)
  {
  }

  /** Re-adding a pair overwrites its weight: the last write wins. */
  lemma AddEdgeLastWriteWins(adj: Adjacency, a: Id, b: Id, v: real, w: real)
    ensures AddEdgeTo(AddEdgeTo(adj, a, b, v), a, b, w) == AddEdgeTo(adj, a, b, w)
  {
    var once := AddEdgeTo(adj, a, b, v);
    forall x, y
      ensures WeightIn(AddEdgeTo(once, a, b, w), x, y) == WeightIn(AddEdgeTo(adj, a, b, w), x, y)
    {
      AddEdgeWeight(once, a, b, w, x, y);
      AddEdgeWeight(adj, a, b, v, x, y);
      AddEdgeWeight(adj, a, b, w, x, y);
    }
    AdjacencyEquality(AddEdgeTo(once, a, b, w), AddEdgeTo(adj, a, b, w));
  }

  /** addEdge changes the entries [a][b] and [b][a] and no other weight. */
  lemma AddEdgeChangesOnlyThePair(adj: Adjacency, a: Id, b: Id, w: real, x: Id, y: Id)
    requires !(x == a && y == b) && !(x == b && y == a)
    ensures WeightIn(AddEdgeTo(adj, a, b, w), x, y) == WeightIn(adj, x, y)
  {
  }

  /** addEdge keeps every existing vertex and adds exactly a and b. */
  lemma AddEdgeVertices(adj: Adjacency, a: Id, b: Id, w: real)
    ensures AddEdgeTo(adj, a, b, w).Keys == adj.Keys + {a, b}
  {
  }

  /** addEdge preserves symmetry. */
  lemma AddEdgeKeepsSymmetry(adj: Adjacency, a: Id, b: Id, w: real)
    requires Symmetric(adj)
    ensures Symmetric(AddEdgeTo(adj, a, b, w))
  {
    var r := AddEdgeTo(adj, a, b, w);
    forall x, y | x in r && y in r[x]
      ensures y in r && x in r[y] && r[y][x] == r[x][y]
    {
      if (x == a && y == b) || (x == b && y == a) {
      } else {
        assert WeightIn(r, x, y) == WeightIn(adj, x, y);
        assert WeightIn(r, y, x) == WeightIn(adj, y, x);
      }
    }
  }

  /** addEdge(a, a, w) stores one self-loop entry and nothing else for a. */
  lemma AddEdgeSelfLoop(adj: Adjacency, a: Id, w: real)
    ensures AddEdgeTo(adj, a, a, w)[a] == Row(adj, a)[a := w]
    ensures AddEdgeTo(adj, a, a, w) == Put(adj, a, a, w)
  {
  }

  /** A map whose rows are those of a symmetric map, with only empty rows added, is symmetric too. */
  lemma SameRowsKeepSymmetry(adj: Adjacency, next: Adjacency)
    requires Symmetric(adj)
    requires forall x :: Row(next, x) == Row(adj, x)
    ensures Symmetric(next)
  {
    forall a, b | a in next && b in next[a]
      ensures b in next && a in next[b] && next[b][a] == next[a][b]
    {
      assert Row(next, a) == Row(adj, a);
      assert Row(next, b) == Row(adj, b);
    }
  }

  /** Inserting an empty row changes no weight, and symmetry survives it. */
  lemma AddVertexKeepsWeights(adj: Adjacency, a: Id, x: Id, y: Id)
    ensures WeightIn(AddVertex(adj, a), x, y) == WeightIn(adj, x, y)
    ensures Symmetric(adj) ==> Symmetric(AddVertex(adj, a))
  {
  }
}
