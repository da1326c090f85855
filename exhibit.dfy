/**
 * The two steps of main in main.cpp that work on in-memory data: the load
 * loop that turns CSV rows into museum objects (skipping undated rows), and
 * the loop over ordered pairs of exhibit anchors that concatenates the
 * routes found by dijsktra between them.
 */
module Exhibit {
  import opened Wrappers
  import opened MuseumObjects
  import opened DateParser
  import opened Graphs
  import opened FrontierSearch

  // ---------------------------------------------------------------------
  // The load loop

  /** One row of the six columns read from the dataset, as strings. */
  datatype CsvRow = CsvRow(objectId: Id, isHighlight: string, name: string, artist: string, country: string, date: string)

  /** The date strings the load loop rejects before trying to parse them. */
  predicate IsPlaceholder(date: string) {
    || date == ""
    || date == "Date unknown"
    || date == "date unknown"
    || date == "date uncertain"
    || date == "n.d."
    || date == "unknown"
  }

  /** What one row contributes: nothing for a placeholder or an unparsable date, else its object. */
  function Accept(row: CsvRow): seq<MuseumObject> {
    if IsPlaceholder(row.date) then []
    else match ParseYear(row.date)
      case Success(year) => [MuseumObject(row.objectId, row.name, row.artist, row.country, year)]
      case Failure(_) => []
  }

  /** The objects the load loop collects from rows, in row order. */
  function Loaded(rows: seq<CsvRow>): seq<MuseumObject> {
    if rows == [] then [] else Loaded(rows[..|rows| - 1]) + Accept(rows[|rows| - 1])
  }

  /** The load loop: skip placeholders, parse the date, keep the row when getYear succeeds. */
  method LoadObjects(rows: seq<CsvRow>) returns (objects: seq<MuseumObject>)
    ensures objects == Loaded(rows)
  {
    objects := [];
    var i := 0;
    while i < |rows|
      invariant 0 <= i <= |rows|
      invariant objects == Loaded(rows[..i])
    {
      var row := rows[i];
      assert rows[..i + 1][..i] == rows[..i];
      i := i + 1;
      if IsPlaceholder(row.date) {
        continue;
      }
      var year := GetYear(row.date);
      if year.Success? {
        objects := objects + [MuseumObject(row.objectId, row.name, row.artist, row.country, year.value)];
      }
    }
    assert rows[..|rows|] == rows;
  }

  /** None of the rejected placeholders holds a digit, so getYear would reject each of them anyway. */
  lemma PlaceholdersHaveNoDigits(date: string)
    requires IsPlaceholder(date)
    ensures !HasDigit(date)
    ensures ParseYear(date).Failure?
  {
    forall k | 0 <= k < |date|
      ensures !IsDigit(date[k])
    {
    }
    ParseFailsIffNoDigit(date);
  }

  /** A row yields at most one object, exactly when its date holds a digit, with its fields and parsed year. */
  lemma RowOutcome(row: CsvRow)
    ensures |Accept(row)| <= 1
    ensures Accept(row) != [] <==> HasDigit(row.date)
    ensures Accept(row) != [] ==>
      Accept(row) == [MuseumObject(row.objectId, row.name, row.artist, row.country, ParseYear(row.date).value)]
  {
    if IsPlaceholder(row.date) {
      PlaceholdersHaveNoDigits(row.date);
    } else {
      ParseFailsIffNoDigit(row.date);
    }
  }

  /** The rows whose date holds a digit, in order. */
  function DatedRows(rows: seq<CsvRow>): (r: seq<CsvRow>)
    ensures forall row :: row in r ==> HasDigit(row.date)
  {
    if rows == [] then []
    else DatedRows(rows[..|rows| - 1]) + (if HasDigit(rows[|rows| - 1].date) then [rows[|rows| - 1]] else [])
  }

  /** The object a dated row describes. */
  function ObjectOf(row: CsvRow): MuseumObject
    requires HasDigit(row.date)
  {
    ParseFailsIffNoDigit(row.date);
    MuseumObject(row.objectId, row.name, row.artist, row.country, ParseYear(row.date).value)
  }

  function Objects(rows: seq<CsvRow>): seq<MuseumObject>
    requires forall row :: row in rows ==> HasDigit(row.date)
  {
    if rows == [] then [] else Objects(rows[..|rows| - 1]) + [ObjectOf(rows[|rows| - 1])]
  }

  /** Loading is filtering the dated rows and converting each, in order. */
  lemma {:induction false} LoadedIsDatedRows(rows: seq<CsvRow>)
    ensures Loaded(rows) == Objects(DatedRows(rows))
  {
    if rows != [] {
      var init, last := rows[..|rows| - 1], rows[|rows| - 1];
      LoadedIsDatedRows(init);
      RowOutcome(last);
      if HasDigit(last.date) {
        assert DatedRows(rows) == DatedRows(init) + [last];
        assert DatedRows(rows)[..|DatedRows(rows)| - 1] == DatedRows(init);
      } else {
        assert DatedRows(rows) == DatedRows(init);
      }
    }
  }

  /** Loading two batches of rows one after the other gives the two results concatenated. */
  lemma {:induction false} LoadedConcat(rows: seq<CsvRow>, more: seq<CsvRow>)
    ensures Loaded(rows + more) == Loaded(rows) + Loaded(more)
  {
    if more == [] {
      assert rows + more == rows;
    } else {
      var init := more[..|more| - 1];
      LoadedConcat(rows, init);
      assert (rows + more)[..|rows + more| - 1] == rows + init;
      assert (rows + more)[|rows + more| - 1] == more[|more| - 1];
    }
  }

  // ---------------------------------------------------------------------
  // The anchor-pair loop

  /** An ordered pair of anchors handed to dijsktra. */
  datatype Pair = Pair(from: Id, to: Id)

  /** The pairs (a, b) of the inner loop over the first j anchors, skipping b == a. */
  function AnchorRow(a: Id, anchors: seq<Id>, j: nat): seq<Pair>
    requires j <= |anchors|
  {
    if j == 0 then []
    else AnchorRow(a, anchors, j - 1) + (if a == anchors[j - 1] then [] else [Pair(a, anchors[j - 1])])
  }

  /** The pairs of the outer loop over the first i anchors. */
  function AnchorPairs(anchors: seq<Id>, i: nat): seq<Pair>
    requires i <= |anchors|
  {
    if i == 0 then [] else AnchorPairs(anchors, i - 1) + AnchorRow(anchors[i - 1], anchors, |anchors|)
  }

  /** The routes laid end to end. */
  function Flatten(routes: seq<seq<Id>>): seq<Id> {
    if routes == [] then [] else Flatten(routes[..|routes| - 1]) + routes[|routes| - 1]
  }

  /** What dijsktra promises about route as the answer for p. */
  ghost predicate Answers(adj: Adjacency, p: Pair, route: seq<Id>) {
    && (route == [] <==> !Reachable(adj, p.from, p.to))
    && (route != [] ==> IsRoute(adj, p.from, p.to, route))
    && (NonNegative(adj) && route != [] ==>
         forall w :: IsRoute(adj, p.from, p.to, w) ==> WalkCost(adj, route) <= WalkCost(adj, w))
  }

  /**
   * The inner loop for anchor a. adj is the adjacency before the whole
   * exhibit loop; every search so far inserted empty rows only.
   */
  method ExhibitRow(g: Graph, a: Id, anchors: seq<Id>, ghost adj: Adjacency)
    returns (items: seq<Id>, ghost routes: seq<seq<Id>>)
    requires forall x :: Row(g.adjacency, x) == Row(adj, x)
    modifies g
    ensures |routes| == |AnchorRow(a, anchors, |anchors|)|
    ensures forall t :: 0 <= t < |routes| ==> Answers(adj, AnchorRow(a, anchors, |anchors|)[t], routes[t])
    ensures items == Flatten(routes)
    ensures forall x :: Row(g.adjacency, x) == Row(adj, x)
    ensures forall x :: x in old(g.adjacency) ==> x in g.adjacency
    ensures forall x :: x in g.adjacency ==> x in old(g.adjacency) || x in AllIds(adj) || x == a
  {
    items, routes := [], [];
    var j := 0;
    while j < |anchors|
      invariant 0 <= j <= |anchors|
      invariant |routes| == |AnchorRow(a, anchors, j)|
      invariant forall t :: 0 <= t < |routes| ==> Answers(adj, AnchorRow(a, anchors, j)[t], routes[t])
      invariant items == Flatten(routes)
      invariant forall x :: Row(g.adjacency, x) == Row(adj, x)
      invariant forall x :: x in old(g.adjacency) ==> x in g.adjacency
      invariant forall x :: x in g.adjacency ==> x in old(g.adjacency) || x in AllIds(adj) || x == a
    {
      var b := anchors[j];
      if a == b {
        assert AnchorRow(a, anchors, j + 1) == AnchorRow(a, anchors, j);
        j := j + 1;
        continue;
      }
      ghost var current := g.adjacency;
      var cost, route, expanded, popped := Dijkstra(g, a, b);
      SameRowsSameAnswers(current, adj, a, b);
      forall x | x in expanded
        ensures x in AllIds(adj) || x == a
      {
        SameRowsSameAnswers(current, adj, a, x);
        ReachableIsKnown(adj, a, x);
      }
      assert AnchorRow(a, anchors, j + 1) == AnchorRow(a, anchors, j) + [Pair(a, b)];
      assert (routes + [route])[..|routes|] == routes;
      items, routes := items + route, routes + [route];
      j := j + 1;
    }
  }

  /** The anchor-pair loop: dijsktra(a, b) for every ordered pair of anchors with a != b, routes concatenated. */
  method ExhibitItems(g: Graph, anchors: seq<Id>) returns (items: seq<Id>, ghost routes: seq<seq<Id>>)
    modifies g
    ensures |routes| == |AnchorPairs(anchors, |anchors|)|
    ensures forall t :: 0 <= t < |routes| ==> Answers(old(g.adjacency), AnchorPairs(anchors, |anchors|)[t], routes[t])
    ensures items == Flatten(routes)
    ensures forall x :: Row(g.adjacency, x) == Row(old(g.adjacency), x)
    ensures forall x :: x in old(g.adjacency) ==> x in g.adjacency
    ensures forall x :: x in g.adjacency ==> x in AllIds(old(g.adjacency)) || x in anchors
    ensures old(g.Valid()) ==> g.Valid()
    ensures old(g.Valid()) ==> forall x :: x in g.adjacency ==> x in old(g.adjacency) || x in anchors
  {
    ghost var adj := g.adjacency;
    items, routes := [], [];
    var i := 0;
    while i < |anchors|
      invariant 0 <= i <= |anchors|
      invariant |routes| == |AnchorPairs(anchors, i)|
      invariant forall t :: 0 <= t < |routes| ==> Answers(adj, AnchorPairs(anchors, i)[t], routes[t])
      invariant items == Flatten(routes)
      invariant forall x :: Row(g.adjacency, x) == Row(adj, x)
      invariant forall x :: x in adj ==> x in g.adjacency
      invariant forall x :: x in g.adjacency ==> x in AllIds(adj) || x in anchors
    {
      var a := anchors[i];
      var rowItems, rowRoutes := ExhibitRow(g, a, anchors, adj);
      ghost var row := AnchorRow(a, anchors, |anchors|);
      assert AnchorPairs(anchors, i + 1) == AnchorPairs(anchors, i) + row;
      AnswersConcat(adj, AnchorPairs(anchors, i), row, routes, rowRoutes);
      FlattenConcat(routes, rowRoutes);
      items, routes := items + rowItems, routes + rowRoutes;
      i := i + 1;
    }
    if Symmetric(adj) {
      SymmetricIds(adj);
      SameRowsKeepSymmetry(adj, g.adjacency);
    }
  }

  /** Answers for two runs of pairs, side by side, answer the pairs concatenated. */
  lemma AnswersConcat(adj: Adjacency, ps: seq<Pair>, qs: seq<Pair>, rs: seq<seq<Id>>, ss: seq<seq<Id>>)
    requires |rs| == |ps| && |ss| == |qs|
    requires forall t :: 0 <= t < |rs| ==> Answers(adj, ps[t], rs[t])
    requires forall t :: 0 <= t < |ss| ==> Answers(adj, qs[t], ss[t])
    ensures forall t :: 0 <= t < |rs + ss| ==> Answers(adj, (ps + qs)[t], (rs + ss)[t])
  {
    forall t | 0 <= t < |rs + ss|
      ensures Answers(adj, (ps + qs)[t], (rs + ss)[t])
    {
      if t >= |rs| {
        assert (rs + ss)[t] == ss[t - |rs|] && (ps + qs)[t] == qs[t - |ps|];
      } else {
        assert (rs + ss)[t] == rs[t] && (ps + qs)[t] == ps[t];
      }
    }
  }

  /** A node reachable from s is s itself or mentioned by the adjacency. */
  lemma ReachableIsKnown(adj: Adjacency, s: Id, x: Id)
    requires Reachable(adj, s, x)
    ensures x in AllIds(adj) || x == s
  {
    var w :| IsRoute(adj, s, x, w);
    if |w| > 1 {
      WalkPrefix(adj, w);
      var u := w[|w| - 2];
      assert u in adj && x in adj[u];
    }
  }

  /** In a symmetric adjacency every neighbour is a vertex, so the exhibit loop inserts anchors only. */
  lemma SymmetricIds(adj: Adjacency)
    requires Symmetric(adj)
    ensures AllIds(adj) == adj.Keys
  {
  }

  lemma {:induction false} FlattenConcat(rs: seq<seq<Id>>, qs: seq<seq<Id>>)
    ensures Flatten(rs + qs) == Flatten(rs) + Flatten(qs)
  {
    if qs == [] {
      assert rs + qs == rs;
    } else {
      var init := qs[..|qs| - 1];
      FlattenConcat(rs, init);
      assert (rs + qs)[..|rs + qs| - 1] == rs + init;
      assert (rs + qs)[|rs + qs| - 1] == qs[|qs| - 1];
    }
  }

  /** The items are the routes' nodes in order, duplicates kept: as many as all routes together. */
  lemma {:induction false} FlattenMembers(rs: seq<seq<Id>>, x: Id)
    ensures x in Flatten(rs) <==> exists t :: 0 <= t < |rs| && x in rs[t]
  {
    if rs != [] {
      var init := rs[..|rs| - 1];
      FlattenMembers(init, x);
      if x in Flatten(rs) && !(x in rs[|rs| - 1]) {
        var t :| 0 <= t < |init| && x in init[t];
        assert rs[t] == init[t];
      }
      if exists t :: 0 <= t < |rs| && x in rs[t] {
        var t :| 0 <= t < |rs| && x in rs[t];
        if t < |init| {
          assert init[t] == rs[t];
        }
      }
    }
  }

  /** Pair (a, y) is in the inner loop for a exactly when y is one of the first j anchors other than a. */
  lemma {:induction false} AnchorRowMembers(a: Id, anchors: seq<Id>, j: nat, p: Pair)
    requires j <= |anchors|
    ensures p in AnchorRow(a, anchors, j) <==> p.from == a && p.to in anchors[..j] && p.to != a
  {
    if j > 0 {
      AnchorRowMembers(a, anchors, j - 1, p);
      assert anchors[..j] == anchors[..j - 1] + [anchors[j - 1]];
    }
  }

  /** The pairs searched are exactly the ordered pairs of distinct anchors. */
  lemma {:induction false} AnchorPairsMembers(anchors: seq<Id>, i: nat, p: Pair)
    requires i <= |anchors|
    ensures p in AnchorPairs(anchors, i) <==> p.from in anchors[..i] && p.to in anchors && p.from != p.to
  {
    if i > 0 {
      AnchorPairsMembers(anchors, i - 1, p);
      AnchorRowMembers(anchors[i - 1], anchors, |anchors|, p);
      assert anchors[..i] == anchors[..i - 1] + [anchors[i - 1]];
      assert anchors[..|anchors|] == anchors;
    }
  }

  /** How often a occurs among the first j anchors. */
  function Occurrences(a: Id, anchors: seq<Id>, j: nat): nat
    requires j <= |anchors|
  {
    if j == 0 then 0 else Occurrences(a, anchors, j - 1) + (if anchors[j - 1] == a then 1 else 0)
  }

  /** The inner loop for a skips exactly the occurrences of a. */
  lemma {:induction false} AnchorRowCount(a: Id, anchors: seq<Id>, j: nat)
    requires j <= |anchors|
    ensures |AnchorRow(a, anchors, j)| == j - Occurrences(a, anchors, j)
  {
    if j > 0 {
      AnchorRowCount(a, anchors, j - 1);
    }
  }

  lemma {:induction false} DistinctOccurrences(anchors: seq<Id>, p: nat, j: nat)
    requires Distinct(anchors) && p < |anchors| && j <= |anchors|
    ensures Occurrences(anchors[p], anchors, j) == if p < j then 1 else 0
  {
    if j > 0 {
      DistinctOccurrences(anchors, p, j - 1);
      assert anchors[j - 1] == anchors[p] <==> j - 1 == p;
    }
  }

  /** With n distinct anchors, dijsktra runs n * (n - 1) times. */
  lemma {:induction false} AnchorPairsCount(anchors: seq<Id>, i: nat)
    requires Distinct(anchors) && i <= |anchors|
    ensures |AnchorPairs(anchors, i)| == i * (|anchors| - 1)
  {
    if i > 0 {
      var n := |anchors|;
      AnchorPairsCount(anchors, i - 1);
      AnchorRowCount(anchors[i - 1], anchors, n);
      DistinctOccurrences(anchors, i - 1, n);
      var before, row := |AnchorPairs(anchors, i - 1)|, |AnchorRow(anchors[i - 1], anchors, n)|;
      assert before == (i - 1) * (n - 1) && row == n - 1;
      assert |AnchorPairs(anchors, i)| == before + row;
      assert (i - 1) * (n - 1) + (n - 1) == i * (n - 1);
    } else {
      assert 0 * (|anchors| - 1) == 0;
    }
  }
}
