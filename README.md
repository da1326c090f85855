# TheMET exhibit planner, modelled in Dafny

TheMET builds a museum exhibit from the Metropolitan Museum of Art's open
collection data. It loads catalogue records and turns each free-text date
into a signed year. It puts the records into a weighted undirected graph,
where the weight of an edge is a similarity score: date distance, same
artist or same country. It then joins every ordered pair of exhibit anchors
by a shortest route through that graph and collects the works along those
routes.

This project models the core of that program:

- `museum_object.dfy` (module `MuseumObjects`): the catalogue record, whose
  comparisons look at the accession number only, and the three similarity
  comparators.
- `date_parser.dfy` (module `DateParser`): `getYear`. Its six regular
  expressions become small recognisers. Each one says where its pattern
  matches at a start position, with the digit group as long as the rest of
  the pattern allows. A leftmost search plays the part of
  `std::regex_search`. The sign rule runs last.
- `graph.dfy` (module `Graphs`): `graph<MuseumObject>` as a class whose one
  field is the adjacency map. The map is keyed by accession number, because
  `std::map` orders its keys with `MuseumObject::operator<`, which compares
  `objectId` alone.
- `grouper.dfy` (module `Grouping`): `groupObjects` as two nested loops of
  `addEdge` calls, and the `fillGraph` menu dispatch.
- `frontier_search.dfy` (module `FrontierSearch`): the `dijsktra(start, end)`
  search of `old/NewAlgorithm.cpp`. It runs over the graph's adjacency and
  reads `edgesFrom(n)` through `getNeighbors(n)`. The boundary is a sequence
  of (node, cost, route) entries, and popping takes the first entry of
  lowest cost.
- `exhibit.dfy` (module `Exhibit`): the load loop's date filter and the
  anchor-pair loop of `main`, both on in-memory data.
- `wrappers.dfy` (module `Wrappers`): `Option` and `Result`.

Dates, scores and weights are `real`. Years come from integer captures. The
error `getYear` throws is the failure case of a `Result`.

Texts are modelled byte by byte, as `std::regex` over `char` reads a
`std::string`: each Dafny character stands for one byte (0 to 255), so a
UTF-8 "º" is two characters and an en dash three. The two wildcards of the
century pattern are therefore two bytes: "2º c." gives 150
(`DateParser.OrdinalIndicator`).

In five places the comments in the source promise more than the code does.
The model follows the code:

- The comment at MuseumObject.h:114 speaks of a range of three to four
  digits, but the pattern `(\d{3,4})` has no boundary: "12345" gives 1234
  (`DateParser.LongRun`).
- The comment at MuseumObject.h:80 lists ordinal dates such as "15th
  century", but the century pattern accepts any two bytes after the number.
  The digit group is greedy, so "1800 - present" gives 179950
  (`DateParser.OpenRange`), and it gives digits back when it must: "123 c."
  gives 50 (`DateParser.ShortCenturyGroup`).
- The same comment promises dash variants. The bracket class at
  MuseumObject.h:81 holds the bytes of a doubly encoded en dash (C3 A2,
  E2 82 AC, E2 80 9C) with the space and the hyphen, each byte on its own. A
  real en dash (E2 80 93) is therefore not a separator: "10th–century" gives
  10 (`DateParser.EnDashCentury`) and "1800–present" gives 1800
  (`DateParser.EnDashRange`).
- The comment at main.cpp:31 says objects are not compared with themselves,
  but the test compares addresses. Two records with the same accession
  number therefore produce a self-loop (`Grouping.DuplicateIdSelfLoop`);
  with distinct ids no self-loop appears (`Grouping.GroupingAddsNoSelfLoop`).
- The comments at old/NewAlgorithm.cpp:31-38 say a popped node's route is
  the best one because the boundary is sorted by cost. That holds only when
  no weight is negative; a negative edge can make a later route cheaper.
  `FrontierSearch.Dijkstra` therefore promises the cheapest route, and sorted
  pops, only under non-negative weights.

The pseudocode tests for `end` before it looks at the reached set and the
graph, so `dijsktra(x, x)` returns `[x]` at cost 0 even when `x` is not a
vertex (`FrontierSearch.Dijkstra`).

## Model

| member | source | states |
|---|---|---|
| MuseumObjects.MuseumObject.Less | MuseumObject.h:29-32 | `operator<`: one record precedes another exactly when its accession number is lexicographically smaller; nothing else is compared |
| MuseumObjects.MuseumObject.Equals | MuseumObject.h:34-37 | `operator==`: two records are equal exactly when their accession numbers are |
| MuseumObjects.MuseumObject.NotEquals | MuseumObject.h:39-42 | `operator!=`: the accession numbers differ |
| MuseumObjects.MuseumObject.IsInvalid | MuseumObject.h:44-47 | `isInvalid()`: the accession number is empty |
| MuseumObjects.DefaultObject | MuseumObject.h:22-23 | the default record has an empty id, so it is invalid, and date 0 |
| MuseumObjects.OrderEquivalenceIsIdEquality | MuseumObject.h:29-37 | neither record precedes the other under `<` exactly when their ids are equal, and exactly when `==` holds: a map ordered by `<` is keyed by id |
| MuseumObjects.LessIsStrictOrder | MuseumObject.h:29-32 | `<` is irreflexive, asymmetric and transitive |
| MuseumObjects.StringLessTrichotomy | MuseumObject.h:31 | the string order behind `<`: exactly one of a < b, a == b, b < a |
| MuseumObjects.ComparisonIgnoresAttributes | MuseumObject.h:29-42 | `!=` is the negation of `==`; changing name, artist, country or date changes neither `==` nor `<` |
| MuseumObjects.InvalidIffEmptyId | MuseumObject.h:44-47 | `isInvalid()` holds exactly when the id is empty |
| MuseumObjects.ArtistScore | MuseumObject.h:50-56 | the score is 0 or 1, and 1 exactly when the artists are equal |
| MuseumObjects.LocationScore | MuseumObject.h:58-64 | the score is 0 or 1, and 1 exactly when the countries are equal |
| MuseumObjects.DateScore | MuseumObject.h:139-142 | the score is non-negative, is one of the two differences of the dates, and is 0 exactly when the dates are equal |
| MuseumObjects.ScoresAreSymmetric | MuseumObject.h:50-64 | the artist, country and date scores do not depend on the order of the pair |
| MuseumObjects.DateScoreTriangle | MuseumObject.h:139-142 | the date distance obeys the triangle inequality |
| DateParser.Greedy | MuseumObject.h:81 | the digit group chosen is the longest one after which the rest of the pattern matches; no longer group leaves a match |
| DateParser.PlainYearAt | MuseumObject.h:115 | `\d{3,4}` matches only on three or four digits, starting at the position |
| DateParser.MatchAt | MuseumObject.h:81-123 | a match starts at the position, its digit group holds digits only, and the group follows the era marker for `(B.C.\|A.D.) (\d+)` |
| DateParser.Search | MuseumObject.h:82 | a search result lies inside the text and its digit group is digits |
| DateParser.SearchIsLeftmost | MuseumObject.h:82 | the search returns the match at the leftmost matching position, and fails only where the pattern matches nowhere |
| DateParser.Find | MuseumObject.h:133 | `find` returns the first position where the literal occurs, or none when it occurs nowhere |
| DateParser.GetYear | MuseumObject.h:73-137 | the six guarded blocks and the sign rule compute the first matching pattern's year, negated when "B.C." occurs, or the error when no pattern matches |
| DateParser.ParseFailsIffNoDigit | MuseumObject.h:122-131 | `getYear` throws exactly when the text holds no decimal digit |
| DateParser.CenturyRule | MuseumObject.h:80-86 | at the leftmost start i where the century pattern matches, a digit run N followed by two bytes, separators and C, c, P or p gives (N-1)*100+50, negated when "B.C." occurs |
| DateParser.MillenniumRule | MuseumObject.h:89-95 | where the century pattern matches nowhere, the leftmost digit run N followed by two bytes, spaces and M or m gives (N-1)*1000+500, signed as above |
| DateParser.NumberEraRule | MuseumObject.h:98-104 | where the first two patterns fail, the leftmost "N B.C." or "N A.D." (any byte for each dot) gives N, negated when "B.C." occurs |
| DateParser.EraNumberRule | MuseumObject.h:106-112 | where the first three patterns fail, the leftmost "B.C. N" or "A.D. N" gives the whole digit run N, signed as above |
| DateParser.PlainYearRule | MuseumObject.h:114-120 | where the first four patterns fail, the leftmost run of three or more digits gives its first three or four digits, signed as above |
| DateParser.AnyDigitsRule | MuseumObject.h:122-128 | where the first five patterns fail, the first digit run gives its whole value, signed as above |
| DateParser.ChainReaches | MuseumObject.h:82-128 | each pattern is tried only when every earlier one has failed: the chain then gives what that pattern gives |
| DateParser.YearOfMatch | MuseumObject.h:82-136 | when every earlier pattern fails and this one finds a match, getYear returns the year this pattern assigns to the match's digits, negated when "B.C." occurs |
| DateParser.NoCenturyTail | MuseumObject.h:81-82 | the century pattern matches nowhere when no separator byte is directly followed by C, c, P or p |
| DateParser.NoMillenniumTail | MuseumObject.h:90-91 | the millennium pattern matches nowhere when no space is directly followed by M or m |
| DateParser.NoNumberEra | MuseumObject.h:99-100 | the "N B.C." pattern matches nowhere when no digit is followed by a space |
| DateParser.NoEraNumber | MuseumObject.h:107-108 | the "B.C. N" pattern matches nowhere when no B has C two bytes on and no A has D two bytes on |
| DateParser.NoPlainYear | MuseumObject.h:115-116 | the three-to-four-digit pattern matches nowhere without three digits in a row |
| DateParser.ChainSkipsToPlainYear | MuseumObject.h:82-112 | on a text of digits only, none of the first four patterns matches |
| DateParser.AllDigits | MuseumObject.h:114-128 | a text of digits gives its first three or four digits when it has three or more, else the whole number |
| DateParser.FifteenthCentury | MuseumObject.h:80-87 | "15th century" gives 1450 |
| DateParser.TenthCentury | MuseumObject.h:80-87 | "10th-century" gives 950 |
| DateParser.EleventhCentury | MuseumObject.h:80-87 | "11th c." gives 1050 |
| DateParser.OpenRange | MuseumObject.h:80-87 | "1800 - present" gives 179950: the greedy group takes 1800 and "p" ends the century pattern |
| DateParser.ThirdMillennium | MuseumObject.h:89-96 | "3rd millennium" gives 2500 through the second rule |
| DateParser.YearBC | MuseumObject.h:98-104 | "514 B.C." gives -514 |
| DateParser.WildcardEra | MuseumObject.h:99-100 | "514 BxCx" matches the era pattern, whose dots are wildcards, but is not negated: it gives 514 |
| DateParser.EarlyFourteenthPeriod | MuseumObject.h:80-86 | "early 14th period" gives 1350: the century pattern matches after a leading word |
| DateParser.ShortCenturyGroup | MuseumObject.h:81-85 | "123 c." gives 50: the greedy group gives back digits until the two wildcards and the separator fit |
| DateParser.OrdinalIndicator | MuseumObject.h:81-85 | "2º" in UTF-8 fills the two wildcards with its two bytes, so "2º c." gives 150 |
| DateParser.EnDashCentury | MuseumObject.h:80-128 | "10th–century" with a real en dash matches none of the first five patterns, since the en dash's bytes are not all in the separator class, and gives 10 |
| DateParser.EnDashRange | MuseumObject.h:80-120 | "1800–present" with a real en dash matches no century, and the three-to-four-digit rule gives 1800 |
| DateParser.YearAD | MuseumObject.h:106-112 | "A.D. 25" gives 25 |
| DateParser.PlainYear1978 | MuseumObject.h:114-120 | "1978" gives 1978 through the three-to-four-digit rule |
| DateParser.LongRun | MuseumObject.h:114-120 | "12345" gives 1234 |
| DateParser.DateUnknown | MuseumObject.h:130-131 | "Date unknown" raises the error |
| Graphs.WeightIn | graph.h:24-30 | a weight exists exactly when a is a vertex with b among its neighbours, and it is the stored one |
| Graphs.Graph.constructor | graph.h:15 | a new graph has no vertices and is symmetric |
| Graphs.Graph.AddEdge | graph.h:18-22 | the adjacency becomes the one with both directions written, a first; symmetry is kept |
| Graphs.Graph.GetWeight | graph.h:24-30 | returns the stored weight or none, and leaves the adjacency unchanged |
| Graphs.Graph.GetNeighbors | graph.h:32-35 | returns a's old row (empty if absent) and inserts an empty row for an unknown a; symmetry is kept |
| Graphs.AddEdgeWeight | graph.h:18-22 | after addEdge(a, b, w) the pair {a, b} weighs w and every other pair keeps its weight |
| Graphs.AdjacencyEquality | graph.h:15 | two adjacencies with the same vertices and the same weights are equal |
| Graphs.AddEdgeBothDirections | graph.h:18-30 | after addEdge(a, b, w), getWeight(a, b) and getWeight(b, a) are both w |
| Graphs.AddEdgeLastWriteWins | graph.h:20-21 | writing a pair twice equals writing it once with the second weight |
| Graphs.AddEdgeChangesOnlyThePair | graph.h:18-22 | no weight other than [a][b] and [b][a] changes |
| Graphs.AddEdgeVertices | graph.h:18-22 | addEdge keeps every vertex and adds a and b |
| Graphs.AddEdgeKeepsSymmetry | graph.h:15-22 | a symmetric adjacency stays symmetric after addEdge |
| Graphs.AddEdgeSelfLoop | graph.h:20-21 | addEdge(a, a, w) writes the single entry [a][a] |
| Graphs.SameRowsKeepSymmetry | graph.h:32-35 | adding only empty rows to a symmetric adjacency keeps it symmetric |
| Graphs.AddVertexKeepsWeights | graph.h:32-35 | the empty row inserted by getNeighbors changes no weight and keeps symmetry |
| Grouping.Score | main.cpp:26-36 | a score is non-negative, and 0 or 1 for the artist and country comparators |
| Grouping.ScoreIsSymmetric | main.cpp:35 | the score of a pair does not depend on its order |
| Grouping.GroupObjects | main.cpp:24-41 | the graph ends as the old one with one addEdge per pair of distinct positions scoring at most maxCost, in loop order; symmetry is kept |
| Grouping.GroupRow | main.cpp:29-40 | the inner loop applies the row's edges, in order, to the graph |
| Grouping.GroupedStep | main.cpp:28-40 | the outer loop's edges for one more row are the earlier rows' edges followed by that row's |
| Grouping.FillGraph | main.cpp:50-66 | choice 1 groups by date with threshold 100, choices 2 and 3 by artist and by country with threshold 2, and any other choice leaves the graph unchanged |
| Grouping.ApplyEdgesKeepsSymmetry | main.cpp:39 | a run of addEdge calls keeps the adjacency symmetric |
| Grouping.ApplyEdgesConcat | main.cpp:28-40 | two runs of addEdge calls, one after the other, equal the run of both |
| Grouping.ApplyEdgesSnoc | main.cpp:39 | one more edge is one more addEdge |
| Grouping.ApplyEdgesWeight | main.cpp:39 | after a run of addEdge calls a pair weighs what the last edge over it wrote, or its old weight if no edge covers it |
| Grouping.ApplyEdgesVertices | main.cpp:39 | a run of addEdge calls adds exactly its edges' endpoints as vertices |
| Grouping.AllEdgesMembers | main.cpp:28-39 | an edge is written exactly when it comes from positions p != q whose score is at most maxCost |
| Grouping.WrittenEdgeIndex | main.cpp:28-39 | every written pair has its edge at some position of the addEdge sequence |
| Grouping.GroupedWeight | main.cpp:28-39 | with distinct ids, the pair at positions i != j weighs its score when that is at most maxCost, and keeps its old weight otherwise |
| Grouping.GroupingKeepsUnrelatedPairs | main.cpp:24-40 | a pair with an end that is no object's id keeps its weight in both directions |
| Grouping.GroupingOnlyAdds | main.cpp:24-40 | groupObjects keeps every vertex and every stored pair |
| Grouping.DuplicateIdSelfLoop | main.cpp:32-39 | two positions with the same id and a score within maxCost give that id a self-loop |
| Grouping.SelfLoops | main.cpp:28-39 | the pair (x, x) gets a weight when two different positions hold id x and score within maxCost, and otherwise keeps its old weight |
| Grouping.GroupingAddsNoSelfLoop | main.cpp:31-33 | with distinct ids, as the comment at main.cpp:31 intends, groupObjects adds no self-loop: every (x, x) keeps its weight |
| Grouping.GroupingIsIdempotent | main.cpp:24-40 | grouping twice with the same inputs leaves what grouping once leaves |
| Grouping.RowEdgesCount | main.cpp:29-39 | with artist or country scores and threshold 2, each inner pass writes one edge per other position |
| Grouping.AllEdgesCount | main.cpp:28-39 | with artist or country scores and threshold 2, the outer loop writes n*(n-1) edges |
| Grouping.ArtistAndLocationConnectAll | main.cpp:57-62 | grouping by artist or country with threshold 2 connects every pair of distinct positions |
| FrontierSearch.WalkExtend | old/NewAlgorithm.cpp:46-48 | a walk extended along an edge is a walk, costing the edge's weight more |
| FrontierSearch.WalkCostNonNegative | old/NewAlgorithm.cpp:36-38 | with non-negative weights no walk costs less than zero |
| FrontierSearch.ClosedSetTrapsWalks | old/NewAlgorithm.cpp:51-52 | a walk that starts in a set closed under neighbours ends in it |
| FrontierSearch.SameRowsSameWalks | graph.h:32-35 | the empty rows getNeighbors inserts change neither walks nor their costs |
| FrontierSearch.SameRowsSameAnswers | graph.h:32-35 | adjacencies with the same rows agree on reachability, routes, costs and non-negativity |
| FrontierSearch.RemoveMembers | old/NewAlgorithm.cpp:23 | popping entry k keeps every other entry and adds none |
| FrontierSearch.FrontierBoundsWalk | old/NewAlgorithm.cpp:36-38 | with non-negative weights, some boundary entry costs no more than any walk from start to a node not yet reached |
| FrontierSearch.DiscardStep | old/NewAlgorithm.cpp:31-35 | discarding an already reached node keeps the search invariant |
| FrontierSearch.SettleStep | old/NewAlgorithm.cpp:36-49 | reaching the popped node at its cost and pushing its neighbours keeps the search invariant |
| FrontierSearch.SettleEntries | old/NewAlgorithm.cpp:42-49 | each pushed entry's route plus its node is a walk from start costing the entry's cost |
| FrontierSearch.SettleCovered | old/NewAlgorithm.cpp:46-49 | after the push, every edge out of a reached node into an unreached one has a boundary entry at most as costly |
| FrontierSearch.SettleSettled | old/NewAlgorithm.cpp:36-39 | with non-negative weights the popped node's cost is that of a cheapest walk to it |
| FrontierSearch.FoundIsCheapest | old/NewAlgorithm.cpp:25-30 | when end is popped, its cost is at most that of any walk from start to end |
| FrontierSearch.ExhaustedMeansUnreachable | old/NewAlgorithm.cpp:51-52 | an empty boundary means end is unreachable from start |
| FrontierSearch.MinIndex | old/NewAlgorithm.cpp:22-23 | returns the first entry of lowest cost |
| FrontierSearch.PushNeighbours | old/NewAlgorithm.cpp:46-49 | the old boundary stays, in order, at the front; after it come exactly one entry per neighbour, with cost plus edge cost and the extended route, and nothing else; getNeighbors may insert the node as a vertex |
| FrontierSearch.InitialProgress | old/NewAlgorithm.cpp:15-18 | the boundary seeded with (start, 0, []) and nothing reached satisfy the loop invariant |
| FrontierSearch.DiscardProgress | old/NewAlgorithm.cpp:31-35 | the continue branch keeps the loop invariant and shrinks the boundary |
| FrontierSearch.PoppedDiscardStep | old/NewAlgorithm.cpp:20-23 | with non-negative weights the popped costs stay non-decreasing when an entry is discarded |
| FrontierSearch.AddVertexKeepsRows | graph.h:32-35 | the row getNeighbors inserts is empty, so every row is as in the original adjacency |
| FrontierSearch.SettleProgress | old/NewAlgorithm.cpp:36-49 | the expansion branch keeps the loop invariant, and the node it reaches is new |
| FrontierSearch.ExpandedStep | old/NewAlgorithm.cpp:39 | each node enters reachedNodes once, and only when reachable |
| FrontierSearch.PoppedStep | old/NewAlgorithm.cpp:20-23 | with non-negative weights the popped costs stay non-decreasing through an expansion |
| FrontierSearch.FoundResult | old/NewAlgorithm.cpp:25-30 | the route returned for end is a walk from start to end at its cost, the cheapest under non-negative weights, and [end] at cost 0 when start == end |
| FrontierSearch.ExhaustedResult | old/NewAlgorithm.cpp:51-52 | an empty boundary means end is unreachable and was never reached |
| FrontierSearch.Dijkstra | old/NewAlgorithm.cpp:14-53 | the route is empty exactly when end is unreachable and the cost is infinite; otherwise it is a walk from start to end at its cost, the cheapest under non-negative weights; start == end gives [end] at cost 0; each node is expanded at most once and only when reachable; no more nodes are expanded than entries popped, and fewer when a route is found; only empty rows are inserted. The popped costs are non-decreasing by the loop invariant, whose steps PoppedStep and PoppedDiscardStep prove |
| Exhibit.LoadObjects | main.cpp:117-132 | the loaded objects are the rows' objects in row order, placeholders and unparsable dates skipped |
| Exhibit.PlaceholdersHaveNoDigits | main.cpp:119 | each rejected placeholder has no digit, so getYear would reject it too |
| Exhibit.RowOutcome | main.cpp:119-131 | a row gives at most one object, exactly when its date holds a digit, with the row's fields and the parsed year |
| Exhibit.DatedRows | main.cpp:119-131 | the rows kept all have a digit in their date |
| Exhibit.LoadedIsDatedRows | main.cpp:117-132 | loading equals keeping the rows with a digit in their date and converting each, in order |
| Exhibit.LoadedConcat | main.cpp:117 | loading two batches of rows in turn gives the two results concatenated |
| Exhibit.ExhibitRow | main.cpp:204-213 | the inner loop answers each pair (a, b) with b != a, in anchor order; rows are unchanged and only known ids or a are inserted |
| Exhibit.ExhibitItems | main.cpp:202-214 | the items are the routes for every ordered pair of different anchors laid end to end, each route what dijsktra promises for its pair; rows are unchanged and the only new vertices are anchors or ids that were already neighbours; a symmetric graph stays symmetric, and then the only new vertices are anchors |
| Exhibit.AnswersConcat | main.cpp:202-214 | the answers of two runs of pairs answer the runs concatenated |
| Exhibit.ReachableIsKnown | old/NewAlgorithm.cpp:46 | a node reachable from s is s or is mentioned by the adjacency |
| Exhibit.SymmetricIds | graph.h:18-22 | in a symmetric adjacency every neighbour is a vertex, so the searches on a symmetric graph add only anchors |
| Exhibit.FlattenConcat | main.cpp:211-212 | concatenating the routes of two runs is concatenating their items |
| Exhibit.FlattenMembers | main.cpp:211-212 | an item is present exactly when some route holds it |
| Exhibit.AnchorRowMembers | main.cpp:204-207 | the inner loop for a visits (a, y) exactly for the anchors y != a |
| Exhibit.AnchorPairsMembers | main.cpp:202-207 | the pairs searched are exactly the ordered pairs of different anchors |
| Exhibit.AnchorRowCount | main.cpp:204-207 | the inner loop skips exactly the occurrences of a |
| Exhibit.DistinctOccurrences | main.cpp:202-204 | among distinct anchors each occurs once |
| Exhibit.AnchorPairsCount | main.cpp:202-209 | with n distinct anchors, dijsktra runs n*(n-1) times |

## Left out

- Reading the CSV file, the console prompts and the GraphViz output are I/O. The model takes the rows and the anchors as sequences, and the menu choice as an integer.
- `operator<<` formats floats for a stream and is not modelled.
- `mst` and `getAdjacency`: main calls them, but `graph.h` does not define them.
- `graph::dijkstra`: `graph.h` does not define it either. The search is modelled from the pseudocode in `old/NewAlgorithm.cpp`, and the anchor loop uses that model.
- `Source.cpp` holds Bellman–Ford fragments that do not compile and that nothing calls.
- Floating point: dates, scores and weights are exact reals, so float rounding, and `fabs` on floats, are not modelled.
- `stoi` overflow (`out_of_range`, which the load loop does not catch) is not modelled: every digit run is read as an unbounded number.
- `std::regex` in general is not modelled; only the six patterns are, byte by byte. Texts are `seq<char>` with one character per byte of the `std::string`; the model does not decode UTF-8.
- DateParser.CenturyRule, DateParser.MillenniumRule: state the year where the pattern matches with the whole digit run as its group. A match where the greedy group gives digits back is covered by `MatchAt` and shown by `DateParser.ShortCenturyGroup`, not by a general lemma.
- Which record object `std::map` keeps as the key for an id (the first one inserted) is not modelled. Vertices, routes and exhibit items are accession numbers, not whole records.
- FrontierSearch.MinIndex: the priority list's order among entries of equal cost is unspecified in the pseudocode; the model pops the first of them.
- Exhibit.ExhibitItems: the new vertices are stated only as anchors or ids already in the adjacency, not as the exact set of nodes each search reached.
- FrontierSearch.Dijkstra: optimality and sorted pops are stated for graphs with non-negative weights only, because the pseudocode's claim depends on that. The model does not demand it of callers.
