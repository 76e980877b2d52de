/**
 Beam search within one layer of the HNSW graph (src/hnsw.rs `search_layer`;
 `search_layer_rows` is the same loop over row numbers and integer scores).
 The search is greedy, so it need not find the true nearest nodes; what it
 does guarantee is stated by `Beam`.
 */
module BeamSearch {
  import opened Collections
  import opened Ranking
  import opened Vectors

  /** Per-node adjacency lists by layer, as in `HnswGraph.neighbors`. */
  type Adjacency = map<Id, seq<seq<Id>>>

  function NeighborsAt(adj: Adjacency, id: Id, layer: nat): seq<Id> {
    if id in adj && layer < |adj[id]| then adj[id][layer] else []
  }

  type Embeddings = map<Id, Vec>

  function SetOf(ids: seq<Id>): set<Id> {
    set x | x in ids
  }

  function Scored(q: Vec, embs: Embeddings, id: Id): Hit
    requires id in embs
  {
    Hit(id, Dot(q, embs[id]))
  }

  /** The scores of the visited nodes that have an embedding. */
  ghost function ScoresOf(q: Vec, embs: Embeddings, visited: set<Id>): map<Id, real> {
    map id | id in visited && id in embs :: Dot(q, embs[id])
  }

  // ---- reachability --------------------------------------------------------

  predicate StepAt(adj: Adjacency, layer: nat, walk: seq<Id>, i: nat)
    requires 0 < i < |walk|
  {
    walk[i] in NeighborsAt(adj, walk[i - 1], layer)
  }

  /** A walk along the layer from an entry point, through nodes with embeddings only. */
  ghost predicate IsWalk(adj: Adjacency, embs: Embeddings, layer: nat, entries: seq<Id>, walk: seq<Id>) {
    && walk != [] && walk[0] in entries
    && (forall i :: 0 <= i < |walk| ==> walk[i] in embs)
    && (forall i :: 0 < i < |walk| ==> StepAt(adj, layer, walk, i))
  }

  ghost predicate Reachable(adj: Adjacency, embs: Embeddings, layer: nat, entries: seq<Id>, x: Id) {
    exists walk :: IsWalk(adj, embs, layer, entries, walk) && walk[|walk| - 1] == x
  }

  lemma ReachEntry(adj: Adjacency, embs: Embeddings, layer: nat, entries: seq<Id>, x: Id)
    requires x in entries && x in embs
    ensures Reachable(adj, embs, layer, entries, x)
  {
    assert IsWalk(adj, embs, layer, entries, [x]);
  }

  lemma ReachStep(adj: Adjacency, embs: Embeddings, layer: nat, entries: seq<Id>, x: Id, y: Id)
    requires Reachable(adj, embs, layer, entries, x) && y in NeighborsAt(adj, x, layer) && y in embs
    ensures Reachable(adj, embs, layer, entries, y)
  {
    hide NeighborsAt;
    var walk :| IsWalk(adj, embs, layer, entries, walk) && walk[|walk| - 1] == x;
    var longer := walk + [y];
    forall i | 0 < i < |longer| ensures StepAt(adj, layer, longer, i) {
      if i < |walk| {
        assert StepAt(adj, layer, walk, i);
      }
    }
    assert IsWalk(adj, embs, layer, entries, longer);
  }

  /** A set that holds the scored entries and is closed along the layer holds everything reachable. */
  lemma {:induction false} ClosedHoldsWalk(adj: Adjacency, embs: Embeddings, layer: nat, entries: seq<Id>,
                                           closed: set<Id>, walk: seq<Id>)
    requires IsWalk(adj, embs, layer, entries, walk)
    requires forall x :: x in entries && x in embs ==> x in closed
    requires forall x, y :: x in closed && y in NeighborsAt(adj, x, layer) && y in embs ==> y in closed
    ensures walk[|walk| - 1] in closed
  {
    hide NeighborsAt;
    var n := |walk| - 1;
    if n > 0 {
      assert StepAt(adj, layer, walk, n);
      forall i | 0 < i < n ensures StepAt(adj, layer, walk[..n], i) {
        assert StepAt(adj, layer, walk, i);
      }
      ClosedHoldsWalk(adj, embs, layer, entries, closed, walk[..n]);
    }
  }

  // ---- the result heap -----------------------------------------------------

  /** The best hits of `scores`, at least `ef` of them if there are so many. */
  ghost predicate Best(result: seq<Hit>, ef: nat, scores: map<Id, real>) {
    && IsTopK(result, |result|, scores)
    && (|result| < ef ==> forall id :: id in scores ==> Hit(id, scores[id]) in result)
  }

  /** Push, then drop the worst while there are more than `ef`. */
  function PushTrim(result: seq<Hit>, ef: nat, h: Hit): seq<Hit> {
    var r := Insert(h, result);
    if |r| > ef then r[..ef] else r
  }

  lemma PushTrimKeepsBest(result: seq<Hit>, ef: nat, scores: map<Id, real>, h: Hit)
    requires Best(result, ef, scores) && h.id !in scores
    ensures Best(PushTrim(result, ef, h), ef, scores[h.id := h.score])
  {
    hide Insert;
    var r := Insert(h, result);
    var scores' := scores[h.id := h.score];
    assert forall x :: x in result ==> x.id in scores;
    InsertRanked(h, result);
    var k := if |r| > ef then ef else |r|;
    forall id | id in scores' && Hit(id, scores'[id]) !in r
      ensures k <= |r| && forall y :: y in r[..k] ==> Before(y, Hit(id, scores'[id]))
    {
      var x := Hit(id, scores'[id]);
      assert h in r;
      assert forall y :: y in result ==> Before(y, x);
      forall y | y in r[..k] ensures Before(y, x) {
        if y == h {
          HeadBeatsLater(r, k, h, result);
        }
      }
    }
    CutIsTopK(r, k, scores');
    assert r[..|r|] == r;
  }

  /** Something ranks behind `h` if `h` survives the cut, and it is an old hit. */
  lemma HeadBeatsLater(r: seq<Hit>, k: nat, h: Hit, result: seq<Hit>)
    requires Ranked(r) && k < |r| && h in r[..k]
    requires forall x :: x in r <==> x == h || x in result
    ensures exists y :: y in result && Before(h, y)
  {
    var i :| 0 <= i < k && r[..k][i] == h;
    assert Before(r[i], r[k]) && r[k] in r;
  }

  // ---- the search frontier -------------------------------------------------

  /**
   Every visited node with an embedding waits in the candidate heap or has
   been expanded; expanded nodes have all their neighbours visited.
   */
  ghost predicate Frontier(adj: Adjacency, q: Vec, embs: Embeddings, layer: nat, entries: seq<Id>,
                           visited: set<Id>, candidates: set<Hit>, expanded: set<Id>) {
    && (forall x :: x in entries ==> x in visited)
    && (forall h :: h in candidates ==> h.id in visited && h.id in embs && h.score == Dot(q, embs[h.id]))
    && (forall x :: x in visited && x in embs ==> x in expanded || Scored(q, embs, x) in candidates)
    && (forall x, y :: x in expanded && y in NeighborsAt(adj, x, layer) ==> y in visited)
    && (forall x :: x in visited && x in embs ==> Reachable(adj, embs, layer, entries, x))
  }

  /** Pop the candidate with the highest score (then the highest id). */
  method PopBest(candidates: set<Hit>) returns (best: Hit)
    requires candidates != {}
    ensures IsTop(candidates, best)
  {
    best :| best in candidates;
    var todo := candidates - {best};
    while todo != {}
      invariant best in candidates && todo <= candidates
      invariant forall x :: x in candidates && x !in todo ==>
                x.score < best.score || (x.score == best.score && x.id <= best.id)
      decreases todo
    {
      var x :| x in todo;
      todo := todo - {x};
      if x.score > best.score || (x.score == best.score && x.id > best.id) {
        best := x;
      }
    }
  }

  /** What has been visited once these nodes are expanded: the entries and the expanded nodes' neighbours. */
  ghost function Seen(adj: Adjacency, layer: nat, entries: seq<Id>, expanded: set<Id>): set<Id> {
    SetOf(entries) + (set x, y | x in expanded && y in NeighborsAt(adj, x, layer) :: y)
  }

  lemma ScoresOfOneMore(q: Vec, embs: Embeddings, visited: set<Id>, x: Id)
    ensures x in embs ==> ScoresOf(q, embs, visited + {x}) == ScoresOf(q, embs, visited)[x := Dot(q, embs[x])]
    ensures x !in embs ==> ScoresOf(q, embs, visited + {x}) == ScoresOf(q, embs, visited)
  {
  }

  // ---- the search as a function --------------------------------------------

  /** One layer's non-empty lists: all of the graph that a search in the layer looks at. */
  type Lists = map<Id, seq<Id>>

  function ListsAt(adj: Adjacency, layer: nat): Lists {
    map x | x in adj && layer < |adj[x]| && adj[x][layer] != [] :: adj[x][layer]
  }

  function At(lists: Lists, x: Id): seq<Id> {
    if x in lists then lists[x] else []
  }

  lemma NeighborsAreListed(adj: Adjacency, layer: nat)
    ensures forall x :: NeighborsAt(adj, x, layer) == At(ListsAt(adj, layer), x)
  {
  }

  /** The state of a search: the visited set and the two heaps. */
  datatype Search = Search(visited: set<Id>, candidates: set<Hit>, result: seq<Hit>)

  function SeedAll(q: Vec, embs: Embeddings, entries: seq<Id>): (st: Search)
    ensures st.visited == SetOf(entries)
  {
    if entries == [] then Search({}, {}, [])
    else
      var n := |entries| - 1;
      var st, x := SeedAll(q, embs, entries[..n]), entries[n];
      assert forall y :: y in entries <==> y in entries[..n] || y == x;
      if x in embs then
        Search(st.visited + {x}, st.candidates + {Scored(q, embs, x)}, Insert(Scored(q, embs, x), st.result))
      else st.(visited := st.visited + {x})
  }

  function MeetOne(q: Vec, embs: Embeddings, ef: nat, st: Search, y: Id): Search {
    if y in st.visited then st
    else if y !in embs then st.(visited := st.visited + {y})
    else Search(st.visited + {y}, st.candidates + {Scored(q, embs, y)}, PushTrim(st.result, ef, Scored(q, embs, y)))
  }

  function MeetAll(q: Vec, embs: Embeddings, ef: nat, st: Search, ys: seq<Id>): (r: Search)
    ensures r.visited == st.visited + SetOf(ys)
    ensures r.visited == st.visited ==> r.candidates == st.candidates
  {
    if ys == [] then st
    else
      var n := |ys| - 1;
      assert forall y :: y in ys <==> y in ys[..n] || y == ys[n];
      MeetOne(q, embs, ef, MeetAll(q, embs, ef, st, ys[..n]), ys[n])
  }

  lemma SeedNone(q: Vec, embs: Embeddings, entries: seq<Id>)
    ensures SeedAll(q, embs, entries[..0]) == Search({}, {}, [])
  {
  }

  lemma SeedOneMore(q: Vec, embs: Embeddings, entries: seq<Id>, i: nat)
    requires i < |entries|
    ensures var st, x := SeedAll(q, embs, entries[..i]), entries[i];
            SeedAll(q, embs, entries[..i + 1]) ==
              if x in embs then
                Search(st.visited + {x}, st.candidates + {Scored(q, embs, x)}, Insert(Scored(q, embs, x), st.result))
              else st.(visited := st.visited + {x})
  {
    assert entries[..i + 1][..i] == entries[..i];
  }

  lemma MeetNone(q: Vec, embs: Embeddings, ef: nat, st: Search, ys: seq<Id>)
    ensures MeetAll(q, embs, ef, st, ys[..0]) == st
  {
  }

  lemma MeetOneMore(q: Vec, embs: Embeddings, ef: nat, st: Search, ys: seq<Id>, i: nat)
    requires i < |ys|
    ensures MeetAll(q, embs, ef, st, ys[..i + 1]) == MeetOne(q, embs, ef, MeetAll(q, embs, ef, st, ys[..i]), ys[i])
  {
    assert ys[..i + 1][..i] == ys[..i];
  }

  /** The candidate that is popped: the highest score, then the highest id. */
  ghost predicate IsTop(candidates: set<Hit>, c: Hit) {
    c in candidates && forall x :: x in candidates ==> x.score < c.score || (x.score == c.score && x.id <= c.id)
  }

  lemma {:induction false} TopExists(candidates: set<Hit>)
    requires candidates != {}
    ensures exists c :: IsTop(candidates, c)
    decreases candidates
  {
    var x :| x in candidates;
    if candidates == {x} {
      assert IsTop(candidates, x);
    } else {
      var rest := candidates - {x};
      TopExists(rest);
      var c :| IsTop(rest, c);
      assert IsTop(candidates, if x.score > c.score || (x.score == c.score && x.id > c.id) then x else c);
    }
  }

  ghost function Top(candidates: set<Hit>): (c: Hit)
    requires candidates != {}
    ensures IsTop(candidates, c)
  {
    TopExists(candidates);
    var c :| IsTop(candidates, c);
    c
  }

  /** The best remaining candidate scores below the worst kept result. */
  predicate Stops(st: Search, ef: nat, c: Hit) {
    |st.result| >= ef && st.result != [] && c.score < st.result[|st.result| - 1].score
  }

  ghost predicate Within(lists: Lists, universe: set<Id>, visited: set<Id>) {
    visited <= universe && forall x, y :: y in At(lists, x) ==> y in universe
  }

  ghost function SearchFrom(lists: Lists, q: Vec, ef: nat, embs: Embeddings, universe: set<Id>, st: Search): Search
    requires Within(lists, universe, st.visited)
    decreases universe - st.visited, st.candidates
  {
    if st.candidates == {} then st
    else
      var c := Top(st.candidates);
      if Stops(st, ef, c) then st
      else
        var next := MeetAll(q, embs, ef, st.(candidates := st.candidates - {c}), At(lists, c.id));
        SearchFrom(lists, q, ef, embs, universe, next)
  }

  ghost function Universe(lists: Lists, entries: seq<Id>): set<Id> {
    SetOf(entries) + (set x, y | x in lists && y in lists[x] :: y)
  }

  lemma UniverseHolds(lists: Lists, entries: seq<Id>)
    ensures Within(lists, Universe(lists, entries), SetOf(entries))
  {
  }

  function IdsOf(hits: seq<Hit>): (r: seq<Id>)
    ensures |r| == |hits| && forall i :: 0 <= i < |r| ==> r[i] == hits[i].id
  {
    seq(|hits|, i requires 0 <= i < |hits| => hits[i].id)
  }

  /** The nodes that a search in the layer returns, best first. */
  ghost function SearchIds(lists: Lists, q: Vec, entries: seq<Id>, ef: nat, embs: Embeddings): seq<Id> {
    UniverseHolds(lists, entries);
    IdsOf(SearchFrom(lists, q, ef, embs, Universe(lists, entries), SeedAll(q, embs, entries)).result)
  }

  lemma SearchGoesOn(lists: Lists, q: Vec, ef: nat, embs: Embeddings, universe: set<Id>, st: Search, c: Hit)
    requires Within(lists, universe, st.visited) && IsTop(st.candidates, c) && !Stops(st, ef, c)
    ensures var next := MeetAll(q, embs, ef, st.(candidates := st.candidates - {c}), At(lists, c.id));
            Within(lists, universe, next.visited)
            && SearchFrom(lists, q, ef, embs, universe, st) == SearchFrom(lists, q, ef, embs, universe, next)
  {
    assert Top(st.candidates) == c;
  }

  lemma SearchEnds(lists: Lists, q: Vec, ef: nat, embs: Embeddings, universe: set<Id>, st: Search, c: Hit)
    requires Within(lists, universe, st.visited)
    requires st.candidates == {} || (IsTop(st.candidates, c) && Stops(st, ef, c))
    ensures SearchFrom(lists, q, ef, embs, universe, st) == st
  {
    if st.candidates != {} {
      assert Top(st.candidates) == c;
    }
  }

  // ---- the search as it runs -----------------------------------------------

  /** Put the scored entry points into both heaps. */
  method Seed(adj: Adjacency, q: Vec, entries: seq<Id>, ef: nat, layer: nat, embs: Embeddings)
    returns (visited: set<Id>, candidates: set<Hit>, result: seq<Hit>)
    requires Distinct(entries)
    ensures visited == SetOf(entries)
    ensures Frontier(adj, q, embs, layer, entries, visited, candidates, {})
    ensures Best(result, ef, ScoresOf(q, embs, visited)) && |result| <= |entries|
    ensures Search(visited, candidates, result) == SeedAll(q, embs, entries)
  {
    hide Reachable;
    hide NeighborsAt;
    hide SeedAll;
    hide Insert;
    visited, candidates, result := {}, {}, [];
    SeedNone(q, embs, entries);
    for i := 0 to |entries|
      invariant visited == SetOf(entries[..i])
      invariant Search(visited, candidates, result) == SeedAll(q, embs, entries[..i])
      invariant forall h :: h in candidates ==> h.id in visited && h.id in embs && h.score == Dot(q, embs[h.id])
      invariant forall x :: x in visited && x in embs ==> Scored(q, embs, x) in candidates
      invariant forall x :: x in visited && x in embs ==> Reachable(adj, embs, layer, entries, x)
      invariant IsTopK(result, |result|, ScoresOf(q, embs, visited))
      invariant forall id :: id in visited && id in embs ==> Scored(q, embs, id) in result
      invariant |result| <= i
    {
      var x := entries[i];
      SeedOneMore(q, embs, entries, i);
      assert entries[..i + 1] == entries[..i] + [x];
      assert x !in visited;
      ScoresOfOneMore(q, embs, visited, x);
      if x in embs {
        var h := Scored(q, embs, x);
        Grow(result, |result| + 1, ScoresOf(q, embs, visited), h);
        ReachEntry(adj, embs, layer, entries, x);
        candidates := candidates + {h};
        result := Insert(h, result);
      }
      visited := visited + {x};
    }
    assert entries[..|entries|] == entries;
  }

  /** Look at one neighbour of the node being expanded. */
  method Meet(adj: Adjacency, q: Vec, ghost entries: seq<Id>, ef: nat, layer: nat, embs: Embeddings, ghost c: Hit,
              y: Id, visited: set<Id>, candidates: set<Hit>, result: seq<Hit>, ghost expanded: set<Id>)
    returns (visited': set<Id>, candidates': set<Hit>, result': seq<Hit>)
    requires Frontier(adj, q, embs, layer, entries, visited, candidates + {c}, expanded)
    requires c.id in visited && c.id in embs && y in NeighborsAt(adj, c.id, layer)
    requires Best(result, ef, ScoresOf(q, embs, visited))
    ensures Frontier(adj, q, embs, layer, entries, visited', candidates' + {c}, expanded)
    ensures Best(result', ef, ScoresOf(q, embs, visited')) && visited' == visited + {y}
    ensures Search(visited', candidates', result') == MeetOne(q, embs, ef, Search(visited, candidates, result), y)
    ensures |result'| <= (if |result| > ef then |result| else ef)
    ensures visited' == visited ==> candidates' == candidates
  {
    hide Frontier;
    hide Best;
    hide NeighborsAt;
    visited', candidates', result' := visited + {y}, candidates, result;
    if y in visited {
      assert visited' == visited;
      return;
    }
    ScoresOfOneMore(q, embs, visited, y);
    FrontierOneMore(adj, q, embs, layer, entries, visited, candidates + {c}, expanded, c.id, y);
    if y in embs {
      var h := Scored(q, embs, y);
      PushTrimKeepsBest(result, ef, ScoresOf(q, embs, visited), h);
      assert (candidates + {c}) + {h} == (candidates + {h}) + {c};
      candidates', result' := candidates + {h}, PushTrim(result, ef, h);
    }
  }

  /** Visit the neighbours of an expanded node. */
  method Expand(adj: Adjacency, q: Vec, ghost entries: seq<Id>, ef: nat, layer: nat, embs: Embeddings, c: Hit,
                visited: set<Id>, candidates: set<Hit>, result: seq<Hit>, ghost expanded: set<Id>)
    returns (visited': set<Id>, candidates': set<Hit>, result': seq<Hit>)
    requires Frontier(adj, q, embs, layer, entries, visited, candidates + {c}, expanded)
    requires c.id in visited && c.id in embs && Best(result, ef, ScoresOf(q, embs, visited))
    ensures Frontier(adj, q, embs, layer, entries, visited', candidates', expanded + {c.id})
    ensures Best(result', ef, ScoresOf(q, embs, visited'))
    ensures visited' == visited + SetOf(NeighborsAt(adj, c.id, layer))
    ensures Search(visited', candidates', result') ==
              MeetAll(q, embs, ef, Search(visited, candidates, result), NeighborsAt(adj, c.id, layer))
    ensures |result'| <= (if |result| > ef then |result| else ef)
    ensures visited' == visited ==> candidates' == candidates
  {
    hide Frontier;
    hide Best;
    hide MeetAll;
    hide MeetOne;
    visited', candidates', result' := visited, candidates, result;
    var neighbors := NeighborsAt(adj, c.id, layer);
    ghost var before := Search(visited, candidates, result);
    MeetNone(q, embs, ef, before, neighbors);
    for i := 0 to |neighbors|
      invariant Frontier(adj, q, embs, layer, entries, visited', candidates' + {c}, expanded)
      invariant Best(result', ef, ScoresOf(q, embs, visited'))
      invariant Search(visited', candidates', result') == MeetAll(q, embs, ef, before, neighbors[..i])
      invariant |result'| <= (if |result| > ef then |result| else ef)
    {
      var y := neighbors[i];
      MeetOneMore(q, embs, ef, before, neighbors, i);
      visited', candidates', result' :=
          Meet(adj, q, entries, ef, layer, embs, c, y, visited', candidates', result', expanded);
    }
    assert neighbors[..|neighbors|] == neighbors;
    FrontierExpanded(adj, q, embs, layer, entries, visited', candidates', expanded, c);
  }

  lemma FrontierExpanded(adj: Adjacency, q: Vec, embs: Embeddings, layer: nat, entries: seq<Id>,
                         visited: set<Id>, candidates: set<Hit>, expanded: set<Id>, c: Hit)
    requires Frontier(adj, q, embs, layer, entries, visited, candidates + {c}, expanded)
    requires forall y :: y in NeighborsAt(adj, c.id, layer) ==> y in visited
    ensures Frontier(adj, q, embs, layer, entries, visited, candidates, expanded + {c.id})
  {
    hide NeighborsAt;
    hide Reachable;
  }

  lemma FrontierOneMore(adj: Adjacency, q: Vec, embs: Embeddings, layer: nat, entries: seq<Id>,
                        visited: set<Id>, candidates: set<Hit>, expanded: set<Id>, x: Id, y: Id)
    requires Frontier(adj, q, embs, layer, entries, visited, candidates, expanded)
    requires x in visited && x in embs && y in NeighborsAt(adj, x, layer)
    ensures Frontier(adj, q, embs, layer, entries, visited + {y},
                     if y in embs then candidates + {Scored(q, embs, y)} else candidates, expanded)
  {
    hide NeighborsAt;
    if y in embs {
      ReachStep(adj, embs, layer, entries, x, y);
    }
    hide Reachable;
  }

  // ---- what the search returns ---------------------------------------------

  /** `y` is returned, or every one of at least `ef` returned nodes ranks ahead of it. */
  ghost predicate ReturnedOrBeaten(q: Vec, embs: Embeddings, ef: nat, ids: seq<Id>, y: Id)
    requires y in embs && forall i :: 0 <= i < |ids| ==> ids[i] in embs
  {
    y in ids || (|ids| >= ef && forall i :: 0 <= i < |ids| ==> Before(Scored(q, embs, ids[i]), Scored(q, embs, y)))
  }

  /**
   The guarantee: distinct scored nodes, locally optimal along the layer, and
   everything reachable if fewer than `ef` come back.
   */
  ghost predicate Beam(adj: Adjacency, q: Vec, embs: Embeddings, layer: nat, entries: seq<Id>, ef: nat, ids: seq<Id>) {
    && (forall i :: 0 <= i < |ids| ==> ids[i] in embs)
    && Distinct(ids)
    && |ids| <= (if |entries| > ef then |entries| else ef)
    && (forall y :: y in entries && y in embs ==> ReturnedOrBeaten(q, embs, ef, ids, y))
    && (forall x, y :: x in ids && y in NeighborsAt(adj, x, layer) && y in embs ==>
         ReturnedOrBeaten(q, embs, ef, ids, y))
    && (forall x :: x in ids ==> Reachable(adj, embs, layer, entries, x))
    && (|ids| < ef ==> forall x :: Reachable(adj, embs, layer, entries, x) ==> x in ids)
  }

  /** The returned nodes are the best of those visited. */
  ghost predicate BestOfVisited(q: Vec, embs: Embeddings, ef: nat, ids: seq<Id>, visited: set<Id>) {
    && (forall i :: 0 <= i < |ids| ==> ids[i] in embs && ids[i] in visited)
    && (forall y :: y in visited && y in embs ==> ReturnedOrBeaten(q, embs, ef, ids, y))
  }

  /**
   How the search got there: it visited exactly the entries and the neighbours
   of the nodes it expanded, it expanded every node it returns, and what it
   left unexpanded scores below every one of at least `ef` returned nodes.
   */
  ghost predicate Explored(adj: Adjacency, q: Vec, embs: Embeddings, layer: nat, entries: seq<Id>, ef: nat,
                           ids: seq<Id>, visited: set<Id>, expanded: set<Id>) {
    && visited == Seen(adj, layer, entries, expanded) && expanded <= visited
    && (forall x :: x in expanded ==> x in embs)
    && (forall x :: x in ids ==> x in expanded)
    && (forall y :: y in visited && y in embs ==> Reachable(adj, embs, layer, entries, y))
    && (forall y :: y in visited && y in embs && y !in expanded ==>
          |ids| >= ef && forall x :: x in ids && x in embs ==> Dot(q, embs[y]) < Dot(q, embs[x]))
  }

  /** `Best`, said of ids. */
  lemma BestOfIds(q: Vec, embs: Embeddings, ef: nat, result: seq<Hit>, ids: seq<Id>, visited: set<Id>)
    requires Best(result, ef, ScoresOf(q, embs, visited))
    requires |ids| == |result| && forall i :: 0 <= i < |ids| ==> ids[i] == result[i].id
    ensures forall i :: 0 <= i < |ids| ==> ids[i] in embs && ids[i] in visited && result[i] == Scored(q, embs, ids[i])
    ensures Distinct(ids)
    ensures forall y :: y in visited && y in embs ==> ReturnedOrBeaten(q, embs, ef, ids, y)
  {
    var scores := ScoresOf(q, embs, visited);
    forall i | 0 <= i < |ids| ensures ids[i] in embs && ids[i] in visited && result[i] == Scored(q, embs, ids[i]) {
      assert result[i] in result && result[i].id in scores;
    }
    RankedDistinct(result, scores);
    forall y | y in visited && y in embs ensures ReturnedOrBeaten(q, embs, ef, ids, y) {
      var h := Scored(q, embs, y);
      assert y in scores && scores[y] == h.score;
      if h in result {
        var i :| 0 <= i < |result| && result[i] == h;
        assert ids[i] == y;
      } else {
        forall i | 0 <= i < |ids| ensures Before(Scored(q, embs, ids[i]), h) {
          assert result[i] in result;
        }
      }
    }
  }

  /** Assemble the guarantee from the state in which the search stopped. */
  lemma StoppedIsBeam(adj: Adjacency, q: Vec, embs: Embeddings, layer: nat, entries: seq<Id>, ef: nat,
                      visited: set<Id>, candidates: set<Hit>, expanded: set<Id>, result: seq<Hit>, ids: seq<Id>)
    requires Frontier(adj, q, embs, layer, entries, visited, candidates, expanded)
    requires Best(result, ef, ScoresOf(q, embs, visited)) && |result| <= (if |entries| > ef then |entries| else ef)
    requires |ids| == |result| && forall i :: 0 <= i < |ids| ==> ids[i] == result[i].id
    requires candidates == {} || (|result| >= ef && forall h, x :: h in candidates && x in result ==> h.score < x.score)
    requires visited == Seen(adj, layer, entries, expanded) && expanded <= visited
    requires forall x :: x in expanded ==> x in embs
    ensures Beam(adj, q, embs, layer, entries, ef, ids)
    ensures BestOfVisited(q, embs, ef, ids, visited)
    ensures Explored(adj, q, embs, layer, entries, ef, ids, visited, expanded)
  {
    hide Seen;
    hide Reachable;
    hide NeighborsAt;
    BestOfIds(q, embs, ef, result, ids, visited);
    forall x | x in ids ensures x in expanded {
      var i :| 0 <= i < |ids| && ids[i] == x;
      assert result[i] in result && result[i] == Scored(q, embs, x);
    }
    if |ids| < ef {
      forall x | Reachable(adj, embs, layer, entries, x) ensures x in ids {
        AllReachableReturned(adj, q, embs, layer, entries, ef, ids, visited, x);
      }
    }
  }

  lemma AllReachableReturned(adj: Adjacency, q: Vec, embs: Embeddings, layer: nat, entries: seq<Id>, ef: nat,
                             ids: seq<Id>, visited: set<Id>, x: Id)
    requires Reachable(adj, embs, layer, entries, x) && |ids| < ef
    requires forall i :: 0 <= i < |ids| ==> ids[i] in embs
    requires forall y :: y in visited && y in embs ==> ReturnedOrBeaten(q, embs, ef, ids, y)
    requires forall y :: y in entries ==> y in visited
    requires forall y, z :: y in ids && z in NeighborsAt(adj, y, layer) ==> z in visited
    ensures x in ids
  {
    hide NeighborsAt;
    var walk :| IsWalk(adj, embs, layer, entries, walk) && walk[|walk| - 1] == x;
    var closed := set y | y in ids;
    ClosedHoldsWalk(adj, embs, layer, entries, closed, walk);
  }

  /** Greedy beam search within one layer, from distinct entry points. */
  method SearchLayer(adj: Adjacency, q: Vec, entries: seq<Id>, ef: nat, layer: nat, embs: Embeddings)
    returns (ids: seq<Id>, ghost visited: set<Id>, ghost expanded: set<Id>)
    requires Distinct(entries)
    ensures Beam(adj, q, embs, layer, entries, ef, ids)
    ensures BestOfVisited(q, embs, ef, ids, visited)
    ensures Explored(adj, q, embs, layer, entries, ef, ids, visited, expanded)
    ensures ids == SearchIds(ListsAt(adj, layer), q, entries, ef, embs)
  {
    hide Frontier;
    hide Best;
    hide NeighborsAt;
    hide Explored;
    hide Beam;
    hide BestOfVisited;
    hide ListsAt;
    hide At;
    hide SeedAll;
    hide MeetAll;
    hide SearchFrom;
    hide Stops;
    hide Universe;
    hide IsTop;
    hide Within;
    ghost var lists := ListsAt(adj, layer);
    ghost var universe := Universe(lists, entries);
    ghost var start := SeedAll(q, embs, entries);
    UniverseHolds(lists, entries);
    NeighborsAreListed(adj, layer);
    var seen, candidates, result := Seed(adj, q, entries, ef, layer, embs);
    expanded := {};
    SeenAtFirst(adj, layer, entries);
    while candidates != {}
      invariant Frontier(adj, q, embs, layer, entries, seen, candidates, expanded)
      invariant Best(result, ef, ScoresOf(q, embs, seen)) && |result| <= (if |entries| > ef then |entries| else ef)
      invariant Within(lists, universe, seen)
      invariant SearchFrom(lists, q, ef, embs, universe, Search(seen, candidates, result)) ==
                  SearchFrom(lists, q, ef, embs, universe, start)
      invariant seen == Seen(adj, layer, entries, expanded) && expanded <= seen
      invariant forall x :: x in expanded ==> x in embs
      decreases universe - seen, candidates
    {
      var c := PopBest(candidates);
      ghost var before := Search(seen, candidates, result);
      if |result| >= ef && result != [] && c.score < result[|result| - 1].score {
        StopFacts(before, ef, c, ScoresOf(q, embs, seen));
        SearchEnds(lists, q, ef, embs, universe, before, c);
        break;
      }
      NoStop(before, ef, c);
      candidates := candidates - {c};
      TopIsIn(before.candidates, c);
      CandidateFacts(adj, q, embs, layer, entries, seen, before.candidates, expanded, c);
      SearchGoesOn(lists, q, ef, embs, universe, before, c);
      seen, candidates, result := Expand(adj, q, entries, ef, layer, embs, c, seen, candidates, result, expanded);
      SeenOneMore(adj, layer, entries, expanded, c.id);
      expanded := expanded + {c.id};
    }
    if candidates == {} {
      SearchEnds(lists, q, ef, embs, universe, Search(seen, candidates, result), Hit(0, 0.0));
    }
    ids := IdsOf(result);
    visited := seen;
    StoppedIsBeam(adj, q, embs, layer, entries, ef, seen, candidates, expanded, result, ids);
  }

  lemma SeenAtFirst(adj: Adjacency, layer: nat, entries: seq<Id>)
    ensures Seen(adj, layer, entries, {}) == SetOf(entries)
  {
  }

  lemma SeenOneMore(adj: Adjacency, layer: nat, entries: seq<Id>, expanded: set<Id>, x: Id)
    ensures Seen(adj, layer, entries, expanded + {x}) ==
              Seen(adj, layer, entries, expanded) + SetOf(NeighborsAt(adj, x, layer))
  {
    hide NeighborsAt;
  }

  lemma TopIsIn(candidates: set<Hit>, c: Hit)
    requires IsTop(candidates, c)
    ensures c in candidates && candidates - {c} + {c} == candidates
  {
  }

  lemma NoStop(st: Search, ef: nat, c: Hit)
    requires !(|st.result| >= ef && st.result != [] && c.score < st.result[|st.result| - 1].score)
    ensures !Stops(st, ef, c)
  {
  }

  /** Stopping, every candidate left scores below every result. */
  lemma StopFacts(st: Search, ef: nat, c: Hit, scores: map<Id, real>)
    requires IsTop(st.candidates, c) && Best(st.result, ef, scores)
    requires |st.result| >= ef && st.result != [] && c.score < st.result[|st.result| - 1].score
    ensures Stops(st, ef, c)
    ensures forall h, x :: h in st.candidates && x in st.result ==> h.score < x.score
  {
    WorstIsLowest(st.result, ef, scores);
  }

  lemma CandidateFacts(adj: Adjacency, q: Vec, embs: Embeddings, layer: nat, entries: seq<Id>,
                       visited: set<Id>, candidates: set<Hit>, expanded: set<Id>, c: Hit)
    requires Frontier(adj, q, embs, layer, entries, visited, candidates, expanded) && c in candidates
    ensures c.id in visited && c.id in embs
  {
  }

  lemma WorstIsLowest(result: seq<Hit>, ef: nat, scores: map<Id, real>)
    requires Best(result, ef, scores) && result != []
    ensures forall x :: x in result ==> x.score >= result[|result| - 1].score
  {
  }
}
