/**
 The HNSW graph itself (src/hnsw.rs `HnswGraph`, `apply_delta_batch`):
 inserting a node by search, removing one, and wiring in batch plans that were
 computed earlier against a graph that may have changed since.
 */
module HnswGraphModel {
  import opened Collections
  import opened Ranking
  import opened Vectors
  import opened BeamSearch

  const HNSW_M: nat := 16
  const HNSW_M0: nat := 32
  const HNSW_EF_CONSTRUCTION: nat := 200

  function Cap(layer: nat): nat {
    if layer == 0 then HNSW_M0 else HNSW_M
  }

  datatype EntryPoint = EntryPoint(id: Id, level: nat)

  // ---- adjacency edits -----------------------------------------------------

  predicate HasLayer(adj: Adjacency, x: Id, layer: nat) {
    x in adj && layer < |adj[x]|
  }

  function SetList(adj: Adjacency, x: Id, layer: nat, list: seq<Id>): Adjacency
    requires HasLayer(adj, x, layer)
  {
    adj[x := adj[x][layer := list]]
  }

  /** The hits of the candidates that have an embedding. */
  function HitsFor(q: Vec, embs: Embeddings, ids: seq<Id>): (r: seq<Hit>)
    ensures |r| <= |ids|
    ensures forall h :: h in r <==> h.id in ids && h.id in embs && h.score == Dot(q, embs[h.id])
  {
    if ids == [] then []
    else
      var n := |ids| - 1;
      assert forall x :: x in ids <==> x in ids[..n] || x == ids[n];
      HitsFor(q, embs, ids[..n]) + (if ids[n] in embs then [Scored(q, embs, ids[n])] else [])
  }

  /** The `m` candidates most similar to the query. */
  function SelectNeighbors(q: Vec, embs: Embeddings, candidates: seq<Id>, m: nat): (r: seq<Id>)
    ensures |r| <= m && |r| <= |candidates|
    ensures forall x :: x in r ==> x in candidates && x in embs
    ensures forall x :: x in candidates && x in embs ==> x in r || |r| == m
    ensures (exists x :: x in candidates && x in embs) && m > 0 ==> r != []
  {
    var hits := Sort(HitsFor(q, embs, candidates));
    var best := if |hits| > m then hits[..m] else hits;
    var r := seq(|best|, i requires 0 <= i < |best| => best[i].id);
    assert forall x :: x in r ==> x in candidates && x in embs by {
      forall x | x in r ensures x in candidates && x in embs {
        var i :| 0 <= i < |r| && r[i] == x;
        assert hits[i] in hits;
      }
    }
    assert forall x :: x in candidates && x in embs ==> x in r || |r| == m by {
      forall x | x in candidates && x in embs ensures x in r || |r| == m {
        assert Scored(q, embs, x) in hits;
        if |hits| <= m {
          var i :| 0 <= i < |hits| && hits[i] == Scored(q, embs, x);
          assert r[i] == x;
        }
      }
    }
    r
  }

  /** What is selected is nearest: everything passed over ranks behind everything taken, and the nearest come first. */
  lemma SelectedAreNearest(q: Vec, embs: Embeddings, candidates: seq<Id>, m: nat)
    ensures var r := SelectNeighbors(q, embs, candidates, m);
            && (forall x, y :: x in r && y in candidates && y in embs && y !in r ==>
                  x in embs && Before(Scored(q, embs, x), Scored(q, embs, y)))
            && (forall i, j :: 0 <= i < j < |r| ==>
                  r[i] in embs && r[j] in embs && !Before(Scored(q, embs, r[j]), Scored(q, embs, r[i])))
  {
    var hits := HitsFor(q, embs, candidates);
    SortOrders(hits);
    var sorted := Sort(hits);
    var r := SelectNeighbors(q, embs, candidates, m);
    assert |r| == if |sorted| > m then m else |sorted|;
    assert forall t :: 0 <= t < |sorted| ==> sorted[t] in hits;
    assert forall t :: 0 <= t < |r| ==> r[t] == sorted[t].id && sorted[t] == Scored(q, embs, r[t]);
    hide SelectNeighbors;
    hide Sort;
    hide HitsFor;
    forall x, y | x in r && y in candidates && y in embs && y !in r
      ensures x in embs && Before(Scored(q, embs, x), Scored(q, embs, y))
    {
      assert Scored(q, embs, y) in sorted;
      var i :| 0 <= i < |r| && r[i] == x;
      var j :| 0 <= j < |sorted| && sorted[j] == Scored(q, embs, y);
      assert j >= |r|;
      assert !Before(sorted[j], sorted[i]);
    }
  }

  /** Offer `id` to a selected neighbour's list, cutting the list back if it grows too long. */
  function LinkOne(adj: Adjacency, embs: Embeddings, id: Id, layer: nat, nb: Id): Adjacency {
    if !HasLayer(adj, nb, layer) then adj
    else
      var list := adj[nb][layer] + [id];
      if |list| > Cap(layer) && nb in embs then
        SetList(adj, nb, layer, SelectNeighbors(embs[nb], embs, list, Cap(layer)))
      else SetList(adj, nb, layer, list)
  }

  function LinkAll(adj: Adjacency, embs: Embeddings, id: Id, layer: nat, selected: seq<Id>): Adjacency {
    if selected == [] then adj
    else LinkOne(LinkAll(adj, embs, id, layer, selected[..|selected| - 1]), embs, id, layer, selected[|selected| - 1])
  }

  // ---- shape and bounds ----------------------------------------------------

  /** Same nodes with the same number of layers. */
  ghost predicate SameShape(a: Adjacency, b: Adjacency) {
    a.Keys == b.Keys && forall x :: x in a ==> |a[x]| == |b[x]|
  }

  /** No list is longer than `factor` times its layer's cap. */
  ghost predicate Bounded(adj: Adjacency, factor: nat) {
    forall x, l :: x in adj && 0 <= l < |adj[x]| ==> |adj[x][l]| <= factor * Cap(l)
  }

  /** Lists of `b` other than those at `layer` are those of `a`. */
  ghost predicate OnlyLayer(a: Adjacency, b: Adjacency, layer: nat) {
    forall x, l :: x in a && x in b && 0 <= l < |a[x]| && l < |b[x]| && l != layer ==> b[x][l] == a[x][l]
  }

  /** Edges of `b` at `layer` are edges of `a`, or lead to `id`. */
  ghost predicate GainsOnly(a: Adjacency, b: Adjacency, layer: nat, id: Id) {
    forall x, y :: HasLayer(a, x, layer) && HasLayer(b, x, layer) && y in b[x][layer] ==> y in a[x][layer] || y == id
  }

  /** An edge to a node with an embedding is given up at `layer` only by a list cut to its cap. */
  ghost predicate GivesUpWhenFull(a: Adjacency, b: Adjacency, embs: Embeddings, layer: nat, except: Id) {
    forall x, y :: HasLayer(a, x, layer) && HasLayer(b, x, layer) && x != except && y in a[x][layer] && y in embs ==>
      y in b[x][layer] || |b[x][layer]| == Cap(layer)
  }

  /** A neighbour has taken the edge back to `id`, or its list is full. */
  ghost predicate Reciprocal(adj: Adjacency, id: Id, layer: nat, nb: Id) {
    HasLayer(adj, nb, layer) ==> id in adj[nb][layer] || |adj[nb][layer]| >= Cap(layer)
  }

  /** Everything on this list of `x` is nearer to `x` than `y` is. */
  ghost predicate Outdone(list: seq<Id>, embs: Embeddings, x: Id, y: Id) {
    && x in embs && y in embs
    && forall z :: z in list ==> z in embs && Before(Scored(embs[x], embs, z), Scored(embs[x], embs, y))
  }

  /**
   A list gives an edge up, at `layer`, only for what is nearer to its own
   node; one without embedding gives none up.
   */
  ghost predicate CutsFarthest(a: Adjacency, b: Adjacency, embs: Embeddings, layer: nat, except: Id) {
    && (forall x, y ::
          HasLayer(a, x, layer) && HasLayer(b, x, layer) && x != except && y in embs && y in a[x][layer] ==>
            y in b[x][layer] || Outdone(b[x][layer], embs, x, y))
    && (forall x :: HasLayer(a, x, layer) && HasLayer(b, x, layer) && x != except && x !in embs ==>
          a[x][layer] <= b[x][layer])
  }

  /** A neighbour that was offered the node and has not kept it has nearer ones only. */
  ghost predicate KeptOrOutdone(adj: Adjacency, embs: Embeddings, id: Id, layer: nat, nb: Id) {
    HasLayer(adj, nb, layer) && nb != id && id !in adj[nb][layer] ==> Outdone(adj[nb][layer], embs, nb, id)
  }

  lemma LinkOneCuts(adj: Adjacency, embs: Embeddings, id: Id, layer: nat, nb: Id)
    requires id in embs
    ensures var b := LinkOne(adj, embs, id, layer, nb);
            CutsFarthest(adj, b, embs, layer, id) && KeptOrOutdone(b, embs, id, layer, nb)
  {
    if HasLayer(adj, nb, layer) && nb in embs {
      SelectedAreNearest(embs[nb], embs, adj[nb][layer] + [id], Cap(layer));
    }
    hide SelectNeighbors;
  }

  lemma {:induction false} LinkAllCuts(adj: Adjacency, embs: Embeddings, id: Id, layer: nat, selected: seq<Id>)
    requires id in embs && Distinct(selected)
    ensures var b := LinkAll(adj, embs, id, layer, selected);
            && CutsFarthest(adj, b, embs, layer, id)
            && (forall nb :: nb in selected ==> KeptOrOutdone(b, embs, id, layer, nb))
            && (forall x :: x !in selected && x in adj ==> x in b && b[x] == adj[x])
  {
    hide SelectNeighbors;
    hide Outdone;
    if selected != [] {
      var n := |selected| - 1;
      var last := selected[n];
      assert forall x :: x in selected <==> x in selected[..n] || x == last;
      assert last !in selected[..n];
      LinkAllCuts(adj, embs, id, layer, selected[..n]);
      var mid := LinkAll(adj, embs, id, layer, selected[..n]);
      LinkOneCuts(mid, embs, id, layer, last);
      LinkOneTouches(mid, embs, id, layer, last);
      hide LinkOne;
    }
  }

  lemma LinkOneTouches(adj: Adjacency, embs: Embeddings, id: Id, layer: nat, nb: Id)
    ensures var b := LinkOne(adj, embs, id, layer, nb);
            b.Keys == adj.Keys && forall x :: x in adj && x != nb ==> b[x] == adj[x]
  {
    hide SelectNeighbors;
  }

  lemma LinkOneKeeps(adj: Adjacency, embs: Embeddings, id: Id, layer: nat, nb: Id, factor: nat)
    requires factor >= 1 && Bounded(adj, factor) && nb in embs && id in embs
    ensures var b := LinkOne(adj, embs, id, layer, nb);
            && SameShape(adj, b) && Bounded(b, factor) && OnlyLayer(adj, b, layer) && GainsOnly(adj, b, layer, id)
            && Reciprocal(b, id, layer, nb) && GivesUpWhenFull(adj, b, embs, layer, id)
            && forall x :: x in adj && x != nb ==> b[x] == adj[x]
  {
    hide SelectNeighbors;
  }

  lemma {:induction false} LinkAllKeeps(adj: Adjacency, embs: Embeddings, id: Id, layer: nat, selected: seq<Id>,
                                        factor: nat)
    requires factor >= 1 && Bounded(adj, factor) && id in embs && Distinct(selected)
    requires forall x :: x in selected ==> x in embs
    ensures var b := LinkAll(adj, embs, id, layer, selected);
            && SameShape(adj, b) && Bounded(b, factor) && OnlyLayer(adj, b, layer) && GainsOnly(adj, b, layer, id)
            && (forall nb :: nb in selected ==> Reciprocal(b, id, layer, nb))
            && GivesUpWhenFull(adj, b, embs, layer, id)
            && (forall x :: x in adj && x !in selected ==> b[x] == adj[x])
  {
    hide LinkOne;
    hide SelectNeighbors;
    if selected != [] {
      var n := |selected| - 1;
      var last := selected[n];
      assert forall x :: x in selected <==> x in selected[..n] || x == last;
      assert last !in selected[..n];
      LinkAllKeeps(adj, embs, id, layer, selected[..n], factor);
      var mid := LinkAll(adj, embs, id, layer, selected[..n]);
      LinkOneKeeps(mid, embs, id, layer, last, factor);
    }
  }

  lemma CutKeepsTwice(hits: seq<Hit>, h: Hit)
    requires h in hits
    ensures h in Sort(hits + [h])[..|hits|]
  {
    SortCounts(hits + [h]);
    CountsLeft(Sort(hits + [h]), hits, h);
  }

  lemma CountsLeft(sorted: seq<Hit>, hits: seq<Hit>, h: Hit)
    requires h in hits && multiset(sorted) == multiset(hits + [h]) && |sorted| == |hits| + 1
    ensures h in sorted[..|hits|]
  {
    var front, last := sorted[..|hits|], sorted[|hits|];
    assert sorted == front + [last];
    assert multiset(sorted) == multiset(front) + multiset{last};
    assert h in multiset(hits);
    assert multiset(hits + [h])[h] >= 2;
    assert h in multiset(front);
  }

  /** Cut back by one, a list that names a node twice still names it. */
  lemma TwiceStays(q: Vec, embs: Embeddings, list: seq<Id>, x: Id)
    requires x in list && x in embs
    ensures x in SelectNeighbors(q, embs, list + [x], |list|)
  {
    var h := Scored(q, embs, x);
    assert (list + [x])[..|list|] == list;
    var before := HitsFor(q, embs, list);
    var hits := HitsFor(q, embs, list + [x]);
    assert hits == before + [h];
    CutKeepsTwice(before, h);
    hide HitsFor;
    var sorted := Sort(hits);
    var i :| 0 <= i < |before| && sorted[i] == h;
    var r := SelectNeighbors(q, embs, list + [x], |list|);
    hide Sort;
    assert r[i] == x;
  }

  /** Linking a node to everyone on a list that names the node itself leaves it on its own list. */
  lemma {:induction false} SelfStays(adj: Adjacency, embs: Embeddings, id: Id, layer: nat, selected: seq<Id>)
    requires HasLayer(adj, id, layer) && id in embs && Distinct(selected)
    requires id in adj[id][layer] && |adj[id][layer]| <= Cap(layer)
    ensures var b := LinkAll(adj, embs, id, layer, selected);
            && HasLayer(b, id, layer) && id in b[id][layer]
            && (id !in selected ==> b[id] == adj[id])
  {
    hide SelectNeighbors;
    if selected != [] {
      var n := |selected| - 1;
      SelfStays(adj, embs, id, layer, selected[..n]);
      assert forall x :: x in selected <==> x in selected[..n] || x == selected[n];
      if selected[n] == id {
        assert id !in selected[..n];
        if |adj[id][layer]| == Cap(layer) {
          TwiceStays(embs[id], embs, adj[id][layer], id);
        }
      }
    }
  }

  // ---- linking a new node --------------------------------------------------

  /** At this layer the node has neighbours, and each of them points back or is full. */
  ghost predicate LayerLinked(adj: Adjacency, id: Id, layer: nat) {
    && HasLayer(adj, id, layer) && adj[id][layer] != []
    && forall y :: y in adj[id][layer] ==> Reciprocal(adj, id, layer, y)
  }

  /** What happens to the graph at one layer of an insert. */
  ghost predicate LayerStep(a: Adjacency, b: Adjacency, id: Id, layer: nat) {
    && SameShape(a, b) && OnlyLayer(a, b, layer)
    && forall x, y :: x in a && x != id && HasLayer(a, x, layer) && y in b[x][layer] ==> y in a[x][layer] || y == id
  }

  lemma LinkedElsewhere(a: Adjacency, b: Adjacency, id: Id, layer: nat, l: nat)
    requires LayerLinked(a, id, l) && LayerStep(a, b, id, layer) && l != layer
    ensures LayerLinked(b, id, l)
  {
  }

  /** Offer the node to everyone selected, one after the other. */
  method LinkSelected(start: Adjacency, embs: Embeddings, id: Id, layer: nat, selected: seq<Id>) returns (b: Adjacency)
    ensures b == LinkAll(start, embs, id, layer, selected)
  {
    hide SelectNeighbors;
    b := start;
    for i := 0 to |selected|
      invariant b == LinkAll(start, embs, id, layer, selected[..i])
    {
      assert selected[..i + 1][..i] == selected[..i];
      b := LinkOne(b, embs, id, layer, selected[i]);
    }
    assert selected[..|selected|] == selected;
  }

  /** The graph once the node's list at a layer is set and the node offered to everyone on it. */
  function Connected(adj: Adjacency, embs: Embeddings, id: Id, layer: nat, selected: seq<Id>): Adjacency
    requires HasLayer(adj, id, layer)
  {
    LinkAll(SetList(adj, id, layer, selected), embs, id, layer, selected)
  }

  /**
   The node's own list is the selection; should that name the node itself, then
   so does the list. Who is selected has kept the node, or has nearer ones only.
   */
  ghost predicate OwnList(adj: Adjacency, embs: Embeddings, id: Id, layer: nat, selected: seq<Id>) {
    && HasLayer(adj, id, layer)
    && (id in adj[id][layer] <==> id in selected)
    && (id !in selected ==> adj[id][layer] == selected)
    && (forall x :: x in adj[id][layer] ==> x == id || x in selected)
    && (forall x :: x in selected ==> KeptOrOutdone(adj, embs, id, layer, x))
  }

  /** Select neighbours among the candidates and connect the new node to them. */
  method ConnectLayer(adj: Adjacency, embs: Embeddings, id: Id, layer: nat, candidates: seq<Id>, ghost factor: nat)
    returns (b: Adjacency)
    requires factor >= 1 && Bounded(adj, factor) && HasLayer(adj, id, layer) && id in embs && Distinct(candidates)
    ensures b == Connected(adj, embs, id, layer, SelectNeighbors(embs[id], embs, candidates, Cap(layer)))
    ensures OwnList(b, embs, id, layer, SelectNeighbors(embs[id], embs, candidates, Cap(layer)))
    ensures LayerStep(adj, b, id, layer) && Bounded(b, factor) && GivesUpWhenFull(adj, b, embs, layer, id)
    ensures CutsFarthest(adj, b, embs, layer, id)
    ensures (exists x :: x in candidates && x in embs) ==> LayerLinked(b, id, layer)
  {
    hide SelectNeighbors;
    hide LinkAll;
    var selected := SelectNeighbors(embs[id], embs, candidates, Cap(layer));
    SelectedDistinct(embs[id], embs, candidates, Cap(layer));
    var start := SetList(adj, id, layer, selected);
    StartKeeps(adj, id, layer, selected, factor);
    hide SetList;
    b := LinkSelected(start, embs, id, layer, selected);
    LinkAllKeeps(start, embs, id, layer, selected, factor);
    LinkAllCuts(start, embs, id, layer, selected);
    if id in selected {
      SelfStays(start, embs, id, layer, selected);
    }
    if exists x :: x in candidates && x in embs {
      LinkedAfterAll(start, b, embs, id, layer, selected);
    }
    StepAfterAll(adj, start, b, embs, id, layer);
  }

  lemma StartKeeps(adj: Adjacency, id: Id, layer: nat, selected: seq<Id>, factor: nat)
    requires factor >= 1 && Bounded(adj, factor) && HasLayer(adj, id, layer) && |selected| <= Cap(layer)
    ensures var s := SetList(adj, id, layer, selected);
            && Bounded(s, factor) && LayerStep(adj, s, id, layer) && HasLayer(s, id, layer) && s[id][layer] == selected
            && forall x :: x in adj && x != id ==> s[x] == adj[x]
  {
  }

  lemma StepAfterAll(adj: Adjacency, start: Adjacency, b: Adjacency, embs: Embeddings, id: Id, layer: nat)
    requires LayerStep(adj, start, id, layer) && forall x :: x in adj && x != id ==> start[x] == adj[x]
    requires GivesUpWhenFull(start, b, embs, layer, id) && CutsFarthest(start, b, embs, layer, id)
    requires SameShape(start, b) && OnlyLayer(start, b, layer) && GainsOnly(start, b, layer, id)
    ensures LayerStep(adj, b, id, layer) && GivesUpWhenFull(adj, b, embs, layer, id)
    ensures CutsFarthest(adj, b, embs, layer, id)
  {
    hide Outdone;
  }

  lemma LinkedAfterAll(a: Adjacency, b: Adjacency, embs: Embeddings, id: Id, layer: nat, selected: seq<Id>)
    requires HasLayer(a, id, layer) && a[id][layer] == selected != []
    requires SameShape(a, b) && GainsOnly(a, b, layer, id)
    requires forall nb :: nb in selected ==> Reciprocal(b, id, layer, nb)
    requires forall x :: x in a && x !in selected ==> b[x] == a[x]
    ensures LayerLinked(b, id, layer)
  {
  }

  lemma SelectedSome(q: Vec, embs: Embeddings, candidates: seq<Id>, m: nat)
    requires SomeEmbedded(candidates, embs) && m > 0
    ensures SelectNeighbors(q, embs, candidates, m) != []
  {
  }

  /** Selecting from distinct candidates gives distinct neighbours. */
  lemma SelectedDistinct(q: Vec, embs: Embeddings, candidates: seq<Id>, m: nat)
    requires Distinct(candidates)
    ensures Distinct(SelectNeighbors(q, embs, candidates, m))
  {
    HitsDistinct(q, embs, candidates);
    var hits := HitsFor(q, embs, candidates);
    SortRanks(hits);
    var sorted := Sort(hits);
    forall i, j | 0 <= i < j < |sorted| ensures sorted[i].id != sorted[j].id {
      assert sorted[i] in hits && sorted[j] in hits;
      assert Before(sorted[i], sorted[j]);
    }
  }

  lemma {:induction false} HitsDistinct(q: Vec, embs: Embeddings, ids: seq<Id>)
    requires Distinct(ids)
    ensures DistinctIds(HitsFor(q, embs, ids))
  {
    if ids != [] {
      var n := |ids| - 1;
      HitsDistinct(q, embs, ids[..n]);
      var r := HitsFor(q, embs, ids[..n]);
      forall i | 0 <= i < |r| ensures r[i].id != ids[n] {
        assert r[i] in r;
      }
    }
  }

  /** A beam from an entry point with an embedding never comes back empty. */
  lemma BeamFindsSomething(adj: Adjacency, q: Vec, embs: Embeddings, layer: nat, entries: seq<Id>, ef: nat,
                           ids: seq<Id>, e: Id)
    requires Beam(adj, q, embs, layer, entries, ef, ids) && ef > 0
    requires e in entries && e in embs
    ensures ids != [] && ids[0] in embs && Distinct(ids)
  {
    if |ids| < ef {
      ReachEntry(adj, embs, layer, entries, e);
    }
  }

  // ---- removing ------------------------------------------------------------

  function Unlinked(lists: seq<seq<Id>>, id: Id): (r: seq<seq<Id>>)
    ensures |r| == |lists|
  {
    seq(|lists|, l requires 0 <= l < |lists| => Without(lists[l], id))
  }

  lemma UnlinkedTwice(lists: seq<seq<Id>>, id: Id)
    ensures Unlinked(Unlinked(lists, id), id) == Unlinked(lists, id)
  {
  }

  /** `x` is on one of the lists. */
  predicate Named(lists: seq<seq<Id>>, x: Id) {
    exists l :: 0 <= l < |lists| && x in lists[l]
  }

  // ---- wiring --------------------------------------------------------------

  /** Every node and every edge of `a` is still in `b`, lists only grew at their ends. */
  ghost predicate Extends(a: Adjacency, b: Adjacency) {
    && (forall x :: x in a ==> x in b && |b[x]| == |a[x]|)
    && (forall x, l :: x in a && x in b && 0 <= l < |a[x]| && l < |b[x]| ==> a[x][l] <= b[x][l])
  }

  lemma ExtendsTrans(a: Adjacency, b: Adjacency, c: Adjacency)
    requires Extends(a, b) && Extends(b, c)
    ensures Extends(a, c)
  {
  }

  // ---- the graph -----------------------------------------------------------

  /** The entry point is a present node of the highest level, and absent only from an empty graph. */
  ghost predicate EntryOk(adj: Adjacency, entry: Option<EntryPoint>) {
    match entry
    case None => adj == map[]
    case Some(e) => e.id in adj && |adj[e.id]| == e.level + 1 && forall x :: x in adj ==> |adj[x]| <= e.level + 1
  }

  ghost predicate Layered(adj: Adjacency) {
    forall x :: x in adj ==> |adj[x]| >= 1
  }

  /** A node has been added; the others kept their layers, and gained no edge but edges to it. */
  ghost predicate Joined(a: Adjacency, b: Adjacency, id: Id, level: nat) {
    && b.Keys == a.Keys + {id} && |b[id]| == level + 1
    && (forall x :: x in a ==> |b[x]| == |a[x]|)
    && (forall x, l, y :: x in a && 0 <= l < |a[x]| && l < |b[x]| && y in b[x][l] ==> y in a[x][l] || y == id)
  }

  lemma JoinedStep(a: Adjacency, b: Adjacency, c: Adjacency, id: Id, level: nat, layer: nat)
    requires id !in a && Joined(a, b, id, level) && LayerStep(b, c, id, layer)
    ensures Joined(a, c, id, level)
  {
  }

  /** What is left of the graph when `id` goes: only the nodes it points to forget it. */
  function UnlinkFrom(rest: Adjacency, names: set<Id>, id: Id): Adjacency {
    map x | x in rest :: if x in names then Unlinked(rest[x], id) else rest[x]
  }

  function NamedIn(lists: seq<seq<Id>>): set<Id> {
    set l, x | 0 <= l < |lists| && x in lists[l] :: x
  }

  function RemovedFrom(adj: Adjacency, id: Id): Adjacency {
    if id in adj then UnlinkFrom(adj - {id}, NamedIn(adj[id]), id) else adj
  }

  lemma UnlinkOneMore(rest: Adjacency, names: set<Id>, id: Id, nb: Id)
    ensures var r := UnlinkFrom(rest, names, id);
            UnlinkFrom(rest, names + {nb}, id) == if nb in rest then r[nb := Unlinked(r[nb], id)] else r
  {
    if nb in rest {
      UnlinkedTwice(rest[nb], id);
    }
  }

  ghost predicate PointsTo(adj: Adjacency, x: Id, y: Id) {
    x in adj && Named(adj[x], y)
  }

  /** Removal leaves an edge to the removed node exactly where the edge had not been mutual. */
  lemma RemoveLeavesOneWayEdges(adj: Adjacency, id: Id, x: Id)
    requires id in adj
    ensures PointsTo(RemovedFrom(adj, id), x, id) <==> x != id && PointsTo(adj, x, id) && !PointsTo(adj, id, x)
  {
  }

  /** Everything else about the remaining lists is untouched. */
  lemma RemoveKeepsOtherEdges(adj: Adjacency, id: Id, x: Id, l: nat, y: Id)
    requires x in adj && x != id && l < |adj[x]| && y != id
    ensures x in RemovedFrom(adj, id) && |RemovedFrom(adj, id)[x]| == |adj[x]|
    ensures y in RemovedFrom(adj, id)[x][l] <==> y in adj[x][l]
    ensures |RemovedFrom(adj, id)[x][l]| <= |adj[x][l]|
  {
  }

  /** A plan's lists name distinct nodes, and were cut to the cap when it was computed. */
  ghost predicate PlanOk(perLayer: seq<seq<Id>>) {
    forall l :: 0 <= l < |perLayer| ==> |perLayer[l]| <= Cap(l) && Distinct(perLayer[l])
  }

  datatype InsertPlan = InsertPlan(id: Id, level: nat, perLayer: seq<seq<Id>>)

  function Blank(level: nat): seq<seq<Id>> {
    seq(level + 1, _ => [])
  }

  /** `x` is named at a layer below `layers`. */
  predicate NamedAt(p: InsertPlan, layers: nat, x: Id, l: nat) {
    l < layers && l < |p.perLayer| && x in p.perLayer[l]
  }

  /** Push the node onto a list that has room. */
  function PushId(list: seq<Id>, id: Id, l: nat): (r: seq<Id>)
    ensures list <= r && (|list| <= 3 * Cap(l) ==> |r| <= 3 * Cap(l))
    ensures id in r || |r| >= 3 * Cap(l)
  {
    if |list| < 3 * Cap(l) then list + [id] else list
  }

  /** A node's lists once the plan's layers below `layers` are wired: the new node is pushed wherever `x` is named. */
  function WiredLists(lists: seq<seq<Id>>, p: InsertPlan, layers: nat, x: Id): (r: seq<seq<Id>>)
    ensures |r| == |lists|
    ensures forall l :: 0 <= l < |r| ==>
            r[l] == if NamedAt(p, layers, x, l) then PushId(lists[l], p.id, l) else lists[l]
  {
    seq(|lists|, l requires 0 <= l < |lists| =>
      if NamedAt(p, layers, x, l) then PushId(lists[l], p.id, l) else lists[l])
  }

  /** The new node's lists before anything is pushed. */
  function OwnLists(p: InsertPlan, layers: nat): (r: seq<seq<Id>>)
    ensures |r| == p.level + 1
  {
    seq(p.level + 1, l requires 0 <= l <= p.level => if l < layers && l < |p.perLayer| then p.perLayer[l] else [])
  }

  function WiredUpTo(adj: Adjacency, p: InsertPlan, layers: nat): Adjacency {
    map x | x in adj.Keys + {p.id} :: WiredLists(if x == p.id then OwnLists(p, layers) else adj[x], p, layers, x)
  }

  /** The graph once a plan is wired in, list by list; the first node of a graph gets no edges. */
  function Wiring(adj: Adjacency, p: InsertPlan): Adjacency {
    if adj == map[] then map[p.id := Blank(p.level)] else WiredUpTo(adj, p, p.level + 1)
  }

  /** The node's back edge is there, or the neighbour's list has reached three times the cap. */
  ghost predicate Wired(adj: Adjacency, id: Id, layer: nat, nb: Id) {
    HasLayer(adj, nb, layer) ==> id in adj[nb][layer] || |adj[nb][layer]| >= 3 * Cap(layer)
  }

  /** The planned node has the planned edges, and its neighbours among `known` lead back unless their lists are full. */
  ghost predicate PlanWired(adj: Adjacency, p: InsertPlan, known: set<Id>) {
    && p.id in adj && |adj[p.id]| == p.level + 1
    && (forall l :: 0 <= l < |p.perLayer| && l <= p.level ==> p.perLayer[l] <= adj[p.id][l])
    && (forall l, nb :: 0 <= l < |p.perLayer| && l <= p.level && nb in p.perLayer[l] && nb in known ==>
         Wired(adj, p.id, l, nb))
  }

  lemma WiredListsKeep(lists: seq<seq<Id>>, p: InsertPlan, layers: nat, x: Id)
    requires forall l :: 0 <= l < |lists| ==> |lists[l]| <= 3 * Cap(l)
    ensures var r := WiredLists(lists, p, layers, x);
            && (forall l :: 0 <= l < |r| ==> |r[l]| <= 3 * Cap(l) && lists[l] <= r[l])
            && (forall l :: 0 <= l < |r| && NamedAt(p, layers, x, l) ==> p.id in r[l] || |r[l]| >= 3 * Cap(l))
  {
    hide PushId;
  }

  lemma OwnListsOk(p: InsertPlan, layers: nat)
    requires PlanOk(p.perLayer)
    ensures forall l :: 0 <= l <= p.level ==> |OwnLists(p, layers)[l]| <= 3 * Cap(l)
    ensures forall l :: 0 <= l < |p.perLayer| && l < layers && l <= p.level ==> OwnLists(p, layers)[l] == p.perLayer[l]
  {
  }

  /** What `WiredUpTo` does to one node. */
  lemma WiredNode(adj: Adjacency, p: InsertPlan, layers: nat, x: Id)
    requires p.id !in adj && Bounded(adj, 3) && PlanOk(p.perLayer) && (x in adj || x == p.id)
    ensures var b := WiredUpTo(adj, p, layers)[x];
            && |b| == (if x == p.id then p.level + 1 else |adj[x]|)
            && (forall l :: 0 <= l < |b| ==> |b[l]| <= 3 * Cap(l))
            && (x in adj ==> forall l :: 0 <= l < |b| ==> adj[x][l] <= b[l])
            && (x == p.id ==> forall l :: 0 <= l < |b| && l < layers && l < |p.perLayer| ==> p.perLayer[l] <= b[l])
            && (forall l :: 0 <= l < |b| && NamedAt(p, layers, x, l) ==> p.id in b[l] || |b[l]| >= 3 * Cap(l))
  {
    hide WiredLists;
    hide OwnLists;
    hide NamedAt;
    if x == p.id {
      OwnListsOk(p, layers);
      WiredListsKeep(OwnLists(p, layers), p, layers, x);
    } else {
      WiredListsKeep(adj[x], p, layers, x);
    }
  }

  /** Wiring drops nothing, keeps the bound, and gives the node its planned edges. */
  lemma WiringKeeps(adj: Adjacency, p: InsertPlan)
    requires p.id !in adj && Bounded(adj, 3) && PlanOk(p.perLayer)
    ensures var b := Wiring(adj, p);
            && Bounded(b, 3) && Extends(adj, b) && b.Keys == adj.Keys + {p.id} && |b[p.id]| == p.level + 1
            && (adj != map[] ==> PlanWired(b, p, b.Keys))
  {
    if adj != map[] {
      var n := p.level + 1;
      var b := WiredUpTo(adj, p, n);
      assert b.Keys == adj.Keys + {p.id};
      hide WiredUpTo;
      hide PlanWired;
      WiredNode(adj, p, n, p.id);
      forall x | x in b
        ensures forall l :: 0 <= l < |b[x]| ==> |b[x][l]| <= 3 * Cap(l)
        ensures x in adj ==> |b[x]| == |adj[x]| && forall l :: 0 <= l < |b[x]| ==> adj[x][l] <= b[x][l]
        ensures forall l :: 0 <= l < |b[x]| && NamedAt(p, n, x, l) ==> p.id in b[x][l] || |b[x][l]| >= 3 * Cap(l)
      {
        WiredNode(adj, p, n, x);
      }
      EdgesPlanned(b, p);
    }
  }

  /**
   Wiring, list by list: whoever is planned at a layer gains the node at the
   end of that list, if it has room; no other list of another node changes.
   The node's own lists are the plan's.
   */
  lemma WiringIsExact(adj: Adjacency, p: InsertPlan, x: Id, l: nat)
    requires p.id !in adj && adj != map[] && Bounded(adj, 3) && PlanOk(p.perLayer)
    requires x in adj && l < |adj[x]| && (l <= p.level && l < |p.perLayer| ==> p.id !in p.perLayer[l])
    ensures var b := Wiring(adj, p);
            && x in b && l < |b[x]|
            && (if l < |p.perLayer| && l <= p.level && x in p.perLayer[l] && |adj[x][l]| < 3 * Cap(l)
                then b[x][l] == adj[x][l] + [p.id] else b[x][l] == adj[x][l])
            && p.id in b && |b[p.id]| == p.level + 1
            && (l <= p.level ==> b[p.id][l] == if l < |p.perLayer| then p.perLayer[l] else [])
  {
  }

  lemma EdgesPlanned(b: Adjacency, p: InsertPlan)
    requires p.id in b && |b[p.id]| == p.level + 1
    requires forall l :: 0 <= l <= p.level && l < |p.perLayer| ==> p.perLayer[l] <= b[p.id][l]
    requires forall x, l :: x in b && 0 <= l < |b[x]| && NamedAt(p, p.level + 1, x, l) ==>
             p.id in b[x][l] || |b[x][l]| >= 3 * Cap(l)
    ensures PlanWired(b, p, b.Keys)
  {
    forall l, nb | 0 <= l < |p.perLayer| && l <= p.level && nb in p.perLayer[l] && nb in b.Keys
      ensures Wired(b, p.id, l, nb)
    {
      assert NamedAt(p, p.level + 1, nb, l);
    }
  }

  function PushList(lists: seq<seq<Id>>, id: Id, layer: nat): (r: seq<seq<Id>>)
    ensures |r| == |lists|
  {
    if layer < |lists| then lists[layer := PushId(lists[layer], id, layer)] else lists
  }

  /** Push the node onto one neighbour's list, if it has the layer and room. */
  function PushCapped(adj: Adjacency, id: Id, layer: nat, nb: Id): Adjacency {
    if nb in adj then adj[nb := PushList(adj[nb], id, layer)] else adj
  }

  function Pushed(adj: Adjacency, id: Id, layer: nat, nbs: seq<Id>): Adjacency {
    map x | x in adj :: if x in nbs then PushList(adj[x], id, layer) else adj[x]
  }

  lemma PushedOneMore(adj: Adjacency, id: Id, layer: nat, nbs: seq<Id>, nb: Id)
    requires nb !in nbs
    ensures Pushed(adj, id, layer, nbs + [nb]) == PushCapped(Pushed(adj, id, layer, nbs), id, layer, nb)
  {
  }

  lemma OtherListsWired(lists: seq<seq<Id>>, p: InsertPlan, layer: nat, x: Id)
    requires layer < |p.perLayer|
    ensures var w := WiredLists(lists, p, layer, x);
            WiredLists(lists, p, layer + 1, x) == if x in p.perLayer[layer] then PushList(w, p.id, layer) else w
  {
    hide WiredLists;
    hide PushId;
    assert forall l: nat :: NamedAt(p, layer + 1, x, l) <==>
           if l == layer then x in p.perLayer[l] else NamedAt(p, layer, x, l);
    hide NamedAt;
  }

  lemma OwnListsWired(p: InsertPlan, layer: nat)
    requires layer < |p.perLayer| && layer <= p.level
    ensures var w := WiredLists(OwnLists(p, layer), p, layer, p.id)[layer := p.perLayer[layer]];
            WiredLists(OwnLists(p, layer + 1), p, layer + 1, p.id) ==
              if p.id in p.perLayer[layer] then PushList(w, p.id, layer) else w
  {
    var x := p.id;
    hide WiredLists;
    hide PushId;
    assert forall l: nat :: NamedAt(p, layer + 1, x, l) <==>
           if l == layer then x in p.perLayer[l] else NamedAt(p, layer, x, l);
    assert forall l :: 0 <= l <= p.level && l != layer ==> OwnLists(p, layer + 1)[l] == OwnLists(p, layer)[l];
    assert OwnLists(p, layer + 1)[layer] == p.perLayer[layer];
    hide NamedAt;
    hide OwnLists;
  }

  lemma LayerWired(before: Adjacency, p: InsertPlan, layer: nat)
    requires p.id !in before && layer <= p.level && layer < |p.perLayer|
    ensures HasLayer(WiredUpTo(before, p, layer), p.id, layer)
    ensures var start := SetList(WiredUpTo(before, p, layer), p.id, layer, p.perLayer[layer]);
            Pushed(start, p.id, layer, p.perLayer[layer]) == WiredUpTo(before, p, layer + 1)
  {
    hide WiredLists;
    hide OwnLists;
    hide PushList;
    OwnListsWired(p, layer);
    forall x | x in before {
      OtherListsWired(before[x], p, layer, x);
    }
  }

  lemma NothingWired(before: Adjacency, p: InsertPlan)
    requires p.id !in before
    ensures WiredUpTo(before, p, 0) == before[p.id := Blank(p.level)]
  {
    assert OwnLists(p, 0) == Blank(p.level);
    assert forall lists, x :: WiredLists(lists, p, 0, x) == lists;
  }

  /** There is nothing to wire beyond the plan's own lists. */
  lemma NothingMoreWired(before: Adjacency, p: InsertPlan, layers: nat)
    requires |p.perLayer| <= layers <= p.level + 1
    ensures WiredUpTo(before, p, layers) == WiredUpTo(before, p, p.level + 1)
  {
    assert OwnLists(p, layers) == OwnLists(p, p.level + 1);
    assert forall lists, x :: WiredLists(lists, p, layers, x) == WiredLists(lists, p, p.level + 1, x);
  }

  lemma PushedNone(adj: Adjacency, id: Id, layer: nat)
    ensures Pushed(adj, id, layer, []) == adj
  {
  }

  /** Push the node onto every neighbour's list that has room. */
  method PushAll(start: Adjacency, id: Id, layer: nat, selected: seq<Id>) returns (b: Adjacency)
    requires Distinct(selected)
    ensures b == Pushed(start, id, layer, selected)
  {
    hide Pushed;
    hide PushList;
    b := start;
    PushedNone(start, id, layer);
    for i := 0 to |selected|
      invariant b == Pushed(start, id, layer, selected[..i])
    {
      assert selected[..i + 1] == selected[..i] + [selected[i]];
      PushedOneMore(start, id, layer, selected[..i], selected[i]);
      b := PushCapped(b, id, layer, selected[i]);
    }
    assert selected[..|selected|] == selected;
  }

  /** Layer by layer, set the node's own list, then push the node onto its neighbours' lists. */
  method WireLayers(adj: Adjacency, p: InsertPlan) returns (b: Adjacency)
    requires p.id !in adj && PlanOk(p.perLayer)
    ensures b == WiredUpTo(adj, p, p.level + 1)
  {
    hide WiredUpTo;
    hide Pushed;
    b := adj[p.id := Blank(p.level)];
    NothingWired(adj, p);
    var layers := if |p.perLayer| < p.level + 1 then |p.perLayer| else p.level + 1;
    for layer := 0 to layers
      invariant b == WiredUpTo(adj, p, layer)
    {
      LayerWired(adj, p, layer);
      b := PushAll(SetList(b, p.id, layer, p.perLayer[layer]), p.id, layer, p.perLayer[layer]);
    }
    if layers <= p.level {
      NothingMoreWired(adj, p, layers);
    }
  }

  /** The graph after a batch: plans for nodes deleted or inserted since are left out. */
  function BatchOf(adj: Adjacency, plans: seq<InsertPlan>, deleted: set<Id>): Adjacency {
    if plans == [] then adj
    else
      var n := |plans| - 1;
      var mid := BatchOf(adj, plans[..n], deleted);
      if plans[n].id in deleted || plans[n].id in mid then mid else Wiring(mid, plans[n])
  }

  ghost predicate PlansOk(plans: seq<InsertPlan>) {
    forall i :: 0 <= i < |plans| ==> PlanOk(plans[i].perLayer)
  }

  ghost function Planned(plans: seq<InsertPlan>, deleted: set<Id>): set<Id> {
    set p | p in plans && p.id !in deleted :: p.id
  }

  lemma {:induction false} BatchKeeps(adj: Adjacency, plans: seq<InsertPlan>, deleted: set<Id>)
    requires Bounded(adj, 3) && PlansOk(plans)
    ensures var b := BatchOf(adj, plans, deleted);
            Bounded(b, 3) && Extends(adj, b) && b.Keys == adj.Keys + Planned(plans, deleted)
  {
    hide Bounded;
    hide Extends;
    hide Wiring;
    hide PlanOk;
    hide PlanWired;
    if plans == [] {
      ExtendsSelf(adj);
    } else {
      var n := |plans| - 1;
      var mid := BatchOf(adj, plans[..n], deleted);
      BatchKeeps(adj, plans[..n], deleted);
      assert plans == plans[..n] + [plans[n]];
      if !(plans[n].id in deleted || plans[n].id in mid) {
        WiringKeeps(mid, plans[n]);
        ExtendsTrans(adj, mid, Wiring(mid, plans[n]));
      }
    }
  }

  lemma ExtendsSelf(adj: Adjacency)
    ensures Extends(adj, adj)
  {
  }

  /**
   Every plan that is not left out ends up with its planned edges, and with
   back edges from each neighbour that was present when it was wired in. Only
   the first node of an empty graph goes without.
   */
  lemma {:induction false} BatchWires(adj: Adjacency, plans: seq<InsertPlan>, deleted: set<Id>, i: nat)
    requires Bounded(adj, 3) && PlansOk(plans) && i < |plans|
    requires var mid := BatchOf(adj, plans[..i], deleted);
             mid != map[] && plans[i].id !in deleted && plans[i].id !in mid
    ensures PlanWired(BatchOf(adj, plans, deleted), plans[i], BatchOf(adj, plans[..i], deleted).Keys + {plans[i].id})
  {
    hide Planned;
    hide Bounded;
    hide Extends;
    hide Wiring;
    hide PlanOk;
    hide PlanWired;
    var n := |plans| - 1;
    var last := BatchOf(adj, plans[..n], deleted);
    BatchKeeps(adj, plans[..n], deleted);
    BatchKeeps(adj, plans[..i], deleted);
    PlannedGrows(plans, i, n, deleted);
    if i == n {
      WiringKeeps(last, plans[n]);
    } else {
      assert plans[..n][..i] == plans[..i] && plans[..n][i] == plans[i];
      BatchWires(adj, plans[..n], deleted, i);
      if !(plans[n].id in deleted || plans[n].id in last) {
        WiringKeeps(last, plans[n]);
        WiredStaysAmong(last, Wiring(last, plans[n]), plans[i], BatchOf(adj, plans[..i], deleted).Keys + {plans[i].id});
      }
    }
  }

  lemma PlannedGrows(plans: seq<InsertPlan>, i: nat, n: nat, deleted: set<Id>)
    requires i <= n <= |plans|
    ensures Planned(plans[..i], deleted) <= Planned(plans[..n], deleted)
    ensures i < n && plans[i].id !in deleted ==> plans[i].id in Planned(plans[..n], deleted)
  {
    forall p | p in plans[..i] ensures p in plans[..n] {
      var j :| 0 <= j < i && plans[j] == p;
      assert plans[..n][j] == p;
    }
    assert i < n ==> plans[..n][i] == plans[i];
  }

  lemma WiredStaysAmong(a: Adjacency, b: Adjacency, p: InsertPlan, known: set<Id>)
    requires PlanWired(a, p, known) && Extends(a, b) && known <= a.Keys
    ensures PlanWired(b, p, known)
  {
    forall l | 0 <= l < |p.perLayer| && l <= p.level ensures p.perLayer[l] <= b[p.id][l] {
      assert a[p.id][l] <= b[p.id][l];
    }
  }

  /** A node with empty lists joins the graph. */
  lemma FreshNodeKeeps(a: Adjacency, b: Adjacency, id: Id, level: nat, factor: nat)
    requires id !in a && b.Keys == a.Keys + {id} && (forall x :: x in a ==> b[x] == a[x])
    requires |b[id]| == level + 1 && (forall l :: 0 <= l <= level ==> b[id][l] == [])
    requires Bounded(a, factor)
    ensures Joined(a, b, id, level) && Bounded(b, factor) && Extends(a, b)
  {
  }

  ghost predicate SomeEmbedded(ids: seq<Id>, embs: Embeddings) {
    exists x :: x in ids && x in embs
  }

  lemma BeamStaysEmbedded(adj: Adjacency, q: Vec, embs: Embeddings, layer: nat, entries: seq<Id>, ef: nat, ids: seq<Id>)
    requires Beam(adj, q, embs, layer, entries, ef, ids) && ef > 0
    ensures Distinct(ids) && (SomeEmbedded(entries, embs) ==> SomeEmbedded(ids, embs))
  {
    if SomeEmbedded(entries, embs) {
      var e :| e in entries && e in embs;
      BeamFindsSomething(adj, q, embs, layer, entries, ef, ids, e);
      assert ids[0] in ids;
    }
  }

  // ---- the search path and the plan ----------------------------------------

  /** How wide the beam is at a layer: one while descending, then wide. */
  function Width(level: nat, l: nat): nat {
    if l > level then 1 else HNSW_EF_CONSTRUCTION
  }

  /** What the search for the node's place finds at a layer, starting from the entry point above the top. */
  ghost function BeamAt(adj: Adjacency, q: Vec, embs: Embeddings, e: EntryPoint, level: nat, l: nat): seq<Id>
    decreases e.level + 1 - l
  {
    if l > e.level then [e.id]
    else SearchIds(ListsAt(adj, l), q, BeamAt(adj, q, embs, e, level, l + 1), Width(level, l), embs)
  }

  /** It is a beam that starts from what was found one layer up. */
  ghost predicate PathStep(adj: Adjacency, q: Vec, embs: Embeddings, e: EntryPoint, level: nat, l: nat) {
    Beam(adj, q, embs, l, BeamAt(adj, q, embs, e, level, l + 1), Width(level, l), BeamAt(adj, q, embs, e, level, l))
  }

  function Low(level: nat, e: EntryPoint): nat {
    if level < e.level then level else e.level
  }

  /** A new node's neighbours, layer by layer: the nearest of what the search finds, none above the top. */
  ghost function PlanFor(adj: Adjacency, entry: Option<EntryPoint>, q: Vec, embs: Embeddings, level: nat)
    : (r: seq<seq<Id>>)
    ensures |r| == level + 1
  {
    seq(level + 1, l requires 0 <= l <= level =>
      if entry.Some? && l <= entry.value.level then
        SelectNeighbors(q, embs, BeamAt(adj, q, embs, entry.value, level, l), Cap(l))
      else [])
  }

  /** The node's layers from `l` up to the highest shared one connected, from the top down. */
  function LinkDown(start: Adjacency, embs: Embeddings, id: Id, plan: seq<seq<Id>>, n: nat, l: nat): Adjacency
    requires n <= |plan|
    decreases n - l
  {
    if l >= n then start
    else
      var above := LinkDown(start, embs, id, plan, n, l + 1);
      if HasLayer(above, id, l) then Connected(above, embs, id, l, plan[l]) else above
  }

  /** The graph after an insert. */
  ghost function Inserted(adj: Adjacency, entry: Option<EntryPoint>, embs: Embeddings, id: Id, level: nat): Adjacency
    requires id in embs
  {
    if entry.None? then adj[id := Blank(level)]
    else
      var n := Low(level, entry.value) + 1;
      LinkDown(adj[id := Blank(level)], embs, id, PlanFor(adj, entry, embs[id], embs, level), n, 0)
  }

  lemma FoundHere(adj: Adjacency, q: Vec, embs: Embeddings, e: EntryPoint, level: nat, l: nat, ids: seq<Id>)
    requires l <= e.level
    requires var eps := BeamAt(adj, q, embs, e, level, l + 1);
             && ids == SearchIds(ListsAt(adj, l), q, eps, Width(level, l), embs)
             && Beam(adj, q, embs, l, eps, Width(level, l), ids)
    ensures ids == BeamAt(adj, q, embs, e, level, l) && PathStep(adj, q, embs, e, level, l)
  {
    hide Beam;
    hide SearchIds;
    hide ListsAt;
  }

  lemma PlanAt(adj: Adjacency, e: EntryPoint, q: Vec, embs: Embeddings, level: nat)
    ensures var plan := PlanFor(adj, Some(e), q, embs, level);
            && (forall l :: 0 <= l <= Low(level, e) ==>
                  plan[l] == SelectNeighbors(q, embs, BeamAt(adj, q, embs, e, level, l), Cap(l)))
            && (forall l :: Low(level, e) < l <= level ==> plan[l] == [])
  {
  }

  /** Descend from the top layer to just above `level`, keeping one node. */
  method Descend(adj: Adjacency, q: Vec, e: EntryPoint, level: nat, embs: Embeddings) returns (eps: seq<Id>)
    ensures Distinct(eps) && (e.id in embs ==> SomeEmbedded(eps, embs))
    ensures eps == BeamAt(adj, q, embs, e, level, Low(level, e) + 1)
    ensures forall l :: level < l <= e.level ==> PathStep(adj, q, embs, e, level, l)
  {
    hide BestOfVisited;
    hide Explored;
    hide Beam;
    hide SearchIds;
    hide ListsAt;
    eps := [e.id];
    assert e.id in eps;
    hide SomeEmbedded;
    var layer := e.level;
    while layer > level
      invariant Distinct(eps) && (e.id in embs ==> SomeEmbedded(eps, embs))
      invariant layer <= e.level && (layer >= level || layer == e.level)
      invariant eps == BeamAt(adj, q, embs, e, level, layer + 1)
      invariant forall l :: layer < l <= e.level ==> PathStep(adj, q, embs, e, level, l)
    {
      var ids, visited, expanded := SearchLayer(adj, q, eps, 1, layer, embs);
      BeamStaysEmbedded(adj, q, embs, layer, eps, 1, ids);
      FoundHere(adj, q, embs, e, level, layer, ids);
      eps := ids;
      layer := layer - 1;
    }
  }

  /** The planning loop: descend, then take the nearest of the beam at each layer that is left. */
  method PlanLayers(adj: Adjacency, q: Vec, e: EntryPoint, level: nat, embs: Embeddings)
    returns (perLayer: seq<seq<Id>>)
    ensures perLayer == PlanFor(adj, Some(e), q, embs, level) && PlanOk(perLayer)
    ensures forall l :: 0 <= l <= e.level ==> PathStep(adj, q, embs, e, level, l)
    ensures e.id in embs ==> forall l :: 0 <= l <= level && l <= e.level ==> perLayer[l] != []
  {
    hide Beam;
    hide SelectNeighbors;
    hide SomeEmbedded;
    hide Explored;
    hide BestOfVisited;
    hide SearchIds;
    hide ListsAt;
    var eps := Descend(adj, q, e, level, embs);
    ghost var plan := PlanFor(adj, Some(e), q, embs, level);
    perLayer := Blank(level);
    var layer := Low(level, e) + 1;
    PlanAt(adj, e, q, embs, level);
    hide PlanFor;
    hide BeamAt;
    hide PathStep;
    while layer > 0
      invariant 0 <= layer <= Low(level, e) + 1
      invariant |perLayer| == level + 1 && Distinct(eps) && (e.id in embs ==> SomeEmbedded(eps, embs))
      invariant eps == BeamAt(adj, q, embs, e, level, layer)
      invariant forall l :: layer <= l <= e.level ==> PathStep(adj, q, embs, e, level, l)
      invariant forall l :: layer <= l <= level ==> perLayer[l] == plan[l]
      invariant PlanOk(perLayer)
      invariant e.id in embs ==> forall l :: layer <= l <= Low(level, e) ==> perLayer[l] != []
    {
      layer := layer - 1;
      var candidates, visited, expanded := SearchLayer(adj, q, eps, HNSW_EF_CONSTRUCTION, layer, embs);
      BeamStaysEmbedded(adj, q, embs, layer, eps, HNSW_EF_CONSTRUCTION, candidates);
      SelectedDistinct(q, embs, candidates, Cap(layer));
      if e.id in embs {
        SelectedSome(q, embs, candidates, Cap(layer));
      }
      FoundHere(adj, q, embs, e, level, layer, candidates);
      perLayer := perLayer[layer := SelectNeighbors(q, embs, candidates, Cap(layer))];
      eps := candidates;
    }
  }

  // ---- linking the layers --------------------------------------------------

  /** The lists below `layer` are as they were. */
  ghost predicate SameBelow(a: Adjacency, b: Adjacency, layer: nat) {
    && SameShape(a, b)
    && forall x, l :: x in a && x in b && 0 <= l < |a[x]| && l < |b[x]| && l < layer ==> b[x][l] == a[x][l]
  }

  /** A search one layer down cannot tell the graph under way from the graph before the insert. */
  lemma SearchSeesOldGraph(before: Adjacency, start: Adjacency, adj: Adjacency, id: Id, level: nat, layer: nat)
    requires id !in before && start == before[id := Blank(level)] && SameBelow(start, adj, layer + 1)
    ensures ListsAt(adj, layer) == ListsAt(before, layer)
  {
  }

  lemma SameBelowStep(a: Adjacency, b: Adjacency, c: Adjacency, id: Id, layer: nat)
    requires SameBelow(a, b, layer + 1) && LayerStep(b, c, id, layer)
    ensures SameBelow(a, c, layer)
  {
  }

  /** What one insert does, whichever layers are linked so far: what others gain and give up. */
  ghost predicate KeepsOthers(before: Adjacency, adj: Adjacency, embs: Embeddings, id: Id, level: nat) {
    && Joined(before, adj, id, level)
    && forall l: nat :: GivesUpWhenFull(before, adj, embs, l, id) && CutsFarthest(before, adj, embs, l, id)
  }

  lemma KeepsOthersStep(a: Adjacency, start: Adjacency, b: Adjacency, c: Adjacency, embs: Embeddings, id: Id,
                        level: nat, layer: nat)
    requires id !in a && start == a[id := Blank(level)] && KeepsOthers(a, b, embs, id, level)
             && SameBelow(start, b, layer + 1)
    requires LayerStep(b, c, id, layer) && GivesUpWhenFull(b, c, embs, layer, id)
    requires CutsFarthest(b, c, embs, layer, id)
    ensures KeepsOthers(a, c, embs, id, level)
  {
    hide Outdone;
    JoinedStep(a, b, c, id, level, layer);
    forall l: nat ensures GivesUpWhenFull(a, c, embs, l, id) && CutsFarthest(a, c, embs, l, id) {
      forall x | HasLayer(a, x, l) && HasLayer(c, x, l) && x != id
        ensures forall y :: y in a[x][l] && y in embs ==>
                  && (y in c[x][l] || |c[x][l]| == Cap(l))
                  && (y in c[x][l] || Outdone(c[x][l], embs, x, y))
        ensures x !in embs ==> a[x][l] <= c[x][l]
      {
        assert GivesUpWhenFull(a, b, embs, l, id) && CutsFarthest(a, b, embs, l, id);
        assert if l == layer then b[x][l] == start[x][l] else c[x][l] == b[x][l];
      }
    }
  }

  /** The node's own lists from `layer` up are the plan's; it has edges to itself exactly where the plan names it. */
  ghost predicate OwnPlanned(adj: Adjacency, embs: Embeddings, id: Id, plan: seq<seq<Id>>, layer: nat) {
    id in adj && |adj[id]| == |plan| && forall l :: layer <= l < |plan| ==> OwnList(adj, embs, id, l, plan[l])
  }

  lemma OwnPlannedStep(a: Adjacency, b: Adjacency, embs: Embeddings, id: Id, plan: seq<seq<Id>>, layer: nat)
    requires OwnPlanned(a, embs, id, plan, layer + 1) && LayerStep(a, b, id, layer) && layer < |plan|
    requires OwnList(b, embs, id, layer, plan[layer])
    ensures OwnPlanned(b, embs, id, plan, layer)
  {
  }

  /** The state of an insert whose layers from `layer` up are linked. */
  ghost predicate Linking(before: Adjacency, start: Adjacency, adj: Adjacency, embs: Embeddings, id: Id, level: nat,
                          e: EntryPoint, layer: nat, factor: nat)
    requires id in embs
  {
    var plan := PlanFor(before, Some(e), embs[id], embs, level);
    && layer <= Low(level, e) + 1
    && adj == LinkDown(start, embs, id, plan, Low(level, e) + 1, layer)
    && KeepsOthers(before, adj, embs, id, level) && Bounded(adj, factor)
    && SameBelow(start, adj, layer) && OwnPlanned(adj, embs, id, plan, layer)
    && (forall l :: layer <= l <= e.level ==> PathStep(before, embs[id], embs, e, level, l))
    && (e.id in embs ==> forall l :: layer <= l <= Low(level, e) ==> LayerLinked(adj, id, l))
  }

  lemma LinkingStep(before: Adjacency, start: Adjacency, adj: Adjacency, next: Adjacency, embs: Embeddings, id: Id,
                    level: nat, e: EntryPoint, layer: nat, factor: nat)
    requires id in embs && id !in before && start == before[id := Blank(level)]
    requires Linking(before, start, adj, embs, id, level, e, layer + 1, factor) && layer <= Low(level, e)
    requires PathStep(before, embs[id], embs, e, level, layer)
    requires var selected := PlanFor(before, Some(e), embs[id], embs, level)[layer];
             && HasLayer(adj, id, layer) && next == Connected(adj, embs, id, layer, selected)
             && OwnList(next, embs, id, layer, selected)
    requires LayerStep(adj, next, id, layer) && Bounded(next, factor) && GivesUpWhenFull(adj, next, embs, layer, id)
    requires CutsFarthest(adj, next, embs, layer, id)
    requires e.id in embs ==> LayerLinked(next, id, layer)
    ensures Linking(before, start, next, embs, id, level, e, layer, factor)
  {
    hide LayerLinked;
    hide LayerStep;
    hide Bounded;
    hide KeepsOthers;
    hide GivesUpWhenFull;
    hide CutsFarthest;
    hide Connected;
    hide OwnPlanned;
    hide OwnList;
    hide SameBelow;
    hide PathStep;
    hide PlanFor;
    hide Blank;
    var plan := PlanFor(before, Some(e), embs[id], embs, level);
    KeepsOthersStep(before, start, adj, next, embs, id, level, layer);
    SameBelowStep(start, adj, next, id, layer);
    OwnPlannedStep(adj, next, embs, id, plan, layer);
    if e.id in embs {
      forall l | layer < l <= Low(level, e) ensures LayerLinked(next, id, l) {
        LinkedElsewhere(adj, next, id, layer, l);
      }
    }
  }

  lemma LinkingStart(before: Adjacency, start: Adjacency, embs: Embeddings, id: Id, level: nat, e: EntryPoint,
                     factor: nat)
    requires id in embs && id !in before && start == before[id := Blank(level)]
    requires Bounded(start, factor) && KeepsOthers(before, start, embs, id, level)
    requires forall l :: level < l <= e.level ==> PathStep(before, embs[id], embs, e, level, l)
    ensures Linking(before, start, start, embs, id, level, e, Low(level, e) + 1, factor)
  {
    hide Bounded;
    hide KeepsOthers;
    hide PathStep;
    hide SelectNeighbors;
    hide BeamAt;
    StartOwnPlanned(start, embs, id, level, PlanFor(before, Some(e), embs[id], embs, level), Low(level, e) + 1);
  }

  /** What the search finds at this layer of the graph under way is what it would find in the old graph. */
  lemma FoundInOldGraph(before: Adjacency, start: Adjacency, adj: Adjacency, embs: Embeddings, id: Id, level: nat,
                        e: EntryPoint, layer: nat, ids: seq<Id>)
    requires id in embs && id !in before && start == before[id := Blank(level)] && SameBelow(start, adj, layer + 1)
    requires layer <= e.level
    requires var eps := BeamAt(before, embs[id], embs, e, level, layer + 1);
             && Beam(adj, embs[id], embs, layer, eps, Width(level, layer), ids)
             && ids == SearchIds(ListsAt(adj, layer), embs[id], eps, Width(level, layer), embs)
    ensures ids == BeamAt(before, embs[id], embs, e, level, layer) && PathStep(before, embs[id], embs, e, level, layer)
  {
    hide Beam;
    hide SearchIds;
    hide ListsAt;
    SearchSeesOldGraph(before, start, adj, id, level, layer);
    BeamOnOldGraph(before, adj, embs[id], embs, layer, BeamAt(before, embs[id], embs, e, level, layer + 1),
        Width(level, layer), ids);
  }

  /** Link the new node in at every layer it shares with the graph, from the top down. */
  method LinkLayers(ghost before: Adjacency, start: Adjacency, embs: Embeddings, id: Id, level: nat, e: EntryPoint,
                    entries: seq<Id>, ghost factor: nat)
    returns (adj: Adjacency)
    requires id in embs && id !in before && factor >= 1 && Distinct(entries)
    requires start == before[id := Blank(level)] && Bounded(start, factor)
             && KeepsOthers(before, start, embs, id, level)
    requires entries == BeamAt(before, embs[id], embs, e, level, Low(level, e) + 1)
    requires e.id in embs ==> SomeEmbedded(entries, embs)
    requires forall l :: level < l <= e.level ==> PathStep(before, embs[id], embs, e, level, l)
    ensures Linking(before, start, adj, embs, id, level, e, 0, factor)
  {
    hide BestOfVisited;
    hide Explored;
    hide LayerLinked;
    hide LayerStep;
    hide Bounded;
    hide KeepsOthers;
    hide Beam;
    hide SomeEmbedded;
    hide GivesUpWhenFull;
    hide CutsFarthest;
    hide SelectNeighbors;
    hide Connected;
    hide SearchIds;
    hide ListsAt;
    hide BeamAt;
    hide PathStep;
    hide Linking;
    hide HasLayer;
    hide Blank;
    var layer := Low(level, e) + 1;
    var eps := entries;
    adj := start;
    LinkingStart(before, start, embs, id, level, e, factor);
    while layer > 0
      invariant 0 <= layer <= Low(level, e) + 1
      invariant Linking(before, start, adj, embs, id, level, e, layer, factor)
      invariant Distinct(eps) && (e.id in embs ==> SomeEmbedded(eps, embs))
      invariant eps == BeamAt(before, embs[id], embs, e, level, layer)
    {
      layer := layer - 1;
      var candidates, visited, expanded := SearchLayer(adj, embs[id], eps, HNSW_EF_CONSTRUCTION, layer, embs);
      LinkingFacts(before, start, adj, embs, id, level, e, layer + 1, factor);
      FoundInOldGraph(before, start, adj, embs, id, level, e, layer, candidates);
      BeamStaysEmbedded(adj, embs[id], embs, layer, eps, HNSW_EF_CONSTRUCTION, candidates);
      if e.id in embs {
        LinkedSome(candidates, embs);
      }
      var next := ConnectLayer(adj, embs, id, layer, candidates, factor);
      LinkingStep(before, start, adj, next, embs, id, level, e, layer, factor);
      adj := next;
      eps := candidates;
    }
  }

  lemma LinkingFacts(before: Adjacency, start: Adjacency, adj: Adjacency, embs: Embeddings, id: Id, level: nat,
                     e: EntryPoint, layer: nat, factor: nat)
    requires id in embs && Linking(before, start, adj, embs, id, level, e, layer, factor)
    ensures SameBelow(start, adj, layer) && Bounded(adj, factor) && KeepsOthers(before, adj, embs, id, level)
    ensures forall l :: 0 <= l <= level ==> HasLayer(adj, id, l)
  {
    hide SameBelow;
    hide Bounded;
    hide GivesUpWhenFull;
    hide CutsFarthest;
  }

  /** Whoever is on the node's lists has kept the node, or has nearer ones only. */
  ghost predicate OffersKept(adj: Adjacency, embs: Embeddings, id: Id) {
    forall l: nat, x :: HasLayer(adj, id, l) && x in adj[id][l] ==> KeptOrOutdone(adj, embs, id, l, x)
  }

  lemma PlannedOffersKept(adj: Adjacency, embs: Embeddings, id: Id, plan: seq<seq<Id>>)
    requires OwnPlanned(adj, embs, id, plan, 0)
    ensures OffersKept(adj, embs, id)
  {
    hide Outdone;
    forall l: nat, x | HasLayer(adj, id, l) && x in adj[id][l] ensures KeptOrOutdone(adj, embs, id, l, x) {
      assert OwnList(adj, embs, id, l, plan[l]);
    }
  }

  lemma StartOwnPlanned(start: Adjacency, embs: Embeddings, id: Id, level: nat, plan: seq<seq<Id>>, layer: nat)
    requires id in start && start[id] == Blank(level) && |plan| == level + 1
    requires forall l :: layer <= l <= level ==> plan[l] == []
    ensures OwnPlanned(start, embs, id, plan, layer) && SameBelow(start, start, layer)
  {
  }

  lemma LinkedSome(candidates: seq<Id>, embs: Embeddings)
    requires SomeEmbedded(candidates, embs)
    ensures exists x :: x in candidates && x in embs
  {
  }

  /** Beams depend on the layer's lists only. */
  lemma BeamOnOldGraph(a: Adjacency, b: Adjacency, q: Vec, embs: Embeddings, layer: nat, entries: seq<Id>, ef: nat,
                       ids: seq<Id>)
    requires ListsAt(a, layer) == ListsAt(b, layer)
    ensures Beam(a, q, embs, layer, entries, ef, ids) <==> Beam(b, q, embs, layer, entries, ef, ids)
  {
    NeighborsAreListed(a, layer);
    NeighborsAreListed(b, layer);
    forall x ensures NeighborsAt(a, x, layer) == NeighborsAt(b, x, layer) {
      assert NeighborsAt(a, x, layer) == At(ListsAt(a, layer), x);
    }
    hide NeighborsAt;
    forall walk ensures IsWalk(a, embs, layer, entries, walk) <==> IsWalk(b, embs, layer, entries, walk) {
      assert forall i :: 0 < i < |walk| ==> (StepAt(a, layer, walk, i) <==> StepAt(b, layer, walk, i));
    }
    forall x ensures Reachable(a, embs, layer, entries, x) <==> Reachable(b, embs, layer, entries, x) {
    }
    hide Reachable;
  }

  /** No list of the graph names the id. */
  ghost predicate NobodyPointsTo(adj: Adjacency, id: Id) {
    forall x, l :: x in adj && 0 <= l < |adj[x]| ==> id !in adj[x][l]
  }

  /** Then a search that does not start from the id does not find it. */
  lemma UnnamedIsNotReached(adj: Adjacency, embs: Embeddings, layer: nat, entries: seq<Id>, id: Id)
    requires NobodyPointsTo(adj, id) && id !in entries
    ensures !Reachable(adj, embs, layer, entries, id)
  {
    forall walk | IsWalk(adj, embs, layer, entries, walk) ensures walk[|walk| - 1] != id {
      if |walk| > 1 {
        assert StepAt(adj, layer, walk, |walk| - 1);
      }
    }
  }

  lemma {:induction false} UnnamedIsNotFound(adj: Adjacency, q: Vec, embs: Embeddings, e: EntryPoint, level: nat,
                                             l: nat, id: Id)
    requires NobodyPointsTo(adj, id) && id != e.id
    requires forall k :: l <= k <= e.level ==> PathStep(adj, q, embs, e, level, k)
    ensures id !in BeamAt(adj, q, embs, e, level, l)
    decreases e.level + 1 - l
  {
    if l <= e.level {
      UnnamedIsNotFound(adj, q, embs, e, level, l + 1, id);
      UnnamedIsNotReached(adj, embs, l, BeamAt(adj, q, embs, e, level, l + 1), id);
      assert PathStep(adj, q, embs, e, level, l);
    }
  }

  /** An id that nobody points to gets exactly the lists planned for it. */
  lemma UnnamedIsNotPlanned(adj: Adjacency, q: Vec, embs: Embeddings, e: EntryPoint, level: nat, id: Id)
    requires NobodyPointsTo(adj, id) && id != e.id
    requires forall k :: 0 <= k <= e.level ==> PathStep(adj, q, embs, e, level, k)
    ensures forall l :: 0 <= l <= level ==> id !in PlanFor(adj, Some(e), q, embs, level)[l]
  {
    forall l | 0 <= l <= level ensures id !in PlanFor(adj, Some(e), q, embs, level)[l] {
      UnnamedIsNotFound(adj, q, embs, e, level, l, id);
    }
  }

  /** Take `id` off the lists of every node named. */
  method UnlinkNamed(rest: Adjacency, lists: seq<seq<Id>>, id: Id) returns (adj: Adjacency)
    ensures adj == UnlinkFrom(rest, NamedIn(lists), id)
  {
    hide Unlinked;
    ghost var names: set<Id> := {};
    adj := rest;
    for l := 0 to |lists|
      invariant adj == UnlinkFrom(rest, names, id) && names == NamedIn(lists[..l])
    {
      adj, names := UnlinkLayer(rest, adj, names, lists[l], id);
    }
    assert lists[..|lists|] == lists;
  }

  method UnlinkLayer(ghost rest: Adjacency, start: Adjacency, ghost before: set<Id>, list: seq<Id>, id: Id)
    returns (adj: Adjacency, ghost names: set<Id>)
    requires start == UnlinkFrom(rest, before, id)
    ensures names == before + set x | x in list
    ensures adj == UnlinkFrom(rest, names, id)
  {
    hide Unlinked;
    adj, names := start, before;
    for i := 0 to |list|
      invariant names == before + set x | x in list[..i]
      invariant adj == UnlinkFrom(rest, names, id)
    {
      var nb := list[i];
      assert list[..i + 1] == list[..i] + [nb];
      UnlinkOneMore(rest, names, id, nb);
      if nb in adj {
        adj := adj[nb := Unlinked(adj[nb], id)];
      }
      names := names + {nb};
    }
    assert list[..|list|] == list;
  }

  lemma RemoveKeepsShape(adj: Adjacency, id: Id, factor: nat)
    requires Bounded(adj, factor) && Layered(adj)
    ensures Bounded(RemovedFrom(adj, id), factor) && Layered(RemovedFrom(adj, id))
  {
  }

  /** Some remaining node of the highest level. */
  method PickEntry(adj: Adjacency) returns (entry: Option<EntryPoint>)
    requires Layered(adj)
    ensures EntryOk(adj, entry)
  {
    entry := None;
    var todo := adj.Keys;
    while todo != {}
      invariant todo <= adj.Keys && (entry.None? ==> todo == adj.Keys)
      invariant entry.Some? ==> entry.value.id in adj && |adj[entry.value.id]| == entry.value.level + 1
      invariant entry.Some? ==> forall x :: x in adj && x !in todo ==> |adj[x]| <= entry.value.level + 1
    {
      var x :| x in todo;
      todo := todo - {x};
      if entry.None? || |adj[x]| - 1 >= entry.value.level {
        entry := Some(EntryPoint(x, |adj[x]| - 1));
      }
    }
  }

  lemma AloneIsPlanned(adj: Adjacency, embs: Embeddings, id: Id, level: nat)
    requires id in embs
    ensures OwnPlanned(adj[id := Blank(level)], embs, id, PlanFor(adj, None, embs[id], embs, level), 0)
  {
  }

  /** With every shared layer linked, the insert is done. */
  lemma InsertDone(before: Adjacency, start: Adjacency, adj: Adjacency, embs: Embeddings, id: Id, level: nat,
                   e: EntryPoint, factor: nat)
    requires id in embs && id !in before && start == before[id := Blank(level)] && EntryOk(before, Some(e))
             && Layered(before)
    requires Linking(before, start, adj, embs, id, level, e, 0, factor)
    ensures adj == Inserted(before, Some(e), embs, id, level) && KeepsOthers(before, adj, embs, id, level)
            && Bounded(adj, factor)
    ensures OwnPlanned(adj, embs, id, PlanFor(before, Some(e), embs[id], embs, level), 0)
    ensures NobodyPointsTo(before, id) ==> adj[id] == PlanFor(before, Some(e), embs[id], embs, level)
    ensures forall l :: 0 <= l <= e.level ==> PathStep(before, embs[id], embs, e, level, l)
    ensures e.id in embs ==> forall l :: 0 <= l <= level && l <= e.level ==> LayerLinked(adj, id, l)
    ensures EntryOk(adj, if level > e.level then Some(EntryPoint(id, level)) else Some(e)) && Layered(adj)
  {
    hide LayerLinked;
    hide PathStep;
    hide LinkDown;
    hide BeamAt;
    hide Bounded;
    hide SameBelow;
    KeptEntry(before, adj, embs, id, level, e);
    hide KeepsOthers;
    if NobodyPointsTo(before, id) {
      UnnamedIsNotPlanned(before, embs[id], embs, e, level, id);
    }
    hide PlanFor;
  }

  lemma KeptEntry(a: Adjacency, b: Adjacency, embs: Embeddings, id: Id, level: nat, e: EntryPoint)
    requires id !in a && EntryOk(a, Some(e)) && Layered(a) && KeepsOthers(a, b, embs, id, level)
    ensures EntryOk(b, if level > e.level then Some(EntryPoint(id, level)) else Some(e)) && Layered(b)
  {
    JoinedEntry(a, b, id, level, e);
  }

  lemma FreshKeepsOthers(a: Adjacency, b: Adjacency, embs: Embeddings, id: Id, level: nat)
    requires id !in a && b == a[id := Blank(level)]
    ensures KeepsOthers(a, b, embs, id, level)
  {
  }

  lemma NothingPlanned(adj: Adjacency, q: Vec, embs: Embeddings, level: nat)
    ensures PlanFor(adj, None, q, embs, level) == Blank(level)
  {
  }

  lemma JoinedEntry(a: Adjacency, b: Adjacency, id: Id, level: nat, e: EntryPoint)
    requires id !in a && EntryOk(a, Some(e)) && Layered(a) && Joined(a, b, id, level)
    ensures EntryOk(b, if level > e.level then Some(EntryPoint(id, level)) else Some(e)) && Layered(b)
  {
  }

  lemma WiredEntry(a: Adjacency, b: Adjacency, p: InsertPlan, e: EntryPoint)
    requires p.id !in a && EntryOk(a, Some(e)) && Layered(a)
    requires Extends(a, b) && b.Keys == a.Keys + {p.id} && |b[p.id]| == p.level + 1
    ensures EntryOk(b, if p.level > e.level then Some(EntryPoint(p.id, p.level)) else Some(e)) && Layered(b)
  {
  }

  class HnswGraph {
    var neighbors: Adjacency
    var entryPoint: Option<EntryPoint>
    /** Whether a batch plan has ever been wired in. */
    ghost var wired: bool

    ghost predicate Valid()
      reads this
    {
      EntryOk(neighbors, entryPoint) && Layered(neighbors) && Bounded(neighbors, Factor())
    }

    ghost function Factor(): nat
      reads this
    {
      if wired then 3 else 1
    }

    constructor ()
      ensures Valid() && neighbors == map[] && !wired
    {
      neighbors, entryPoint, wired := map[], None, false;
    }

    /** Remove a node, unlink it from the nodes it points to, and pick a new entry point if need be. */
    method Remove(id: Id)
      requires Valid()
      modifies this
      ensures Valid() && wired == old(wired)
      ensures neighbors == RemovedFrom(old(neighbors), id)
      ensures old(entryPoint).Some? && old(entryPoint).value.id != id ==> entryPoint == old(entryPoint)
    {
      if id !in neighbors {
        return;
      }
      neighbors := UnlinkNamed(neighbors - {id}, neighbors[id], id);
      RemoveKeepsShape(old(neighbors), id, Factor());
      if entryPoint.Some? && entryPoint.value.id == id {
        entryPoint := PickEntry(neighbors);
      }
    }

    /**
     Insert by search: descend with a beam of one, then link the node in at
     each of its layers. The graph becomes exactly `Inserted`; at each shared
     layer the search ran as it would have on the graph before the insert, so
     an id that nobody points to gets the very lists `ComputeInsertPlan` returns.
     */
    method Insert(id: Id, embs: Embeddings, level: nat)
      requires Valid() && id !in neighbors && id in embs
      modifies this
      ensures Valid() && wired == old(wired)
      ensures neighbors == Inserted(old(neighbors), old(entryPoint), embs, id, level)
      ensures KeepsOthers(old(neighbors), neighbors, embs, id, level)
      ensures OwnPlanned(neighbors, embs, id, PlanFor(old(neighbors), old(entryPoint), embs[id], embs, level), 0)
      ensures OffersKept(neighbors, embs, id)
      ensures NobodyPointsTo(old(neighbors), id) ==>
                neighbors[id] == PlanFor(old(neighbors), old(entryPoint), embs[id], embs, level)
      ensures old(entryPoint).Some? ==>
                && (forall l :: 0 <= l <= old(entryPoint).value.level ==>
                      PathStep(old(neighbors), embs[id], embs, old(entryPoint).value, level, l))
                && (old(entryPoint).value.id in embs ==>
                      forall l :: 0 <= l <= level && l <= old(entryPoint).value.level ==> LayerLinked(neighbors, id, l))
    {
      hide LayerLinked;
      hide PathStep;
      hide PlanFor;
      hide LinkDown;
      hide OwnPlanned;
      hide OffersKept;
      hide OwnList;
      hide NobodyPointsTo;
      hide BeamAt;
      ghost var before := neighbors;
      ghost var start := before[id := Blank(level)];
      FreshNodeKeeps(before, start, id, level, Factor());
      FreshKeepsOthers(before, start, embs, id, level);
      if entryPoint.None? {
        NothingPlanned(before, embs[id], embs, level);
        neighbors := neighbors[id := Blank(level)];
        AloneIsPlanned(before, embs, id, level);
        PlannedOffersKept(neighbors, embs, id, PlanFor(before, None, embs[id], embs, level));
        entryPoint := Some(EntryPoint(id, level));
        return;
      }
      var e := entryPoint.value;
      var eps := Descend(neighbors, embs[id], e, level, embs);
      hide Bounded;
      hide KeepsOthers;
      hide Inserted;
      var adj := LinkLayers(before, neighbors[id := Blank(level)], embs, id, level, e, eps, Factor());
      InsertDone(before, start, adj, embs, id, level, e, Factor());
      PlannedOffersKept(adj, embs, id, PlanFor(before, Some(e), embs[id], embs, level));
      hide Linking;
      neighbors := adj;
      if level > e.level {
        entryPoint := Some(EntryPoint(id, level));
      }
    }

    /**
     Plan an insert against the graph as it is now, changing nothing: the
     nearest of the beam found at each layer, on the one search path from the
     entry point down.
     */
    method ComputeInsertPlan(id: Id, embs: Embeddings, level: nat) returns (perLayer: seq<seq<Id>>)
      requires Valid() && id in embs
      ensures perLayer == PlanFor(neighbors, entryPoint, embs[id], embs, level) && PlanOk(perLayer)
      ensures entryPoint.Some? ==>
                && (forall l :: 0 <= l <= entryPoint.value.level ==>
                      PathStep(neighbors, embs[id], embs, entryPoint.value, level, l))
                && (entryPoint.value.id in embs ==>
                      forall l :: 0 <= l <= level && l <= entryPoint.value.level ==> perLayer[l] != [])
    {
      if entryPoint.None? {
        NothingPlanned(neighbors, embs[id], embs, level);
        return Blank(level);
      }
      hide PathStep;
      hide PlanFor;
      perLayer := PlanLayers(neighbors, embs[id], entryPoint.value, level, embs);
    }

    /** Wire in a plan computed earlier, without searching and without cutting lists back. */
    method WirePrecomputed(p: InsertPlan)
      requires Valid() && p.id !in neighbors && PlanOk(p.perLayer)
      modifies this
      ensures Valid() && wired
      ensures neighbors == Wiring(old(neighbors), p) && Extends(old(neighbors), neighbors)
      ensures old(entryPoint).Some? ==> PlanWired(neighbors, p, neighbors.Keys)
    {
      ghost var before := neighbors;
      WiringKeeps(before, p);
      hide Bounded;
      hide Extends;
      hide PlanWired;
      hide WiredUpTo;
      wired := true;
      if entryPoint.None? {
        neighbors := neighbors[p.id := Blank(p.level)];
        entryPoint := Some(EntryPoint(p.id, p.level));
        return;
      }
      neighbors := WireLayers(neighbors, p);
      WiredEntry(before, neighbors, p, entryPoint.value);
      if p.level > entryPoint.value.level {
        entryPoint := Some(EntryPoint(p.id, p.level));
      }
    }

    /** Wire in a batch of plans, leaving out nodes deleted or inserted since. */
    method ApplyDeltaBatch(plans: seq<InsertPlan>, deleted: set<Id>)
      requires Valid() && PlansOk(plans)
      modifies this
      ensures Valid() && neighbors == BatchOf(old(neighbors), plans, deleted)
      ensures plans == [] ==> entryPoint == old(entryPoint) && wired == old(wired)
    {
      hide Bounded;
      hide EntryOk;
      hide Layered;
      hide Extends;
      hide Wiring;
      hide PlanWired;
      hide PlanOk;
      ghost var before := neighbors;
      for i := 0 to |plans|
        invariant Valid() && neighbors == BatchOf(before, plans[..i], deleted)
        invariant i == 0 ==> entryPoint == old(entryPoint) && wired == old(wired)
      {
        assert plans[..i + 1][..i] == plans[..i];
        if plans[i].id in deleted || plans[i].id in neighbors {
          continue;
        }
        WirePrecomputed(plans[i]);
      }
      assert plans[..|plans|] == plans;
    }
  }
}
