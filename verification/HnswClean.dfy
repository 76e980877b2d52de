/**
 Clean graphs: every edge leads to a present node, no list names a node twice,
 and no node lists itself. `HnswGraph` (src/hnsw.rs) does not keep its graph
 clean in general; for each operation, this is when it does, and a run in
 which it does not.
 */
module HnswClean {
  import opened Collections
  import opened Ranking
  import opened Vectors
  import opened BeamSearch
  import opened HnswGraphModel

  ghost predicate CleanList(nodes: set<Id>, x: Id, list: seq<Id>) {
    Distinct(list) && x !in list && forall y :: y in list ==> y in nodes
  }

  ghost predicate Clean(adj: Adjacency) {
    forall x, l :: x in adj && 0 <= l < |adj[x]| ==> CleanList(adj.Keys, x, adj[x][l])
  }

  // ---- wiring --------------------------------------------------------------

  ghost predicate NamesPresent(adj: Adjacency, p: InsertPlan) {
    forall l, nb :: 0 <= l < |p.perLayer| && l <= p.level && nb in p.perLayer[l] ==> nb in adj
  }

  lemma PushedListIsClean(adj: Adjacency, p: InsertPlan, x: Id, l: nat)
    requires Clean(adj) && p.id !in adj && x in adj && l < |adj[x]|
    ensures CleanList(adj.Keys + {p.id}, x, PushId(adj[x][l], p.id, l))
    ensures CleanList(adj.Keys + {p.id}, x, adj[x][l])
  {
    assert CleanList(adj.Keys, x, adj[x][l]);
    assert forall y :: y in adj[x][l] + [p.id] <==> y in adj[x][l] || y == p.id;
  }

  /** Wiring a plan into a clean graph keeps it clean exactly when every planned neighbour is still present. */
  lemma WiringKeepsCleanIff(adj: Adjacency, p: InsertPlan)
    requires Clean(adj) && adj != map[] && p.id !in adj && PlanOk(p.perLayer)
    ensures Clean(Wiring(adj, p)) <==> NamesPresent(adj, p)
  {
    var b := Wiring(adj, p);
    OwnListsOk(p, p.level + 1);
    hide PushId;
    forall x, l | x in adj && 0 <= l < |b[x]| ensures CleanList(b.Keys, x, b[x][l]) {
      PushedListIsClean(adj, p, x, l);
    }
    forall l | 0 <= l < |p.perLayer| && l <= p.level
      ensures p.perLayer[l] <= b[p.id][l]
      ensures p.id !in p.perLayer[l] ==> b[p.id][l] == p.perLayer[l]
    {
      PushKeepsFront(p.perLayer[l], p.id, l);
    }
    if NamesPresent(adj, p) {
      forall l | 0 <= l < |b[p.id]| ensures CleanList(b.Keys, p.id, b[p.id][l]) {
      }
    } else {
      var l, nb :| 0 <= l < |p.perLayer| && l <= p.level && nb in p.perLayer[l] && nb !in adj;
      assert nb in b[p.id][l];
      assert !CleanList(b.Keys, p.id, b[p.id][l]);
    }
  }

  lemma PushKeepsFront(list: seq<Id>, id: Id, l: nat)
    ensures list <= PushId(list, id, l)
  {
  }

  // ---- removing ------------------------------------------------------------

  ghost predicate Mutual(adj: Adjacency, id: Id) {
    forall x :: x != id && PointsTo(adj, x, id) ==> PointsTo(adj, id, x)
  }

  /** Removing a node keeps a clean graph clean exactly when every edge to the node is mutual. */
  lemma RemoveKeepsCleanIff(adj: Adjacency, id: Id)
    requires Clean(adj) && id in adj
    ensures Clean(RemovedFrom(adj, id)) <==> Mutual(adj, id)
  {
    var b := RemovedFrom(adj, id);
    if Mutual(adj, id) {
      forall x, l | x in b && 0 <= l < |b[x]| ensures CleanList(b.Keys, x, b[x][l]) {
        assert CleanList(adj.Keys, x, adj[x][l]);
        WithoutDistinct(adj[x][l], id);
        RemoveLeavesOneWayEdges(adj, id, x);
        assert id in b[x][l] ==> PointsTo(b, x, id);
      }
    } else {
      var x :| x != id && PointsTo(adj, x, id) && !PointsTo(adj, id, x);
      RemoveLeavesOneWayEdges(adj, id, x);
      var l :| 0 <= l < |b[x]| && id in b[x][l];
      assert !CleanList(b.Keys, x, b[x][l]);
    }
  }

  // ---- inserting -----------------------------------------------------------

  /** No list at the layer names the id, but those of the nodes in `done`. */
  ghost predicate UnnamedAt(adj: Adjacency, id: Id, layer: nat, done: set<Id>) {
    forall x :: HasLayer(adj, x, layer) && x !in done ==> id !in adj[x][layer]
  }

  lemma LinkOneKeepsClean(adj: Adjacency, embs: Embeddings, id: Id, layer: nat, nb: Id)
    requires Clean(adj) && id in adj && nb != id && (HasLayer(adj, nb, layer) ==> id !in adj[nb][layer])
    ensures var b := LinkOne(adj, embs, id, layer, nb);
            && Clean(b) && SameShape(adj, b) && OnlyLayer(adj, b, layer)
            && forall x :: x in adj && x != nb ==> b[x] == adj[x]
  {
    hide SelectNeighbors;
    if HasLayer(adj, nb, layer) {
      var list := adj[nb][layer] + [id];
      assert CleanList(adj.Keys, nb, adj[nb][layer]);
      assert forall y :: y in list <==> y in adj[nb][layer] || y == id;
      assert CleanList(adj.Keys, nb, list);
      if nb in embs {
        SelectedDistinct(embs[nb], embs, list, Cap(layer));
      }
    }
  }

  lemma {:induction false} LinkAllKeepsClean(adj: Adjacency, embs: Embeddings, id: Id, layer: nat, selected: seq<Id>)
    requires Clean(adj) && id in adj && id !in selected && Distinct(selected) && UnnamedAt(adj, id, layer, {})
    ensures var b := LinkAll(adj, embs, id, layer, selected);
            && Clean(b) && SameShape(adj, b) && OnlyLayer(adj, b, layer)
            && forall x :: x in adj && x !in selected ==> b[x] == adj[x]
  {
    hide LinkOne;
    hide Clean;
    if selected != [] {
      var n := |selected| - 1;
      assert forall x :: x in selected <==> x in selected[..n] || x == selected[n];
      assert selected[n] !in selected[..n];
      LinkAllKeepsClean(adj, embs, id, layer, selected[..n]);
      LinkOneKeepsClean(LinkAll(adj, embs, id, layer, selected[..n]), embs, id, layer, selected[n]);
    }
  }

  lemma ConnectedKeepsClean(adj: Adjacency, embs: Embeddings, id: Id, layer: nat, selected: seq<Id>)
    requires Clean(adj) && HasLayer(adj, id, layer) && adj[id][layer] == [] && UnnamedAt(adj, id, layer, {})
    requires CleanList(adj.Keys, id, selected)
    ensures var b := Connected(adj, embs, id, layer, selected);
            Clean(b) && SameShape(adj, b) && OnlyLayer(adj, b, layer)
  {
    var start := SetList(adj, id, layer, selected);
    assert Clean(start);
    hide Clean;
    LinkAllKeepsClean(start, embs, id, layer, selected);
  }

  /** Below `l` the insert has not changed anything yet. */
  ghost predicate Untouched(adj: Adjacency, id: Id, l: nat) {
    && (forall k :: 0 <= k < l ==> UnnamedAt(adj, id, k, {}))
    && (id in adj ==> forall k :: 0 <= k < l && k < |adj[id]| ==> adj[id][k] == [])
  }

  lemma {:induction false} LinkDownKeepsClean(start: Adjacency, embs: Embeddings, id: Id, plan: seq<seq<Id>>, n: nat,
                                              l: nat)
    requires n <= |plan| && l <= n && Clean(start) && id in start && Untouched(start, id, n)
    requires forall k :: 0 <= k < n ==> CleanList(start.Keys, id, plan[k])
    ensures var b := LinkDown(start, embs, id, plan, n, l);
            Clean(b) && b.Keys == start.Keys && Untouched(b, id, l)
    decreases n - l
  {
    hide Clean;
    hide Connected;
    hide CleanList;
    if l < n {
      LinkDownKeepsClean(start, embs, id, plan, n, l + 1);
      var above := LinkDown(start, embs, id, plan, n, l + 1);
      if HasLayer(above, id, l) {
        ConnectedKeepsClean(above, embs, id, l, plan[l]);
        UntouchedBelow(above, Connected(above, embs, id, l, plan[l]), id, l);
      }
    }
  }

  lemma UntouchedBelow(a: Adjacency, b: Adjacency, id: Id, l: nat)
    requires Untouched(a, id, l + 1) && SameShape(a, b) && OnlyLayer(a, b, l)
    ensures Untouched(b, id, l)
  {
    forall k | 0 <= k < l ensures UnnamedAt(b, id, k, {}) {
      assert UnnamedAt(a, id, k, {});
    }
  }

  /** In a clean graph a search from a present node finds present nodes only. */
  lemma ReachesWithin(adj: Adjacency, embs: Embeddings, layer: nat, entries: seq<Id>, nodes: set<Id>, x: Id)
    requires Reachable(adj, embs, layer, entries, x)
    requires forall y :: y in entries ==> y in nodes
    requires forall y, z :: y in nodes && z in NeighborsAt(adj, y, layer) ==> z in nodes
    ensures x in nodes
  {
    hide NeighborsAt;
    var walk :| IsWalk(adj, embs, layer, entries, walk) && walk[|walk| - 1] == x;
    ClosedHoldsWalk(adj, embs, layer, entries, nodes, walk);
  }

  lemma {:induction false} FindsPresent(adj: Adjacency, q: Vec, embs: Embeddings, e: EntryPoint, level: nat, l: nat)
    requires Clean(adj) && e.id in adj
    requires forall k :: l <= k <= e.level ==> PathStep(adj, q, embs, e, level, k)
    ensures forall x :: x in BeamAt(adj, q, embs, e, level, l) ==> x in adj
    ensures Distinct(BeamAt(adj, q, embs, e, level, l))
    decreases e.level + 1 - l
  {
    if l <= e.level {
      FindsPresent(adj, q, embs, e, level, l + 1);
      hide BeamAt;
      assert PathStep(adj, q, embs, e, level, l);
      hide Clean;
      hide Beam;
      var eps, ids := BeamAt(adj, q, embs, e, level, l + 1), BeamAt(adj, q, embs, e, level, l);
      FoundArePresent(adj, q, embs, l, eps, Width(level, l), ids);
    }
  }

  lemma FoundArePresent(adj: Adjacency, q: Vec, embs: Embeddings, layer: nat, entries: seq<Id>, ef: nat, ids: seq<Id>)
    requires Clean(adj) && Beam(adj, q, embs, layer, entries, ef, ids) && forall x :: x in entries ==> x in adj
    ensures Distinct(ids) && forall x :: x in ids ==> x in adj
  {
    ListsArePresent(adj, layer);
    hide Clean;
    hide Reachable;
    forall x | x in ids ensures x in adj {
      ReachesWithin(adj, embs, layer, entries, adj.Keys, x);
    }
  }

  lemma ListsArePresent(adj: Adjacency, layer: nat)
    requires Clean(adj)
    ensures forall y, z :: y in adj && z in NeighborsAt(adj, y, layer) ==> z in adj
  {
    forall y, z | y in adj && z in NeighborsAt(adj, y, layer) ensures z in adj {
      assert CleanList(adj.Keys, y, adj[y][layer]);
    }
  }

  lemma CleanNamesNobodyAbsent(adj: Adjacency, id: Id)
    requires Clean(adj) && id !in adj
    ensures NobodyPointsTo(adj, id)
  {
    forall x, l | x in adj && 0 <= l < |adj[x]| ensures id !in adj[x][l] {
      assert CleanList(adj.Keys, x, adj[x][l]);
    }
  }

  /** What is planned on a clean graph is clean. */
  lemma PlanIsClean(adj: Adjacency, entry: Option<EntryPoint>, embs: Embeddings, id: Id, level: nat)
    requires Clean(adj) && id in embs && id !in adj && EntryOk(adj, entry)
    requires entry.Some? ==> forall k :: 0 <= k <= entry.value.level ==>
             PathStep(adj, embs[id], embs, entry.value, level, k)
    ensures forall l :: 0 <= l <= level ==>
            CleanList(adj.Keys + {id}, id, PlanFor(adj, entry, embs[id], embs, level)[l])
  {
    hide SelectNeighbors;
    hide PathStep;
    CleanNamesNobodyAbsent(adj, id);
    forall l | 0 <= l <= level ensures CleanList(adj.Keys + {id}, id, PlanFor(adj, entry, embs[id], embs, level)[l]) {
      if entry.Some? && l <= entry.value.level {
        FindsPresent(adj, embs[id], embs, entry.value, level, l);
        SelectedDistinct(embs[id], embs, BeamAt(adj, embs[id], embs, entry.value, level, l), Cap(l));
      }
    }
  }

  /** Inserting into a clean graph keeps it clean. */
  lemma InsertedIsClean(adj: Adjacency, entry: Option<EntryPoint>, embs: Embeddings, id: Id, level: nat)
    requires Clean(adj) && id in embs && id !in adj && EntryOk(adj, entry)
    requires entry.Some? ==> forall k :: 0 <= k <= entry.value.level ==>
             PathStep(adj, embs[id], embs, entry.value, level, k)
    ensures Clean(Inserted(adj, entry, embs, id, level))
  {
    hide PathStep;
    PlanIsClean(adj, entry, embs, id, level);
    var n := if entry.Some? then Low(level, entry.value) + 1 else 0;
    StartIsClean(adj, id, level, n);
    if entry.Some? {
      hide PlanFor;
      hide Clean;
      LinkDownKeepsClean(adj[id := Blank(level)], embs, id, PlanFor(adj, entry, embs[id], embs, level), n, 0);
    }
  }

  lemma StartIsClean(adj: Adjacency, id: Id, level: nat, n: nat)
    requires Clean(adj) && id !in adj
    ensures Clean(adj[id := Blank(level)]) && Untouched(adj[id := Blank(level)], id, n)
  {
    var start := adj[id := Blank(level)];
    forall x, l | x in start && 0 <= l < |start[x]|
      ensures CleanList(start.Keys, x, start[x][l]) && id !in start[x][l]
    {
      if x != id {
        assert CleanList(adj.Keys, x, adj[x][l]);
      }
    }
  }

  // ---- a graph that does not stay clean ------------------------------------

  /** In a small graph of one layer, a plan names exactly what can be reached from the entry point. */
  lemma SmallPlan(adj: Adjacency, e: EntryPoint, q: Vec, embs: Embeddings, nodes: set<Id>)
    requires e.level == 0 && e.id in nodes && |nodes| < HNSW_M0
    requires forall y, z :: y in nodes && z in NeighborsAt(adj, y, 0) ==> z in nodes
    requires PathStep(adj, q, embs, e, 0, 0)
    ensures var plan := PlanFor(adj, Some(e), q, embs, 0);
            Distinct(plan[0]) && forall x :: x in plan[0] <==> Reachable(adj, embs, 0, [e.id], x)
    ensures forall x :: Reachable(adj, embs, 0, [e.id], x) ==> x in nodes
  {
    var ids := BeamAt(adj, q, embs, e, 0, 0);
    forall x | Reachable(adj, embs, 0, [e.id], x) ensures x in nodes {
      ReachesWithin(adj, embs, 0, [e.id], nodes, x);
    }
    hide Reachable;
    DistinctCount(ids, nodes);
    SelectedDistinct(q, embs, ids, HNSW_M0);
  }

  /** A node next to the entry point can be reached, and so can what is next to that node. */
  lemma ReachNear(adj: Adjacency, embs: Embeddings, e: Id, x: Id, y: Id)
    requires e in embs && x in embs && y in embs
    requires x == e || x in NeighborsAt(adj, e, 0)
    requires y == x || y in NeighborsAt(adj, x, 0)
    ensures Reachable(adj, embs, 0, [e], x) && Reachable(adj, embs, 0, [e], y)
  {
    ReachEntry(adj, embs, 0, [e], e);
    if x != e {
      ReachStep(adj, embs, 0, [e], e, x);
    }
    if y != x {
      ReachStep(adj, embs, 0, [e], x, y);
    }
  }

  lemma OnlyOne(list: seq<Id>, x: Id)
    requires Distinct(list) && forall y :: y in list <==> y == x
    ensures list == [x]
  {
    DistinctCount(list, {x});
    assert x in list;
  }

  /** Two nodes inserted one after the other point to each other. */
  lemma TwoNodes(adj: Adjacency)
    requires Clean(adj) && adj.Keys == {0, 2} && |adj[0]| == |adj[2]| == 1
    requires 0 in adj[2][0] && LayerLinked(adj, 2, 0)
    ensures adj == map[0 := [[2]], 2 := [[0]]]
  {
    assert CleanList(adj.Keys, 0, adj[0][0]) && CleanList(adj.Keys, 2, adj[2][0]);
    DistinctCount(adj[0][0], {2});
    assert Reciprocal(adj, 2, 0, 0);
    assert 2 in adj[0][0];
    OnlyOne(adj[0][0], 2);
    OnlyOne(adj[2][0], 0);
    assert adj[0] == [[2]] && adj[2] == [[0]];
  }

  lemma TwoNodesPlan(entry: Option<EntryPoint>, embs: Embeddings)
    requires {0, 1, 2} <= embs.Keys && EntryOk(map[0 := [[2]], 2 := [[0]]], entry)
    ensures entry.Some? && entry.value.id in {0, 2} && entry.value.level == 0
    ensures var two: Adjacency := map[0 := [[2]], 2 := [[0]]];
            PathStep(two, embs[1], embs, entry.value, 0, 0) ==>
              forall x :: x in PlanFor(two, entry, embs[1], embs, 0)[0] <==> x in {0, 2}
  {
    hide PathStep;
    hide PlanFor;
    hide Reachable;
    var two: Adjacency := map[0 := [[2]], 2 := [[0]]];
    assert 0 in two;
    var e := entry.value;
    if PathStep(two, embs[1], embs, e, 0, 0) {
      SmallPlan(two, e, embs[1], embs, {0, 2});
      ReachNear(two, embs, e.id, 0, 2);
      ReachNear(two, embs, e.id, 2, 0);
    }
  }

  lemma OneNodePlan(x: Id, entry: Option<EntryPoint>, q: Vec, embs: Embeddings)
    requires x in embs && EntryOk(map[x := [[]]], entry)
    ensures entry == Some(EntryPoint(x, 0))
    ensures var one: Adjacency := map[x := [[]]];
            && Clean(one) && NobodyPointsTo(one, 2)
            && (PathStep(one, q, embs, entry.value, 0, 0) ==> PlanFor(one, entry, q, embs, 0)[0] == [x])
  {
    hide PathStep;
    hide PlanFor;
    hide Reachable;
    var one: Adjacency := map[x := [[]]];
    assert x in one;
    if PathStep(one, q, embs, entry.value, 0, 0) {
      SmallPlan(one, entry.value, q, embs, {x});
      ReachNear(one, embs, x, x, x);
      OnlyOne(PlanFor(one, entry, q, embs, 0)[0], x);
    }
  }

  lemma OneNodeLeft()
    ensures RemovedFrom(map[0 := [[2]], 2 := [[0]]], 0) == map[2 := [[]]]
  {
    RemovedOnly2(map[0 := [[2]], 2 := [[0]]], 0);
    assert Unlinked([[0]], 0) == [[]] by {
      assert Without([0], 0) == [];
    }
  }

  /** Wired when 0 is gone, the plan that names 0 leaves an edge to it. */
  lemma StaleWired(p1: seq<seq<Id>>)
    requires |p1| == 1 && forall x :: x in p1[0] <==> x in {0, 2}
    ensures Wiring(map[2 := [[]]], InsertPlan(1, 0, p1)) == map[1 := p1, 2 := [[1]]]
  {
    var a: Adjacency := map[2 := [[]]];
    var one := InsertPlan(1, 0, p1);
    assert 2 in a && p1 == [p1[0]];
    OwnOnce(one);
    WiredOnce(p1, one, 1);
    WiredOnce([[]], one, 2);
    var b := WiredUpTo(a, one, 1);
    assert b.Keys == {1, 2};
    assert b[1] == p1;
    assert PushId([], 1, 0) == [1] && b[2] == [[1]];
  }

  lemma ZeroWired(p1: seq<seq<Id>>)
    requires |p1| == 1
    ensures Wiring(map[1 := p1, 2 := [[1]]], InsertPlan(0, 0, [[2]])) == map[0 := [[2]], 1 := p1, 2 := [[1, 0]]]
  {
    var a: Adjacency := map[1 := p1, 2 := [[1]]];
    var zero := InsertPlan(0, 0, [[2]]);
    assert 2 in a && p1 == [p1[0]];
    OwnOnce(zero);
    WiredOnce([[2]], zero, 0);
    WiredOnce(p1, zero, 1);
    WiredOnce([[1]], zero, 2);
    var b := WiredUpTo(a, zero, 1);
    assert b.Keys == {0, 1, 2};
    assert b[0] == [[2]];
    assert b[1] == p1;
    assert PushId([1], 0, 0) == [1, 0] && b[2] == [[1, 0]];
  }

  lemma ZeroRemoved(p1: seq<seq<Id>>)
    ensures RemovedFrom(map[0 := [[2]], 1 := p1, 2 := [[1, 0]]], 0) == map[1 := p1, 2 := [[1]]]
  {
    RemovedOnly2(map[0 := [[2]], 1 := p1, 2 := [[1, 0]]], 0);
    assert Unlinked([[1, 0]], 0) == [[1]] by {
      assert [1, 0][..1] == [1] && [1][..0] == [];
      assert Without([1, 0], 0) == Without([1], 0) == [1];
    }
  }

  lemma RemovedOnly2(adj: Adjacency, x: Id)
    requires x in adj && adj[x] == [[2]] && x != 2 && 2 in adj
    ensures RemovedFrom(adj, x) == (adj - {x})[2 := Unlinked(adj[2], x)]
  {
    assert 2 in adj[x][0];
    assert NamedIn(adj[x]) == {2};
  }

  lemma OwnOnce(p: InsertPlan)
    requires p.level == 0 && |p.perLayer| == 1
    ensures OwnLists(p, 1) == p.perLayer
  {
  }

  lemma WiredOnce(lists: seq<seq<Id>>, p: InsertPlan, x: Id)
    requires |lists| == |p.perLayer| == 1
    ensures WiredLists(lists, p, 1, x) == [if x in p.perLayer[0] then PushId(lists[0], p.id, 0) else lists[0]]
  {
  }

  /**
   A plan is computed while 0 is there and wired when 0 is gone; 0 comes back
   by a plan that does not name the node, and is removed again. Its removal
   cannot know of the edge.
   */
  method DanglingEdge(embs: Embeddings) returns (g: HnswGraph)
    requires {0, 1, 2} <= embs.Keys
    ensures fresh(g) && g.Valid()
    ensures 0 !in g.neighbors && PointsTo(g.neighbors, 1, 0) && Stale(g.neighbors)
  {
    hide PathStep;
    hide PlanFor;
    hide Bounded;
    hide Extends;
    hide PlanWired;
    hide EntryOk;
    hide Layered;
    hide PlanOk;
    hide Wiring;
    hide RemovedFrom;
    hide Distinct;
    g := TwoInserted(embs);
    TwoNodesPlan(g.entryPoint, embs);
    var p1 := g.ComputeInsertPlan(1, embs, 0);
    g.Remove(0);
    OneNodeLeft();
    OneNodePlan(2, g.entryPoint, embs[0], embs);
    var p0 := g.ComputeInsertPlan(0, embs, 0);
    assert p0 == [[2]];
    StaleWired(p1);
    ZeroWired(p1);
    ZeroRemoved(p1);
    g.WirePrecomputed(InsertPlan(1, 0, p1));
    g.WirePrecomputed(InsertPlan(0, 0, p0));
    g.Remove(0);
    assert 0 in p1[0] && p1 == g.neighbors[1];
  }

  /** Only 1 and 2 are left, and 1 points to 0. */
  ghost predicate Stale(adj: Adjacency) {
    adj.Keys == {1, 2} && |adj[1]| == 1 && adj[2] == [[1]] && forall x :: x in adj[1][0] <==> x in {0, 2}
  }

  lemma ZeroIsPlanned(adj: Adjacency, entry: Option<EntryPoint>, embs: Embeddings)
    requires {0, 1, 2} <= embs.Keys && EntryOk(adj, entry) && Stale(adj)
    ensures entry.Some? && entry.value.level == 0
    ensures PathStep(adj, embs[0], embs, entry.value, 0, 0) ==> 0 in PlanFor(adj, entry, embs[0], embs, 0)[0]
  {
    hide PathStep;
    hide PlanFor;
    hide Reachable;
    assert 1 in adj;
    var e := entry.value;
    if PathStep(adj, embs[0], embs, e, 0, 0) {
      SmallPlan(adj, e, embs[0], embs, {0, 1, 2});
      assert 1 in adj[2][0];
      ReachNear(adj, embs, e.id, 1, 0);
    }
  }

  /** Inserted again, 0 is found through the stale edge, and becomes its own neighbour. */
  method SelfEdge(embs: Embeddings) returns (g: HnswGraph)
    requires {0, 1, 2} <= embs.Keys
    ensures fresh(g) && g.Valid() && PointsTo(g.neighbors, 0, 0)
  {
    hide PathStep;
    hide PlanFor;
    hide Bounded;
    hide EntryOk;
    hide Layered;
    hide Inserted;
    hide KeepsOthers;
    hide LayerLinked;
    hide NobodyPointsTo;
    hide Stale;
    g := DanglingEdge(embs);
    ZeroIsPlanned(g.neighbors, g.entryPoint, embs);
    g.Insert(0, embs, 0);
  }

  method TwoInserted(embs: Embeddings) returns (g: HnswGraph)
    requires {0, 2} <= embs.Keys
    ensures fresh(g) && g.Valid() && g.neighbors == map[0 := [[2]], 2 := [[0]]]
  {
    hide PathStep;
    hide PlanFor;
    hide LayerLinked;
    hide Joined;
    hide GivesUpWhenFull;
    hide CutsFarthest;
    hide OwnPlanned;
    hide Bounded;
    hide NobodyPointsTo;
    g := new HnswGraph();
    FirstInserted(embs);
    hide Inserted;
    g.Insert(0, embs, 0);
    ghost var e := g.entryPoint.value;
    g.Insert(2, embs, 0);
    SecondInserted(g.neighbors, embs, e);
  }

  lemma FirstInserted(embs: Embeddings)
    requires 0 in embs
    ensures Inserted(map[], None, embs, 0, 0) == map[0 := [[]]]
  {
    assert Blank(0) == [[]];
  }

  lemma SecondInserted(adj: Adjacency, embs: Embeddings, e: EntryPoint)
    requires {0, 2} <= embs.Keys && EntryOk(map[0 := [[]]], Some(e))
    requires var one: Adjacency := map[0 := [[]]];
             && (forall l :: 0 <= l <= e.level ==> PathStep(one, embs[2], embs, e, 0, l))
             && adj == Inserted(one, Some(e), embs, 2, 0) && Joined(one, adj, 2, 0)
             && (NobodyPointsTo(one, 2) ==> adj[2] == PlanFor(one, Some(e), embs[2], embs, 0))
    requires LayerLinked(adj, 2, 0)
    ensures adj == map[0 := [[2]], 2 := [[0]]]
  {
    hide PlanFor;
    hide Inserted;
    hide PathStep;
    hide Clean;
    hide NobodyPointsTo;
    hide LayerLinked;
    var one: Adjacency := map[0 := [[]]];
    OneNodePlan(0, Some(e), embs[2], embs);
    InsertedIsClean(one, Some(e), embs, 2, 0);
    TwoNodes(adj);
  }
}
