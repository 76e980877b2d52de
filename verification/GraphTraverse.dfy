/**
 `graph_traverse` (src/graph.rs): breadth-first search over the triplet graph
 under a result budget and an edge budget. Whatever the budgets cut off, each
 hit must carry its true hop count and a live path with that path's weight.
 */
module GraphTraverse {
  import opened Collections

  type Node = string
  type Id = nat

  datatype Direction = Outgoing | Incoming | Both

  datatype Triplet = Triplet(subject: Node, relation: string, obj: Node, weight: real, reverseWeight: real,
                             validTo: int)

  /** The store as traversal sees it, and the query's fixed part: edge labels, direction and the current time. */
  datatype Graph = Graph(
    entries: map<Id, Triplet>,
    bySubject: map<Node, seq<Id>>,
    byObject: map<Node, seq<Id>>,
    superseded: set<Id>,
    labels: seq<string>,
    direction: Direction,
    now: int)

  /** An index entry to inspect at a node, and which way it would be crossed. */
  datatype Probe = Probe(id: Id, forward: bool)

  function Tagged(ids: seq<Id>, forward: bool): (r: seq<Probe>)
    ensures |r| == |ids|
  {
    seq(|ids|, i requires 0 <= i < |ids| => Probe(ids[i], forward))
  }

  /** What is inspected at a node, in order: first its outgoing entries, then its incoming ones. */
  function Probes(g: Graph, u: Node): seq<Probe> {
    (if g.direction != Incoming && u in g.bySubject then Tagged(g.bySubject[u], true) else []) +
    (if g.direction != Outgoing && u in g.byObject then Tagged(g.byObject[u], false) else [])
  }

  predicate Live(g: Graph, id: Id) {
    && id in g.entries
    && !(g.entries[id].validTo != 0 && g.now >= g.entries[id].validTo)
    && id !in g.superseded
    && (g.labels == [] || g.entries[id].relation in g.labels)
  }

  function Target(g: Graph, p: Probe): Node
    requires Live(g, p.id)
  {
    if p.forward then g.entries[p.id].obj else g.entries[p.id].subject
  }

  /** Crossing backwards uses the reverse weight, or the forward one where none is recorded. */
  function EdgeWeight(g: Graph, p: Probe): real
    requires Live(g, p.id)
  {
    var e := g.entries[p.id];
    if p.forward || e.reverseWeight < 0.0 then e.weight else e.reverseWeight
  }

  // ---- paths ---------------------------------------------------------------

  /** Where a sequence of probes leads, if every one of them can be taken. */
  function End(g: Graph, start: Node, path: seq<Probe>): Option<Node> {
    if path == [] then Some(start)
    else
      var n := |path| - 1;
      match End(g, start, path[..n])
      case None => None
      case Some(u) => if path[n] in Probes(g, u) && Live(g, path[n].id) then Some(Target(g, path[n])) else None
  }

  function PathWeight(g: Graph, path: seq<Probe>): real {
    if path == [] then 1.0
    else
      var n := |path| - 1;
      PathWeight(g, path[..n]) * (if Live(g, path[n].id) then EdgeWeight(g, path[n]) else 0.0)
  }

  datatype Hit = Hit(node: Node, hops: nat, weight: real, path: seq<Probe>)

  /** The hit's path is live, leads to its node, and has its length and weight. */
  ghost predicate HitOk(g: Graph, start: Node, h: Hit) {
    Leads(g, start, h.path, h.node) && |h.path| == h.hops && h.weight == PathWeight(g, h.path)
  }

  predicate Leads(g: Graph, start: Node, path: seq<Probe>, x: Node) {
    End(g, start, path) == Some(x)
  }

  ghost predicate NoShorter(g: Graph, start: Node, x: Node, d: nat) {
    forall p :: Leads(g, start, p, x) ==> d <= |p|
  }

  ghost predicate Within(g: Graph, start: Node, x: Node, k: nat) {
    exists p :: Leads(g, start, p, x) && |p| <= k
  }

  /** The entry can be taken from `u`. */
  predicate Takes(g: Graph, u: Node, p: Probe) {
    p in Probes(g, u) && Live(g, p.id)
  }

  /** Every live edge out of `u` leads into `seen`. */
  ghost predicate Expanded(g: Graph, u: Node, seen: set<Node>) {
    forall p :: Takes(g, u, p) ==> Target(g, p) in seen
  }

  lemma LastStep(g: Graph, start: Node, path: seq<Probe>)
    requires path != [] && End(g, start, path).Some?
    ensures var n := |path| - 1;
            && End(g, start, path[..n]).Some?
            && Takes(g, End(g, start, path[..n]).value, path[n])
            && End(g, start, path).value == Target(g, path[n])
  {
  }

  /** Triplet `id` may be crossed at the query's time, under its edge labels. */
  ghost predicate Crossable(g: Graph, id: Id) {
    && id in g.entries && id !in g.superseded
    && (g.entries[id].validTo == 0 || g.now < g.entries[id].validTo)
    && (g.labels == [] || exists l :: l in g.labels && l == g.entries[id].relation)
  }

  /** The probe crosses from `u` to `x`: subject to object as indexed by subject, or back as indexed by object. */
  ghost predicate Crosses(g: Graph, u: Node, p: Probe, x: Node) {
    && Crossable(g, p.id)
    && if p.forward
       then g.direction in {Outgoing, Both} && u in g.bySubject && p.id in g.bySubject[u] && x == g.entries[p.id].obj
       else g.direction in {Incoming, Both} && u in g.byObject && p.id in g.byObject[u] && x == g.entries[p.id].subject
  }

  /** The nodes met along the path, one more than it has probes. */
  ghost predicate IsTrail(g: Graph, start: Node, path: seq<Probe>, nodes: seq<Node>) {
    && |nodes| == |path| + 1 && nodes[0] == start
    && forall i :: 0 <= i < |path| ==> Crosses(g, nodes[i], path[i], nodes[i + 1])
  }

  lemma CrossesIff(g: Graph, u: Node, p: Probe, x: Node)
    ensures Crosses(g, u, p, x) <==> Takes(g, u, p) && Target(g, p) == x
  {
    if g.direction != Incoming && u in g.bySubject {
      TaggedHolds(g.bySubject[u], true, p);
    }
    if g.direction != Outgoing && u in g.byObject {
      TaggedHolds(g.byObject[u], false, p);
    }
  }

  lemma TaggedHolds(ids: seq<Id>, forward: bool, p: Probe)
    ensures p in Tagged(ids, forward) <==> p.forward == forward && p.id in ids
  {
    if p.forward == forward && p.id in ids {
      var i :| 0 <= i < |ids| && ids[i] == p.id;
      assert Tagged(ids, forward)[i] == p;
    }
  }

  /** A path leads to a node exactly if its triplets, all of them crossable, join up from the start to the node. */
  lemma {:induction false} LeadsIff(g: Graph, start: Node, path: seq<Probe>, x: Node)
    ensures Leads(g, start, path, x) <==> exists nodes :: IsTrail(g, start, path, nodes) && nodes[|path|] == x
  {
    hide Probes;
    if path == [] {
      assert IsTrail(g, start, [], [start]);
    } else {
      var n := |path| - 1;
      if Leads(g, start, path, x) {
        LastStep(g, start, path);
        var u := End(g, start, path[..n]).value;
        LeadsIff(g, start, path[..n], u);
        CrossesIff(g, u, path[n], x);
        hide Crosses;
        var nodes :| IsTrail(g, start, path[..n], nodes) && nodes[n] == u;
        assert IsTrail(g, start, path, nodes + [x]);
      }
      if nodes :| IsTrail(g, start, path, nodes) && nodes[|path|] == x {
        assert IsTrail(g, start, path[..n], nodes[..|path|]);
        LeadsIff(g, start, path[..n], nodes[n]);
        CrossesIff(g, nodes[n], path[n], x);
      }
    }
  }

  /** One more triplet multiplies its weight in: the reverse weight backwards, where one is recorded. */
  lemma WeightOneMore(g: Graph, path: seq<Probe>, p: Probe)
    requires Live(g, p.id)
    ensures var e, w := g.entries[p.id], PathWeight(g, path + [p]);
            && (p.forward ==> w == PathWeight(g, path) * e.weight)
            && (!p.forward && e.reverseWeight >= 0.0 ==> w == PathWeight(g, path) * e.reverseWeight)
            && (!p.forward && e.reverseWeight < 0.0 ==> w == PathWeight(g, path) * e.weight)
  {
    assert (path + [p])[..|path|] == path;
  }

  // ---- the search invariant ------------------------------------------------

  /**
   `dist` holds the hop count of every node met; `done` the nodes taken off the
   queue; `open` those not yet expanded.
   */
  datatype Search = Search(queue: seq<Hit>, dist: map<Node, nat>, done: set<Node>, results: seq<Hit>, level: nat)

  ghost predicate QueueOk(g: Graph, start: Node, s: Search) {
    && (forall i :: 0 <= i < |s.queue| ==> HitOk(g, start, s.queue[i]))
    && (forall i :: 0 <= i < |s.queue| ==> s.queue[i].node in s.dist && s.dist[s.queue[i].node] == s.queue[i].hops)
    && (forall i :: 0 <= i < |s.queue| ==> s.queue[i].node !in s.done)
    && (forall i :: 0 <= i < |s.queue| ==> s.level <= s.queue[i].hops <= s.level + 1)
    && (forall i, j :: 0 <= i < j < |s.queue| ==> s.queue[i].hops <= s.queue[j].hops)
    && (forall i, j :: 0 <= i < j < |s.queue| ==> s.queue[i].node != s.queue[j].node)
    && Waiting(s)
  }

  /** Every node met is done or waits in the queue. */
  ghost predicate Waiting(s: Search) {
    forall x :: x in s.dist ==> x in s.done || exists i :: 0 <= i < |s.queue| && s.queue[i].node == x
  }

  ghost predicate DistOk(g: Graph, start: Node, s: Search, maxHops: nat, open: set<Node>) {
    && s.done <= s.dist.Keys && s.level <= maxHops
    && (forall x :: x in s.dist ==> NoShorter(g, start, x, s.dist[x]) && s.dist[x] <= maxHops)
    && (forall u :: u in s.done ==> s.dist[u] <= s.level)
    && (forall u :: u in s.done && u !in open && s.dist[u] < maxHops ==> Expanded(g, u, s.dist.Keys))
    && (forall x :: Within(g, start, x, s.level) ==> x in s.dist)
    && start in s.dist && (forall x :: x in s.dist && s.dist[x] == 0 ==> x == start)
  }

  /** Hop counts do not fall along the list, and no node is listed twice. */
  ghost predicate InOrder(hits: seq<Hit>) {
    && (forall i, j :: 0 <= i < j < |hits| ==> hits[i].hops <= hits[j].hops)
    && (forall i, j :: 0 <= i < j < |hits| ==> hits[i].node != hits[j].node)
  }

  ghost predicate ResultsOk(g: Graph, start: Node, s: Search) {
    && (forall i :: 0 <= i < |s.results| ==> HitOk(g, start, s.results[i]) && s.results[i].hops > 0)
    && (forall i :: 0 <= i < |s.results| ==>
         s.results[i].node in s.done && s.results[i].node in s.dist && s.dist[s.results[i].node] == s.results[i].hops)
    && InOrder(s.results)
    && (forall u :: u in s.done && u in s.dist && s.dist[u] > 0 ==>
         exists i :: 0 <= i < |s.results| && s.results[i].node == u)
  }

  ghost predicate Inv(g: Graph, start: Node, s: Search, maxHops: nat, open: set<Node>) {
    QueueOk(g, start, s) && DistOk(g, start, s, maxHops, open) && ResultsOk(g, start, s)
  }

  /**
   When the queue's front moves to the next level, everything within that
   level has been met: its predecessor on a shortest path is off the queue and
   was expanded.
   */
  lemma LevelIsComplete(g: Graph, start: Node, s: Search, maxHops: nat, x: Node)
    requires QueueOk(g, start, s) && DistOk(g, start, s, maxHops, {})
    requires s.level < maxHops && forall i :: 0 <= i < |s.queue| ==> s.queue[i].hops == s.level + 1
    requires Within(g, start, x, s.level + 1)
    ensures x in s.dist
  {
    hide Probes;
    hide Live;
    hide End;
    hide HitOk;
    var p :| Leads(g, start, p, x) && |p| <= s.level + 1;
    if |p| <= s.level {
      assert Within(g, start, x, s.level);
    } else {
      var n := |p| - 1;
      LastStep(g, start, p);
      var u := End(g, start, p[..n]).value;
      assert Leads(g, start, p[..n], u) && |p[..n]| <= s.level;
      assert Within(g, start, u, s.level);
      assert NoShorter(g, start, u, s.dist[u]);
      assert u in s.done && Expanded(g, u, s.dist.Keys);
    }
  }

  /** Take the front item off the queue; it is a hit unless it is the start. */
  function Pop(s: Search): Search
    requires s.queue != []
  {
    var h := s.queue[0];
    Search(s.queue[1..], s.dist, s.done + {h.node}, if h.hops > 0 then s.results + [h] else s.results, h.hops)
  }

  lemma PopKeepsInv(g: Graph, start: Node, s: Search, maxHops: nat)
    requires Inv(g, start, s, maxHops, {}) && s.queue != []
    ensures Inv(g, start, Pop(s), maxHops, {s.queue[0].node})
  {
    hide QueueOk;
    hide DistOk;
    hide ResultsOk;
    PopKeepsQueue(g, start, s);
    PopKeepsDist(g, start, s, maxHops);
    PopKeepsResults(g, start, s, maxHops);
  }

  lemma PopKeepsDist(g: Graph, start: Node, s: Search, maxHops: nat)
    requires QueueOk(g, start, s) && DistOk(g, start, s, maxHops, {}) && s.queue != []
    ensures DistOk(g, start, Pop(s), maxHops, {s.queue[0].node})
  {
    hide HitOk;
    hide Within;
    hide NoShorter;
    hide Expanded;
    var h := s.queue[0];
    assert s.dist[h.node] == h.hops;
    if h.hops > s.level {
      forall x | Within(g, start, x, h.hops) ensures x in s.dist {
        LevelIsComplete(g, start, s, maxHops, x);
      }
    }
  }

  lemma PopKeepsQueue(g: Graph, start: Node, s: Search)
    requires QueueOk(g, start, s) && s.queue != []
    ensures QueueOk(g, start, Pop(s))
  {
  }

  lemma PopKeepsResults(g: Graph, start: Node, s: Search, maxHops: nat)
    requires QueueOk(g, start, s) && DistOk(g, start, s, maxHops, {}) && ResultsOk(g, start, s) && s.queue != []
    ensures ResultsOk(g, start, Pop(s))
  {
    hide HitOk;
    hide Within;
    hide NoShorter;
    hide Expanded;
    var h := s.queue[0];
    assert HitOk(g, start, h) && h.node in s.dist && s.dist[h.node] == h.hops && h.node !in s.done && s.level <= h.hops;
    hide QueueOk;
    forall i | 0 <= i < |s.results| ensures s.results[i].hops <= h.hops {
      assert s.dist[s.results[i].node] <= s.level;
    }
    hide DistOk;
    hide ResultsOk;
    ResultsGrow(g, start, s, h);
  }

  lemma ResultsGrow(g: Graph, start: Node, s: Search, h: Hit)
    requires ResultsOk(g, start, s) && s.queue != [] && s.queue[0] == h
    requires HitOk(g, start, h) && h.node in s.dist && s.dist[h.node] == h.hops && h.node !in s.done
    requires forall i :: 0 <= i < |s.results| ==> s.results[i].hops <= h.hops
    ensures ResultsOk(g, start, Pop(s))
  {
    hide HitOk;
    var t := Pop(s);
    var n := |s.results|;
    assert h.hops > 0 ==> t.results == s.results + [h];
    hide InOrder;
    forall u | u in t.done && u in t.dist && t.dist[u] > 0
      ensures exists i :: 0 <= i < |t.results| && t.results[i].node == u
    {
      if u == h.node {
        assert t.results[n].node == u;
      } else {
        var i :| 0 <= i < n && s.results[i].node == u;
        assert t.results[i].node == u;
      }
    }
  }

  /** The item that crossing a live probe from `from` adds. */
  function Extend(g: Graph, from: Hit, p: Probe): (h: Hit)
    requires Live(g, p.id)
    ensures h.node == Target(g, p) && h.hops == from.hops + 1
  {
    Hit(Target(g, p), from.hops + 1, from.weight * EdgeWeight(g, p), from.path + [p])
  }

  /** Meet a new node through a live probe of the node being expanded. */
  function Push(g: Graph, s: Search, from: Hit, p: Probe): Search
    requires Live(g, p.id)
  {
    var v := Target(g, p);
    s.(queue := s.queue + [Extend(g, from, p)],
       dist := s.dist[v := from.hops + 1])
  }

  lemma PushKeepsInv(g: Graph, start: Node, s: Search, maxHops: nat, from: Hit, p: Probe)
    requires Inv(g, start, s, maxHops, {from.node})
    requires HitOk(g, start, from) && from.hops == s.level < maxHops
    requires p in Probes(g, from.node) && Live(g, p.id) && Target(g, p) !in s.dist
    ensures Inv(g, start, Push(g, s, from, p), maxHops, {from.node})
  {
    hide QueueOk;
    hide ResultsOk;
    assert s.done <= s.dist.Keys;
    hide DistOk;
    PushKeepsQueue(g, start, s, from, p);
    PushKeepsDist(g, start, s, maxHops, from, p);
    PushKeepsResults(g, start, s, maxHops, from, p);
  }

  /** What is pushed for a live probe of `from` is again a true path. */
  lemma PushedHitOk(g: Graph, start: Node, from: Hit, p: Probe)
    requires HitOk(g, start, from) && p in Probes(g, from.node) && Live(g, p.id)
    ensures HitOk(g, start, Extend(g, from, p))
  {
  }

  lemma PushKeepsQueue(g: Graph, start: Node, s: Search, from: Hit, p: Probe)
    requires QueueOk(g, start, s) && s.done <= s.dist.Keys
    requires HitOk(g, start, from) && from.hops == s.level
    requires p in Probes(g, from.node) && Live(g, p.id) && Target(g, p) !in s.dist
    ensures QueueOk(g, start, Push(g, s, from, p))
  {
    hide Probes;
    hide Live;
    hide EdgeWeight;
    hide Target;
    hide HitOk;
    PushedHitOk(g, start, from, p);
    var v := Target(g, p);
    var t := Push(g, s, from, p);
    assert v !in s.done;
    forall x | x in t.dist ensures x in t.done || exists i :: 0 <= i < |t.queue| && t.queue[i].node == x {
      if x == v {
        assert t.queue[|s.queue|].node == x;
      } else if x !in t.done {
        var i :| 0 <= i < |s.queue| && s.queue[i].node == x;
        assert t.queue[i].node == x;
      }
    }
    assert t.queue[..|s.queue|] == s.queue;
    assert t.queue[|s.queue|] == Extend(g, from, p);
    QueueGrows(g, start, s, t);
  }

  lemma QueueGrows(g: Graph, start: Node, s: Search, t: Search)
    requires QueueOk(g, start, s) && |t.queue| == |s.queue| + 1 && t.queue[..|s.queue|] == s.queue
    requires t.done == s.done && t.level == s.level
    requires var it := t.queue[|s.queue|];
             HitOk(g, start, it) && it.hops == s.level + 1 && it.node !in s.dist && it.node !in s.done
             && t.dist == s.dist[it.node := it.hops]
    requires Waiting(t)
    ensures QueueOk(g, start, t)
  {
    hide Waiting;
    hide HitOk;
    var n := |s.queue|;
    forall i | 0 <= i < n
      ensures t.queue[i] == s.queue[i] && s.queue[i].node in s.dist && s.queue[i].hops <= s.level + 1
    {
      assert t.queue[..n][i] == s.queue[i];
    }
    forall i, j | 0 <= i < j <= n ensures t.queue[i].hops <= t.queue[j].hops && t.queue[i].node != t.queue[j].node {
      if j < n {
        assert s.queue[i].hops <= s.queue[j].hops;
      }
    }
  }

  lemma PushKeepsDist(g: Graph, start: Node, s: Search, maxHops: nat, from: Hit, p: Probe)
    requires DistOk(g, start, s, maxHops, {from.node}) && from.hops == s.level < maxHops
    requires Live(g, p.id) && Target(g, p) !in s.dist
    ensures DistOk(g, start, Push(g, s, from, p), maxHops, {from.node})
  {
    hide Probes;
    hide Live;
    hide EdgeWeight;
    hide End;
    var v := Target(g, p);
    assert !Within(g, start, v, s.level);
    assert NoShorter(g, start, v, s.level + 1);
    hide Within;
    hide NoShorter;
    var t := Push(g, s, from, p);
    forall u | u in t.done && u != from.node && t.dist[u] < maxHops ensures Expanded(g, u, t.dist.Keys) {
      assert Expanded(g, u, s.dist.Keys);
    }
  }

  lemma PushKeepsResults(g: Graph, start: Node, s: Search, maxHops: nat, from: Hit, p: Probe)
    requires DistOk(g, start, s, maxHops, {from.node}) && ResultsOk(g, start, s)
    requires Live(g, p.id) && Target(g, p) !in s.dist
    ensures ResultsOk(g, start, Push(g, s, from, p))
  {
    hide HitOk;
    hide Within;
    hide NoShorter;
    hide Expanded;
    hide Live;
    hide EdgeWeight;
    var t := Push(g, s, from, p);
    assert forall u :: u in s.done ==> u != Target(g, p);
    assert t.results == s.results && t.done == s.done;
  }

  lemma CloseKeepsInv(g: Graph, start: Node, s: Search, maxHops: nat, u: Node)
    requires Inv(g, start, s, maxHops, {u})
    requires u in s.dist && (s.dist[u] < maxHops ==> Expanded(g, u, s.dist.Keys))
    ensures Inv(g, start, s, maxHops, {})
  {
  }

  lemma StartInv(g: Graph, start: Node, maxHops: nat)
    ensures Inv(g, start, Search([Hit(start, 0, 1.0, [])], map[start := 0], {}, [], 0), maxHops, {})
  {
    var s := Search([Hit(start, 0, 1.0, [])], map[start := 0], {}, [], 0);
    assert s.queue[0].node == start;
    assert forall x :: Within(g, start, x, 0) ==> x == start;
  }

  /** With the queue empty, every node within the hop limit has been met and taken off. */
  lemma {:induction false} ExhaustedMeansComplete(g: Graph, start: Node, s: Search, maxHops: nat, p: seq<Probe>)
    requires Inv(g, start, s, maxHops, {}) && s.queue == []
    requires End(g, start, p).Some? && |p| <= maxHops
    ensures End(g, start, p).value in s.done
    decreases |p|
  {
    hide Probes;
    hide Live;
    hide HitOk;
    hide ResultsOk;
    if p != [] {
      var n := |p| - 1;
      LastStep(g, start, p);
      ExhaustedMeansComplete(g, start, s, maxHops, p[..n]);
      var u := End(g, start, p[..n]).value;
      assert NoShorter(g, start, u, s.dist[u]);
      assert Expanded(g, u, s.dist.Keys);
    }
  }

  // ---- the edge budget -----------------------------------------------------

  function Inspections(g: Graph, order: seq<Node>): nat {
    if order == [] then 0 else Inspections(g, order[..|order| - 1]) + |Probes(g, order[|order| - 1])|
  }

  /** Inspecting each node closer than the hop limit once stays within the edge budget. */
  ghost predicate EdgeBudgetSuffices(g: Graph, start: Node, maxHops: nat, maxEdges: nat) {
    forall order :: Distinct(order) && (forall i :: 0 <= i < |order| ==> CloserThan(g, start, order[i], maxHops)) ==>
      Inspections(g, order) <= maxEdges
  }

  ghost predicate CloserThan(g: Graph, start: Node, x: Node, k: nat) {
    exists p :: Leads(g, start, p, x) && |p| < k
  }

  // ---- the traversal -------------------------------------------------------

  /** What the returned hits promise, whatever the budgets. */
  ghost predicate TrueHits(g: Graph, start: Node, maxHops: nat, hits: seq<Hit>) {
    && (forall i :: 0 <= i < |hits| ==> HitOk(g, start, hits[i]) && 0 < hits[i].hops <= maxHops)
    && (forall i :: 0 <= i < |hits| ==> NoShorter(g, start, hits[i].node, hits[i].hops))
    && InOrder(hits)
  }

  /** Every node within the hop limit, other than the start, is among the hits. */
  ghost predicate Complete(g: Graph, start: Node, maxHops: nat, hits: seq<Hit>) {
    forall x :: Within(g, start, x, maxHops) && x != start ==> exists i :: 0 <= i < |hits| && hits[i].node == x
  }

  ghost function Universe(g: Graph, start: Node): set<Node> {
    {start} + (set id | id in g.entries :: g.entries[id].subject) + (set id | id in g.entries :: g.entries[id].obj)
  }

  lemma TargetInUniverse(g: Graph, start: Node, p: Probe)
    requires Live(g, p.id)
    ensures Target(g, p) in Universe(g, start)
  {
  }

  /** Inspect a node's entries in order until the edge budget runs out. */
  method Inspect(g: Graph, start: Node, maxHops: nat, maxEdges: nat, from: Hit,
                 queue: seq<Hit>, visited: set<Node>, edges: nat, ghost s: Search)
    returns (queue': seq<Hit>, visited': set<Node>, edges': nat, cut: bool, ghost t: Search)
    requires Inv(g, start, s, maxHops, {from.node}) && s.queue == queue && s.dist.Keys == visited
    requires HitOk(g, start, from) && from.hops == s.level < maxHops && from.node in s.done
    requires visited <= Universe(g, start)
    ensures Inv(g, start, t, maxHops, {from.node}) && t.queue == queue' && t.dist.Keys == visited'
    ensures t.done == s.done && t.results == s.results && t.level == s.level && visited' <= Universe(g, start)
    ensures if cut then maxEdges <= edges' < edges + |Probes(g, from.node)|
            else edges' == edges + |Probes(g, from.node)| && Expanded(g, from.node, visited')
  {
    hide Inv;
    hide HitOk;
    hide Probes;
    hide Universe;
    queue', visited', edges', cut, t := queue, visited, edges, false, s;
    var probes := Probes(g, from.node);
    for i := 0 to |probes|
      invariant Inv(g, start, t, maxHops, {from.node}) && t.queue == queue' && t.dist.Keys == visited'
      invariant t.done == s.done && t.results == s.results && t.level == s.level && visited' <= Universe(g, start)
      invariant edges' == edges + i
      invariant forall j :: 0 <= j < i && Live(g, probes[j].id) ==> Target(g, probes[j]) in visited'
    {
      if edges' >= maxEdges {
        cut := true;
        return;
      }
      edges' := edges' + 1;
      var p := probes[i];
      if Live(g, p.id) && Target(g, p) !in visited' {
        PushKeepsInv(g, start, t, maxHops, from, p);
        TargetInUniverse(g, start, p);
        t := Push(g, t, from, p);
        visited' := visited' + {Target(g, p)};
        queue' := queue' + [Extend(g, from, p)];
      }
    }
  }

  lemma {:induction false} NoProbesNoPaths(g: Graph, start: Node, p: seq<Probe>)
    requires Probes(g, start) == [] && End(g, start, p).Some?
    ensures p == []
  {
    if p != [] {
      LastStep(g, start, p);
      NoProbesNoPaths(g, start, p[..|p| - 1]);
    }
  }

  /** With no edge budget at all, a sufficient budget means there is nothing to find. */
  lemma NothingToInspect(g: Graph, start: Node, maxHops: nat)
    requires EdgeBudgetSuffices(g, start, maxHops, 0)
    ensures Complete(g, start, maxHops, [])
  {
    forall x | Within(g, start, x, maxHops) ensures x == start {
      var p :| Leads(g, start, p, x) && |p| <= maxHops;
      if maxHops > 0 {
        assert Leads(g, start, [], start);
        assert CloserThan(g, start, start, maxHops);
        assert Inspections(g, [start]) <= 0;
        assert [start][..0] == [];
        NoProbesNoPaths(g, start, p);
      }
    }
  }

  lemma InspectionsSnoc(g: Graph, order: seq<Node>, u: Node)
    ensures Inspections(g, order + [u]) == Inspections(g, order) + |Probes(g, u)|
  {
  }

  /** The nodes expanded so far: distinct, done, and closer than the hop limit. */
  ghost predicate OrderOk(g: Graph, start: Node, maxHops: nat, order: seq<Node>, done: set<Node>) {
    Distinct(order) && forall i :: 0 <= i < |order| ==> order[i] in done && CloserThan(g, start, order[i], maxHops)
  }

  lemma OrderGrows(g: Graph, start: Node, maxHops: nat, order: seq<Node>, done: set<Node>, h: Hit)
    requires OrderOk(g, start, maxHops, order, done) && h.node !in done
    requires HitOk(g, start, h) && h.hops < maxHops
    ensures OrderOk(g, start, maxHops, order + [h.node], done + {h.node})
  {
  }

  lemma CutMeansTooMany(g: Graph, start: Node, maxHops: nat, maxEdges: nat, order: seq<Node>, done: set<Node>)
    requires OrderOk(g, start, maxHops, order, done) && Inspections(g, order) > maxEdges
    ensures !EdgeBudgetSuffices(g, start, maxHops, maxEdges)
  {
  }

  lemma ResultsAreTrue(g: Graph, start: Node, s: Search, maxHops: nat, open: set<Node>)
    requires Inv(g, start, s, maxHops, open)
    ensures TrueHits(g, start, maxHops, s.results)
  {
  }

  lemma ExhaustedIsComplete(g: Graph, start: Node, s: Search, maxHops: nat)
    requires Inv(g, start, s, maxHops, {}) && s.queue == []
    ensures Complete(g, start, maxHops, s.results)
  {
    forall x | Within(g, start, x, maxHops) && x != start
      ensures exists i :: 0 <= i < |s.results| && s.results[i].node == x
    {
      var p :| Leads(g, start, p, x) && |p| <= maxHops;
      ExhaustedMeansComplete(g, start, s, maxHops, p);
      if s.dist[x] == 0 {
        ZeroIsStart(g, start, s, maxHops, x);
      }
    }
  }

  lemma ZeroIsStart(g: Graph, start: Node, s: Search, maxHops: nat, x: Node)
    requires Inv(g, start, s, maxHops, {}) && s.queue == [] && x in s.dist && s.dist[x] == 0
    ensures x == start
  {
  }

  lemma PopFacts(g: Graph, start: Node, s: Search, maxHops: nat)
    requires Inv(g, start, s, maxHops, {}) && s.queue != []
    ensures var h := s.queue[0];
            HitOk(g, start, h) && h.node in s.dist && h.node !in s.done && s.dist[h.node] == h.hops <= maxHops
  {
  }

  /**
   Breadth-first traversal. Hops are counted in a byte, so `maxHops` is at
   most 255. The hits are true whatever the budgets; if neither binds, they
   are all there is within `maxHops`.
   */
  method Traverse(g: Graph, start: Node, maxHops: nat, maxResults: nat, maxEdges: nat) returns (results: seq<Hit>)
    requires maxHops <= 255
    ensures TrueHits(g, start, maxHops, results) && |results| <= maxResults
    ensures |results| < maxResults && EdgeBudgetSuffices(g, start, maxHops, maxEdges) ==>
            Complete(g, start, maxHops, results)
  {
    hide Inv;
    hide HitOk;
    hide Probes;
    hide OrderOk;
    hide EdgeBudgetSuffices;
    hide Complete;
    hide TrueHits;
    hide Inspections;
    if maxResults == 0 || maxEdges == 0 {
      NothingFound(g, start, maxHops, maxEdges);
      return [];
    }
    results := [];
    var visited := {start};
    var queue := [Hit(start, 0, 1.0, [])];
    var edges := 0;
    ghost var s := Search(queue, map[start := 0], {}, [], 0);
    ghost var order: seq<Node> := [];
    StartInv(g, start, maxHops);
    StartOrder(g, start, maxHops);
    while queue != []
      invariant Inv(g, start, s, maxHops, {}) && s.queue == queue && s.results == results && s.dist.Keys == visited
      invariant visited <= Universe(g, start) && s.done <= Universe(g, start)
      invariant OrderOk(g, start, maxHops, order, s.done) && edges == Inspections(g, order)
      invariant |results| < maxResults
      decreases Universe(g, start) - s.done
    {
      var h := queue[0];
      queue := queue[1..];
      PopFacts(g, start, s, maxHops);
      PopKeepsInv(g, start, s, maxHops);
      ghost var done := s.done;
      s := Pop(s);
      if h.hops > 0 {
        results := results + [h];
        if |results| >= maxResults {
          ResultsAreTrue(g, start, s, maxHops, {h.node});
          return;
        }
      }
      if h.hops >= maxHops {
        CloseKeepsInv(g, start, s, maxHops, h.node);
        KeptOrder(g, start, maxHops, order, done, h.node);
      } else {
        OrderGrows(g, start, maxHops, order, done, h);
        InspectionsSnoc(g, order, h.node);
        order := order + [h.node];
        var cut;
        queue, visited, edges, cut, s := Inspect(g, start, maxHops, maxEdges, h, queue, visited, edges, s);
        if cut {
          CutMeansTooMany(g, start, maxHops, maxEdges, order, s.done);
          ResultsAreTrue(g, start, s, maxHops, {h.node});
          return;
        }
        DoneInDist(g, start, s, maxHops, h.node);
        CloseKeepsInv(g, start, s, maxHops, h.node);
      }
    }
    ResultsAreTrue(g, start, s, maxHops, {});
    ExhaustedIsComplete(g, start, s, maxHops);
  }

  lemma NothingFound(g: Graph, start: Node, maxHops: nat, maxEdges: nat)
    ensures TrueHits(g, start, maxHops, [])
    ensures maxEdges == 0 && EdgeBudgetSuffices(g, start, maxHops, maxEdges) ==> Complete(g, start, maxHops, [])
  {
    if maxEdges == 0 && EdgeBudgetSuffices(g, start, maxHops, maxEdges) {
      NothingToInspect(g, start, maxHops);
    }
  }

  lemma StartOrder(g: Graph, start: Node, maxHops: nat)
    ensures OrderOk(g, start, maxHops, [], {}) && Inspections(g, []) == 0
  {
  }

  lemma KeptOrder(g: Graph, start: Node, maxHops: nat, order: seq<Node>, done: set<Node>, u: Node)
    requires OrderOk(g, start, maxHops, order, done)
    ensures OrderOk(g, start, maxHops, order, done + {u})
  {
  }

  lemma DoneInDist(g: Graph, start: Node, s: Search, maxHops: nat, u: Node)
    requires Inv(g, start, s, maxHops, {u}) && u in s.done
    ensures u in s.dist
  {
  }
}
