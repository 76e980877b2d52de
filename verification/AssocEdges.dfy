/**
 Association edges between memories (src/field.rs `strengthen_assoc_edge_map`
 and the edge clean-up of `DeleteMemory`). The map keeps a list of outgoing
 edges per memory and updates it in place; what it must amount to is a weight
 per (source, destination, type) that history alone determines. Weights are
 reals: rounding is not modelled.
 */
module AssocEdgesModel {
  type Id = nat

  datatype EdgeType = DerivedFrom | SameSession | SameArtifact | CoRetrieved | Contradicts | Supports | SemanticNeighbor

  datatype Edge = Edge(dst: Id, edgeType: EdgeType, weight: real)

  datatype Key = Key(src: Id, dst: Id, edgeType: EdgeType)

  function Min(a: real, b: real): real {
    if a < b then a else b
  }

  function Clamp(x: real): real {
    if x < 0.0 then 0.0 else Min(x, 1.0)
  }

  // ---- weights as a table --------------------------------------------------

  type Table = map<Key, real>

  /** Add to an edge's weight, or create the edge. */
  function Bump(t: Table, k: Key, delta: real): Table {
    t[k := if k in t then Min(t[k] + delta, 1.0) else Clamp(delta)]
  }

  function Reverse(k: Key): Key {
    Key(k.dst, k.src, k.edgeType)
  }

  datatype Event = Strengthen(key: Key, delta: real) | Delete(id: Id)

  predicate Touches(k: Key, id: Id) {
    k.src == id || k.dst == id
  }

  function ApplyEvent(t: Table, e: Event): Table {
    match e
    case Strengthen(k, delta) => Bump(Bump(t, k, delta), Reverse(k), delta)
    case Delete(id) => map k | k in t && !Touches(k, id) :: t[k]
  }

  function TableOf(history: seq<Event>): Table {
    if history == [] then map[] else ApplyEvent(TableOf(history[..|history| - 1]), history[|history| - 1])
  }

  // ---- what history says ---------------------------------------------------

  /** What an event contributes to an edge; a memory's edge to itself is bumped from both ends. */
  function Contribution(e: Event, k: Key): real {
    if e.Strengthen? then (if e.key == k then e.delta else 0.0) + (if Reverse(e.key) == k then e.delta else 0.0)
    else 0.0
  }

  predicate Names(e: Event, k: Key) {
    e.Strengthen? && (e.key == k || Reverse(e.key) == k)
  }

  /** The sum of the deltas since either endpoint was last deleted. */
  function Total(history: seq<Event>, k: Key): real {
    if history == [] then 0.0
    else
      var e := history[|history| - 1];
      if e.Delete? && Touches(k, e.id) then 0.0 else Total(history[..|history| - 1], k) + Contribution(e, k)
  }

  /** The edge was strengthened since either endpoint was last deleted. */
  predicate Live(history: seq<Event>, k: Key) {
    exists i :: 0 <= i < |history| && Names(history[i], k) && Undeleted(history, k, i)
  }

  predicate Undeleted(history: seq<Event>, k: Key, i: nat) {
    forall j :: i < j < |history| && history[j].Delete? ==> !Touches(k, history[j].id)
  }

  predicate NonNegative(history: seq<Event>) {
    forall i :: 0 <= i < |history| && history[i].Strengthen? ==> history[i].delta >= 0.0
  }

  lemma LiveOneMore(history: seq<Event>, e: Event, k: Key)
    ensures Live(history + [e], k) <==> Names(e, k) || (Live(history, k) && !(e.Delete? && Touches(k, e.id)))
  {
    var h := history + [e];
    var n := |history|;
    assert h[n] == e;
    assert Names(e, k) ==> Undeleted(h, k, n);
    if Live(history, k) && !(e.Delete? && Touches(k, e.id)) {
      var i :| 0 <= i < |history| && Names(history[i], k) && Undeleted(history, k, i);
      assert h[i] == history[i];
      assert Undeleted(h, k, i);
    }
    if Live(h, k) && !Names(e, k) {
      var i :| 0 <= i < |h| && Names(h[i], k) && Undeleted(h, k, i);
      assert h[i] == history[i];
      forall j | i < j < |history| && history[j].Delete? ensures !Touches(k, history[j].id) {
        assert h[j] == history[j];
      }
      assert Undeleted(history, k, i);
    }
  }

  /**
   The event leaves weights capped sums: its delta is not negative, or lowers
   an edge whose sum has not passed one.
   */
  predicate KeepsCap(history: seq<Event>, e: Event) {
    e.Strengthen? && e.delta < 0.0 ==> Live(history, e.key) && Total(history, e.key) <= 1.0
  }

  predicate AllKeepCap(history: seq<Event>) {
    forall i :: 0 <= i < |history| ==> KeepsCap(history[..i], history[i])
  }

  /** Every edge weighs min(1, the sum of its deltas since the last deletion of either endpoint). */
  ghost predicate Capped(history: seq<Event>) {
    forall k :: k in TableOf(history) ==> TableOf(history)[k] == Min(1.0, Total(history, k))
  }

  lemma NonNegativeKeepsCap(history: seq<Event>)
    requires NonNegative(history)
    ensures AllKeepCap(history)
  {
  }

  /** An edge exists exactly if it was strengthened since the last deletion of either endpoint. */
  lemma {:induction false} EdgesAreLive(history: seq<Event>, k: Key)
    ensures k in TableOf(history) <==> Live(history, k)
    ensures !Live(history, k) ==> Total(history, k) == 0.0
  {
    hide Live;
    if history == [] {
      DeadBeforeAnything(k);
    } else {
      var n := |history| - 1;
      EdgesAreLive(history[..n], k);
      assert history == history[..n] + [history[n]];
      LiveOneMore(history[..n], history[n], k);
    }
  }

  lemma DeadBeforeAnything(k: Key)
    ensures !Live([], k)
  {
  }

  lemma TableOneMore(history: seq<Event>, e: Event, k: Key)
    ensures TableOf(history + [e]) == ApplyEvent(TableOf(history), e)
    ensures Total(history + [e], k) ==
              if e.Delete? && Touches(k, e.id) then 0.0 else Total(history, k) + Contribution(e, k)
  {
    var h := history + [e];
    assert h[..|h| - 1] == history;
  }

  /**
   The exact condition for one more event, whatever it is: the weights stay
   capped sums if and only if the event keeps the cap. An edge from a memory
   to itself is bumped twice, and the condition is the same.
   */
  lemma CappedOneMoreIff(history: seq<Event>, e: Event)
    requires Capped(history)
    ensures Capped(history + [e]) <==> KeepsCap(history, e)
  {
    hide Live;
    hide TableOf;
    hide Total;
    var t := TableOf(history);
    forall k ensures (k in t <==> Live(history, k)) && (k !in t ==> Total(history, k) == 0.0) {
      EdgesAreLive(history, k);
    }
    var t' := TableOf(history + [e]);
    if KeepsCap(history, e) {
      forall k | k in t' ensures t'[k] == Min(1.0, Total(history + [e], k)) {
        TableOneMore(history, e, k);
        if Names(e, k) {
          ReverseHasSameTotal(history, e.key);
        }
      }
    } else {
      TableOneMore(history, e, e.key);
    }
  }

  /** Both directions of an edge have the same history. */
  lemma {:induction false} ReverseHasSameTotal(history: seq<Event>, k: Key)
    ensures Total(history, Reverse(k)) == Total(history, k)
    ensures Live(history, Reverse(k)) <==> Live(history, k)
  {
    hide Live;
    if history == [] {
      DeadBeforeAnything(k);
      DeadBeforeAnything(Reverse(k));
    } else {
      var n := |history| - 1;
      ReverseHasSameTotal(history[..n], k);
      assert history == history[..n] + [history[n]];
      LiveOneMore(history[..n], history[n], k);
      LiveOneMore(history[..n], history[n], Reverse(k));
    }
  }

  /** Weights are capped sums all along a history exactly if every event keeps the cap when it comes. */
  lemma {:induction false} CappedThroughoutIff(history: seq<Event>)
    ensures (forall n :: 0 <= n <= |history| ==> Capped(history[..n])) <==> AllKeepCap(history)
  {
    hide Capped;
    hide KeepsCap;
    if history == [] {
      assert history[..0] == [];
      EmptyIsCapped();
    } else {
      var n := |history| - 1;
      var h := history[..n];
      CappedThroughoutIff(h);
      assert history[..|history|] == history == h + [history[n]];
      assert forall m :: 0 <= m <= n ==> h[..m] == history[..m];
      assert forall i :: 0 <= i < n ==> h[..i] == history[..i] && h[i] == history[i];
      assert h == h[..n];
      if Capped(h) {
        CappedOneMoreIff(h, history[n]);
      }
      if AllKeepCap(history) {
        forall i | 0 <= i < |h| ensures KeepsCap(h[..i], h[i]) {
          assert KeepsCap(history[..i], history[i]);
        }
      }
      if forall m :: 0 <= m <= |history| ==> Capped(history[..m]) {
        forall m | 0 <= m <= |h| ensures Capped(h[..m]) {
          assert Capped(history[..m]);
        }
      }
    }
  }

  lemma EmptyIsCapped()
    ensures Capped([])
  {
  }

  /**
   Every edge has the weight min(1, sum of its deltas since the last deletion
   of either endpoint), and exists exactly if it was strengthened since then.
   */
  lemma WeightIsCappedSum(history: seq<Event>, k: Key)
    requires AllKeepCap(history)
    ensures k in TableOf(history) <==> Live(history, k)
    ensures k in TableOf(history) ==> TableOf(history)[k] == Min(1.0, Total(history, k))
    ensures k !in TableOf(history) ==> Total(history, k) == 0.0
  {
    hide Live;
    EdgesAreLive(history, k);
    CappedThroughoutIff(history);
    assert history[..|history|] == history;
  }

  lemma {:induction false} TotalNotNegative(history: seq<Event>, k: Key)
    requires NonNegative(history)
    ensures Total(history, k) >= 0.0
  {
    if history != [] {
      TotalNotNegative(history[..|history| - 1], k);
    }
  }

  /** Strengthened by non-negative deltas only, every live edge has its capped sum for weight, from zero to one. */
  lemma NonNegativeWeightIsCappedSum(history: seq<Event>, k: Key)
    requires NonNegative(history)
    ensures k in TableOf(history) <==> Live(history, k)
    ensures k in TableOf(history) ==> 0.0 <= TableOf(history)[k] == Min(1.0, Total(history, k)) <= 1.0
  {
    hide Live;
    NonNegativeKeepsCap(history);
    WeightIsCappedSum(history, k);
    TotalNotNegative(history, k);
  }

  /** A negative delta after the cap has cut in: one, one and minus one give zero, not one. */
  lemma CapForgets(k: Key)
    requires k.src != k.dst
    ensures var h := [Strengthen(k, 1.0), Strengthen(k, 1.0), Strengthen(k, -1.0)];
            TableOf(h)[k] == 0.0 && Min(1.0, Total(h, k)) == 1.0 && !AllKeepCap(h)
  {
    var h := [Strengthen(k, 1.0), Strengthen(k, 1.0), Strengthen(k, -1.0)];
    var up, down := Strengthen(k, 1.0), Strengthen(k, -1.0);
    TableOneMore([], up, k);
    TableOneMore([up], up, k);
    TableOneMore([up, up], down, k);
    assert [] + [up] == [up] && [up] + [up] == [up, up] && [up, up] + [down] == h;
    assert h[..2] == [up, up];
    assert !KeepsCap(h[..2], h[2]);
  }

  /** Both directions of an edge are there together, with equal weight. */
  lemma {:induction false} WeightsAreSymmetric(history: seq<Event>, k: Key)
    ensures k in TableOf(history) <==> Reverse(k) in TableOf(history)
    ensures k in TableOf(history) ==> TableOf(history)[k] == TableOf(history)[Reverse(k)]
  {
    if history != [] {
      WeightsAreSymmetric(history[..|history| - 1], k);
    }
  }

  lemma {:induction false} StaysDead(history: seq<Event>, later: seq<Event>, id: Id, k: Key)
    requires forall i :: 0 <= i < |later| && later[i].Strengthen? ==> !Touches(later[i].key, id)
    requires Touches(k, id)
    ensures !Live(history + [Delete(id)] + later, k)
  {
    hide Live;
    if later == [] {
      LiveOneMore(history, Delete(id), k);
      assert history + [Delete(id)] + later == history + [Delete(id)];
    } else {
      var n := |later| - 1;
      StaysDead(history, later[..n], id, k);
      LiveOneMore(history + [Delete(id)] + later[..n], later[n], k);
      assert history + [Delete(id)] + later == (history + [Delete(id)] + later[..n]) + [later[n]];
    }
  }

  /** No edge touches a memory that was deleted and not named since. */
  lemma DeletedIsUntouched(history: seq<Event>, later: seq<Event>, id: Id, k: Key)
    requires forall i :: 0 <= i < |later| && later[i].Strengthen? ==> !Touches(later[i].key, id)
    requires Touches(k, id)
    ensures k !in TableOf(history + [Delete(id)] + later)
  {
    StaysDead(history, later, id, k);
    EdgesAreLive(history + [Delete(id)] + later, k);
  }

  // ---- order does not matter -----------------------------------------------

  predicate AllStrengthen(events: seq<Event>) {
    forall i :: 0 <= i < |events| ==> events[i].Strengthen?
  }

  function Sum(events: seq<Event>, k: Key): real {
    if events == [] then 0.0 else Sum(events[..|events| - 1], k) + Contribution(events[|events| - 1], k)
  }

  lemma {:induction false} TotalOfStrengthenings(history: seq<Event>, events: seq<Event>, k: Key)
    requires AllStrengthen(events)
    ensures Total(history + events, k) == Total(history, k) + Sum(events, k)
    ensures Live(history + events, k) <==> Live(history, k) || exists i :: 0 <= i < |events| && Names(events[i], k)
  {
    if events == [] {
      assert history + events == history;
    } else {
      var n := |events| - 1;
      TotalOfStrengthenings(history, events[..n], k);
      assert history + events == (history + events[..n]) + [events[n]];
      LiveOneMore(history + events[..n], events[n], k);
      assert (exists i :: 0 <= i < |events| && Names(events[i], k))
        <==> (exists i :: 0 <= i < n && Names(events[..n][i], k)) || Names(events[n], k) by {
        if i :| 0 <= i < |events| && Names(events[i], k) {
          assert i == n || events[..n][i] == events[i];
        }
        if i :| 0 <= i < n && Names(events[..n][i], k) {
          assert events[i] == events[..n][i];
        }
      }
    }
  }

  lemma {:induction false} SumWithout(events: seq<Event>, i: nat, k: Key)
    requires i < |events|
    ensures Sum(events, k) == Sum(events[..i] + events[i + 1..], k) + Contribution(events[i], k)
  {
    var n := |events| - 1;
    var rest := events[..i] + events[i + 1..];
    if i == n {
      assert rest == events[..n];
    } else {
      SumWithout(events[..n], i, k);
      assert rest[..|rest| - 1] == events[..n][..i] + events[..n][i + 1..];
      assert rest[|rest| - 1] == events[n];
    }
  }

  lemma WithoutOne(events: seq<Event>, i: nat)
    requires i < |events|
    ensures multiset(events[..i] + events[i + 1..]) == multiset(events) - multiset{events[i]}
  {
    assert events == events[..i] + [events[i]] + events[i + 1..];
  }

  lemma {:induction false} SumOfPermutation(a: seq<Event>, b: seq<Event>, k: Key)
    requires multiset(a) == multiset(b)
    ensures Sum(a, k) == Sum(b, k)
    decreases |a|
  {
    if a == [] {
      assert |multiset(b)| == 0;
    } else {
      var n := |a| - 1;
      var e := a[n];
      assert a == a[..n] + [e];
      assert e in multiset(b);
      var i :| 0 <= i < |b| && b[i] == e;
      var rest := b[..i] + b[i + 1..];
      WithoutOne(b, i);
      WithoutOne(a, n);
      assert a[..n] + a[n + 1..] == a[..n];
      SumOfPermutation(a[..n], rest, k);
      SumWithout(b, i, k);
    }
  }

  /** Strengthenings between deletions may come in any order. */
  lemma OrderDoesNotMatter(history: seq<Event>, a: seq<Event>, b: seq<Event>)
    requires AllKeepCap(history + a) && AllKeepCap(history + b)
    requires AllStrengthen(a) && multiset(a) == multiset(b)
    ensures TableOf(history + a) == TableOf(history + b)
  {
    forall i | 0 <= i < |b| ensures b[i].Strengthen? {
      assert b[i] in multiset(b);
      assert b[i] in multiset(a);
    }
    forall k ensures k in TableOf(history + a) <==> k in TableOf(history + b)
      ensures k in TableOf(history + a) ==> TableOf(history + a)[k] == TableOf(history + b)[k]
    {
      WeightIsCappedSum(history + a, k);
      WeightIsCappedSum(history + b, k);
      TotalOfStrengthenings(history, a, k);
      TotalOfStrengthenings(history, b, k);
      SumOfPermutation(a, b, k);
      NamesOfPermutation(a, b, k);
      NamesOfPermutation(b, a, k);
    }
  }

  lemma NamesOfPermutation(a: seq<Event>, b: seq<Event>, k: Key)
    requires multiset(a) == multiset(b)
    ensures (exists i :: 0 <= i < |a| && Names(a[i], k)) ==> exists i :: 0 <= i < |b| && Names(b[i], k)
  {
    if i :| 0 <= i < |a| && Names(a[i], k) {
      assert a[i] in multiset(b);
      var j :| 0 <= j < |b| && b[j] == a[i];
    }
  }

  // ---- the map of lists ----------------------------------------------------

  function KeyOf(src: Id, e: Edge): Key {
    Key(src, e.dst, e.edgeType)
  }

  /** `e` is an edge of `src`, with this weight. */
  predicate Holds(t: Table, src: Id, e: Edge) {
    KeyOf(src, e) in t && t[KeyOf(src, e)] == e.weight
  }

  ghost predicate Apart(list: seq<Edge>, src: Id) {
    forall i, j :: 0 <= i < j < |list| ==> KeyOf(src, list[i]) != KeyOf(src, list[j])
  }

  /** One memory's list holds each of its edges once, with the table's weight, and nothing else. */
  ghost predicate ListOk(list: seq<Edge>, src: Id, t: Table) {
    Apart(list, src) && forall e :: e in list <==> Holds(t, src, e)
  }

  function ListFor(edges: map<Id, seq<Edge>>, src: Id): seq<Edge> {
    if src in edges then edges[src] else []
  }

  ghost predicate Represents(edges: map<Id, seq<Edge>>, t: Table) {
    forall src :: ListOk(ListFor(edges, src), src, t)
  }

  /** Look for the edge; add to its weight if it is there, append it if not. */
  method BumpList(list: seq<Edge>, k: Key, delta: real, ghost t: Table) returns (r: seq<Edge>)
    requires ListOk(list, k.src, t)
    ensures ListOk(r, k.src, Bump(t, k, delta))
  {
    hide ListOk;
    var i := 0;
    while i < |list|
      invariant 0 <= i <= |list|
      invariant forall j :: 0 <= j < i ==> KeyOf(k.src, list[j]) != k
    {
      if list[i].dst == k.dst && list[i].edgeType == k.edgeType {
        r := list[i := Edge(k.dst, k.edgeType, Min(list[i].weight + delta, 1.0))];
        BumpedInPlace(list, i, k, delta, t);
        return;
      }
      i := i + 1;
    }
    r := list + [Edge(k.dst, k.edgeType, Clamp(delta))];
    BumpedAtEnd(list, k, delta, t);
  }

  lemma BumpedInPlace(list: seq<Edge>, i: nat, k: Key, delta: real, t: Table)
    requires ListOk(list, k.src, t) && i < |list| && KeyOf(k.src, list[i]) == k
    ensures ListOk(list[i := Edge(k.dst, k.edgeType, Min(list[i].weight + delta, 1.0))], k.src, Bump(t, k, delta))
  {
    var bumped := Edge(k.dst, k.edgeType, Min(list[i].weight + delta, 1.0));
    var r := list[i := bumped];
    assert list[i] in list;
    assert Holds(t, k.src, list[i]);
    assert Apart(r, k.src);
    forall e ensures e in r <==> Holds(Bump(t, k, delta), k.src, e) {
      Replaced(list, i, bumped, e);
      if KeyOf(k.src, e) == k {
      } else {
        assert e in list <==> Holds(t, k.src, e);
      }
    }
  }

  /** What a list holds after one element was replaced. */
  lemma Replaced(list: seq<Edge>, i: nat, x: Edge, e: Edge)
    requires i < |list|
    ensures e in list[i := x] ==> e == x || e in list
    ensures e == x ==> e in list[i := x]
    ensures e in list && e != list[i] ==> e in list[i := x]
    ensures e in list[i := x] && e != x ==> exists j :: 0 <= j < |list| && j != i && list[j] == e
  {
    var r := list[i := x];
    assert r[i] == x;
    if e in list && e != list[i] {
      var j :| 0 <= j < |list| && list[j] == e;
      assert r[j] == e;
    }
    if e in r && e != x {
      var j :| 0 <= j < |r| && r[j] == e;
      assert list[j] == e;
    }
  }

  lemma BumpedAtEnd(list: seq<Edge>, k: Key, delta: real, t: Table)
    requires ListOk(list, k.src, t) && forall j :: 0 <= j < |list| ==> KeyOf(k.src, list[j]) != k
    ensures ListOk(list + [Edge(k.dst, k.edgeType, Clamp(delta))], k.src, Bump(t, k, delta))
  {
    var x := Edge(k.dst, k.edgeType, Clamp(delta));
    assert k !in t by {
      if k in t {
        assert Holds(t, k.src, Edge(k.dst, k.edgeType, t[k]));
      }
    }
    forall e ensures e in list + [x] <==> Holds(Bump(t, k, delta), k.src, e) {
      assert e in list <==> Holds(t, k.src, e);
    }
  }

  /** Changing one memory's list and its part of the table leaves the others' alone. */
  lemma BumpedElsewhere(list: seq<Edge>, src: Id, t: Table, k: Key, delta: real)
    requires ListOk(list, src, t) && k.src != src
    ensures ListOk(list, src, Bump(t, k, delta))
  {
  }

  method BumpMap(edges: map<Id, seq<Edge>>, k: Key, delta: real, ghost t: Table) returns (r: map<Id, seq<Edge>>)
    requires Represents(edges, t)
    ensures Represents(r, Bump(t, k, delta))
  {
    hide ListOk;
    hide Bump;
    var list := BumpList(ListFor(edges, k.src), k, delta, t);
    r := edges[k.src := list];
    forall src ensures ListOk(ListFor(r, src), src, Bump(t, k, delta)) {
      if src != k.src {
        assert ListOk(ListFor(edges, src), src, t);
        BumpedElsewhere(ListFor(edges, src), src, t, k, delta);
      }
    }
  }

  function Retain(list: seq<Edge>, id: Id): seq<Edge> {
    if list == [] then []
    else
      var n := |list| - 1;
      Retain(list[..n], id) + (if list[n].dst == id then [] else [list[n]])
  }

  lemma {:induction false} RetainHolds(list: seq<Edge>, id: Id, e: Edge)
    ensures e in Retain(list, id) <==> e in list && e.dst != id
  {
    if list != [] {
      var n := |list| - 1;
      RetainHolds(list[..n], id, e);
      assert list == list[..n] + [list[n]];
    }
  }

  lemma {:induction false} RetainKeepsApart(list: seq<Edge>, src: Id, id: Id)
    requires Apart(list, src)
    ensures Apart(Retain(list, id), src)
  {
    if list != [] {
      var n := |list| - 1;
      RetainKeepsApart(list[..n], src, id);
      var r := Retain(list[..n], id);
      forall i | 0 <= i < |r| ensures KeyOf(src, r[i]) != KeyOf(src, list[n]) {
        assert r[i] in r;
        RetainHolds(list[..n], id, r[i]);
        var j :| 0 <= j < n && list[j] == r[i];
      }
    }
  }

  lemma RetainedIsOk(list: seq<Edge>, src: Id, t: Table, id: Id)
    requires ListOk(list, src, t)
    ensures ListOk(if src == id then [] else Retain(list, id), src, ApplyEvent(t, Delete(id)))
  {
    if src != id {
      RetainKeepsApart(list, src, id);
      forall e ensures e in Retain(list, id) <==> Holds(ApplyEvent(t, Delete(id)), src, e) {
        RetainHolds(list, id, e);
        assert e in list <==> Holds(t, src, e);
      }
    }
  }

  class AssocEdges {
    var edges: map<Id, seq<Edge>>
    /** Everything that has happened to the map. */
    ghost var history: seq<Event>

    ghost predicate Valid()
      reads this
    {
      Represents(edges, TableOf(history))
    }

    constructor ()
      ensures Valid() && edges == map[] && history == []
    {
      edges, history := map[], [];
    }

    /** Upsert the edge and its reverse. */
    method StrengthenEdge(src: Id, dst: Id, edgeType: EdgeType, delta: real)
      requires Valid()
      modifies this
      ensures Valid() && history == old(history) + [Strengthen(Key(src, dst, edgeType), delta)]
    {
      hide Represents;
      var k := Key(src, dst, edgeType);
      ghost var t := TableOf(history);
      var forward := BumpMap(edges, k, delta, t);
      edges := BumpMap(forward, Reverse(k), delta, Bump(t, k, delta));
      ghost var before := history;
      history := history + [Strengthen(k, delta)];
      assert history[..|before|] == before;
    }

    /** Drop the memory's own list, and every edge that leads to it. */
    method DeleteMemory(id: Id)
      requires Valid()
      modifies this
      ensures Valid() && history == old(history) + [Delete(id)]
    {
      hide ListOk;
      hide Retain;
      ghost var t := TableOf(history);
      var rest := edges - {id};
      var todo := rest.Keys;
      var left := rest;
      while todo != {}
        invariant todo <= rest.Keys && left.Keys == rest.Keys
        invariant forall src :: src in rest ==> left[src] == if src in todo then rest[src] else Retain(rest[src], id)
      {
        var src :| src in todo;
        left := left[src := Retain(left[src], id)];
        todo := todo - {src};
      }
      forall src ensures ListOk(ListFor(left, src), src, ApplyEvent(t, Delete(id))) {
        assert ListOk(ListFor(edges, src), src, t);
        RetainedIsOk(ListFor(edges, src), src, t, id);
        RetainOfNone(id);
      }
      edges := left;
      ghost var before := history;
      history := history + [Delete(id)];
      assert history[..|before|] == before;
    }

    /**
     What the lists hold, in the history's own terms: an edge is there at most
     once, exactly if it was strengthened since either end was deleted, and
     weighs the capped sum of what it was strengthened by.
     */
    lemma EdgesFollowHistory(src: Id, e: Edge)
      requires Valid() && AllKeepCap(history)
      ensures Apart(ListFor(edges, src), src)
      ensures e in ListFor(edges, src) <==>
              Live(history, KeyOf(src, e)) && e.weight == Min(1.0, Total(history, KeyOf(src, e)))
    {
      hide TableOf;
      hide Total;
      var list := ListFor(edges, src);
      assert ListOk(list, src, TableOf(history));
      WeightIsCappedSum(history, KeyOf(src, e));
      assert e in list <==> Holds(TableOf(history), src, e);
    }
  }

  lemma RetainOfNone(id: Id)
    ensures Retain([], id) == []
  {
  }
}
