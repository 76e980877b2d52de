/**
 `HdcStore` (src/hdc.rs): each realm keeps a running bit count of its members'
 vectors, so that its majority vector is available without visiting them.
 The incremental count must equal the one a fresh `bundle` would make.
 The text encoder is a parameter: an insert is given the encoded vector.
 */
module HdcStoreModel {
  import opened Collections
  import opened HdcVectors

  type Id = nat
  type Realm = string

  const U32_MAX: nat := 0xFFFF_FFFF

  type U32 = n: nat | n <= U32_MAX

  datatype RealmBundle = RealmBundle(counts: seq<U16>, n: U32)

  datatype State = State(
    memories: map<Id, HdcVec>,
    bundles: map<Realm, RealmBundle>,
    members: map<Realm, set<Id>>)

  predicate WellSized(s: State) {
    forall r :: r in s.bundles ==> |s.bundles[r].counts| == LANES
  }

  function EmptyBundle(): RealmBundle {
    RealmBundle(seq(LANES, _ => 0), 0)
  }

  /** The member count wraps around. */
  function Inc32(n: U32): U32 {
    if n == U32_MAX then 0 else n + 1
  }

  function Added(b: RealmBundle, hv: HdcVec): RealmBundle
    requires |b.counts| == LANES
  {
    RealmBundle(seq(LANES, lane requires 0 <= lane < LANES => SatInc(b.counts[lane], Bit(hv, lane))), Inc32(b.n))
  }

  function Removed(b: RealmBundle, hv: HdcVec): RealmBundle
    requires |b.counts| == LANES
  {
    if b.n == 0 then b
    else RealmBundle(seq(LANES, lane requires 0 <= lane < LANES => SatDec(b.counts[lane], Bit(hv, lane))), b.n - 1)
  }

  function BundleOf(s: State, realm: Realm): RealmBundle {
    if realm in s.bundles then s.bundles[realm] else EmptyBundle()
  }

  function MembersOf(s: State, realm: Realm): set<Id> {
    if realm in s.members then s.members[realm] else {}
  }

  function AfterInsert(s: State, id: Id, hv: HdcVec, realm: Realm): State
    requires WellSized(s)
  {
    State(
      s.memories[id := hv],
      s.bundles[realm := Added(BundleOf(s, realm), hv)],
      s.members[realm := MembersOf(s, realm) + {id}])
  }

  /** Nothing happens for an unknown id; a known one leaves the named realm, whichever that is. */
  function AfterRemove(s: State, id: Id, realm: Realm): State
    requires WellSized(s)
  {
    if id !in s.memories then s
    else State(
      s.memories - {id},
      if realm in s.bundles then s.bundles[realm := Removed(s.bundles[realm], s.memories[id])] else s.bundles,
      if realm in s.members then s.members[realm := s.members[realm] - {id}] else s.members)
  }

  // ---- invariant -----------------------------------------------------------

  function Voters(ids: set<Id>, memories: map<Id, HdcVec>, lane: nat): set<Id>
    requires lane < LANES
  {
    set id | id in ids && id in memories && Bit(memories[id], lane)
  }

  /** The counters hold, lane by lane, the number of voters among `ids`. */
  ghost predicate Tallies(counts: seq<U16>, ids: set<Id>, memories: map<Id, HdcVec>) {
    |counts| == LANES && forall lane :: 0 <= lane < LANES ==> counts[lane] == |Voters(ids, memories, lane)|
  }

  /** A realm's bundle counts exactly its members. */
  ghost predicate RealmOk(s: State, realm: Realm) {
    && MembersOf(s, realm) <= s.memories.Keys
    && BundleOf(s, realm).n == |MembersOf(s, realm)|
    && Tallies(BundleOf(s, realm).counts, MembersOf(s, realm), s.memories)
  }

  ghost predicate Inv(s: State) {
    && WellSized(s)
    && s.bundles.Keys == s.members.Keys
    && (forall r :: RealmOk(s, r))
    && (forall r, r' :: r != r' ==> MembersOf(s, r) !! MembersOf(s, r'))
    && (forall id :: id in s.memories ==> exists r :: id in MembersOf(s, r))
  }

  lemma VotersWith(ids: set<Id>, memories: map<Id, HdcVec>, id: Id, lane: nat)
    requires lane < LANES && id in memories && id !in ids
    ensures |Voters(ids + {id}, memories, lane)| ==
              |Voters(ids, memories, lane)| + if Bit(memories[id], lane) then 1 else 0
    ensures |Voters(ids, memories, lane)| <= |ids|
  {
    assert Voters(ids + {id}, memories, lane)
        == Voters(ids, memories, lane) + if Bit(memories[id], lane) then {id} else {};
    SubsetCount(Voters(ids, memories, lane), ids);
  }

  /** Only the members' own vectors matter. */
  lemma TalliesOfSame(counts: seq<U16>, ids: set<Id>, memories: map<Id, HdcVec>, memories': map<Id, HdcVec>)
    requires Tallies(counts, ids, memories)
    requires forall id :: id in ids ==> id in memories && id in memories' && memories[id] == memories'[id]
    ensures Tallies(counts, ids, memories')
  {
    forall lane | 0 <= lane < LANES ensures counts[lane] == |Voters(ids, memories', lane)| {
      assert Voters(ids, memories', lane) == Voters(ids, memories, lane);
    }
  }

  /** No counter that the vector raises is saturated, nor is the member count. */
  predicate HasRoom(b: RealmBundle, hv: HdcVec)
    requires |b.counts| == LANES
  {
    b.n < U32_MAX && forall lane :: 0 <= lane < LANES && Bit(hv, lane) ==> b.counts[lane] < COUNT_MAX
  }

  lemma TalliesWith(b: RealmBundle, ids: set<Id>, memories: map<Id, HdcVec>, id: Id)
    requires Tallies(b.counts, ids, memories) && id in memories && id !in ids && HasRoom(b, memories[id])
    ensures Tallies(Added(b, memories[id]).counts, ids + {id}, memories)
  {
    forall lane | 0 <= lane < LANES
      ensures Added(b, memories[id]).counts[lane] == |Voters(ids + {id}, memories, lane)|
    {
      VotersWith(ids, memories, id, lane);
    }
  }

  lemma TalliesWithout(b: RealmBundle, ids: set<Id>, memories: map<Id, HdcVec>, id: Id)
    requires Tallies(b.counts, ids, memories) && id in memories && id in ids && b.n > 0
    ensures Tallies(Removed(b, memories[id]).counts, ids - {id}, memories)
  {
    assert ids - {id} + {id} == ids;
    forall lane | 0 <= lane < LANES
      ensures Removed(b, memories[id]).counts[lane] == |Voters(ids - {id}, memories, lane)|
    {
      VotersWith(ids - {id}, memories, id, lane);
    }
  }

  lemma EmptyTallies(memories: map<Id, HdcVec>)
    ensures Tallies(EmptyBundle().counts, {}, memories)
  {
  }

  lemma InsertKeepsRealm(s: State, id: Id, hv: HdcVec, realm: Realm, r: Realm)
    requires WellSized(s) && RealmOk(s, r) && id !in s.memories && HasRoom(BundleOf(s, realm), hv)
    ensures RealmOk(AfterInsert(s, id, hv, realm), r)
  {
    var t := AfterInsert(s, id, hv, realm);
    TalliesOfSame(BundleOf(s, r).counts, MembersOf(s, r), s.memories, t.memories);
    if r == realm {
      TalliesWith(BundleOf(s, r), MembersOf(s, r), t.memories, id);
    }
  }

  /** A counter that cannot rise, or a member count that wraps, no longer matches the members. */
  lemma NoRoomDrifts(s: State, id: Id, hv: HdcVec, realm: Realm)
    requires WellSized(s) && RealmOk(s, realm) && id !in MembersOf(s, realm) && !HasRoom(BundleOf(s, realm), hv)
    requires id in s.memories ==> s.memories[id] == hv
    ensures !RealmOk(AfterInsert(s, id, hv, realm), realm)
  {
    var t := AfterInsert(s, id, hv, realm);
    var b, ids := BundleOf(s, realm), MembersOf(s, realm);
    if b.n < U32_MAX {
      var lane :| 0 <= lane < LANES && Bit(hv, lane) && b.counts[lane] == COUNT_MAX;
      TalliesOfSame(b.counts, ids, s.memories, t.memories);
      VotersWith(ids, t.memories, id, lane);
      assert BundleOf(t, realm).counts[lane] == COUNT_MAX < |Voters(ids + {id}, t.memories, lane)|;
    }
  }

  lemma RemoveKeepsRealm(s: State, id: Id, realm: Realm, r: Realm)
    requires WellSized(s) && s.bundles.Keys == s.members.Keys
    requires RealmOk(s, r) && RealmOk(s, realm) && id in MembersOf(s, realm)
    requires r != realm ==> id !in MembersOf(s, r)
    ensures RealmOk(AfterRemove(s, id, realm), r)
  {
    var t := AfterRemove(s, id, realm);
    if r == realm {
      assert id in MembersOf(s, r) && |MembersOf(s, r)| > 0;
      TalliesWithout(BundleOf(s, r), MembersOf(s, r), s.memories, id);
    }
    TalliesOfSame(BundleOf(t, r).counts, MembersOf(t, r), s.memories, t.memories);
  }

  lemma FreshInsertKeepsInv(s: State, id: Id, hv: HdcVec, realm: Realm)
    requires Inv(s) && id !in s.memories && HasRoom(BundleOf(s, realm), hv)
    ensures Inv(AfterInsert(s, id, hv, realm))
  {
    FreshInsertKeepsCounts(s, id, hv, realm);
    FreshIsNoMember(s, id);
    hide RealmOk;
    FreshMemberFits(s, id, hv, realm);
    hide MembersOf;
    hide BundleOf;
  }

  lemma FreshInsertKeepsCounts(s: State, id: Id, hv: HdcVec, realm: Realm)
    requires WellSized(s) && (forall r :: RealmOk(s, r)) && id !in s.memories && HasRoom(BundleOf(s, realm), hv)
    ensures forall r :: RealmOk(AfterInsert(s, id, hv, realm), r)
  {
    hide RealmOk;
    hide HasRoom;
    forall r ensures RealmOk(AfterInsert(s, id, hv, realm), r) {
      InsertKeepsRealm(s, id, hv, realm, r);
    }
  }

  lemma FreshIsNoMember(s: State, id: Id)
    requires (forall r :: WellSized(s) && RealmOk(s, r)) && id !in s.memories
    ensures forall r :: id !in MembersOf(s, r)
  {
    hide Tallies;
    forall r ensures id !in MembersOf(s, r) {
      assert RealmOk(s, r);
    }
  }

  /** The membership sets stay disjoint, and every memory stays in one. */
  lemma FreshMemberFits(s: State, id: Id, hv: HdcVec, realm: Realm)
    requires WellSized(s) && forall r :: id !in MembersOf(s, r)
    requires forall r, r' :: r != r' ==> MembersOf(s, r) !! MembersOf(s, r')
    requires forall x :: x in s.memories ==> exists r :: x in MembersOf(s, r)
    ensures var t := AfterInsert(s, id, hv, realm);
            && (forall r, r' :: r != r' ==> MembersOf(t, r) !! MembersOf(t, r'))
            && (forall x :: x in t.memories ==> exists r :: x in MembersOf(t, r))
  {
    var t := AfterInsert(s, id, hv, realm);
    assert forall r :: MembersOf(t, r) == if r == realm then MembersOf(s, r) + {id} else MembersOf(s, r);
    assert id in MembersOf(t, realm);
    hide MembersOf;
    forall x | x in t.memories && x != id ensures exists r :: x in MembersOf(t, r) {
      var r :| x in MembersOf(s, r);
      assert x in MembersOf(t, r);
    }
  }

  /** A live id entering a second realm with the vector it already has. */
  lemma CopyInsertKeepsRealm(s: State, id: Id, realm: Realm, r: Realm)
    requires WellSized(s) && RealmOk(s, r) && id in s.memories && id !in MembersOf(s, realm)
    requires HasRoom(BundleOf(s, realm), s.memories[id])
    ensures RealmOk(AfterInsert(s, id, s.memories[id], realm), r)
  {
    var t := AfterInsert(s, id, s.memories[id], realm);
    assert t.memories == s.memories;
    if r == realm {
      TalliesWith(BundleOf(s, r), MembersOf(s, r), s.memories, id);
    }
  }

  /** A member whose vector changes under it no longer matches its realm's counters. */
  lemma ChangedMemberDrifts(s: State, id: Id, hv: HdcVec, realm: Realm, r: Realm)
    requires WellSized(s) && RealmOk(s, r) && id in MembersOf(s, r) && r != realm && s.memories[id] != hv
    ensures !RealmOk(AfterInsert(s, id, hv, realm), r)
  {
    var t := AfterInsert(s, id, hv, realm);
    var lane := DifferingLane(s.memories[id], hv);
    var ids := MembersOf(s, r);
    assert ids - {id} + {id} == ids;
    VotersWith(ids - {id}, s.memories, id, lane);
    VotersWith(ids - {id}, t.memories, id, lane);
    assert Voters(ids - {id}, t.memories, lane) == Voters(ids - {id}, s.memories, lane);
    assert BundleOf(t, r).counts[lane] == |Voters(ids, s.memories, lane)| != |Voters(ids, t.memories, lane)|;
  }

  lemma DifferingLane(a: HdcVec, b: HdcVec) returns (lane: nat)
    requires a != b
    ensures lane < LANES && Bit(a, lane) != Bit(b, lane)
  {
    if forall lane :: 0 <= lane < LANES ==> (Bit(a, lane) <==> Bit(b, lane)) {
      SameLanes(a, b);
      assert false;
    }
    lane :| 0 <= lane < LANES && Bit(a, lane) != Bit(b, lane);
  }

  /**
   An insert keeps every realm's counters exact precisely when its id is new,
   or enters one more realm with the vector it already has, and no counter it
   raises is saturated.
   */
  lemma InsertKeepsCountsIff(s: State, id: Id, hv: HdcVec, realm: Realm)
    requires Inv(s)
    ensures (forall r :: RealmOk(AfterInsert(s, id, hv, realm), r)) <==>
              && (id !in s.memories || (id !in MembersOf(s, realm) && s.memories[id] == hv))
              && HasRoom(BundleOf(s, realm), hv)
  {
    var t := AfterInsert(s, id, hv, realm);
    assert RealmOk(s, realm);
    if id in MembersOf(s, realm) {
      assert MembersOf(t, realm) == MembersOf(s, realm);
      assert !RealmOk(t, realm);
    } else if id in s.memories && s.memories[id] != hv {
      var r :| id in MembersOf(s, r);
      ChangedMemberDrifts(s, id, hv, realm, r);
    } else if !HasRoom(BundleOf(s, realm), hv) {
      NoRoomDrifts(s, id, hv, realm);
    } else if id !in s.memories {
      FreshInsertKeepsCounts(s, id, hv, realm);
    } else {
      forall r ensures RealmOk(t, r) {
        CopyInsertKeepsRealm(s, id, realm, r);
      }
    }
  }

  /**
   Later steps stay safe precisely when moreover the id is new: an id in two
   realms can be removed from only one of them.
   */
  lemma InsertKeepsInvIff(s: State, id: Id, hv: HdcVec, realm: Realm)
    requires Inv(s)
    ensures Inv(AfterInsert(s, id, hv, realm)) <==> id !in s.memories && HasRoom(BundleOf(s, realm), hv)
  {
    var t := AfterInsert(s, id, hv, realm);
    InsertKeepsCountsIff(s, id, hv, realm);
    hide RealmOk;
    if id !in s.memories {
      if HasRoom(BundleOf(s, realm), hv) {
        FreshInsertKeepsInv(s, id, hv, realm);
      }
    } else {
      var r :| id in MembersOf(s, r);
      assert id in MembersOf(t, realm);
      if r != realm {
        assert id in MembersOf(t, r);
        assert !(MembersOf(t, r) !! MembersOf(t, realm));
      }
    }
  }

  lemma NamedRemoveKeepsInv(s: State, id: Id, realm: Realm)
    requires Inv(s) && id in MembersOf(s, realm)
    ensures Inv(AfterRemove(s, id, realm))
  {
    var t := AfterRemove(s, id, realm);
    assert RealmOk(s, realm);
    forall r ensures RealmOk(t, r) {
      assert RealmOk(s, r);
      assert r != realm ==> MembersOf(s, r) !! MembersOf(s, realm);
      RemoveKeepsRealm(s, id, realm, r);
    }
    assert forall r :: MembersOf(t, r) == if r == realm then MembersOf(s, r) - {id} else MembersOf(s, r);
    forall r, r' | r != r' ensures MembersOf(t, r) !! MembersOf(t, r') {
      assert MembersOf(s, r) !! MembersOf(s, r');
    }
    forall x | x in t.memories ensures exists r :: x in MembersOf(t, r) {
      var r :| x in MembersOf(s, r);
      assert x in MembersOf(t, r);
    }
  }

  /**
   A remove keeps every realm's counters exact precisely when it names the
   realm of insertion or an unknown id: elsewhere it leaves the realm counting
   a member that is gone.
   */
  lemma RemoveKeepsCountsIff(s: State, id: Id, realm: Realm)
    requires Inv(s)
    ensures (forall r :: RealmOk(AfterRemove(s, id, realm), r)) <==> (id in s.memories ==> id in MembersOf(s, realm))
  {
    var t := AfterRemove(s, id, realm);
    if id in MembersOf(s, realm) {
      NamedRemoveKeepsInv(s, id, realm);
    } else if id in s.memories {
      var r :| id in MembersOf(s, r);
      assert id in MembersOf(t, r) && id !in t.memories;
      assert !RealmOk(t, r);
    }
  }

  /** The same condition keeps the whole invariant. */
  lemma RemoveKeepsInvIff(s: State, id: Id, realm: Realm)
    requires Inv(s)
    ensures Inv(AfterRemove(s, id, realm)) <==> (id in s.memories ==> id in MembersOf(s, realm))
  {
    RemoveKeepsCountsIff(s, id, realm);
    if id in MembersOf(s, realm) {
      NamedRemoveKeepsInv(s, id, realm);
    }
  }

  // ---- runs ----------------------------------------------------------------

  datatype Step = Insert(id: Id, hv: HdcVec, realm: Realm) | Remove(id: Id, realm: Realm)

  function Next(s: State, step: Step): (t: State)
    requires WellSized(s)
    ensures WellSized(t)
  {
    match step
    case Insert(id, hv, realm) => AfterInsert(s, id, hv, realm)
    case Remove(id, realm) => AfterRemove(s, id, realm)
  }

  /** Inserts bring new ids where no counter is saturated; removes name the realm of insertion. */
  predicate Allowed(s: State, step: Step)
    requires WellSized(s)
  {
    match step
    case Insert(id, hv, realm) => id !in s.memories && HasRoom(BundleOf(s, realm), hv)
    case Remove(id, realm) => id in s.memories ==> id in MembersOf(s, realm)
  }

  predicate Legal(s: State, steps: seq<Step>)
    requires WellSized(s)
    decreases |steps|
  {
    steps == [] || (Allowed(s, steps[0]) && Legal(Next(s, steps[0]), steps[1..]))
  }

  function Run(s: State, steps: seq<Step>): (t: State)
    requires WellSized(s)
    ensures WellSized(t)
    decreases |steps|
  {
    if steps == [] then s else Run(Next(s, steps[0]), steps[1..])
  }

  function Initial(): State { State(map[], map[], map[]) }

  lemma {:induction false} RunKeepsInv(s: State, steps: seq<Step>)
    requires Inv(s) && Legal(s, steps)
    ensures Inv(Run(s, steps))
    decreases |steps|
  {
    if steps != [] {
      match steps[0] {
        case Insert(id, hv, realm) => InsertKeepsInvIff(s, id, hv, realm);
        case Remove(id, realm) => RemoveKeepsInvIff(s, id, realm);
      }
      RunKeepsInv(Next(s, steps[0]), steps[1..]);
    }
  }

  // ---- who is a member -----------------------------------------------------

  predicate Settles(step: Step, id: Id) {
    step.id == id
  }

  /** Step `i` is the last that concerns `id`. */
  predicate LastWord(steps: seq<Step>, i: int, id: Id) {
    0 <= i < |steps| && Settles(steps[i], id) && forall j :: i < j < |steps| ==> !Settles(steps[j], id)
  }

  predicate Same(s: State, t: State, id: Id, realm: Realm) {
    && (id in s.memories <==> id in t.memories) && (id in s.memories ==> s.memories[id] == t.memories[id])
    && (id in MembersOf(s, realm) <==> id in MembersOf(t, realm))
  }

  lemma StepMembers(s: State, step: Step, id: Id, realm: Realm)
    requires Inv(s) && Allowed(s, step)
    ensures var t := Next(s, step);
            && (!Settles(step, id) ==> Same(s, t, id, realm))
            && (Settles(step, id) && step.Insert? ==>
                  id in t.memories && t.memories[id] == step.hv && (id in MembersOf(t, realm) <==> realm == step.realm))
            && (Settles(step, id) && step.Remove? ==> id !in t.memories && id !in MembersOf(t, realm))
  {
    assert RealmOk(s, realm);
    if step.Remove? && id in s.memories {
      assert realm != step.realm ==> MembersOf(s, realm) !! MembersOf(s, step.realm);
    }
    if step.Insert? {
      assert RealmOk(s, step.realm);
    }
  }

  lemma {:induction false} RunMembers(s: State, steps: seq<Step>, id: Id, realm: Realm)
    requires Inv(s) && Legal(s, steps)
    ensures var t := Run(s, steps);
            && ((forall j :: 0 <= j < |steps| ==> !Settles(steps[j], id)) ==> Same(s, t, id, realm))
            && (forall i :: LastWord(steps, i, id) && steps[i].Insert? ==>
                  && id in t.memories && t.memories[id] == steps[i].hv
                  && (id in MembersOf(t, realm) <==> realm == steps[i].realm))
            && (forall i :: LastWord(steps, i, id) && steps[i].Remove? ==>
                  id !in t.memories && id !in MembersOf(t, realm))
    ensures (exists j :: 0 <= j < |steps| && Settles(steps[j], id)) ==> exists i :: LastWord(steps, i, id)
    decreases |steps|
  {
    if steps != [] {
      var rest := steps[1..];
      var next := Next(s, steps[0]);
      StepMembers(s, steps[0], id, realm);
      RunKeepsInv(s, [steps[0]]);
      assert Run(s, [steps[0]]) == next;
      hide Inv;
      hide Next;
      hide Settles;
      hide MembersOf;
      hide Allowed;
      RunMembers(next, rest, id, realm);
      assert forall j :: 0 < j < |steps| ==> steps[j] == rest[j - 1];
      assert forall i :: 0 < i && LastWord(steps, i, id) ==> LastWord(rest, i - 1, id);
      assert forall i :: LastWord(rest, i, id) ==> LastWord(steps, i + 1, id);
      if Settles(steps[0], id) && forall j :: 0 <= j < |rest| ==> !Settles(rest[j], id) {
        assert LastWord(steps, 0, id);
      }
    }
  }

  /** Who is in a realm follows from the history: those whose last step inserted them there, with that vector. */
  lemma MembersFollowHistory(steps: seq<Step>, id: Id, realm: Realm)
    requires Legal(Initial(), steps)
    ensures var s := Run(Initial(), steps);
            && (id in MembersOf(s, realm) <==>
                  exists i :: LastWord(steps, i, id) && steps[i].Insert? && steps[i].realm == realm)
            && forall i :: LastWord(steps, i, id) && steps[i].Insert? ==>
                 id in s.memories && s.memories[id] == steps[i].hv
  {
    RunMembers(Initial(), steps, id, realm);
  }

  /** A run that drifts: inserting the same memory twice counts it twice. */
  lemma ReinsertDrifts(id: Id, hv: HdcVec, realm: Realm)
    ensures var s := Next(Next(Initial(), Insert(id, hv, realm)), Insert(id, hv, realm));
            MembersOf(s, realm) == {id} && BundleOf(s, realm).n == 2 && !RealmOk(s, realm)
  {
    var s := Next(Next(Initial(), Insert(id, hv, realm)), Insert(id, hv, realm));
    assert MembersOf(s, realm) == {id};
  }

  /** Memories 0 to k - 1 enter the realm with the same vector. */
  function Fills(hv: HdcVec, realm: Realm, k: nat): (r: seq<Step>)
    ensures |r| == k
  {
    seq(k, i requires 0 <= i < k => Insert(i, hv, realm))
  }

  lemma {:induction false} RunOneMore(s: State, steps: seq<Step>, step: Step)
    requires WellSized(s)
    ensures Legal(s, steps + [step]) <==> Legal(s, steps) && Allowed(Run(s, steps), step)
    ensures Legal(s, steps) ==> Run(s, steps + [step]) == Next(Run(s, steps), step)
    decreases |steps|
  {
    hide Next;
    hide Allowed;
    if steps == [] {
      assert steps + [step] == [step] && [step][1..] == [];
    } else {
      assert (steps + [step])[1..] == steps[1..] + [step];
      RunOneMore(Next(s, steps[0]), steps[1..], step);
    }
  }

  function Below(k: nat): (r: set<Id>)
    ensures forall x: Id :: x in r <==> x < k
  {
    if k == 0 then {}
    else
      var below := Below(k - 1);
      assert forall x: Id :: x < k <==> x in below || x == k - 1;
      below + {k - 1}
  }

  /** The realm holds exactly memories 0 to k - 1, all with this vector, and has counted them. */
  ghost predicate Filled(s: State, hv: HdcVec, realm: Realm, k: nat)
    requires WellSized(s)
  {
    && MembersOf(s, realm) == Below(k) && s.memories.Keys == Below(k) && BundleOf(s, realm).n == k
    && forall lane :: 0 <= lane < LANES && Bit(hv, lane) ==> BundleOf(s, realm).counts[lane] == k
  }

  lemma FillOneMore(s: State, hv: HdcVec, realm: Realm, k: nat)
    requires WellSized(s) && Filled(s, hv, realm, k) && k < COUNT_MAX
    ensures Allowed(s, Insert(k, hv, realm)) && Filled(Next(s, Insert(k, hv, realm)), hv, realm, k + 1)
  {
  }

  lemma {:induction false} FilledRealm(hv: HdcVec, realm: Realm, k: nat)
    requires k <= COUNT_MAX
    ensures Legal(Initial(), Fills(hv, realm, k)) && Filled(Run(Initial(), Fills(hv, realm, k)), hv, realm, k)
  {
    if k == 0 {
      assert Fills(hv, realm, 0) == [];
    } else {
      var fills, last := Fills(hv, realm, k - 1), Insert(k - 1, hv, realm);
      FilledRealm(hv, realm, k - 1);
      assert Fills(hv, realm, k) == fills + [last];
      RunOneMore(Initial(), fills, last);
      FillOneMore(Run(Initial(), fills), hv, realm, k - 1);
      hide Filled;
    }
  }

  /** A realm that is full in a lane: after 65535 members that all set it, one more new one goes uncounted. */
  lemma SaturatedInsertDrifts(hv: HdcVec, realm: Realm, lane: nat, k: nat)
    requires lane < LANES && Bit(hv, lane) && k == COUNT_MAX
    ensures Legal(Initial(), Fills(hv, realm, k))
    ensures var s := Run(Initial(), Fills(hv, realm, k));
            Inv(s) && k !in s.memories && !RealmOk(AfterInsert(s, k, hv, realm), realm)
  {
    hide Run;
    hide Legal;
    hide Fills;
    FilledRealm(hv, realm, k);
    RunKeepsInv(Initial(), Fills(hv, realm, k));
    FullLaneDrifts(Run(Initial(), Fills(hv, realm, k)), hv, realm, lane, k);
  }

  lemma FullLaneDrifts(s: State, hv: HdcVec, realm: Realm, lane: nat, k: nat)
    requires Inv(s) && Filled(s, hv, realm, k) && lane < LANES && Bit(hv, lane) && k == COUNT_MAX
    ensures k !in s.memories && !RealmOk(AfterInsert(s, k, hv, realm), realm)
  {
    assert RealmOk(s, realm) && k !in MembersOf(s, realm);
    assert BundleOf(s, realm).counts[lane] == COUNT_MAX;
    NoRoomDrifts(s, k, hv, realm);
  }

  // ---- the realm vector ----------------------------------------------------

  /** `order` lists the realm's members, each once. */
  ghost predicate Enumerates(order: seq<Id>, ids: set<Id>) {
    && (forall i :: 0 <= i < |order| ==> order[i] in ids)
    && (forall id :: id in ids ==> id in order)
    && Distinct(order)
  }

  function VectorsOf(order: seq<Id>, memories: map<Id, HdcVec>): seq<HdcVec>
    requires forall i :: 0 <= i < |order| ==> order[i] in memories
  {
    seq(|order|, i requires 0 <= i < |order| => memories[order[i]])
  }

  lemma {:induction false} CountIsVoters(order: seq<Id>, memories: map<Id, HdcVec>, ids: set<Id>, lane: nat)
    requires lane < LANES && Enumerates(order, ids)
    requires forall i :: 0 <= i < |order| ==> order[i] in memories
    ensures |ids| == |order|
    ensures Count(VectorsOf(order, memories), lane) == |Voters(ids, memories, lane)|
    decreases |order|
  {
    hide Voters;
    hide Bit;
    if order == [] {
      assert ids == {};
      EmptyTallies(memories);
    } else {
      var n := |order| - 1;
      var id := order[n];
      assert forall x :: x in order <==> x in order[..n] || x == id;
      CountIsVoters(order[..n], memories, ids - {id}, lane);
      assert VectorsOf(order, memories)[..n] == VectorsOf(order[..n], memories);
      assert ids - {id} + {id} == ids;
      VotersWith(ids - {id}, memories, id, lane);
    }
  }

  /** The vector `RealmBundle::to_hv` materialises. */
  ghost predicate IsRealmVector(out: HdcVec, b: RealmBundle)
    requires |b.counts| == LANES
  {
    forall lane :: 0 <= lane < LANES ==> (Bit(out, lane) <==> b.n > 0 && Reaches(b.counts[lane], b.n))
  }

  /** What `realm_hv` reads off the counters is the vote of the members, listed in any order. */
  lemma RealmVectorIsFromScratch(steps: seq<Step>, realm: Realm, order: seq<Id>, out: HdcVec)
    requires Legal(Initial(), steps)
    requires Enumerates(order, MembersOf(Run(Initial(), steps), realm))
    requires IsRealmVector(out, BundleOf(Run(Initial(), steps), realm))
    ensures forall i :: 0 <= i < |order| ==> order[i] in Run(Initial(), steps).memories
    ensures IsVote(out, VectorsOf(order, Run(Initial(), steps).memories))
  {
    var s := Run(Initial(), steps);
    RunKeepsInv(Initial(), steps);
    assert RealmOk(s, realm);
    var ids := MembersOf(s, realm);
    var vecs := VectorsOf(order, s.memories);
    forall lane | 0 <= lane < LANES ensures Bit(out, lane) <==> Reaches(SatCount(vecs, lane), |vecs|) {
      CountIsVoters(order, s.memories, ids, lane);
      SatCountIsCappedCount(vecs, lane);
    }
  }

  // ---- the class -----------------------------------------------------------

  class HdcStore {
    var memories: map<Id, HdcVec>
    var realmBundles: map<Realm, RealmBundle>
    var realmMembers: map<Realm, set<Id>>

    ghost function St(): State
      reads this
    {
      State(memories, realmBundles, realmMembers)
    }

    constructor ()
      ensures St() == Initial()
    {
      memories, realmBundles, realmMembers := map[], map[], map[];
    }

    method Insert(id: Id, hv: HdcVec, realm: Realm)
      requires WellSized(St())
      modifies this
      ensures St() == AfterInsert(old(St()), id, hv, realm) && WellSized(St())
    {
      var b := if realm in realmBundles then realmBundles[realm] else EmptyBundle();
      var counts := AddBits(b.counts, hv);
      assert counts == Added(b, hv).counts;
      realmBundles := realmBundles[realm := RealmBundle(counts, Inc32(b.n))];
      var ids := if realm in realmMembers then realmMembers[realm] else {};
      realmMembers := realmMembers[realm := ids + {id}];
      memories := memories[id := hv];
    }

    method Remove(id: Id, realm: Realm)
      requires WellSized(St())
      modifies this
      ensures St() == AfterRemove(old(St()), id, realm) && WellSized(St())
    {
      if id in memories {
        var hv := memories[id];
        memories := memories - {id};
        if realm in realmBundles {
          var b := realmBundles[realm];
          if b.n != 0 {
            var counts := SubtractBits(b.counts, hv);
            assert counts == Removed(b, hv).counts;
            b := RealmBundle(counts, b.n - 1);
          }
          realmBundles := realmBundles[realm := b];
        }
        if realm in realmMembers {
          realmMembers := realmMembers[realm := realmMembers[realm] - {id}];
        }
      }
    }

    /** None for a realm never written to. */
    method RealmHv(realm: Realm) returns (known: bool, out: HdcVec)
      requires WellSized(St())
      ensures known <==> realm in realmBundles
      ensures known ==> IsRealmVector(out, realmBundles[realm])
    {
      known, out := realm in realmBundles, Blank();
      if known && realmBundles[realm].n > 0 {
        var b := realmBundles[realm];
        out := Threshold(b.counts, b.n / 2 + 1);
      }
    }
  }
}
