/**
 The indexes derived from the stored embeddings (src/hnsw.rs `upsert_meta`,
 `remove`, `rebinarize_all`): the dense array of sign codes with its position
 map, the coarse and LSH posting lists, and the per-realm counts. Each is
 updated piecemeal; the invariant is that all of them stay exactly what the
 embeddings and realms alone determine. Vectors arrive normalised and of full
 dimension.
 */
module DerivedIndexModel {
  import opened Collections
  import opened Ranking
  import opened Vectors

  type Key = nat
  type Realm = string
  type Code = seq<bool>

  const COARSE_ASSIGNMENTS: nat := 2

  // ---- keys of a vector ----------------------------------------------------

  /** Sign bits of the vector, centred if the centroid has its dimension. */
  function SignCode(v: Vec, centroid: Vec): Code {
    seq(|v|, i requires 0 <= i < |v| => v[i] - (if |centroid| == |v| then centroid[i] else 0.0) >= 0.0)
  }

  function CentroidHits(v: Vec, centroids: seq<Vec>): seq<Hit> {
    seq(|centroids|, i requires 0 <= i < |centroids| => Hit(i, Dot(v, centroids[i])))
  }

  ghost function CentroidScores(v: Vec, centroids: seq<Vec>): map<Id, real> {
    map i: nat | 0 <= i < |centroids| :: Dot(v, centroids[i])
  }

  function HitIds(hits: seq<Hit>): (r: seq<Key>)
    ensures |r| == |hits| && forall i :: 0 <= i < |r| ==> r[i] == hits[i].id
  {
    seq(|hits|, i requires 0 <= i < |hits| => hits[i].id)
  }

  function NearestCentroids(v: Vec, centroids: seq<Vec>, desired: nat): seq<Hit> {
    var sorted := Sort(CentroidHits(v, centroids));
    if desired < |sorted| then sorted[..desired] else sorted
  }

  /** The nearest centroids, nearest first. */
  function ChooseProbeIds(v: Vec, centroids: seq<Vec>, desired: nat): seq<Key> {
    HitIds(NearestCentroids(v, centroids, desired))
  }

  /** A vector is assigned to distinct centroids, and to the nearest ones. */
  lemma ProbesAreNearest(v: Vec, centroids: seq<Vec>, desired: nat)
    ensures IsTopK(NearestCentroids(v, centroids, desired), desired, CentroidScores(v, centroids))
    ensures Distinct(ChooseProbeIds(v, centroids, desired))
  {
    var hits := CentroidHits(v, centroids);
    var scores := CentroidScores(v, centroids);
    SortRanks(hits);
    var sorted := Sort(hits);
    forall id | id in scores ensures Hit(id, scores[id]) in sorted {
      assert hits[id] == Hit(id, scores[id]);
    }
    hide Sort;
    CutIsTopK(sorted, desired, scores);
    assert sorted[..|sorted|] == sorted;
    RankedDistinct(NearestCentroids(v, centroids, desired), scores);
  }

  /** One bit per plane: which side of it the vector lies on. */
  function LshSignature(planes: seq<Vec>, v: Vec): Key {
    if planes == [] then 0
    else (if Dot(v, planes[0]) >= 0.0 then 1 else 0) + 2 * LshSignature(planes[1..], v)
  }

  /** Two vectors fall into the same bucket of a table exactly if no plane of the table separates them. */
  lemma {:induction false} SameBucketIff(planes: seq<Vec>, a: Vec, b: Vec)
    ensures LshSignature(planes, a) == LshSignature(planes, b) <==>
              forall t :: 0 <= t < |planes| ==> (Dot(a, planes[t]) >= 0.0 <==> Dot(b, planes[t]) >= 0.0)
  {
    if planes != [] {
      SameBucketIff(planes[1..], a, b);
      assert forall t :: 0 < t < |planes| ==> planes[t] == planes[1..][t - 1];
    }
  }

  /** Two vectors have the same code exactly if the centre separates them in no coordinate. */
  lemma SameCodeIff(a: Vec, b: Vec, centroid: Vec)
    requires |a| == |b| == |centroid|
    ensures SignCode(a, centroid) == SignCode(b, centroid) <==>
              forall i :: 0 <= i < |a| ==> (a[i] >= centroid[i] <==> b[i] >= centroid[i])
    ensures SignCode(a, []) == SignCode(b, []) <==> forall i :: 0 <= i < |a| ==> (a[i] >= 0.0 <==> b[i] >= 0.0)
  {
    SignAt(a, centroid);
    SignAt(b, centroid);
    SignAt(a, []);
    SignAt(b, []);
    hide SignCode;
    SameBits(SignCode(a, centroid), SignCode(b, centroid));
    SameBits(SignCode(a, []), SignCode(b, []));
  }

  lemma SignAt(v: Vec, centroid: Vec)
    ensures |SignCode(v, centroid)| == |v|
    ensures |v| == |centroid| ==> forall i :: 0 <= i < |v| ==> (SignCode(v, centroid)[i] <==> v[i] >= centroid[i])
    ensures |v| != |centroid| ==> forall i :: 0 <= i < |v| ==> (SignCode(v, centroid)[i] <==> v[i] >= 0.0)
  {
  }

  lemma SameBits(x: Code, y: Code)
    requires |x| == |y|
    ensures x == y <==> forall i :: 0 <= i < |x| ==> (x[i] <==> y[i])
  {
  }

  function AssignLsh(tables: seq<seq<Vec>>, v: Vec): (r: seq<Key>)
    ensures |r| == |tables|
  {
    seq(|tables|, t requires 0 <= t < |tables| => LshSignature(tables[t], v))
  }

  // ---- posting lists -------------------------------------------------------

  type Postings = map<Key, seq<Id>>

  /** `id` is posted under `key`. */
  predicate Posted(p: Postings, key: Key, id: Id) {
    key in p && id in p[key]
  }

  /** The lists are the exact inverse of `owner`: no duplicates, no empty list, nothing else. */
  ghost predicate Inverse(p: Postings, owner: map<Id, seq<Key>>) {
    && (forall key :: key in p ==> p[key] != [] && Distinct(p[key]))
    && (forall key, id :: Posted(p, key, id) <==> id in owner && key in owner[id])
  }

  function Push(p: Postings, key: Key, id: Id): Postings {
    p[key := (if key in p then p[key] else []) + [id]]
  }

  /** Take the id off the list, and the list off the map once it is empty. */
  function Drop(p: Postings, key: Key, id: Id): Postings {
    if key !in p then p
    else if Without(p[key], id) == [] then p - {key}
    else p[key := Without(p[key], id)]
  }

  lemma PushKeepsInverse(p: Postings, owner: map<Id, seq<Key>>, id: Id, keys: seq<Key>, key: Key)
    requires Inverse(p, owner[id := keys]) && key !in keys
    ensures Inverse(Push(p, key, id), owner[id := keys + [key]])
  {
    assert !Posted(p, key, id);
    var r := Push(p, key, id);
    assert key in p ==> Distinct(p[key]);
    assert Distinct(r[key]);
    forall k, x ensures Posted(r, k, x) <==> Posted(p, k, x) || (k == key && x == id) {
    }
    forall k, x ensures Posted(r, k, x) <==> x in owner[id := keys + [key]] && k in owner[id := keys + [key]][x] {
      assert Posted(p, k, x) <==> x in owner[id := keys] && k in owner[id := keys][x];
    }
  }

  lemma DropKeepsInverse(p: Postings, owner: map<Id, seq<Key>>, id: Id, keys: seq<Key>)
    requires keys != [] && Distinct(keys) && Inverse(p, owner[id := keys])
    ensures Inverse(Drop(p, keys[0], id), owner[id := keys[1..]])
  {
    var key := keys[0];
    assert key in keys;
    assert Posted(p, key, id);
    WithoutDistinct(p[key], id);
    var r := Drop(p, key, id);
    forall k, x ensures Posted(r, k, x) <==> Posted(p, k, x) && !(k == key && x == id) {
    }
    hide Drop;
    assert keys == [key] + keys[1..];
    assert key !in keys[1..];
    forall k, x ensures Posted(r, k, x) <==> x in owner[id := keys[1..]] && k in owner[id := keys[1..]][x] {
      assert Posted(p, k, x) <==> x in owner[id := keys] && k in owner[id := keys][x];
    }
  }

  /** Owning no key is the same as being absent. */
  lemma InverseSameOwner(p: Postings, owner: map<Id, seq<Key>>, owner': map<Id, seq<Key>>)
    requires Inverse(p, owner)
    requires forall id, key :: (id in owner && key in owner[id]) <==> (id in owner' && key in owner'[id])
    ensures Inverse(p, owner')
  {
  }

  /** Two inverses of the same map hold the same lists up to order. */
  lemma InverseUnique(p: Postings, p': Postings, owner: map<Id, seq<Key>>)
    requires Inverse(p, owner) && Inverse(p', owner)
    ensures p.Keys == p'.Keys
    ensures forall key :: key in p ==> multiset(p[key]) == multiset(p'[key])
  {
    forall key | key in p ensures key in p' {
      assert Posted(p, key, p[key][0]);
    }
    forall key | key in p' ensures key in p {
      assert Posted(p', key, p'[key][0]);
    }
    forall key | key in p ensures multiset(p[key]) == multiset(p'[key]) {
      forall x ensures x in p[key] <==> x in p'[key] {
        assert Posted(p, key, x) <==> Posted(p', key, x);
      }
      SameElements(p[key], p'[key]);
    }
  }

  lemma {:induction false} DistinctOnce<T>(s: seq<T>, x: T)
    requires Distinct(s)
    ensures multiset(s)[x] == if x in s then 1 else 0
  {
    if s != [] {
      var n := |s| - 1;
      DistinctOnce(s[..n], x);
      assert s == s[..n] + [s[n]];
    }
  }

  lemma SameElements<T>(s: seq<T>, t: seq<T>)
    requires Distinct(s) && Distinct(t) && forall x :: x in s <==> x in t
    ensures multiset(s) == multiset(t)
  {
    forall x ensures multiset(s)[x] == multiset(t)[x] {
      DistinctOnce(s, x);
      DistinctOnce(t, x);
    }
  }

  /** Post the id under each of its keys. */
  method PostAll(p: Postings, ghost owner: map<Id, seq<Key>>, id: Id, keys: seq<Key>) returns (r: Postings)
    requires Distinct(keys) && id !in owner && Inverse(p, owner)
    ensures Inverse(r, owner[id := keys])
  {
    hide Inverse;
    hide Push;
    r := p;
    InverseSameOwner(p, owner, owner[id := keys[..0]]);
    for i := 0 to |keys|
      invariant Inverse(r, owner[id := keys[..i]])
    {
      assert keys[..i + 1] == keys[..i] + [keys[i]];
      PushKeepsInverse(r, owner, id, keys[..i], keys[i]);
      r := Push(r, keys[i], id);
    }
    assert keys[..|keys|] == keys;
  }

  /** Withdraw the id from each of its keys, if it has any. */
  method WithdrawAll(p: Postings, owner: map<Id, seq<Key>>, id: Id) returns (r: Postings)
    requires Inverse(p, owner) && (id in owner ==> Distinct(owner[id]))
    ensures Inverse(r, owner - {id})
  {
    hide Inverse;
    hide Drop;
    r := p;
    if id !in owner {
      assert owner - {id} == owner;
      return;
    }
    var keys := owner[id];
    assert owner[id := keys[0..]] == owner;
    for i := 0 to |keys|
      invariant Inverse(r, owner[id := keys[i..]])
    {
      assert keys[i..][1..] == keys[i + 1..];
      DropKeepsInverse(r, owner, id, keys[i..]);
      r := Drop(r, keys[i], id);
    }
    InverseSameOwner(r, owner[id := keys[|keys|..]], owner - {id});
  }

  // ---- LSH tables ----------------------------------------------------------

  /** The one key each id has in table `t`. */
  ghost function TableKeys(memLsh: map<Id, seq<Key>>, t: nat): map<Id, seq<Key>> {
    map id | id in memLsh :: if t < |memLsh[id]| then [memLsh[id][t]] else []
  }

  ghost predicate TablesInverse(buckets: seq<Postings>, memLsh: map<Id, seq<Key>>) {
    forall t :: 0 <= t < |buckets| ==> Inverse(buckets[t], TableKeys(memLsh, t))
  }

  method PostTables(buckets: seq<Postings>, ghost memLsh: map<Id, seq<Key>>, id: Id, sigs: seq<Key>)
    returns (r: seq<Postings>)
    requires TablesInverse(buckets, memLsh) && |sigs| == |buckets| && id !in memLsh
    ensures |r| == |buckets| && TablesInverse(r, memLsh[id := sigs])
  {
    hide Inverse;
    r := buckets;
    for t := 0 to |sigs|
      invariant |r| == |buckets|
      invariant forall u :: 0 <= u < t ==> Inverse(r[u], TableKeys(memLsh[id := sigs], u))
      invariant forall u :: t <= u < |r| ==> r[u] == buckets[u]
    {
      var list := PostAll(r[t], TableKeys(memLsh, t), id, [sigs[t]]);
      assert TableKeys(memLsh, t)[id := [sigs[t]]] == TableKeys(memLsh[id := sigs], t);
      r := r[t := list];
    }
  }

  method WithdrawTables(buckets: seq<Postings>, memLsh: map<Id, seq<Key>>, id: Id) returns (r: seq<Postings>)
    requires TablesInverse(buckets, memLsh) && (id in memLsh ==> |memLsh[id]| == |buckets|)
    ensures |r| == |buckets| && TablesInverse(r, memLsh - {id})
  {
    hide Inverse;
    r := buckets;
    if id !in memLsh {
      assert memLsh - {id} == memLsh;
      return;
    }
    var sigs := memLsh[id];
    for t := 0 to |sigs|
      invariant |r| == |buckets|
      invariant forall u :: 0 <= u < t ==> Inverse(r[u], TableKeys(memLsh - {id}, u))
      invariant forall u :: t <= u < |r| ==> r[u] == buckets[u]
    {
      var list := Drop(r[t], sigs[t], id);
      DropFromTable(r[t], memLsh, id, t);
      r := r[t := list];
    }
  }

  lemma DropFromTable(p: Postings, memLsh: map<Id, seq<Key>>, id: Id, t: nat)
    requires id in memLsh && t < |memLsh[id]| && Inverse(p, TableKeys(memLsh, t))
    ensures Inverse(Drop(p, memLsh[id][t], id), TableKeys(memLsh - {id}, t))
  {
    hide Inverse;
    hide Drop;
    var owner := TableKeys(memLsh, t);
    assert owner[id := [memLsh[id][t]]] == owner;
    DropKeepsInverse(p, owner, id, [memLsh[id][t]]);
    assert [memLsh[id][t]][1..] == [];
    InverseSameOwner(Drop(p, memLsh[id][t], id), owner[id := []], TableKeys(memLsh - {id}, t));
  }

  // ---- the dense array -----------------------------------------------------

  datatype Row = Row(id: Id, code: Code)

  /** `pos` is a bijection onto the positions of `rows`, and the rows carry the codes. */
  ghost predicate Dense(rows: seq<Row>, pos: map<Id, nat>, codes: map<Id, Code>) {
    && pos.Keys == codes.Keys
    && (forall id :: id in pos ==> pos[id] < |rows| && rows[pos[id]] == Row(id, codes[id]))
    && (forall i :: 0 <= i < |rows| ==> rows[i].id in pos && pos[rows[i].id] == i)
  }

  /** The dense array holds one row per code, in some order. */
  lemma DenseUnique(rows: seq<Row>, pos: map<Id, nat>, rows': seq<Row>, pos': map<Id, nat>, codes: map<Id, Code>)
    requires Dense(rows, pos, codes) && Dense(rows', pos', codes)
    ensures multiset(rows) == multiset(rows')
  {
    forall x ensures x in rows <==> x in rows' {
    }
    SameElements(rows, rows');
  }

  /** Swap the row with the last one, pop, and note where the moved row went. */
  method SwapRemove(rows: seq<Row>, pos: map<Id, nat>, ghost codes: map<Id, Code>, id: Id)
    returns (rows': seq<Row>, pos': map<Id, nat>)
    requires Dense(rows, pos, codes)
    ensures Dense(rows', pos', codes - {id})
    ensures id !in pos ==> rows' == rows && pos' == pos
  {
    rows', pos' := rows, pos;
    if id in pos {
      var at := pos[id];
      var last := |rows| - 1;
      if at != last {
        rows' := rows[at := rows[last]][last := rows[at]];
        pos' := pos'[rows'[at].id := at];
      }
      rows' := rows'[..last];
      pos' := pos' - {id};
    } else {
      assert codes - {id} == codes;
    }
  }

  lemma AppendRow(rows: seq<Row>, pos: map<Id, nat>, codes: map<Id, Code>, id: Id, code: Code)
    requires Dense(rows, pos, codes) && id !in codes
    ensures Dense(rows + [Row(id, code)], pos[id := |rows|], codes[id := code])
  {
  }

  /** Lay the rows out again, in whatever order the codes are visited. */
  method Rebinarize(codes: map<Id, Code>) returns (rows: seq<Row>, pos: map<Id, nat>)
    ensures Dense(rows, pos, codes)
  {
    rows, pos := [], map[];
    var todo := codes.Keys;
    ghost var done: map<Id, Code> := map[];
    while todo != {}
      invariant todo <= codes.Keys && Dense(rows, pos, done)
      invariant done == map id | id in codes && id !in todo :: codes[id]
    {
      hide Dense;
      var id :| id in todo;
      AppendRow(rows, pos, done, id, codes[id]);
      pos := pos[id := |rows|];
      rows := rows + [Row(id, codes[id])];
      done := done[id := codes[id]];
      todo := todo - {id};
    }
    assert done == codes;
  }

  // ---- realm counts --------------------------------------------------------

  ghost function InRealm(realms: map<Id, Realm>, r: Realm): set<Id> {
    set id | id in realms && realms[id] == r
  }

  function CountOf(counts: map<Realm, nat>, r: Realm): nat {
    if r in counts then counts[r] else 0
  }

  ghost predicate CountsOk(counts: map<Realm, nat>, realms: map<Id, Realm>) {
    forall r :: CountOf(counts, r) == |InRealm(realms, r)|
  }

  lemma CountOneMore(counts: map<Realm, nat>, realms: map<Id, Realm>, id: Id, realm: Realm)
    requires CountsOk(counts, realms) && id !in realms
    ensures CountsOk(counts[realm := CountOf(counts, realm) + 1], realms[id := realm])
  {
    var counts' := counts[realm := CountOf(counts, realm) + 1];
    forall r ensures CountOf(counts', r) == |InRealm(realms[id := realm], r)| {
      assert CountOf(counts, r) == |InRealm(realms, r)|;
      InRealmOneMore(realms, id, realm, r);
    }
  }

  lemma InRealmOneMore(realms: map<Id, Realm>, id: Id, realm: Realm, r: Realm)
    requires id !in realms
    ensures |InRealm(realms[id := realm], r)| == |InRealm(realms, r)| + if r == realm then 1 else 0
  {
    if r == realm {
      assert InRealm(realms[id := realm], r) == InRealm(realms, r) + {id};
    } else {
      assert InRealm(realms[id := realm], r) == InRealm(realms, r);
    }
  }

  lemma CountOneLess(counts: map<Realm, nat>, realms: map<Id, Realm>, id: Id)
    requires CountsOk(counts, realms) && id in realms
    ensures realms[id] in counts && counts[realms[id]] > 0
    ensures CountsOk(counts[realms[id] := counts[realms[id]] - 1], realms - {id})
  {
    var realm := realms[id];
    assert id in InRealm(realms, realm);
    assert CountOf(counts, realm) == |InRealm(realms, realm)|;
    var counts' := counts[realm := counts[realm] - 1];
    forall r ensures CountOf(counts', r) == |InRealm(realms - {id}, r)| {
      assert CountOf(counts, r) == |InRealm(realms, r)|;
      assert InRealm(realms - {id}, r) == if r == realm then InRealm(realms, r) - {id} else InRealm(realms, r);
    }
  }

  // ---- all of it -----------------------------------------------------------

  /** The derived data, as values. */
  datatype Indexes = Indexes(
    codes: map<Id, Code>, rows: seq<Row>, pos: map<Id, nat>,
    memCoarse: map<Id, seq<Key>>, coarseMembers: Postings,
    memLsh: map<Id, seq<Key>>, lshBuckets: seq<Postings>,
    counts: map<Realm, nat>)

  ghost predicate CodesOk(codes: map<Id, Code>, embeddings: map<Id, Vec>, centroid: Vec) {
    codes.Keys == embeddings.Keys && forall id :: id in codes ==> codes[id] == SignCode(embeddings[id], centroid)
  }

  ghost predicate CoarseOk(memCoarse: map<Id, seq<Key>>, embeddings: map<Id, Vec>, centroids: seq<Vec>) {
    memCoarse.Keys == embeddings.Keys
    && forall id :: id in memCoarse ==> memCoarse[id] == ChooseProbeIds(embeddings[id], centroids, COARSE_ASSIGNMENTS)
  }

  ghost predicate LshOk(memLsh: map<Id, seq<Key>>, embeddings: map<Id, Vec>, tables: seq<seq<Vec>>) {
    memLsh.Keys == embeddings.Keys && forall id :: id in memLsh ==> memLsh[id] == AssignLsh(tables, embeddings[id])
  }

  /** The per-memory maps lose the id. */
  lemma OwnersWithout(x: Indexes, embeddings: map<Id, Vec>, id: Id, centroid: Vec, centroids: seq<Vec>,
                      tables: seq<seq<Vec>>)
    requires CodesOk(x.codes, embeddings, centroid) && CoarseOk(x.memCoarse, embeddings, centroids)
             && LshOk(x.memLsh, embeddings, tables)
    ensures CodesOk(x.codes - {id}, embeddings - {id}, centroid)
    ensures CoarseOk(x.memCoarse - {id}, embeddings - {id}, centroids)
            && LshOk(x.memLsh - {id}, embeddings - {id}, tables)
    ensures id in x.memCoarse ==> Distinct(x.memCoarse[id])
    ensures id in x.memLsh ==> |x.memLsh[id]| == |tables|
  {
    hide ChooseProbeIds;
    hide SignCode;
    if id in embeddings {
      ProbesAreNearest(embeddings[id], centroids, COARSE_ASSIGNMENTS);
    }
  }

  /** The per-memory maps gain the id. */
  lemma OwnersWith(x: Indexes, embeddings: map<Id, Vec>, id: Id, v: Vec, centroid: Vec, centroids: seq<Vec>,
                   tables: seq<seq<Vec>>)
    requires CodesOk(x.codes, embeddings, centroid) && CoarseOk(x.memCoarse, embeddings, centroids)
             && LshOk(x.memLsh, embeddings, tables)
    ensures CodesOk(x.codes[id := SignCode(v, centroid)], embeddings[id := v], centroid)
    ensures CoarseOk(x.memCoarse[id := ChooseProbeIds(v, centroids, COARSE_ASSIGNMENTS)], embeddings[id := v],
                     centroids)
    ensures LshOk(x.memLsh[id := AssignLsh(tables, v)], embeddings[id := v], tables)
    ensures x.codes.Keys == x.memCoarse.Keys == x.memLsh.Keys == embeddings.Keys
    ensures Distinct(ChooseProbeIds(v, centroids, COARSE_ASSIGNMENTS))
  {
    ProbesAreNearest(v, centroids, COARSE_ASSIGNMENTS);
    hide ChooseProbeIds;
    hide SignCode;
    hide AssignLsh;
  }

  /** Every index is what the embeddings and realms say it should be. */
  ghost predicate InStep(x: Indexes, embeddings: map<Id, Vec>, realms: map<Id, Realm>,
                         centroid: Vec, centroids: seq<Vec>, tables: seq<seq<Vec>>) {
    && CodesOk(x.codes, embeddings, centroid) && Dense(x.rows, x.pos, x.codes)
    && CoarseOk(x.memCoarse, embeddings, centroids) && Inverse(x.coarseMembers, x.memCoarse)
    && LshOk(x.memLsh, embeddings, tables) && |x.lshBuckets| == |tables| && TablesInverse(x.lshBuckets, x.memLsh)
    && CountsOk(x.counts, realms)
  }

  /**
   The embeddings and realms determine the indexes: whatever history led
   there, the same contents give the same rows, postings and counts, up to
   the order of list elements.
   */
  lemma ContentsDetermineIndexes(x: Indexes, y: Indexes, embeddings: map<Id, Vec>, realms: map<Id, Realm>,
                                 centroid: Vec, centroids: seq<Vec>, tables: seq<seq<Vec>>)
    requires InStep(x, embeddings, realms, centroid, centroids, tables)
    requires InStep(y, embeddings, realms, centroid, centroids, tables)
    ensures x.codes == y.codes && multiset(x.rows) == multiset(y.rows)
    ensures x.memCoarse == y.memCoarse && SamePostings(x.coarseMembers, y.coarseMembers)
    ensures x.memLsh == y.memLsh && |x.lshBuckets| == |y.lshBuckets|
    ensures forall t :: 0 <= t < |x.lshBuckets| ==> SamePostings(x.lshBuckets[t], y.lshBuckets[t])
    ensures forall r :: CountOf(x.counts, r) == CountOf(y.counts, r)
  {
    hide Inverse;
    hide Dense;
    hide TableKeys;
    hide ChooseProbeIds;
    hide SignCode;
    hide AssignLsh;
    assert x.codes == y.codes;
    DenseUnique(x.rows, x.pos, y.rows, y.pos, x.codes);
    assert x.memCoarse == y.memCoarse;
    InverseUnique(x.coarseMembers, y.coarseMembers, x.memCoarse);
    assert x.memLsh == y.memLsh;
    forall t | 0 <= t < |x.lshBuckets| ensures SamePostings(x.lshBuckets[t], y.lshBuckets[t]) {
      InverseUnique(x.lshBuckets[t], y.lshBuckets[t], TableKeys(x.memLsh, t));
    }
    forall r ensures CountOf(x.counts, r) == CountOf(y.counts, r) {
      assert CountOf(x.counts, r) == |InRealm(realms, r)|;
    }
  }

  ghost predicate SamePostings(p: Postings, q: Postings) {
    p.Keys == q.Keys && forall key :: key in p ==> multiset(p[key]) == multiset(q[key])
  }

  /** Take a memory out of the codes and postings. */
  method WithdrawFrom(x: Indexes, id: Id, ghost embeddings: map<Id, Vec>, ghost realms: map<Id, Realm>,
                      ghost centroid: Vec, ghost centroids: seq<Vec>, ghost tables: seq<seq<Vec>>)
    returns (y: Indexes)
    requires InStep(x, embeddings, realms, centroid, centroids, tables)
    ensures InStep(y, embeddings - {id}, realms, centroid, centroids, tables) && y.counts == x.counts
  {
    hide Inverse;
    hide Dense;
    hide TablesInverse;
    hide CodesOk;
    hide CoarseOk;
    hide LshOk;
    hide CountsOk;
    hide Distinct;
    OwnersWithout(x, embeddings, id, centroid, centroids, tables);
    var rows, pos := SwapRemove(x.rows, x.pos, x.codes, id);
    var members := WithdrawAll(x.coarseMembers, x.memCoarse, id);
    var buckets := WithdrawTables(x.lshBuckets, x.memLsh, id);
    y := Indexes(x.codes - {id}, rows, pos, x.memCoarse - {id}, members, x.memLsh - {id}, buckets, x.counts);
  }

  /** Enter an absent memory's vector into the codes and postings. */
  method PostInto(x: Indexes, id: Id, v: Vec, ghost embeddings: map<Id, Vec>, ghost realms: map<Id, Realm>,
                  centroid: Vec, centroids: seq<Vec>, tables: seq<seq<Vec>>)
    returns (y: Indexes)
    requires InStep(x, embeddings, realms, centroid, centroids, tables) && id !in embeddings
    ensures InStep(y, embeddings[id := v], realms, centroid, centroids, tables) && y.counts == x.counts
  {
    hide Inverse;
    hide Dense;
    hide TablesInverse;
    hide CodesOk;
    hide CoarseOk;
    hide LshOk;
    hide CountsOk;
    hide Distinct;
    hide ChooseProbeIds;
    hide SignCode;
    hide AssignLsh;
    OwnersWith(x, embeddings, id, v, centroid, centroids, tables);
    var coarse := ChooseProbeIds(v, centroids, COARSE_ASSIGNMENTS);
    var sigs := AssignLsh(tables, v);
    var code := SignCode(v, centroid);
    AppendRow(x.rows, x.pos, x.codes, id, code);
    var members := PostAll(x.coarseMembers, x.memCoarse, id, coarse);
    var buckets := PostTables(x.lshBuckets, x.memLsh, id, sigs);
    y := Indexes(x.codes[id := code], x.rows + [Row(id, code)], x.pos[id := |x.rows|],
                 x.memCoarse[id := coarse], members, x.memLsh[id := sigs], buckets, x.counts);
  }

  class DerivedIndexes {
    const centroids: seq<Vec>
    const tables: seq<seq<Vec>>
    var centroid: Vec
    var embeddings: map<Id, Vec>
    var binaryCodes: map<Id, Code>
    var binaryVec: seq<Row>
    var binaryVecPos: map<Id, nat>
    var memCoarse: map<Id, seq<Key>>
    var coarseMembers: Postings
    var memLsh: map<Id, seq<Key>>
    var lshBuckets: seq<Postings>
    var perIdRealm: map<Id, Realm>
    var perRealmCounts: map<Realm, nat>

    ghost function Derived(): Indexes
      reads this
    {
      Indexes(binaryCodes, binaryVec, binaryVecPos, memCoarse, coarseMembers, memLsh, lshBuckets, perRealmCounts)
    }

    ghost predicate Valid()
      reads this
    {
      && InStep(Derived(), embeddings, perIdRealm, centroid, centroids, tables)
      && perIdRealm.Keys <= embeddings.Keys
    }

    constructor (centroids: seq<Vec>, tables: seq<seq<Vec>>)
      ensures Valid() && embeddings == map[] && perIdRealm == map[]
      ensures this.centroids == centroids && this.tables == tables
    {
      this.centroids, this.tables := centroids, tables;
      centroid, embeddings, perIdRealm, perRealmCounts := [], map[], map[], map[];
      binaryCodes, binaryVec, binaryVecPos := map[], [], map[];
      memCoarse, coarseMembers, memLsh := map[], map[], map[];
      lshBuckets := seq(|tables|, _ => map[]);
    }

    /** Forget a memory; `drift` is the fresh corpus mean if the drift check adopts one. */
    method Remove(id: Id, drift: Option<Vec>)
      requires Valid()
      modifies this
      ensures Valid()
      ensures embeddings == old(embeddings) - {id} && perIdRealm == old(perIdRealm) - {id}
      ensures centroid == if drift.Some? then drift.value else old(centroid)
    {
      hide InStep;
      if id in perIdRealm {
        LeaveRealm(id);
      }
      Withdraw(id);
      assert perIdRealm == old(perIdRealm) - {id};
      RefreshCentroid(drift);
    }

    method LeaveRealm(id: Id)
      requires Valid() && id in perIdRealm
      modifies this`perIdRealm, this`perRealmCounts
      ensures Valid() && perIdRealm == old(perIdRealm) - {id}
    {
      hide Inverse;
      hide Dense;
      hide TablesInverse;
      hide CodesOk;
      hide CoarseOk;
      hide LshOk;
      hide CountsOk;
      CountOneLess(perRealmCounts, perIdRealm, id);
      perRealmCounts := perRealmCounts[perIdRealm[id] := perRealmCounts[perIdRealm[id]] - 1];
      perIdRealm := perIdRealm - {id};
    }

    method EnterRealm(id: Id, realm: Realm)
      requires Valid() && id in embeddings && id !in perIdRealm
      modifies this`perIdRealm, this`perRealmCounts
      ensures Valid() && perIdRealm == old(perIdRealm)[id := realm]
    {
      hide Inverse;
      hide Dense;
      hide TablesInverse;
      hide CodesOk;
      hide CoarseOk;
      hide LshOk;
      hide CountsOk;
      CountOneMore(perRealmCounts, perIdRealm, id, realm);
      perRealmCounts := perRealmCounts[realm := CountOf(perRealmCounts, realm) + 1];
      perIdRealm := perIdRealm[id := realm];
    }

    /** Take a memory's vector out of the codes and postings. */
    method Withdraw(id: Id)
      requires Valid() && id !in perIdRealm
      modifies this
      ensures Valid() && embeddings == old(embeddings) - {id}
      ensures perIdRealm == old(perIdRealm) && centroid == old(centroid)
    {
      hide InStep;
      var x := WithdrawFrom(Indexes(binaryCodes, binaryVec, binaryVecPos, memCoarse, coarseMembers, memLsh,
                                    lshBuckets, perRealmCounts),
                            id, embeddings, perIdRealm, centroid, centroids, tables);
      binaryCodes, binaryVec, binaryVecPos := x.codes, x.rows, x.pos;
      memCoarse, coarseMembers, memLsh, lshBuckets := x.memCoarse, x.coarseMembers, x.memLsh, x.lshBuckets;
      embeddings := embeddings - {id};
      assert Derived() == x;
    }

    /** Add or replace a memory's vector. Removing comes first, so its row is always a new one. */
    method Upsert(id: Id, v: Vec, realm: Option<Realm>, drift: Option<Vec>, drift': Option<Vec>)
      requires Valid()
      modifies this
      ensures Valid()
      ensures embeddings == old(embeddings)[id := v]
      ensures perIdRealm == if realm.Some? then old(perIdRealm)[id := realm.value] else old(perIdRealm) - {id}
    {
      hide InStep;
      Remove(id, drift);
      assert id !in embeddings && id !in perIdRealm;
      Post(id, v);
      if realm.Some? {
        EnterRealm(id, realm.value);
      }
      RefreshCentroid(drift');
    }

    /** Enter an absent memory's vector into the codes and postings. */
    method Post(id: Id, v: Vec)
      requires Valid() && id !in embeddings
      modifies this
      ensures Valid() && embeddings == old(embeddings)[id := v]
      ensures perIdRealm == old(perIdRealm) && centroid == old(centroid)
    {
      hide InStep;
      var x := PostInto(Indexes(binaryCodes, binaryVec, binaryVecPos, memCoarse, coarseMembers, memLsh, lshBuckets,
                                perRealmCounts),
                        id, v, embeddings, perIdRealm, centroid, centroids, tables);
      binaryCodes, binaryVec, binaryVecPos := x.codes, x.rows, x.pos;
      memCoarse, coarseMembers, memLsh, lshBuckets := x.memCoarse, x.coarseMembers, x.memLsh, x.lshBuckets;
      embeddings := embeddings[id := v];
      assert Derived() == x;
    }

    /** Keep the frozen mean, or adopt a fresh one and code every vector again. */
    method RefreshCentroid(drift: Option<Vec>)
      requires Valid()
      modifies this
      ensures Valid() && embeddings == old(embeddings) && perIdRealm == old(perIdRealm)
      ensures centroid == if drift.Some? then drift.value else old(centroid)
    {
      hide Inverse;
      hide TablesInverse;
      hide Dense;
      hide CoarseOk;
      hide LshOk;
      hide CountsOk;
      hide SignCode;
      if drift.Some? {
        centroid := drift.value;
        binaryCodes := map id | id in embeddings :: SignCode(embeddings[id], centroid);
        binaryVec, binaryVecPos := Rebinarize(binaryCodes);
      }
    }
  }
}
