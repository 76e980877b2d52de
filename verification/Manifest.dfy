/**
 The two-slot manifest (src/manifest.rs), committed by savers that run one
 after the other (src/store/maintenance.rs). A commit is a sequence of file
 steps; an error may end it after any of them, and a crash may come at any
 time and undo renames whose directory entry was not yet synced.

 JSON is not modelled: a file is absent, torn, or holds a whole manifest.
 */
module ManifestModel {
  import opened Collections

  type Writer = string

  const MANIFEST_MAGIC := "CHITTA_FIELD_MANIFEST_V1"
  const FORMAT_VERSION: nat := 1

  datatype Family = Family(seqno: nat, snapshot: string)

  datatype Manifest = Manifest(
    magic: string, formatVersion: nat, generation: nat, lastSeqno: nat,
    checkpoints: Option<Family>, families: map<Writer, Family>)

  function NewEmpty(): Manifest {
    Manifest(MANIFEST_MAGIC, FORMAT_VERSION, 0, 0, None, map[])
  }

  predicate Readable(m: Manifest) {
    m.magic == MANIFEST_MAGIC && m.formatVersion == FORMAT_VERSION
  }

  /** Which slot a manifest is written to. */
  function Slot(m: Manifest): nat {
    if m.generation % 2 == 0 then 1 else 2
  }

  /** `synced`: the contents are on disk, not only in the cache. */
  datatype File = Absent | Torn | Whole(manifest: Manifest, synced: bool)

  function TryLoad(f: File): Option<Manifest> {
    if f.Whole? && Readable(f.manifest) then Some(f.manifest) else None
  }

  // ---- joining the slots ---------------------------------------------------

  /** Entry by entry, the family with the larger seqno; the newer manifest's on a tie. */
  function JoinFamilies(newer: map<Writer, Family>, older: map<Writer, Family>): map<Writer, Family> {
    map w | w in newer.Keys + older.Keys ::
      if w in older && !(w in newer && newer[w].seqno >= older[w].seqno) then older[w] else newer[w]
  }

  function Join(a: Option<Manifest>, b: Option<Manifest>): Option<Manifest> {
    if a.None? then b
    else if b.None? then a
    else if a.value.generation >= b.value.generation
    then Some(a.value.(families := JoinFamilies(a.value.families, b.value.families)))
    else Some(b.value.(families := JoinFamilies(b.value.families, a.value.families)))
  }

  /** The loaded generation, below every real one when there is no manifest. */
  function Gen(m: Option<Manifest>): int {
    if m.Some? then m.value.generation else -1
  }

  /** The writer's committed seqno, below every real one when it has no family. */
  function Seqno(m: Option<Manifest>, w: Writer): int {
    if m.Some? && w in m.value.families then m.value.families[w].seqno else -1
  }

  function FamilyOf(m: Option<Manifest>, w: Writer): Option<Family> {
    if m.Some? && w in m.value.families then Some(m.value.families[w]) else None
  }

  /** `a` forgets nothing that `b` records. */
  ghost predicate AtLeast(a: Option<Manifest>, b: Option<Manifest>) {
    Gen(a) >= Gen(b) && forall w :: Seqno(a, w) >= Seqno(b, w)
  }

  function Max(a: int, b: int): int {
    if a >= b then a else b
  }

  /**
   Loading joins the slots to their least upper bound, whole family by whole
   family; the newer slot gives the rest.
   */
  lemma JoinIsMax(a: Option<Manifest>, b: Option<Manifest>)
    ensures Gen(Join(a, b)) == Max(Gen(a), Gen(b))
    ensures forall w :: Seqno(Join(a, b), w) == Max(Seqno(a, w), Seqno(b, w))
    ensures AtLeast(Join(a, b), a) && AtLeast(Join(a, b), b)
    ensures forall w :: FamilyOf(Join(a, b), w) == FamilyOf(a, w) || FamilyOf(Join(a, b), w) == FamilyOf(b, w)
    ensures Join(a, b).Some? ==>
              exists m :: m in {a, b} && m.Some? && m.value.(families := Join(a, b).value.families) == Join(a, b).value
  {
  }

  lemma JoinIsLeast(a: Option<Manifest>, b: Option<Manifest>, c: Option<Manifest>)
    requires AtLeast(c, a) && AtLeast(c, b)
    ensures AtLeast(c, Join(a, b))
  {
  }

  lemma AtLeastTrans(a: Option<Manifest>, b: Option<Manifest>, c: Option<Manifest>)
    requires AtLeast(a, b) && AtLeast(b, c)
    ensures AtLeast(a, c)
  {
  }

  /** A join that one side already dominates is that side. */
  lemma JoinOfDominating(a: Option<Manifest>, b: Option<Manifest>)
    requires AtLeast(a, b) && Gen(a) > Gen(b)
    ensures Join(a, b) == a && Join(b, a) == a
  {
    if b.Some? {
      forall w | w in b.value.families
        ensures w in a.value.families && a.value.families[w].seqno >= b.value.families[w].seqno
      {
        assert Seqno(a, w) >= Seqno(b, w);
      }
      assert JoinFamilies(a.value.families, b.value.families) == a.value.families;
    }
  }

  /** `Manifest::load`: read both slots and merge the older families in, one by one. */
  method Load(file1: File, file2: File) returns (r: Option<Manifest>)
    ensures r == Join(TryLoad(file1), TryLoad(file2))
  {
    var a, b := TryLoad(file1), TryLoad(file2);
    if a.None? {
      return b;
    }
    if b.None? {
      return a;
    }
    var newer, older := b.value, a.value;
    if a.value.generation >= b.value.generation {
      newer, older := a.value, b.value;
    }
    var families := newer.families;
    var todo := older.families.Keys;
    ghost var done: map<Writer, Family> := map[];
    while todo != {}
      invariant todo <= older.families.Keys
      invariant done == map w | w in older.families && w !in todo :: older.families[w]
      invariant families == JoinFamilies(newer.families, done)
    {
      var w :| w in todo;
      JoinOneMore(newer.families, done, w, older.families[w]);
      if !(w in families && families[w].seqno >= older.families[w].seqno) {
        families := families[w := older.families[w]];
      }
      done := done[w := older.families[w]];
      todo := todo - {w};
    }
    assert older.families == done;
    r := Some(newer.(families := families));
  }

  /** Something is loaded exactly if a slot holds a whole manifest of this format, and only such a one is. */
  lemma LoadedIffReadable(file1: File, file2: File)
    ensures var r := Join(TryLoad(file1), TryLoad(file2));
            && (r.Some? <==> (file1.Whole? && Readable(file1.manifest)) || (file2.Whole? && Readable(file2.manifest)))
            && (r.Some? ==> r.value.magic == MANIFEST_MAGIC && r.value.formatVersion == FORMAT_VERSION)
  {
  }

  lemma JoinOneMore(newer: map<Writer, Family>, done: map<Writer, Family>, w: Writer, f: Family)
    requires w !in done
    ensures var j := JoinFamilies(newer, done);
            JoinFamilies(newer, done[w := f]) == if w in j && j[w].seqno >= f.seqno then j else j[w := f]
  {
  }

  // ---- the disk ------------------------------------------------------------

  /** A slot's possible contents: what is durable first, then every rename not yet synced. */
  type Versions = v: seq<File> | v != [] witness [Absent]

  datatype Disk = Disk(slot1: Versions, slot2: Versions, tmp1: File, tmp2: File)

  function Last(v: Versions): File {
    v[|v| - 1]
  }

  /** What `load` returns while the system is up. */
  function View(d: Disk): Option<Manifest> {
    Join(TryLoad(Last(d.slot1)), TryLoad(Last(d.slot2)))
  }

  /** The file steps of `save`. */
  datatype FileStep = Truncate | Write | SyncFile | Rename | SyncDir

  const SAVE: seq<FileStep> := [Truncate, Write, SyncFile, Rename, SyncDir]

  function Synced(f: File): File {
    if f.Whole? then f.(synced := true) else f
  }

  function Perform(d: Disk, m: Manifest, step: FileStep): Disk {
    match step
    case Truncate => if Slot(m) == 1 then d.(tmp1 := Torn) else d.(tmp2 := Torn)
    case Write => if Slot(m) == 1 then d.(tmp1 := Whole(m, false)) else d.(tmp2 := Whole(m, false))
    case SyncFile => if Slot(m) == 1 then d.(tmp1 := Synced(d.tmp1)) else d.(tmp2 := Synced(d.tmp2))
    case Rename =>
      if Slot(m) == 1 then d.(slot1 := d.slot1 + [d.tmp1], tmp1 := Absent)
      else d.(slot2 := d.slot2 + [d.tmp2], tmp2 := Absent)
    case SyncDir => d.(slot1 := [Last(d.slot1)], slot2 := [Last(d.slot2)])
  }

  /** The first `upTo` steps of saving `m`. */
  function PerformAll(d: Disk, m: Manifest, upTo: nat): Disk
    requires upTo <= |SAVE|
  {
    if upTo == 0 then d else Perform(PerformAll(d, m, upTo - 1), m, SAVE[upTo - 1])
  }

  /** After a crash, contents that were never synced are garbage. */
  function Settled(f: File): File {
    if f.Whole? && !f.synced then Torn else f
  }

  function AfterCrash(d: Disk, i: nat, j: nat, tmp1: File, tmp2: File): Disk
    requires i < |d.slot1| && j < |d.slot2|
  {
    Disk([Settled(d.slot1[i])], [Settled(d.slot2[j])], tmp1, tmp2)
  }

  /** The manifest a saver builds: what it loaded, one generation on, with its own family replaced. */
  function Next(loaded: Option<Manifest>, w: Writer, f: Family): Manifest {
    var base := if loaded.Some? then loaded.value else NewEmpty();
    base.(generation := base.generation + 1, lastSeqno := f.seqno, checkpoints := Some(f),
          families := base.families[w := f])
  }

  // ---- runs ----------------------------------------------------------------

  /** A save that gets through its first `upTo` file steps, or a crash that keeps some version of each slot. */
  datatype Step =
    | Save(writer: Writer, family: Family, upTo: nat)
    | Crash(i: nat, j: nat, tmp1: File, tmp2: File)

  /** `committed` is the manifest of the last save that ran to its end. */
  datatype State = State(disk: Disk, committed: Option<Manifest>)

  function Initial(): State {
    State(Disk([Absent], [Absent], Absent, Absent), None)
  }

  /** Savers never publish a smaller seqno of their own than they loaded; a crash keeps versions that exist. */
  predicate Allowed(s: State, step: Step) {
    match step
    case Save(w, f, upTo) => upTo <= |SAVE| && f.seqno >= Seqno(View(s.disk), w)
    case Crash(i, j, _, _) => i < |s.disk.slot1| && j < |s.disk.slot2|
  }

  function Apply(s: State, step: Step): State
    requires Allowed(s, step)
  {
    match step
    case Save(w, f, upTo) =>
      var m := Next(View(s.disk), w, f);
      State(PerformAll(s.disk, m, upTo), if upTo == |SAVE| then Some(m) else s.committed)
    case Crash(i, j, tmp1, tmp2) =>
      State(AfterCrash(s.disk, i, j, tmp1, tmp2), s.committed)
  }

  ghost predicate Legal(s: State, steps: seq<Step>)
    decreases |steps|
  {
    steps == [] || (Allowed(s, steps[0]) && Legal(Apply(s, steps[0]), steps[1..]))
  }

  function Run(s: State, steps: seq<Step>): State
    requires Legal(s, steps)
    decreases |steps|
  {
    if steps == [] then s else Run(Apply(s, steps[0]), steps[1..])
  }

  // ---- the invariant -------------------------------------------------------

  ghost predicate FileOk(f: File, slot: nat) {
    f.Whole? ==> f.synced && Readable(f.manifest) && Slot(f.manifest) == slot
  }

  ghost predicate Ordered(x: File, y: File) {
    Gen(TryLoad(x)) <= Gen(TryLoad(y)) ==> AtLeast(TryLoad(y), TryLoad(x))
  }

  /** What is surely on disk. */
  ghost function Base(d: Disk): Option<Manifest> {
    Join(TryLoad(d.slot1[0]), TryLoad(d.slot2[0]))
  }

  ghost predicate SlotOk(v: Versions, slot: nat, base: Option<Manifest>, view: Option<Manifest>) {
    && (forall i :: 0 <= i < |v| ==> FileOk(v[i], slot) && AtLeast(view, TryLoad(v[i])))
    && (forall i :: 0 < i < |v| ==> AtLeast(TryLoad(v[i]), base))
  }

  /** Across the slots, the manifest of the later generation has forgotten nothing of the other. */
  ghost predicate Chained(d: Disk) {
    forall i, j :: 0 <= i < |d.slot1| && 0 <= j < |d.slot2| ==>
      Ordered(d.slot1[i], d.slot2[j]) && Ordered(d.slot2[j], d.slot1[i])
  }

  ghost predicate DiskOk(d: Disk) {
    SlotOk(d.slot1, 1, Base(d), View(d)) && SlotOk(d.slot2, 2, Base(d), View(d)) && Chained(d)
  }

  ghost predicate Inv(s: State) {
    DiskOk(s.disk) && AtLeast(Base(s.disk), s.committed)
  }

  /** Whichever versions survive, they record at least what was surely on disk. */
  lemma AnyVersionsReachBase(d: Disk, i: nat, j: nat)
    requires DiskOk(d) && i < |d.slot1| && j < |d.slot2|
    ensures AtLeast(Join(TryLoad(d.slot1[i]), TryLoad(d.slot2[j])), Base(d))
  {
    hide AtLeast;
    var a, b := TryLoad(d.slot1[i]), TryLoad(d.slot2[j]);
    JoinIsMax(a, b);
    if i > 0 {
      AtLeastTrans(Join(a, b), a, Base(d));
    } else if j > 0 {
      AtLeastTrans(Join(a, b), b, Base(d));
    } else {
      JoinIsMax(TryLoad(d.slot1[0]), TryLoad(d.slot2[0]));
      JoinIsLeast(a, b, Join(a, b));
    }
  }

  lemma CrashKeepsDisk(d: Disk, i: nat, j: nat, tmp1: File, tmp2: File)
    requires DiskOk(d) && i < |d.slot1| && j < |d.slot2|
    ensures DiskOk(AfterCrash(d, i, j, tmp1, tmp2))
    ensures AtLeast(Base(AfterCrash(d, i, j, tmp1, tmp2)), Base(d))
    ensures AtLeast(View(AfterCrash(d, i, j, tmp1, tmp2)), Base(d))
  {
    hide AtLeast;
    AnyVersionsReachBase(d, i, j);
    assert FileOk(d.slot1[i], 1) && FileOk(d.slot2[j], 2);
    JoinIsMax(TryLoad(d.slot1[i]), TryLoad(d.slot2[j]));
    assert Ordered(d.slot1[i], d.slot2[j]) && Ordered(d.slot2[j], d.slot1[i]);
  }

  lemma SyncDirKeepsDisk(d: Disk, m: Manifest)
    requires DiskOk(d)
    ensures DiskOk(Perform(d, m, SyncDir)) && Base(Perform(d, m, SyncDir)) == View(Perform(d, m, SyncDir)) == View(d)
  {
  }

  /** A manifest that records at least the view, one generation on, becomes the view once renamed. */
  lemma RenamedIsView(d: Disk, m: Manifest)
    requires DiskOk(d) && Readable(m) && m.generation > Gen(View(d)) && AtLeast(Some(m), View(d))
    requires (if Slot(m) == 1 then d.tmp1 else d.tmp2) == Whole(m, true)
    ensures View(Perform(d, m, Rename)) == Some(m)
  {
    var other := if Slot(m) == 1 then Last(d.slot2) else Last(d.slot1);
    assert AtLeast(View(d), TryLoad(other));
    AtLeastTrans(Some(m), View(d), TryLoad(other));
    JoinOfDominating(Some(m), TryLoad(other));
  }

  lemma RenameKeepsDisk(d: Disk, m: Manifest)
    requires DiskOk(d) && Readable(m) && m.generation > Gen(View(d)) && AtLeast(Some(m), View(d))
    requires (if Slot(m) == 1 then d.tmp1 else d.tmp2) == Whole(m, true)
    ensures DiskOk(Perform(d, m, Rename)) && Base(Perform(d, m, Rename)) == Base(d)
  {
    RenamedIsView(d, m);
    AnyVersionsReachBase(d, |d.slot1| - 1, |d.slot2| - 1);
    AtLeastTrans(Some(m), View(d), Base(d));
    var e := Perform(d, m, Rename);
    hide AtLeast;
    hide TryLoad;
    hide View;
    assert e.slot1 == d.slot1 + (if Slot(m) == 1 then [Whole(m, true)] else []);
    assert e.slot2 == d.slot2 + (if Slot(m) == 2 then [Whole(m, true)] else []);
    NewestKeepsSlot(d.slot1, e.slot1, 1, Base(d), View(d), m);
    NewestKeepsSlot(d.slot2, e.slot2, 2, Base(d), View(d), m);
    NewestKeepsChain(d, e, m);
  }

  lemma NewestKeepsSlot(v: Versions, v': Versions, slot: nat, base: Option<Manifest>, view: Option<Manifest>,
                        m: Manifest)
    requires SlotOk(v, slot, base, view) && Readable(m)
    requires v' == v + (if Slot(m) == slot then [Whole(m, true)] else [])
    requires forall i :: 0 <= i < |v| ==> AtLeast(Some(m), TryLoad(v[i]))
    requires AtLeast(Some(m), base)
    ensures SlotOk(v', slot, base, Some(m))
  {
  }

  lemma NewestKeepsChain(d: Disk, e: Disk, m: Manifest)
    requires Chained(d) && Readable(m)
    requires e.slot1 == d.slot1 + (if Slot(m) == 1 then [Whole(m, true)] else [])
    requires e.slot2 == d.slot2 + (if Slot(m) == 2 then [Whole(m, true)] else [])
    requires forall i :: 0 <= i < |d.slot1| ==>
             Gen(TryLoad(d.slot1[i])) < m.generation && AtLeast(Some(m), TryLoad(d.slot1[i]))
    requires forall j :: 0 <= j < |d.slot2| ==>
             Gen(TryLoad(d.slot2[j])) < m.generation && AtLeast(Some(m), TryLoad(d.slot2[j]))
    ensures Chained(e)
  {
  }

  /** What the disk looks like after so many steps of a save. */
  lemma SaveUpTo(d: Disk, m: Manifest, upTo: nat)
    requires DiskOk(d) && Readable(m) && m.generation > Gen(View(d)) && AtLeast(Some(m), View(d)) && upTo <= |SAVE|
    ensures var e := PerformAll(d, m, upTo);
            && DiskOk(e)
            && (upTo < 5 ==> Base(e) == Base(d))
            && (upTo < 4 ==> View(e) == View(d))
            && (upTo >= 4 ==> View(e) == Some(m))
            && (upTo == 5 ==> Base(e) == Some(m))
  {
    hide DiskOk;
    hide AtLeast;
    hide View;
    hide Base;
    if upTo < 4 {
      TmpSteps(d, m, upTo);
      OnlyTmp(d, PerformAll(d, m, upTo));
    } else {
      SaveToEnd(d, m);
    }
  }

  lemma SaveToEnd(d: Disk, m: Manifest)
    requires DiskOk(d) && Readable(m) && m.generation > Gen(View(d)) && AtLeast(Some(m), View(d))
    ensures var d4, d5 := PerformAll(d, m, 4), PerformAll(d, m, 5);
            && DiskOk(d4) && Base(d4) == Base(d) && View(d4) == Some(m)
            && DiskOk(d5) && Base(d5) == Some(m) && View(d5) == Some(m)
  {
    hide DiskOk;
    hide AtLeast;
    hide View;
    hide Base;
    hide Perform;
    hide TryLoad;
    var d3 := PerformAll(d, m, 3);
    TmpSteps(d, m, 3);
    OnlyTmp(d, d3);
    RenamedIsView(d3, m);
    RenameKeepsDisk(d3, m);
    var d4 := Perform(d3, m, Rename);
    assert PerformAll(d, m, 4) == d4;
    SyncDirKeepsDisk(d4, m);
    assert PerformAll(d, m, 5) == Perform(d4, m, SyncDir);
  }

  /** Before the rename, only the temporary file changes; by then it holds the manifest, synced. */
  lemma {:induction false} TmpSteps(d: Disk, m: Manifest, upTo: nat)
    requires upTo <= 3
    ensures var e := PerformAll(d, m, upTo);
            && e.slot1 == d.slot1 && e.slot2 == d.slot2
            && (upTo >= 2 ==> (if Slot(m) == 1 then e.tmp1 else e.tmp2) == Whole(m, upTo == 3))
  {
    if upTo > 0 {
      TmpSteps(d, m, upTo - 1);
    }
  }

  lemma OnlyTmp(d: Disk, e: Disk)
    requires e.slot1 == d.slot1 && e.slot2 == d.slot2
    ensures View(e) == View(d) && Base(e) == Base(d) && (DiskOk(d) ==> DiskOk(e))
  {
  }

  lemma StepKeepsInv(s: State, step: Step)
    requires Inv(s) && Allowed(s, step)
    ensures Inv(Apply(s, step))
  {
    hide DiskOk;
    hide PerformAll;
    match step
    case Save(w, f, upTo) =>
      var m := Next(View(s.disk), w, f);
      SaveUpTo(s.disk, m, upTo);
    case Crash(i, j, tmp1, tmp2) =>
      CrashKeepsDisk(s.disk, i, j, tmp1, tmp2);
      AtLeastTrans(Base(Apply(s, step).disk), Base(s.disk), s.committed);
  }

  lemma {:induction false} RunKeepsInv(s: State, steps: seq<Step>)
    requires Inv(s) && Legal(s, steps)
    ensures Inv(Run(s, steps))
    decreases |steps|
  {
    if steps != [] {
      StepKeepsInv(s, steps[0]);
      RunKeepsInv(Apply(s, steps[0]), steps[1..]);
    }
  }

  /**
   At any point of any run of sequential savers, interrupted saves and
   crashes, `load` returns at least the last completed commit: no lower
   generation, and for every writer no smaller seqno. One more crash, right
   now, changes nothing about that.
   */
  lemma CommitsSurvive(steps: seq<Step>, i: nat, j: nat, tmp1: File, tmp2: File)
    requires Legal(Initial(), steps)
    ensures var s := Run(Initial(), steps);
            && AtLeast(View(s.disk), s.committed)
            && (i < |s.disk.slot1| && j < |s.disk.slot2| ==>
                  AtLeast(View(AfterCrash(s.disk, i, j, tmp1, tmp2)), s.committed))
  {
    assert Inv(Initial());
    RunKeepsInv(Initial(), steps);
    var s := Run(Initial(), steps);
    hide DiskOk;
    AnyVersionsReachBase(s.disk, |s.disk.slot1| - 1, |s.disk.slot2| - 1);
    AtLeastTrans(View(s.disk), Base(s.disk), s.committed);
    if i < |s.disk.slot1| && j < |s.disk.slot2| {
      CrashKeepsDisk(s.disk, i, j, tmp1, tmp2);
      AtLeastTrans(View(AfterCrash(s.disk, i, j, tmp1, tmp2)), Base(s.disk), s.committed);
    }
  }

  /** A completed save is loaded back exactly, before and after any crash. */
  lemma SaveLoadsBack(s: State, w: Writer, f: Family, i: nat, j: nat, tmp1: File, tmp2: File)
    requires Inv(s) && f.seqno >= Seqno(View(s.disk), w)
    ensures var m := Next(View(s.disk), w, f);
            var d := PerformAll(s.disk, m, |SAVE|);
            && View(d) == Some(m)
            && (i < |d.slot1| && j < |d.slot2| ==> View(AfterCrash(d, i, j, tmp1, tmp2)) == Some(m))
  {
    hide DiskOk;
    var m := Next(View(s.disk), w, f);
    SaveUpTo(s.disk, m, |SAVE|);
    var d := PerformAll(s.disk, m, |SAVE|);
    assert |d.slot1| == 1 && |d.slot2| == 1;
    if i < |d.slot1| && j < |d.slot2| {
      SettledSlots(d);
    }
  }

  lemma SettledSlots(d: Disk)
    requires DiskOk(d)
    ensures Settled(d.slot1[0]) == d.slot1[0] && Settled(d.slot2[0]) == d.slot2[0]
  {
  }

  /**
   Saves go to the inactive slot: even if the slot being written were lost
   altogether, the other one holds the loaded generation and every seqno.
   */
  lemma InactiveSlotSuffices(s: State, w: Writer, f: Family)
    requires Inv(s)
    ensures var m := Next(View(s.disk), w, f);
            var spared := TryLoad(if Slot(m) == 1 then Last(s.disk.slot2) else Last(s.disk.slot1));
            AtLeast(spared, View(s.disk)) && AtLeast(spared, s.committed)
  {
    var d := s.disk;
    var m := Next(View(d), w, f);
    var i, j := |d.slot1| - 1, |d.slot2| - 1;
    var spared := TryLoad(if Slot(m) == 1 then Last(d.slot2) else Last(d.slot1));
    assert FileOk(d.slot1[i], 1) && FileOk(d.slot2[j], 2);
    assert Ordered(d.slot1[i], d.slot2[j]) && Ordered(d.slot2[j], d.slot1[i]);
    JoinIsMax(TryLoad(Last(d.slot1)), TryLoad(Last(d.slot2)));
    assert AtLeast(spared, View(d)) by {
      if Slot(m) == 1 {
        JoinIsLeast(TryLoad(Last(d.slot1)), TryLoad(Last(d.slot2)), spared);
      } else {
        JoinIsLeast(TryLoad(Last(d.slot1)), TryLoad(Last(d.slot2)), spared);
      }
    }
    AnyVersionsReachBase(d, i, j);
    AtLeastTrans(spared, View(d), Base(d));
    AtLeastTrans(spared, Base(d), s.committed);
  }

  /** `after` is `before` one generation on, with the writer's own family and nothing else replaced. */
  ghost predicate Brings(before: Option<Manifest>, after: Option<Manifest>, w: Writer, f: Family) {
    && after.Some? && Readable(after.value)
    && after.value.generation == (if before.Some? then before.value.generation else 0) + 1
    && after.value.lastSeqno == f.seqno && after.value.checkpoints == Some(f)
    && w in after.value.families && after.value.families[w] == f
    && forall x :: x != w ==> FamilyOf(after, x) == FamilyOf(before, x)
  }

  /** What a completed commit brought is what load returns, the family itself included, whatever the crash keeps. */
  lemma CommitBringsFamily(s: State, w: Writer, f: Family, i: nat, j: nat, tmp1: File, tmp2: File)
    requires Inv(s) && Allowed(s, Save(w, f, |SAVE|))
    ensures var t := Apply(s, Save(w, f, |SAVE|));
            && Brings(View(s.disk), View(t.disk), w, f)
            && (i < |t.disk.slot1| && j < |t.disk.slot2| ==>
                  Brings(View(s.disk), View(AfterCrash(t.disk, i, j, tmp1, tmp2)), w, f))
  {
    SaveLoadsBack(s, w, f, i, j, tmp1, tmp2);
    LoadedIffReadable(Last(s.disk.slot1), Last(s.disk.slot2));
    hide Inv;
    hide View;
    hide PerformAll;
    hide AfterCrash;
  }

  /**
   Whatever seqno the saver brings, its commit is loaded back exactly when the
   other slot does not hold a larger seqno of the same writer; otherwise the
   join resurrects that older family.
   */
  lemma SaveLoadsBackIff(s: State, w: Writer, f: Family)
    requires Inv(s)
    ensures var m := Next(View(s.disk), w, f);
            var spared := TryLoad(if Slot(m) == 1 then Last(s.disk.slot2) else Last(s.disk.slot1));
            View(PerformAll(s.disk, m, |SAVE|)) == Some(m) <==> f.seqno >= Seqno(spared, w)
  {
    var d := s.disk;
    var m := Next(View(d), w, f);
    var spared := TryLoad(if Slot(m) == 1 then Last(d.slot2) else Last(d.slot1));
    JoinIsMax(TryLoad(Last(d.slot1)), TryLoad(Last(d.slot2)));
    assert forall x :: Seqno(View(d), x) >= Seqno(spared, x);
    ViewAfterSave(d, m);
    hide View;
    NextKeepsOthers(View(d), w, f, spared);
  }

  /** A saver that goes back: after committing seqno 5 it commits 3, and load still answers 5. */
  lemma StaleCommitIsShadowed(w: Writer, snapshot: string)
    ensures var s := Apply(Initial(), Save(w, Family(5, snapshot), |SAVE|));
            var m := Next(View(s.disk), w, Family(3, snapshot));
            var after := PerformAll(s.disk, m, |SAVE|);
            View(after) != Some(m) && Seqno(View(after), w) == 5 && Gen(View(after)) == 2
  {
    hide PerformAll;
    var first := Next(View(Initial().disk), w, Family(5, snapshot));
    assert View(Initial().disk) == None && first.generation == 1 && Slot(first) == 2;
    ViewAfterSave(Initial().disk, first);
    var s := Apply(Initial(), Save(w, Family(5, snapshot), |SAVE|));
    assert View(s.disk) == Some(first);
    SlotsAfterSave(Initial().disk, first);
    var m := Next(View(s.disk), w, Family(3, snapshot));
    assert m.generation == 2 && Slot(m) == 1;
    ViewAfterSave(s.disk, m);
    JoinIsMax(Some(m), Some(first));
  }

  lemma SlotsAfterSave(d: Disk, m: Manifest)
    ensures var e := PerformAll(d, m, |SAVE|);
            if Slot(m) == 1 then e.slot1 == [Whole(m, true)] && e.slot2 == [Last(d.slot2)]
            else e.slot1 == [Last(d.slot1)] && e.slot2 == [Whole(m, true)]
  {
    TmpSteps(d, m, 3);
    var d4 := Perform(PerformAll(d, m, 3), m, Rename);
    assert PerformAll(d, m, 4) == d4;
    assert PerformAll(d, m, 5) == Perform(d4, m, SyncDir);
  }

  lemma NextKeepsOthers(loaded: Option<Manifest>, w: Writer, f: Family, other: Option<Manifest>)
    requires AtLeast(loaded, other)
    ensures var m := Next(loaded, w, f);
            && (Join(Some(m), other) == Some(m) <==> f.seqno >= Seqno(other, w))
            && (Join(other, Some(m)) == Some(m) <==> f.seqno >= Seqno(other, w))
  {
    var m := Next(loaded, w, f);
    if other.Some? {
      forall x | x in other.value.families && x != w
        ensures x in m.families && m.families[x].seqno >= other.value.families[x].seqno
      {
        assert Seqno(loaded, x) >= Seqno(other, x);
      }
      var joined := JoinFamilies(m.families, other.value.families);
      assert joined[w] == m.families[w] <==> f.seqno >= Seqno(other, w);
      if f.seqno >= Seqno(other, w) {
        assert joined == m.families;
      }
    }
  }

  lemma ViewAfterSave(d: Disk, m: Manifest)
    requires Readable(m)
    ensures View(PerformAll(d, m, |SAVE|)) ==
              if Slot(m) == 1 then Join(Some(m), TryLoad(Last(d.slot2))) else Join(TryLoad(Last(d.slot1)), Some(m))
  {
    hide Join;
    SlotsAfterSave(d, m);
  }

  // ---- the data directory --------------------------------------------------

  class DataDir {
    var slot1: Versions
    var slot2: Versions
    var tmp1: File
    var tmp2: File

    ghost function Contents(): Disk
      reads this
    {
      Disk(slot1, slot2, tmp1, tmp2)
    }

    /** Write the temporary file, sync it, rename it over the slot, sync the directory; an error may end it. */
    method Save(m: Manifest, upTo: nat) returns (ok: bool)
      requires upTo <= |SAVE|
      modifies this
      ensures Contents() == PerformAll(old(Contents()), m, upTo)
      ensures ok <==> upTo == |SAVE|
    {
      ghost var before := Contents();
      for i := 0 to upTo
        invariant Contents() == PerformAll(before, m, i)
      {
        match SAVE[i]
        case Truncate => if Slot(m) == 1 { tmp1 := Torn; } else { tmp2 := Torn; }
        case Write => if Slot(m) == 1 { tmp1 := Whole(m, false); } else { tmp2 := Whole(m, false); }
        case SyncFile => if Slot(m) == 1 { tmp1 := Synced(tmp1); } else { tmp2 := Synced(tmp2); }
        case Rename =>
          if Slot(m) == 1 { slot1, tmp1 := slot1 + [tmp1], Absent; } else { slot2, tmp2 := slot2 + [tmp2], Absent; }
        case SyncDir => slot1, slot2 := [Last(slot1)], [Last(slot2)];
      }
      ok := upTo == |SAVE|;
    }

    /** Load, move one generation on, replace the writer's family, save. */
    method Commit(w: Writer, f: Family, upTo: nat, ghost committed: Option<Manifest>) returns (ok: bool)
      requires upTo <= |SAVE| && f.seqno >= Seqno(View(Contents()), w)
      requires Inv(State(Contents(), committed))
      modifies this
      ensures State(Contents(), if ok then Some(Next(old(View(Contents())), w, f)) else committed)
           == Apply(old(State(Contents(), committed)), Step.Save(w, f, upTo))
      ensures Inv(State(Contents(), if ok then Some(Next(old(View(Contents())), w, f)) else committed))
      ensures ok ==> View(Contents()) == Some(Next(old(View(Contents())), w, f))
      ensures ok ==> Brings(old(View(Contents())), View(Contents()), w, f)
    {
      hide DiskOk;
      ghost var before := State(Contents(), committed);
      var loaded := Load(Last(slot1), Last(slot2));
      StepKeepsInv(before, Step.Save(w, f, upTo));
      SaveLoadsBack(before, w, f, 0, 0, Absent, Absent);
      CommitBringsFamily(before, w, f, 0, 0, Absent, Absent);
      ok := Save(Next(loaded, w, f), upTo);
    }
  }
}
