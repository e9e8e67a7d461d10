/** Four concrete runs that break what Machine's conditions protect: snapshots and resets, which
    drain one tracker, spoiling each other, a failed re-protection, and a replaced ancestor. */
module Traces {
  import opened Prelude
  import opened Dirty
  import opened Images
  import opened Store
  import opened Writer
  import opened Machine

  ghost function Start(): State { Booted(true, Zeros(PAGE), map[], false) }

  const SNAP: VmSnapshot := VmSnapshot(SNAP_MAGIC, SNAP_VERSION, 16384, 1, [])

  ghost function Take(n: Name): Action { Snapshot(n, SNAP, [], Some([]), Done, true) }

  ghost function Files(n: Name, parent: Option<Name>, memory: seq<uint8>): Dir
  {
    map[GicBin := Raw([]), VmStateJson := StateDoc(SNAP), DiskImg := Raw([]), MemoryBin := Raw(memory),
        DirtyIdx := Raw([]), ManifestJson := ManifestDoc(ManifestFor(n, parent, SNAP))]
  }

  predicate Stageable(dirs: Dirs, n: Name) { TmpName(n) != n && TmpName(n) !in dirs }

  /** The state after `Take(n)` when nothing is dirty or there is no parent. */
  ghost function Taken(s: State, n: Name): State
  {
    s.(dirs := s.dirs[n := Files(n, s.parent, if s.parent.None? then s.ram else [])],
       parent := Some(n), dirty := {}, writable := {})
  }

  lemma TakeIsAStep(s: State, n: Name)
    requires s.tracked && |s.ram| == PAGE && Stageable(s.dirs, n) && s.restoredFrom == None
    requires s.parent.None? || (s.dirty == {} && s.parent != Some(n))
    ensures Step(s, Take(n), Taken(s, n))
    ensures LayerAt(Taken(s, n).dirs, n, s.parent, CaptureOf(s, Take(n)), DirtyList(s))
  {
    if s.parent.Some? { NothingListed(s); }
    var d := Files(n, s.parent, if s.parent.None? then s.ram else []);
    assert LayerFiles(d, s.parent, CaptureOf(s, Take(n)), DirtyList(s));
  }

  lemma NothingListed(s: State)
    requires s.dirty == {}
    ensures DirtyList(s) == []
  {
    AscendingSkipsGap({}, 0, PageCount(|s.ram|));
  }

  ghost function Poked(s: State): State
    requires |s.ram| == PAGE
  {
    s.(ram := Splice(s.ram, 0, [1]), dirty := s.dirty + MarkedByWrite(RAM_BASE, 1, RAM_BASE, 1))
  }

  lemma PokeIsAStep(s: State)
    requires s.tracked && |s.ram| == PAGE
    ensures Step(s, DeviceWrite(RAM_BASE, [1]), Poked(s))
  {
    assert PageCount(PAGE) == 1;
  }

  ghost function Marked(s: State): State { s.(reset := Some(s.ram), dirty := {}, writable := {}) }

  lemma MarkIsAStep(s: State)
    requires s.tracked
    ensures Step(s, Checkpoint(true), Marked(s))
  {
  }

  lemma ShortNamesAreStageable(dirs: Dirs, n: Name)
    requires |n| < 4 && forall k :: k in dirs ==> |k| < 4
    ensures Stageable(dirs, n)
  {
    assert |TmpName(n)| >= 4;
  }

  /** Snapshot "a", write a byte, checkpoint, snapshot "b": the diff omits the byte. */
  lemma CheckpointLosesAPage() returns (s0: State, s1: State, s2: State, s3: State, s4: State)
    ensures Exact(s0) && Writable(s3.dirs, "b", s3.parent)
    ensures Step(s0, Take("a"), s1) && Step(s1, DeviceWrite(RAM_BASE, [1]), s2)
    ensures Step(s2, Checkpoint(true), s3) && Step(s3, Take("b"), s4)
    ensures Restore(s4.dirs, "b").Some? && Restore(s4.dirs, "b").value.ram != s3.ram
  {
    s0 := Start();
    s1 := Taken(s0, "a");
    s2 := Poked(s1);
    s3 := Marked(s2);
    s4 := Taken(s3, "b");
    BootIsExact(true, Zeros(PAGE), map[], false);
    ShortNamesAreStageable(s0.dirs, "a");
    ShortNamesAreStageable(s3.dirs, "b");
    TakeIsAStep(s0, "a");
    PokeIsAStep(s1);
    MarkIsAStep(s2);
    TakeIsAStep(s3, "b");
    SecondNameIsWritable();
    LostPage(s0, s1, s3, s4);
  }

  lemma SecondNameIsWritable()
    requires Stageable(Taken(Start(), "a").dirs, "b")
    ensures Writable(Taken(Start(), "a").dirs, "b", Some("a"))
  {
    assert ReadBy(Taken(Start(), "a").dirs, "a", {}) == {"a"};
  }

  lemma LostPage(s0: State, s1: State, s3: State, s4: State)
    requires s0 == Start() && s1 == Taken(s0, "a")
    requires s3 == s1.(ram := Splice(s0.ram, 0, [1]), dirty := {}, reset := Some(s3.ram)) && s3.reset.Some?
    requires s4 == Taken(s3, "b")
    requires LayerAt(s1.dirs, "a", None, CaptureOf(s0, Take("a")), DirtyList(s0))
    requires LayerAt(s4.dirs, "b", Some("a"), CaptureOf(s3, Take("b")), DirtyList(s3))
    ensures Restore(s4.dirs, "b").Some? && Restore(s4.dirs, "b").value.ram != s3.ram
  {
    NothingListed(s3);
    FullLayerRestores(s1.dirs, "a", CaptureOf(s0, Take("a")), DirtyList(s0));
    DiffLayerRestores(s1.dirs, s4.dirs, "b", "a", CaptureOf(s3, Take("b")), []);
    var ram := Restore(s4.dirs, "b").value.ram;
    assert ram == Overlay(s0.ram, s3.ram, PageSet([]));
    assert ram[0] == 0 && s3.ram[0] == 1;
  }

  /** Checkpoint, write a byte, snapshot, reset: the byte is not rolled back. */
  lemma SnapshotLosesAReset() returns (s0: State, s1: State, s2: State, s3: State, s4: State)
    ensures Exact(s0)
    ensures Step(s0, Checkpoint(true), s1) && Step(s1, DeviceWrite(RAM_BASE, [1]), s2)
    ensures Step(s2, Take("a"), s3) && Step(s3, Reset(true), s4)
    ensures s4.ram != s0.ram
  {
    s0 := Start();
    s1 := Marked(s0);
    s2 := Poked(s1);
    s3 := Taken(s2, "a");
    s4 := s3.(ram := Overlay(s3.ram, s0.ram, {}));
    BootIsExact(true, Zeros(PAGE), map[], false);
    ShortNamesAreStageable(s2.dirs, "a");
    MarkIsAStep(s0);
    PokeIsAStep(s1);
    TakeIsAStep(s2, "a");
    RollIsAStep(s3, s0.ram);
    assert s4.ram[0] == 1;
  }

  lemma RollIsAStep(s: State, pristine: Image)
    requires s.tracked && s.reset == Some(pristine) && |pristine| == |s.ram| && s.dirty == s.writable == {}
    ensures Step(s, Reset(true), s.(ram := Overlay(s.ram, pristine, {})))
  {
  }

  /** Checkpoint, fault page 0 in, reset with a failed re-protection, store a byte, reset again:
      the store did not fault, and the byte is not rolled back. */
  lemma IgnoredReprotectionLosesAWrite() returns (s0: State, s1: State, s2: State, s3: State, s4: State, s5: State)
    ensures Exact(s0)
    ensures Step(s0, Checkpoint(true), s1) && Step(s1, Fault(RAM_BASE), s2) && Step(s2, Reset(false), s3)
    ensures Step(s3, GuestStore(0, [1]), s4) && Step(s4, Reset(true), s5)
    ensures s1.reset == Some(s0.ram) && s5.ram != s0.ram
  {
    s0 := Start();
    s1 := Marked(s0);
    s2 := s1.(dirty := {0}, writable := {0});
    s3 := s2.(ram := Overlay(s2.ram, s0.ram, {0}), dirty := {});
    s4 := s3.(ram := Splice(s3.ram, 0, [1]));
    s5 := s4.(ram := Overlay(s4.ram, s0.ram, {}), writable := {});
    BootIsExact(true, Zeros(PAGE), map[], false);
    MarkIsAStep(s0);
    assert FaultStep(s1, s2, RAM_BASE);
    assert ResetStep(s2, s3, false) && GuestStoreStep(s3, s4, 0, [1]) && ResetStep(s4, s5, true);
    assert s5.ram[0] == 1 && s0.ram[0] == 0;
  }

  /** Snapshot "a", snapshot "b" on it, snapshot "a" again: the guard, which knows only the direct
      parent and the restore source, lets it pass, and neither name restores any more. */
  lemma AncestorOverwriteLosesBoth() returns (s0: State, s1: State, s2: State, s3: State)
    ensures Exact(s0)
    ensures Step(s0, Take("a"), s1) && Step(s1, Take("b"), s2) && Step(s2, Take("a"), s3)
    ensures Restore(s2.dirs, "b") == Some(CaptureOf(s1, Take("b")))
    ensures Restore(s3.dirs, "a") == None && Restore(s3.dirs, "b") == None
  {
    s0 := Start();
    s1 := Taken(s0, "a");
    s2 := Taken(s1, "b");
    s3 := Taken(s2, "a");
    BootIsExact(true, Zeros(PAGE), map[], false);
    ShortNamesAreStageable(s0.dirs, "a");
    ShortNamesAreStageable(s1.dirs, "b");
    ShortNamesAreStageable(s2.dirs, "a");
    TakeIsAStep(s0, "a");
    TakeIsAStep(s1, "b");
    TakeIsAStep(s2, "a");
    SecondRestores(s0, s1, s2);
    TwoLayersOnEachOther(s3.dirs, "a", "b");
    TwoLayersOnEachOther(s3.dirs, "b", "a");
  }

  lemma SecondRestores(s0: State, s1: State, s2: State)
    requires s0 == Start() && Step(s0, Take("a"), s1) && Step(s1, Take("b"), s2)
    requires s1 == Taken(s0, "a") && Stageable(s0.dirs, "a") && Stageable(s1.dirs, "b")
    ensures Restore(s2.dirs, "b") == Some(CaptureOf(s1, Take("b")))
  {
    BootIsExact(true, Zeros(PAGE), map[], false);
    SnapshotIsExact(s0, Take("a"), s1);
    SecondNameIsWritable();
    SnapshotIsExact(s1, Take("b"), s2);
  }

  lemma TwoLayersOnEachOther(dirs: Dirs, m: Name, n: Name)
    requires m != n && Published(dirs, m) && ReadManifest(dirs, m).value.parent == Some(n)
    requires Published(dirs, n) && ReadManifest(dirs, n).value.parent == Some(m)
    ensures Restore(dirs, m) == None
  {
    assert Walk(dirs, m, {m} + {n}) == None;
    assert {} + {m} == {m};
    assert Walk(dirs, n, {m}) == None;
    assert Walk(dirs, m, {}) == None;
  }
}
