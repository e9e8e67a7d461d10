/** The running guest as a state machine: memory writes, faults, snapshots, checkpoints,
    resets and relaunches, all sharing one dirty tracker (spike/src/bin/boot.rs,
    crates/vmm/src/vstate/vcpu_manager.rs). vCPUs and device writers are stopped inside
    each handler, so a handler is one step. */
module Machine {
  import opened Prelude
  import opened Dirty
  import opened Memory
  import opened Images
  import opened Store
  import opened Writer

  const RAM_BASE: uint64 := 0x4000_0000

  /** `writable` is the set of pages the guest may store to without a fault. */
  datatype State = State(
    tracked: bool, ram: Image, dirty: set<nat>, writable: set<nat>,
    dirs: Dirs, parent: Option<Name>, restoredFrom: Option<Name>, force: bool,
    reset: Option<Image>)

  /** Outcomes that are not decided by the state, such as whether an I/O operation or a
      re-protection succeeded, are part of the action. */
  datatype Action =
    | Fault(pa: uint64)
    | GuestStore(off: nat, data: seq<uint8>)
    | DeviceWrite(gpa: uint64, data: seq<uint8>)
    | Snapshot(name: Name, snap: VmSnapshot, gic: seq<uint8>, disk: Option<seq<uint8>>,
               result: IoResult, reprotected: bool)
    | Checkpoint(reprotected: bool)
    | Reset(reprotected: bool)
    | Relaunch(name: Name, tracked: bool, force: bool)

  // ---- the steps ----

  predicate InWindow(s: State, pa: uint64) { RAM_BASE <= pa < RAM_BASE + |s.ram| }

  /** A write abort inside the tracked window: mark the page, grant it, re-execute the store. */
  ghost predicate FaultStep(s: State, s': State, pa: uint64)
  {
    && s.tracked && InWindow(s, pa)
    && var p := (pa - RAM_BASE) / PAGE;
       s' == s.(dirty := s.dirty + {p}, writable := s.writable + {p})
  }

  /** The store completes only when every page it touches is granted. */
  ghost predicate GuestStoreStep(s: State, s': State, off: nat, data: seq<uint8>)
  {
    && off + |data| <= |s.ram|
    && (s.tracked ==> forall i :: off <= i < off + |data| ==> i / PAGE in s.writable)
    && s' == s.(ram := Splice(s.ram, off, data))
  }

  ghost predicate DeviceWriteStep(s: State, s': State, gpa: uint64, data: seq<uint8>)
  {
    var mem := Mem(RAM_BASE, s.ram);
    if mem.Contains(gpa, |data|) then
      s' == s.(ram := mem.Write(gpa, data).bytes,
               dirty := if s.tracked then s.dirty + MarkedByWrite(RAM_BASE, PageCount(|s.ram|), gpa, |data|)
                        else s.dirty)
    else s' == s
  }

  ghost function DirtyList(s: State): seq<nat> { Ascending(s.dirty, PageCount(|s.ram|)) }

  ghost function CaptureOf(s: State, a: Action): VmImage
    requires a.Snapshot?
  {
    VmImage(s.ram, a.snap, a.gic, a.disk)
  }

  /** Write the layer; on success re-protect; only then drain. */
  ghost predicate SnapshotStep(s: State, s': State, a: Action)
    requires a.Snapshot?
  {
    var drained := a.result == Done && s.tracked && a.reprotected;
    && Current(a.snap, s.ram)
    && (a.result == Refused <==> Protected(a.name, s.parent, s.restoredFrom, s.force))
    && WriteOutcome(s.dirs, s'.dirs, a.name, s.parent, CaptureOf(s, a),
                    if s.tracked then Some(DirtyList(s)) else None, a.result)
    && s' == s.(dirs := s'.dirs,
                parent := if a.result == Done && s.tracked then Some(a.name) else s.parent,
                dirty := if drained then {} else s.dirty,
                writable := if drained then {} else s.writable)
  }

  /** A failed re-protection keeps the old reset point and the dirty set. */
  ghost predicate CheckpointStep(s: State, s': State, reprotected: bool)
  {
    s' == if s.tracked && !reprotected then s
          else s.(reset := Some(s.ram), dirty := {}, writable := if s.tracked then {} else s.writable)
  }

  /** RAM as the reset handler leaves it. */
  ghost function RolledBack(s: State): Image
    requires s.reset.Some? && |s.reset.value| == |s.ram|
  {
    if s.tracked then Overlay(s.ram, s.reset.value, s.dirty) else s.reset.value
  }

  /** The handler drains first and ignores the result of the re-protection. */
  ghost predicate ResetStep(s: State, s': State, reprotected: bool)
  {
    if s.reset.None? then s' == s
    else |s.reset.value| == |s.ram| && s' == s.(ram := RolledBack(s), dirty := {},
                  writable := if s.tracked && reprotected then {} else s.writable)
  }

  ghost function Relaunched(dirs: Dirs, name: Name, ram: Image, tracked: bool, force: bool): State
  {
    State(tracked, ram, {}, {}, dirs, if tracked then Some(name) else None, Some(name), force, Some(ram))
  }

  /** A freshly booted guest over any store. */
  ghost function Booted(tracked: bool, ram: Image, dirs: Dirs, force: bool): State
  {
    State(tracked, ram, {}, {}, dirs, None, None, force, None)
  }

  /** A new process restores `name` from the same store. */
  ghost predicate RelaunchStep(s: State, s': State, name: Name, tracked: bool, force: bool)
  {
    && Restore(s.dirs, name).Some?
    && s' == Relaunched(s.dirs, name, Restore(s.dirs, name).value.ram, tracked, force)
  }

  ghost predicate Step(s: State, a: Action, s': State)
  {
    match a
    case Fault(pa) => FaultStep(s, s', pa)
    case GuestStore(off, data) => GuestStoreStep(s, s', off, data)
    case DeviceWrite(gpa, data) => DeviceWriteStep(s, s', gpa, data)
    case Snapshot(_, _, _, _, _, _) => SnapshotStep(s, s', a)
    case Checkpoint(ok) => CheckpointStep(s, s', ok)
    case Reset(ok) => ResetStep(s, s', ok)
    case Relaunch(name, tracked, force) => RelaunchStep(s, s', name, tracked, force)
  }

  ghost predicate Run(states: seq<State>, acts: seq<Action>)
  {
    && |states| == |acts| + 1
    && forall i :: 0 <= i < |acts| ==> Step(states[i], acts[i], states[i + 1])
  }

  // ---- invariants ----

  ghost predicate Shape(s: State)
  {
    && RAM_BASE + |s.ram| < TWO64
    && (forall p :: p in s.dirty ==> p * PAGE < |s.ram|)
    && (s.reset.Some? ==> |s.reset.value| == |s.ram|)
    && (!s.tracked ==> s.parent == None)
  }

  /** Every page the guest can write silently is already marked. */
  ghost predicate WritableIsDirty(s: State) { s.tracked ==> s.writable <= s.dirty }

  ghost predicate HasParentImage(s: State)
  {
    s.parent.Some? && Restore(s.dirs, s.parent.value).Some?
  }

  ghost function ParentImage(s: State): Image
    requires HasParentImage(s)
  {
    Restore(s.dirs, s.parent.value).value.ram
  }

  /** The next diff is exact: every byte that differs from the parent's image is on a dirty page. */
  ghost predicate DiffCovered(s: State)
  {
    s.parent.Some? ==> HasParentImage(s) && Covers(s.dirty, s.ram, ParentImage(s))
  }

  /** The next rollback is exact. */
  ghost predicate ResetCovered(s: State)
  {
    s.reset.Some? && s.tracked ==> Covers(s.dirty, s.ram, s.reset.value)
  }

  ghost predicate Tracking(s: State) { Shape(s) && WritableIsDirty(s) }

  /** The tracker is sound and covers every difference from the parent's image. */
  ghost predicate Exact(s: State) { Tracking(s) && DiffCovered(s) }

  /** The action may clear or replace a directory that restoring `m` reads. */
  ghost predicate Overwrites(s: State, a: Action, m: Name)
  {
    a.Snapshot? && a.result != Refused && WritesInto(s.dirs, m, a.name)
  }

  /** The snapshot does not build on a directory it clears, nor does it finish under a name that
      is its own staging name, which takes a host that fails to delete a directory. */
  ghost predicate Placeable(s: State, a: Action)
    requires a.Snapshot?
  {
    a.result != Refused ==> Writable(s.dirs, a.name, s.parent) && (a.result == Done ==> TmpName(a.name) != a.name)
  }

  lemma DirtyListIsDirty(s: State)
    requires Shape(s)
    ensures PageSet(DirtyList(s)) == s.dirty
    ensures forall i :: 0 <= i < |DirtyList(s)| ==> DirtyList(s)[i] in s.dirty
  {
    AscendingListsExactly(s.dirty, PageCount(|s.ram|));
    forall p | p in s.dirty ensures p < PageCount(|s.ram|) { assert p * PAGE < |s.ram|; }
    forall i | 0 <= i < |DirtyList(s)| ensures DirtyList(s)[i] in s.dirty {
      assert DirtyList(s)[i] in DirtyList(s);
    }
  }

  /** The writer's bounds error needs a partial last page that is dirty: with RAM a whole
      number of pages it cannot occur. */
  lemma BoundsErrorNeedsPartialPage(s: State)
    requires Shape(s)
    ensures AllInBounds(s.ram, DirtyList(s)) <==> |s.ram| % PAGE == 0 || |s.ram| / PAGE !in s.dirty
  {
    DirtyListIsDirty(s);
    var list, last := DirtyList(s), |s.ram| / PAGE;
    forall i | 0 <= i < |list|
      ensures InBounds(s.ram, list[i]) <==> |s.ram| % PAGE == 0 || list[i] != last
    {
      assert list[i] in s.dirty;
      assert list[i] * PAGE < |s.ram|;
    }
    if last in s.dirty {
      assert last in PageSet(list);
      var i :| 0 <= i < |list| && list[i] == last;
    }
  }

  // ---- what each kind of step keeps ----

  /** The bytes a memory step changes lie on pages that are dirty afterwards. */
  lemma WriteIsCovered(s: State, a: Action, s': State)
    requires Tracking(s) && Step(s, a, s') && (a.Fault? || a.GuestStore? || a.DeviceWrite?)
    ensures Tracking(s') && s'.dirs == s.dirs && s'.parent == s.parent && s'.reset == s.reset
    ensures s.tracked ==> Covers(s'.dirty, s.ram, s'.ram) && s.dirty <= s'.dirty
  {
    if a.DeviceWrite? && s.tracked { DeviceWriteIsCovered(s, a.gpa, a.data, s'); }
  }

  lemma DeviceWriteIsCovered(s: State, gpa: uint64, data: seq<uint8>, s': State)
    requires Tracking(s) && s.tracked && DeviceWriteStep(s, s', gpa, data)
    ensures Covers(s'.dirty, s.ram, s'.ram)
    ensures forall p :: p in s'.dirty ==> p * PAGE < |s.ram|
  {
    if Mem(RAM_BASE, s.ram).Contains(gpa, |data|) {
      var n, marked := PageCount(|s.ram|), MarkedByWrite(RAM_BASE, PageCount(|s.ram|), gpa, |data|);
      forall i | 0 <= i < |s.ram| && s.ram[i] != s'.ram[i] ensures i / PAGE in marked {
        assert gpa <= RAM_BASE + i < gpa + |data|;
        assert OnPage(RAM_BASE, RAM_BASE + i, i / PAGE);
        AlignedMarks(RAM_BASE, n, gpa, |data|, i / PAGE);
      }
    }
  }

  lemma CoverExtends(dirty: set<nat>, dirty': set<nat>, ram: Image, ram': Image, img: Image)
    requires Covers(dirty, ram, img) && dirty <= dirty' && Covers(dirty', ram, ram')
    ensures Covers(dirty', ram', img)
  {
    forall i | 0 <= i < |ram'| && ram'[i] != img[i] ensures i / PAGE in dirty' {
      assert ram[i] != img[i] || ram[i] != ram'[i];
    }
  }

  /** A snapshot, to a new name or over an old one that it does not build on: published or not,
      re-protected or not, the tracker still covers every difference from the (possibly new)
      parent, no chain that does not read that name is disturbed, and a finished write restores to
      exactly what was captured. */
  lemma SnapshotIsExact(s: State, a: Action, s': State)
    requires a.Snapshot? && Step(s, a, s') && Exact(s) && Placeable(s, a)
    ensures Exact(s')
    ensures forall m :: Walk(s.dirs, m, {}).Some? && !Overwrites(s, a, m) ==> KeepsChain(s.dirs, s'.dirs, m)
    ensures a.result == Done ==> Restore(s'.dirs, a.name) == Some(CaptureOf(s, a))
    ensures a.result != Done && !Published(s.dirs, a.name) && !Published(s.dirs, TmpName(a.name)) ==>
              Restore(s'.dirs, a.name) == None
    ensures a.result != Done && s.parent.Some? ==> HasParentImage(s') && ParentImage(s') == ParentImage(s)
  {
    if a.result != Refused {
      var cap, list := CaptureOf(s, a), if s.tracked then Some(DirtyList(s)) else None;
      DirtyListIsDirty(s);
      WriteKeepsOthers(s.dirs, s'.dirs, a.name, s.parent, cap, list, a.result);
      InterruptedWriteIsSafe(s.dirs, s'.dirs, a.name, s.parent, cap, list, a.result);
    }
  }

  /** A finished snapshot restores its capture if and only if, when it was taken, the tracker
      covered every difference from the parent's image and it did not build on its own name or
      staging name. */
  lemma SnapshotExactIff(s: State, a: Action, s': State)
    requires a.Snapshot? && a.result == Done && Step(s, a, s') && Shape(s) && TmpName(a.name) != a.name
    requires s.parent.Some? ==>
               && HasParentImage(s) && |ParentImage(s)| == |s.ram|
               && (Writable(s.dirs, a.name, s.parent) || WellNamed(s.dirs, s.parent.value, {}))
    ensures Restore(s'.dirs, a.name) == Some(CaptureOf(s, a)) <==>
            DiffCovered(s) && Writable(s.dirs, a.name, s.parent)
  {
    var cap, list := CaptureOf(s, a), if s.tracked then Some(DirtyList(s)) else None;
    DirtyListIsDirty(s);
    if Writable(s.dirs, a.name, s.parent) {
      FinishedWriteRestoresIff(s.dirs, s'.dirs, a.name, s.parent, cap, list);
    } else {
      CircularWriteLosesAll(s.dirs, s'.dirs, a.name, s.parent.value, cap, list, a.name);
    }
  }

  /** The overwrite guard: without force a snapshot over the direct parent or the restore source
      changes nothing at all, and no other snapshot is refused. */
  lemma GuardRefusesIff(s: State, a: Action, s': State)
    requires a.Snapshot? && Step(s, a, s')
    ensures !s.force && (s.parent == Some(a.name) || s.restoredFrom == Some(a.name)) ==> s' == s && a.result == Refused
    ensures s.force || (s.parent != Some(a.name) && s.restoredFrom != Some(a.name)) ==> a.result != Refused
  {
  }

  /** `a` uses `src` as another snapshot's staging directory. */
  ghost predicate StagesInto(a: Action, src: Name) { a.Snapshot? && a.name != src && TmpName(a.name) == src }

  /** Without force the directory a guest was restored from stays as it is through every run that
      does not stage into it. */
  lemma {:induction false} SourceIsKept(states: seq<State>, acts: seq<Action>, tracked: bool, src: Name, r: nat, k: nat)
    requires Run(states, acts) && r < k < |states| && acts[r] == Relaunch(src, tracked, false)
    requires forall j :: r < j < k ==> !acts[j].Relaunch? && !StagesInto(acts[j], src)
    ensures states[k].restoredFrom == Some(src) && !states[k].force
    ensures SameDir(states[r].dirs, states[k].dirs, src)
    decreases k
  {
    assert Step(states[k - 1], acts[k - 1], states[k]);
    if k > r + 1 {
      SourceIsKept(states, acts, tracked, src, r, k - 1);
      assert !StagesInto(acts[k - 1], src);
      StepKeepsSource(states[k - 1], acts[k - 1], states[k], src);
    }
  }

  /** What a relaunched guest starts from: the restored RAM, clean and fully protected, with that
      RAM as its reset point and, when tracked, the restored snapshot as parent of the next. */
  lemma RelaunchSetsUp(s: State, s': State, name: Name, tracked: bool, force: bool)
    requires RelaunchStep(s, s', name, tracked, force)
    ensures Restore(s.dirs, name).Some? && s'.ram == Restore(s.dirs, name).value.ram && s'.reset == Some(s'.ram)
    ensures s'.dirty == {} && s'.writable == {} && s'.dirs == s.dirs && s'.tracked == tracked && s'.force == force
    ensures s'.restoredFrom == Some(name) && s'.parent == if tracked then Some(name) else None
  {
  }

  /** A device write lands exactly when it lies inside RAM, byte by byte; otherwise nothing changes. */
  lemma DeviceWriteEffect(s: State, s': State, gpa: uint64, data: seq<uint8>)
    requires DeviceWriteStep(s, s', gpa, data)
    ensures if RAM_BASE <= gpa && gpa + |data| <= RAM_BASE + |s.ram| then
              && |s'.ram| == |s.ram| && s'.writable == s.writable && s'.dirs == s.dirs && s'.reset == s.reset
              && forall i :: 0 <= i < |s.ram| ==>
                   s'.ram[i] == if gpa <= RAM_BASE + i < gpa + |data| then data[RAM_BASE + i - gpa] else s.ram[i]
            else s' == s
  {
  }

  lemma StepKeepsSource(s: State, a: Action, s': State, src: Name)
    requires Step(s, a, s') && !a.Relaunch? && !s.force && !StagesInto(a, src)
    requires s.restoredFrom == Some(src) || s.parent == Some(src)
    ensures s'.restoredFrom == s.restoredFrom && s'.force == s.force && SameDir(s.dirs, s'.dirs, src)
  {
    if a.Snapshot? { GuardRefusesIff(s, a, s'); }
  }

  /** A snapshot that nothing forbids can finish: some next state has it stored whole. */
  lemma SnapshotCanFinish(s: State, a: Action) returns (s': State)
    requires Shape(s) && a.Snapshot? && a.result == Done && Current(a.snap, s.ram)
    requires s.force || (s.parent != Some(a.name) && s.restoredFrom != Some(a.name))
    requires Possible(a.name, s.parent, CaptureOf(s, a), if s.tracked then Some(DirtyList(s)) else None)
    ensures Step(s, a, s') && s'.parent == if s.tracked then Some(a.name) else s.parent
  {
    var cap, pages := CaptureOf(s, a), if s.tracked then DirtyList(s) else [];
    DirtyListFits(s);
    var memory := if s.parent.None? then s.ram else Pack(s.ram, pages);
    var files: Dir := map[GicBin := Raw(cap.gic), VmStateJson := StateDoc(cap.snap), DiskImg := Raw(cap.disk.value),
                          MemoryBin := Raw(memory), DirtyIdx := Raw(EncodeIndex(pages)),
                          ManifestJson := ManifestDoc(ManifestFor(a.name, s.parent, cap.snap))];
    assert LayerFiles(files, s.parent, cap, pages);
    var dirs := (s.dirs - {TmpName(a.name)})[a.name := files];
    var drained := s.tracked && a.reprotected;
    s' := s.(dirs := dirs, parent := if s.tracked then Some(a.name) else s.parent,
             dirty := if drained then {} else s.dirty, writable := if drained then {} else s.writable);
    assert LayerAt(dirs, a.name, s.parent, cap, pages);
  }

  lemma DirtyListFits(s: State)
    requires Shape(s)
    ensures AllFit(DirtyList(s))
  {
    DirtyListIsDirty(s);
    forall i | 0 <= i < |DirtyList(s)| ensures DirtyList(s)[i] < TWO64 {
      assert DirtyList(s)[i] in s.dirty;
    }
  }

  /** A checkpoint drains the shared tracker: the next diff stays exact if and only if RAM is
      still the parent's image (or there is nothing to diff against, or nothing was drained). */
  lemma CheckpointKeepsDiffIff(s: State, s': State, reprotected: bool)
    requires Tracking(s) && DiffCovered(s) && CheckpointStep(s, s', reprotected)
    ensures Tracking(s') && (ResetCovered(s) ==> ResetCovered(s'))
    ensures DiffCovered(s') <==> s.parent.None? || !reprotected || s.ram == ParentImage(s)
  {
    if s.parent.Some? && reprotected && DiffCovered(s') {
      assert Covers({}, s.ram, ParentImage(s));
      assert s.ram == ParentImage(s);
    }
  }

  /** A drained snapshot moves the tracker past the reset point: the next rollback stays exact
      if and only if RAM is still the checkpointed image. */
  lemma SnapshotKeepsResetIff(s: State, a: Action, s': State)
    requires a.Snapshot? && Step(s, a, s') && ResetCovered(s)
    ensures ResetCovered(s') <==>
            !(s.tracked && a.result == Done && a.reprotected) || s.reset.None? || s.ram == s.reset.value
  {
    if s.tracked && a.result == Done && a.reprotected && s.reset.Some? && ResetCovered(s') {
      assert Covers({}, s.ram, s.reset.value);
      assert s.ram == s.reset.value;
    }
  }

  /** A reset returns RAM to the checkpointed image, byte for byte what the full copy gives,
      exactly when the tracker covered every change since the checkpoint. */
  lemma ResetIsExactIff(s: State, s': State, reprotected: bool)
    requires s.reset.Some? && ResetStep(s, s', reprotected)
    ensures s'.ram == s.reset.value <==> ResetCovered(s)
    ensures s'.ram == s.reset.value ==> ResetCovered(s')
  {
    if s.tracked {
      OverlayExactIffCovered(s.ram, s.reset.value, s.dirty);
      assert Covers(s.dirty, s.reset.value, s.ram) <==> Covers(s.dirty, s.ram, s.reset.value);
    }
  }

  /** A reset keeps the next diff exact if and only if what it rolls back to is the parent's
      image, however well the tracker covered either. */
  lemma ResetLeavesDiffIff(s: State, s': State, reprotected: bool)
    requires s.reset.Some? && ResetStep(s, s', reprotected) && (s.parent.Some? ==> HasParentImage(s))
    ensures DiffCovered(s') <==> s.parent.None? || RolledBack(s) == ParentImage(s)
  {
    if s.parent.Some? && DiffCovered(s') {
      assert Covers({}, RolledBack(s), ParentImage(s));
      assert RolledBack(s) == ParentImage(s);
    }
  }

  /** Where the rollback is exact, that is: if and only if the reset image is the parent's. */
  lemma ResetKeepsDiffIff(s: State, s': State, reprotected: bool)
    requires s.reset.Some? && ResetStep(s, s', reprotected)
    requires DiffCovered(s) && ResetCovered(s)
    ensures DiffCovered(s') <==> s.parent.None? || s.reset.value == ParentImage(s)
  {
    ResetIsExactIff(s, s', reprotected);
    ResetLeavesDiffIff(s, s', reprotected);
  }

  /** A snapshot taken right after a checkpoint restores its capture if and only if the checkpoint
      was harmless in the sense above. */
  lemma SnapshotAfterCheckpointIff(s: State, reprotected: bool, t: State, a: Action, t': State)
    requires Exact(s) && CheckpointStep(s, t, reprotected)
    requires a.Snapshot? && a.result == Done && Step(t, a, t') && Placeable(t, a)
    ensures Restore(t'.dirs, a.name) == Some(CaptureOf(t, a)) <==>
            s.parent.None? || !reprotected || s.ram == ParentImage(s)
  {
    CheckpointKeepsDiffIff(s, t, reprotected);
    SnapshotExactIff(t, a, t');
  }

  /** A snapshot taken right after a reset restores its capture if and only if the image rolled
      back to is the parent's. */
  lemma SnapshotAfterResetIff(s: State, reprotected: bool, t: State, a: Action, t': State)
    requires Exact(s) && ResetCovered(s) && s.reset.Some? && ResetStep(s, t, reprotected)
    requires a.Snapshot? && a.result == Done && Step(t, a, t') && Placeable(t, a)
    ensures Restore(t'.dirs, a.name) == Some(CaptureOf(t, a)) <==> s.parent.None? || s.reset.value == ParentImage(s)
  {
    ResetKeepsDiffIff(s, t, reprotected);
    SnapshotExactIff(t, a, t');
  }

  /** A reset right after a finished, drained snapshot returns to the checkpoint if and only if
      RAM had not moved from it. */
  lemma ResetAfterSnapshotIff(s: State, a: Action, t: State, reprotected: bool, t': State)
    requires ResetCovered(s) && s.reset.Some? && a.Snapshot? && Step(s, a, t)
    requires ResetStep(t, t', reprotected)
    ensures t'.ram == s.reset.value <==>
            !(s.tracked && a.result == Done && a.reprotected) || s.ram == s.reset.value
  {
    SnapshotKeepsResetIff(s, a, t);
    ResetIsExactIff(t, t', reprotected);
  }

  /** Ignoring a failed re-protection is safe exactly when no page had been granted. */
  lemma ResetKeepsTrackingIff(s: State, s': State, reprotected: bool)
    requires Tracking(s) && s.tracked && s.reset.Some? && ResetStep(s, s', reprotected)
    ensures Tracking(s') <==> reprotected || s.writable == {}
  {
  }

  // ---- runs ----

  /** What must hold before a step for the tracker to stay true to the parent. The conditions are
      the exact ones of SnapshotExactIff, CheckpointKeepsDiffIff, ResetKeepsTrackingIff and
      ResetLeavesDiffIff. */
  ghost predicate KeepsDiff(s: State, a: Action)
  {
    match a
    case Fault(_) => true
    case GuestStore(_, _) => true
    case DeviceWrite(_, _) => true
    case Snapshot(_, _, _, _, _, _) => Placeable(s, a)
    case Checkpoint(ok) => s.parent.None? || !ok || (HasParentImage(s) && s.ram == ParentImage(s))
    case Reset(ok) =>
      && (s.tracked && s.reset.Some? ==> ok || s.writable == {})
      && (s.parent.Some? && s.reset.Some? ==>
            Shape(s) && HasParentImage(s) && RolledBack(s) == ParentImage(s))
    case Relaunch(_, _, _) => true
  }

  /** A step that meets its condition. The last clause says that a restored RAM fits the
      address space. */
  ghost predicate GoodStep(s: State, a: Action, s': State)
  {
    Step(s, a, s') && KeepsDiff(s, a) && (a.Relaunch? ==> RAM_BASE + |s'.ram| < TWO64)
  }

  lemma StepKeepsDiff(s: State, a: Action, s': State)
    requires Exact(s) && GoodStep(s, a, s')
    ensures Exact(s')
    ensures forall m :: Walk(s.dirs, m, {}).Some? && !Overwrites(s, a, m) ==> KeepsChain(s.dirs, s'.dirs, m)
  {
    if a.Snapshot? {
      SnapshotIsExact(s, a, s');
    } else {
      SameStoreKeepsChains(s, s');
      if a.Fault? || a.GuestStore? || a.DeviceWrite? {
        WriteIsCovered(s, a, s');
        if s.parent.Some? { CoverExtends(s.dirty, s'.dirty, s.ram, s'.ram, ParentImage(s)); }
      }
    }
  }

  lemma SameStoreKeepsChains(s: State, s': State)
    requires s'.dirs == s.dirs
    ensures forall m :: Walk(s.dirs, m, {}).Some? ==> KeepsChain(s.dirs, s'.dirs, m)
  {
  }

  /** A fresh boot starts a run, with or without tracking, over any store. */
  lemma BootIsExact(tracked: bool, ram: Image, dirs: Dirs, force: bool)
    requires RAM_BASE + |ram| < TWO64
    ensures Exact(Booted(tracked, ram, dirs, force)) && ResetCovered(Booted(tracked, ram, dirs, force))
  {
  }

  /** A run in which every step meets its condition. */
  ghost predicate DiffRun(states: seq<State>, acts: seq<Action>)
  {
    && |states| == |acts| + 1 && Exact(states[0])
    && forall i :: 0 <= i < |acts| ==> GoodStep(states[i], acts[i], states[i + 1])
  }

  /** In every reachable state each guest-writable page is marked, and each page that differs
      from the parent's image is marked. */
  lemma {:induction false} TrackerCoversEveryState(states: seq<State>, acts: seq<Action>, k: nat)
    requires DiffRun(states, acts) && k < |states|
    ensures Exact(states[k])
    decreases k
  {
    if k > 0 {
      TrackerCoversEveryState(states, acts, k - 1);
      StepKeepsDiff(states[k - 1], acts[k - 1], states[k]);
    }
  }

  /** No action from `j` on, up to `k`, replaces a layer of the chain of `m`. */
  ghost predicate Untouched(states: seq<State>, acts: seq<Action>, m: Name, j: nat, k: nat)
    requires |states| == |acts| + 1 && k <= |acts|
  {
    forall i :: j <= i < k ==> !Overwrites(states[i], acts[i], m)
  }

  /** A name that restores goes on restoring to the same machine until a layer of its own chain
      is written. */
  lemma {:induction false} RestoresUntilOverwritten(states: seq<State>, acts: seq<Action>, m: Name, j: nat, k: nat)
    requires DiffRun(states, acts) && j <= k < |states|
    requires Restore(states[j].dirs, m).Some? && Untouched(states, acts, m, j, k)
    ensures Restore(states[k].dirs, m) == Restore(states[j].dirs, m)
    decreases k
  {
    if j < k {
      var s, a, s' := states[k - 1], acts[k - 1], states[k];
      assert Untouched(states, acts, m, j, k - 1) && !Overwrites(s, a, m) && GoodStep(s, a, s');
      RestoresUntilOverwritten(states, acts, m, j, k - 1);
      TrackerCoversEveryState(states, acts, k - 1);
      StepKeepsRestore(s, a, s', m);
    }
  }

  lemma StepKeepsRestore(s: State, a: Action, s': State, m: Name)
    requires Exact(s) && GoodStep(s, a, s') && Restore(s.dirs, m).Some? && !Overwrites(s, a, m)
    ensures Restore(s'.dirs, m) == Restore(s.dirs, m)
  {
    StepKeepsDiff(s, a, s');
    RestoreStable(s.dirs, s'.dirs, m);
  }

  lemma FinishedRestores(states: seq<State>, acts: seq<Action>, i: nat)
    requires DiffRun(states, acts) && i < |acts| && acts[i].Snapshot? && acts[i].result == Done
    ensures Restore(states[i + 1].dirs, acts[i].name) == Some(CaptureOf(states[i], acts[i]))
  {
    TrackerCoversEveryState(states, acts, i);
    assert GoodStep(states[i], acts[i], states[i + 1]);
    SnapshotIsExact(states[i], acts[i], states[i + 1]);
  }

  /** Every snapshot finished in the run restores to exactly the machine captured when it was
      taken, at every later point until a layer of its own chain is written, through chains and
      relaunches of any length. */
  lemma EverySnapshotRestoresItsCapture(states: seq<State>, acts: seq<Action>, i: nat, k: nat)
    requires DiffRun(states, acts) && i < k < |states|
    requires acts[i].Snapshot? && acts[i].result == Done && Untouched(states, acts, acts[i].name, i + 1, k)
    ensures Restore(states[k].dirs, acts[i].name) == Some(CaptureOf(states[i], acts[i]))
  {
    FinishedRestores(states, acts, i);
    RestoresUntilOverwritten(states, acts, acts[i].name, i + 1, k);
  }

  /** The plain tracked run: memory writes, snapshots, failed or not, and relaunches, without
      checkpoints or resets. */
  lemma PlainRunIsExact(states: seq<State>, acts: seq<Action>, i: nat, k: nat)
    requires Run(states, acts) && Exact(states[0]) && i < k < |states|
    requires forall j :: 0 <= j < |acts| ==>
               && !acts[j].Checkpoint? && !acts[j].Reset?
               && (acts[j].Snapshot? ==> Placeable(states[j], acts[j]))
               && (acts[j].Relaunch? ==> RAM_BASE + |states[j + 1].ram| < TWO64)
    requires acts[i].Snapshot? && acts[i].result == Done && Untouched(states, acts, acts[i].name, i + 1, k)
    ensures Restore(states[k].dirs, acts[i].name) == Some(CaptureOf(states[i], acts[i]))
  {
    assert DiffRun(states, acts);
    EverySnapshotRestoresItsCapture(states, acts, i, k);
  }

  // ---- checkpoint and reset ----

  /** What must hold before a step for the tracker to stay true to the reset point. Each
      condition is one of the exact ones above; a checkpoint that takes effect starts anew. */
  ghost predicate KeepsReset(s: State, a: Action)
  {
    match a
    case Fault(_) => true
    case GuestStore(_, _) => true
    case DeviceWrite(_, _) => true
    case Snapshot(_, _, _, _, result, ok) =>
      !(s.tracked && result == Done && ok) || s.reset.None? || s.ram == s.reset.value
    case Checkpoint(ok) => s.tracked && !ok
    case Reset(ok) => s.tracked && s.reset.Some? ==> ok || s.writable == {}
    case Relaunch(_, _, _) => false
  }

  /** `img` is the reset point, and the next rollback to it is exact. */
  ghost predicate RollsBackTo(s: State, img: Image) { Tracking(s) && ResetCovered(s) && s.reset == Some(img) }

  ghost predicate GoodResetStep(s: State, a: Action, s': State) { Step(s, a, s') && KeepsReset(s, a) }

  lemma StepKeepsReset(s: State, a: Action, s': State, img: Image)
    requires RollsBackTo(s, img) && GoodResetStep(s, a, s')
    ensures RollsBackTo(s', img)
  {
    if a.Fault? || a.GuestStore? || a.DeviceWrite? {
      WriteIsCovered(s, a, s');
      if s.tracked { CoverExtends(s.dirty, s'.dirty, s.ram, s'.ram, img); }
    } else if a.Snapshot? {
      SnapshotKeepsResetIff(s, a, s');
    } else if a.Reset? {
      ResetIsExactIff(s, s', a.reprotected);
    }
  }

  /** A checkpoint that takes effect: re-protection succeeded, or there is no tracking. */
  ghost predicate CheckpointTaken(s: State, a: Action, s': State)
  {
    Tracking(s) && Step(s, a, s') && a.Checkpoint? && (s.tracked ==> a.reprotected)
  }

  /** A checkpoint taken at `c`, and only steps that meet their condition from there to `k`. */
  ghost predicate ResetRun(states: seq<State>, acts: seq<Action>, c: nat, k: nat)
  {
    && |states| == |acts| + 1 && c < k <= |acts| && CheckpointTaken(states[c], acts[c], states[c + 1])
    && forall j :: c < j < k ==> GoodResetStep(states[j], acts[j], states[j + 1])
  }

  lemma CheckpointCovers(s: State, a: Action, s': State)
    requires CheckpointTaken(s, a, s')
    ensures RollsBackTo(s', s.ram)
  {
  }

  /** Faults, guest stores and device writes from `t` on. */
  ghost predicate MemoryRun(t: State, states: seq<State>, acts: seq<Action>)
  {
    && |states| == |acts| + 1 && states[0] == t
    && forall i :: 0 <= i < |acts| ==> MemoryStep(states[i], acts[i], states[i + 1])
  }

  ghost predicate MemoryStep(s: State, a: Action, s': State)
  {
    Step(s, a, s') && (a.Fault? || a.GuestStore? || a.DeviceWrite?)
  }

  /** Whatever is written from `t` on, the next reset undoes it. */
  ghost predicate AllUndone(t: State, img: Image)
  {
    forall states, acts, w, ok ::
      MemoryRun(t, states, acts) && ResetStep(states[|acts|], w, ok) ==> w.ram == img
  }

  lemma {:induction false} MemoryRunKeepsReset(t: State, states: seq<State>, acts: seq<Action>, img: Image, k: nat)
    requires RollsBackTo(t, img) && MemoryRun(t, states, acts) && k <= |acts|
    ensures RollsBackTo(states[k], img)
    decreases k
  {
    if k > 0 {
      MemoryRunKeepsReset(t, states, acts, img, k - 1);
      assert MemoryStep(states[k - 1], acts[k - 1], states[k]);
      StepKeepsReset(states[k - 1], acts[k - 1], states[k], img);
    }
  }

  // ---- every store can complete ----

  /** `s` with more pages marked and granted. */
  ghost function Granted(s: State, pages: set<nat>): State
  {
    s.(dirty := s.dirty + pages, writable := s.writable + pages)
  }

  ghost function Pages(lo: nat, hi: nat): (r: set<nat>)
    ensures forall p: nat :: p in r <==> lo <= p < hi
  {
    if lo >= hi then {} else Pages(lo, hi - 1) + {hi - 1}
  }

  /** One fault a page marks and grants any stretch of pages of RAM, and nothing else. */
  lemma {:induction false} FaultsGrant(s: State, lo: nat, hi: nat) returns (states: seq<State>, acts: seq<Action>)
    requires Shape(s) && s.tracked && lo <= hi && (lo < hi ==> (hi - 1) * PAGE < |s.ram|)
    ensures MemoryRun(s, states, acts) && states[|acts|] == Granted(s, Pages(lo, hi)) && |acts| == hi - lo
    decreases hi - lo
  {
    if lo == hi {
      states, acts := [s], [];
      assert Granted(s, Pages(lo, hi)) == s;
    } else {
      states, acts := FaultsGrant(s, lo, hi - 1);
      var t, pa := states[|acts|], RAM_BASE + (hi - 1) * PAGE;
      var u := Granted(s, Pages(lo, hi));
      assert Pages(lo, hi) == Pages(lo, hi - 1) + {hi - 1};
      assert FaultStep(t, u, pa);
      states, acts := Longer(s, states, acts, Fault(pa), u);
    }
  }

  lemma Longer(s: State, states: seq<State>, acts: seq<Action>, a: Action, u: State)
    returns (states': seq<State>, acts': seq<Action>)
    requires MemoryRun(s, states, acts) && MemoryStep(states[|acts|], a, u)
    ensures MemoryRun(s, states', acts') && states'[|acts'|] == u && |acts'| == |acts| + 1
  {
    states', acts' := states + [u], acts + [a];
    forall i | 0 <= i < |acts'| ensures MemoryStep(states'[i], acts'[i], states'[i + 1]) {
      if i < |acts| { assert MemoryStep(states[i], acts[i], states[i + 1]); }
    }
  }

  /** Every guest store inside tracked RAM completes after one fault for each page it touches, and
      then RAM holds exactly what was stored. */
  lemma EveryStoreCompletes(s: State, off: nat, data: seq<uint8>) returns (states: seq<State>, acts: seq<Action>)
    requires Shape(s) && s.tracked && data != [] && off + |data| <= |s.ram|
    ensures MemoryRun(s, states, acts) && |acts| == (off + |data| - 1) / PAGE - off / PAGE + 2
    ensures var u := states[|acts|];
            && |u.ram| == |s.ram| && u.ram[off..off + |data|] == data
            && (forall i :: 0 <= i < |s.ram| && !(off <= i < off + |data|) ==> u.ram[i] == s.ram[i])
            && u.dirs == s.dirs && u.parent == s.parent && u.reset == s.reset
  {
    var lo, hi := off / PAGE, (off + |data| - 1) / PAGE + 1;
    assert (hi - 1) * PAGE <= off + |data| - 1;
    states, acts := FaultsGrant(s, lo, hi);
    var t := states[|acts|];
    var u := t.(ram := Splice(t.ram, off, data));
    forall i | off <= i < off + |data| ensures i / PAGE in t.writable { PageBetween(off, i, off + |data| - 1); }
    assert GuestStoreStep(t, u, off, data);
    states, acts := Longer(s, states, acts, GuestStore(off, data), u);
    assert u.ram[off..off + |data|] == data;
  }

  /** Without tracking a store needs no fault. */
  lemma UntrackedStoreCompletes(s: State, off: nat, data: seq<uint8>) returns (u: State)
    requires !s.tracked && off + |data| <= |s.ram|
    ensures Step(s, GuestStore(off, data), u) && u == s.(ram := u.ram) && |u.ram| == |s.ram|
    ensures u.ram[off..off + |data|] == data
    ensures forall i :: 0 <= i < |s.ram| && !(off <= i < off + |data|) ==> u.ram[i] == s.ram[i]
  {
    u := s.(ram := Splice(s.ram, off, data));
    assert u.ram[off..off + |data|] == data;
  }

  lemma PageBetween(a: nat, i: nat, b: nat)
    requires a <= i <= b
    ensures a / PAGE <= i / PAGE <= b / PAGE
  {
  }

  /** After a reset, the next one undoes every possible run of memory writes if and only if
      re-protection succeeded or no page had been granted. */
  lemma WritesAfterResetUndoneIff(s: State, t: State, reprotected: bool, img: Image)
    requires RollsBackTo(s, img) && s.tracked && ResetStep(s, t, reprotected)
    ensures AllUndone(t, img) <==> reprotected || s.writable == {}
  {
    ResetIsExactIff(s, t, reprotected);
    if reprotected || s.writable == {} {
      ResetKeepsTrackingIff(s, t, reprotected);
      TrackedWritesAreUndone(t, img);
    } else {
      var p :| p in s.writable;
      var u, w, off, v := UnseenStore(t, p, img);
      var states, acts := [t, u], [GuestStore(off, [v])];
      assert MemoryStep(states[0], acts[0], states[1]);
      assert MemoryRun(t, states, acts) && ResetStep(states[|acts|], w, true) && w.ram != img;
    }
  }

  lemma TrackedWritesAreUndone(t: State, img: Image)
    requires RollsBackTo(t, img)
    ensures AllUndone(t, img)
  {
    forall states, acts, w, ok | MemoryRun(t, states, acts) && ResetStep(states[|acts|], w, ok)
      ensures w.ram == img
    {
      MemoryRunKeepsReset(t, states, acts, img, |acts|);
      ResetIsExactIff(states[|acts|], w, ok);
    }
  }

  /** A store to a granted page that is not marked. */
  lemma UnseenStore(t: State, p: nat, img: Image) returns (u: State, w: State, off: nat, v: uint8)
    requires t.tracked && t.dirty == {} && p in t.writable && p * PAGE < |img|
    requires t.ram == img && t.reset == Some(img)
    ensures GuestStoreStep(t, u, off, [v]) && ResetStep(u, w, true) && w.ram != img
  {
    off := p * PAGE;
    v := if img[off] == 0 then 1 else 0;
    u := t.(ram := Splice(t.ram, off, [v]));
    w := u.(ram := Overlay(u.ram, img, {}), writable := {});
    assert w.ram[off] == v;
  }

  lemma {:induction false} CheckpointStaysCovered(states: seq<State>, acts: seq<Action>, c: nat, k: nat)
    requires ResetRun(states, acts, c, k)
    ensures RollsBackTo(states[k], states[c].ram)
    decreases k
  {
    if k == c + 1 {
      CheckpointCovers(states[c], acts[c], states[k]);
    } else {
      CheckpointStaysCovered(states, acts, c, k - 1);
      StepKeepsReset(states[k - 1], acts[k - 1], states[k], states[c].ram);
    }
  }

  /** Each reset returns RAM byte for byte to the latest checkpoint, any number of times. */
  lemma ResetReturnsToCheckpoint(states: seq<State>, acts: seq<Action>, c: nat, r: nat)
    requires ResetRun(states, acts, c, r) && r < |acts|
    requires acts[r].Reset? && Step(states[r], acts[r], states[r + 1])
    ensures states[r + 1].ram == states[c].ram
  {
    CheckpointStaysCovered(states, acts, c, r);
    ResetIsExactIff(states[r], states[r + 1], acts[r].reprotected);
  }

  /** The state run_restore sets up: the reset image is the parent's image. */
  ghost predicate Aligned(s: State)
  {
    && Exact(s) && s.tracked && ResetCovered(s)
    && s.reset.Some? && s.parent.Some? && s.reset.value == ParentImage(s)
  }

  lemma RelaunchIsAligned(s: State, s': State, name: Name, force: bool)
    requires RelaunchStep(s, s', name, true, force) && RAM_BASE + |s'.ram| < TWO64
    ensures Aligned(s')
  {
  }

  /** Steps that move neither the parent nor the reset point: writes, resets, and snapshots and
      checkpoints that fail. */
  ghost predicate KeepsBoth(s: State, a: Action)
  {
    KeepsReset(s, a) && (a.Snapshot? ==> a.result != Done && Placeable(s, a))
  }

  lemma StepKeepsAligned(s: State, a: Action, s': State)
    requires Aligned(s) && Step(s, a, s') && KeepsBoth(s, a)
    ensures Aligned(s') && s'.parent == s.parent
  {
    StepKeepsReset(s, a, s', s.reset.value);
    if a.Reset? {
      ResetKeepsDiffIff(s, s', a.reprotected);
    } else if a.Snapshot? {
      SnapshotIsExact(s, a, s');
    } else if !a.Checkpoint? {
      WriteIsCovered(s, a, s');
      CoverExtends(s.dirty, s'.dirty, s.ram, s'.ram, ParentImage(s));
    }
  }

  /** From a relaunch on, any interleaving of writes and resets keeps both the diff and the
      rollback exact. */
  lemma {:induction false} WritesAndResetsStayAligned(states: seq<State>, acts: seq<Action>, k: nat)
    requires Run(states, acts) && Aligned(states[0]) && k < |states|
    requires forall j :: 0 <= j < k ==> KeepsBoth(states[j], acts[j])
    ensures Aligned(states[k]) && states[k].parent == states[0].parent
    decreases k
  {
    if k > 0 {
      WritesAndResetsStayAligned(states, acts, k - 1);
      assert Step(states[k - 1], acts[k - 1], states[k]);
      StepKeepsAligned(states[k - 1], acts[k - 1], states[k]);
    }
  }

  /** ... so the next diff is exact. */
  lemma DiffAfterResetsIsExact(states: seq<State>, acts: seq<Action>, k: nat)
    requires Run(states, acts) && Aligned(states[0]) && k < |acts|
    requires forall j :: 0 <= j < k ==> KeepsBoth(states[j], acts[j])
    requires acts[k].Snapshot? && acts[k].result == Done && Placeable(states[k], acts[k])
    ensures Restore(states[k + 1].dirs, acts[k].name) == Some(CaptureOf(states[k], acts[k]))
  {
    WritesAndResetsStayAligned(states, acts, k);
    assert Step(states[k], acts[k], states[k + 1]);
    SnapshotIsExact(states[k], acts[k], states[k + 1]);
  }
}
