/** The running guest with its handlers (spike/src/bin/boot.rs): in-place updates of RAM,
    the tracker, page protection, the store and the reset point, each proved to be one step
    of Machine. */
module Guest {
  import opened Prelude
  import opened Dirty
  import opened Memory
  import opened Images
  import opened Store
  import opened Writer
  import opened Machine

  class Vm {
    const ram: array<uint8>
    const tracker: DirtyTracker?
    const devices: GuestRam
    const writer: SnapshotWriter
    var writable: set<nat>
    var reset: Option<Image>

    ghost function Footprint(): set<object> {
      {this, writer, writer.store} + devices.Footprint()
    }

    ghost predicate Valid()
      reads Footprint()
    {
      && devices.base == RAM_BASE && devices.bytes == ram && devices.dirty == tracker
      && devices.Valid() && RAM_BASE + ram.Length < TWO64
      && (reset.Some? ==> |reset.value| == ram.Length)
    }

    ghost function View(): State
      requires Valid()
      reads Footprint()
    {
      State(tracker != null, ram[..], if tracker != null then tracker.Pages() else {}, writable,
            writer.store.dirs, writer.parent, writer.restoredFrom, writer.force, reset)
    }

    /** Arms a guest on RAM that is already loaded: nothing dirty, nothing granted. */
    constructor (ram: array<uint8>, tracked: bool, writer: SnapshotWriter, reset: Option<Image>)
      requires RAM_BASE + ram.Length < TWO64 && (reset.Some? ==> |reset.value| == ram.Length)
      ensures Valid() && this.writer == writer && this.ram == ram
      ensures fresh(Footprint() - {ram, writer, writer.store})
      ensures View() == State(tracked, ram[..], {}, {}, writer.store.dirs, writer.parent,
                              writer.restoredFrom, writer.force, reset)
    {
      var t: DirtyTracker? := null;
      if tracked { t := new DirtyTracker(RAM_BASE, ram.Length); }
      var d := new GuestRam(RAM_BASE, ram, t);
      this.ram, this.tracker, this.devices, this.writer := ram, t, d, writer;
      this.writable, this.reset := {}, reset;
    }

    /** The data-abort branch of `run` and its DirtyFault arm: only a write inside the tracked
        window is a dirty fault, everything else goes to the MMIO bus. */
    method OnDataAbort(isWrite: bool, pa: uint64) returns (dirtyFault: bool)
      requires Valid()
      modifies Footprint()
      ensures Valid()
      ensures dirtyFault <==> isWrite && tracker != null && RAM_BASE <= pa < RAM_BASE + ram.Length
      ensures if dirtyFault then FaultStep(old(View()), View(), pa) else View() == old(View())
    {
      dirtyFault := tracker != null && isWrite && pa >= RAM_BASE && pa < RAM_BASE + ram.Length;
      if dirtyFault {
        tracker.Mark(pa);
        var pageBase := pa - pa % PAGE;
        assert (pageBase - RAM_BASE) / PAGE == (pa - RAM_BASE) / PAGE;
        writable := writable + {(pageBase - RAM_BASE) / PAGE};
      }
    }

    method OnDeviceWrite(gpa: uint64, data: seq<uint8>) returns (ok: bool)
      requires Valid()
      modifies Footprint()
      ensures Valid()
      ensures DeviceWriteStep(old(View()), View(), gpa, data)
    {
      ok := devices.WriteSlice(gpa, data);
    }

    /** The snapshot handler. `reprotect` is whether write-protecting RAM again succeeds. */
    method OnSnapshot(requested: Option<Name>, snap: VmSnapshot, gic: seq<uint8>, disk: Option<seq<uint8>>,
                      reprotect: bool) returns (r: IoResult, ok: bool)
      requires Valid() && Current(snap, ram[..])
      modifies Footprint()
      ensures Valid()
      ensures ok <==> r == Done && (tracker != null ==> reprotect)
      ensures var s, name := old(View()), if requested.Some? then requested.value else writer.name;
              var list := if s.tracked then Some(DirtyList(s)) else None;
              !writer.store.faulted && r != Refused ==>
                (r == Done <==> Possible(name, s.parent, VmImage(s.ram, snap, gic, disk), list))
      ensures var name := if requested.Some? then requested.value else writer.name;
              SnapshotStep(old(View()), View(), Snapshot(name, snap, gic, disk, r, reprotect))
    {
      var cap := VmImage(ram[..], snap, gic, disk);
      var pages := InspectPages();
      ghost var cleared;
      r, cleared := writer.Write(requested, cap, pages);
      ok := r == Done;
      if ok && tracker != null {
        if !reprotect { ok := false; return; }
        writable := {};
        var drained := tracker.CollectPages(true);
      }
    }

    method InspectPages() returns (pages: Option<seq<nat>>)
      requires Valid()
      modifies Footprint()
      ensures Valid() && View() == old(View())
      ensures pages == (if View().tracked then Some(DirtyList(View())) else None)
      ensures pages.Some? ==> AllFit(pages.value)
    {
      if tracker == null { return None; }
      var list := tracker.CollectPages(false);
      AscendingListsExactly(tracker.Pages(), tracker.pageCount);
      assert forall i | 0 <= i < |list| :: list[i] in list;
      pages := Some(list);
    }

    method OnCheckpoint(reprotect: bool) returns (ok: bool)
      requires Valid()
      modifies Footprint()
      ensures Valid()
      ensures ok <==> tracker != null ==> reprotect
      ensures CheckpointStep(old(View()), View(), reprotect)
    {
      var pristine := ram[..];
      if tracker != null {
        if !reprotect { return false; }
        writable := {};
        var drained := tracker.CollectPages(true);
      }
      reset := Some(pristine);
      ok := true;
    }

    /** The reset handler: drain, roll back the drained pages, re-protect and ignore failure. */
    method OnReset(reprotect: bool)
      requires Valid()
      modifies Footprint()
      ensures Valid()
      ensures ResetStep(old(View()), View(), reprotect)
    {
      if reset.None? { return; }
      if tracker != null {
        ghost var dirty := tracker.Pages();
        var pages := tracker.CollectPages(true);
        AscendingListsExactly(dirty, tracker.pageCount);
        assert PageSet(pages) == dirty;
        RollbackPages(reset.value, ram, pages);
        if reprotect { writable := {}; }
      } else {
        RollbackFull(reset.value, ram);
      }
    }
  }

  /** run_restore up to the point where the guest runs: resolve and validate the chain, map
      the root image, overlay each diff in place, arm tracking, seed the reset point. */
  method RunRestore(store: SnapshotStore, name: Name, writeName: Name, tracked: bool, force: bool)
    returns (vm: Vm?)
    ensures vm == null <==>
            Restore(store.dirs, name).None? || RAM_BASE + |Restore(store.dirs, name).value.ram| >= TWO64
    ensures vm != null ==>
              && vm.Valid() && fresh(vm.Footprint() - {store})
              && vm.View() == Relaunched(store.dirs, name, Restore(store.dirs, name).value.ram, tracked, force)
  {
    vm := null;
    var ok, ram, pristine := LoadRam(store, name);
    if !ok || RAM_BASE + ram.Length >= TWO64 { return; }
    var writer := new SnapshotWriter(store, writeName, if tracked then Some(name) else None, Some(name), force);
    vm := new Vm(ram, tracked, writer, Some(pristine));
  }

  /** Reassembles RAM, and picks the image a reset goes back to: the root file itself for a
      single layer, else a copy of the reassembled RAM. */
  method LoadRam(store: SnapshotStore, name: Name) returns (ok: bool, ram: array<uint8>, pristine: Image)
    ensures fresh(ram)
    ensures ok <==> Restore(store.dirs, name).Some?
    ensures ok ==> ram[..] == pristine == Restore(store.dirs, name).value.ram
  {
    ok, ram, pristine := false, new uint8[0], [];
    var chain := store.ResolveChain(name);
    if chain.None? { return; }
    var base := ValidateChain(store, chain.value);
    if base.None? { return; }
    ok, ram := MapAndOverlay(store, base.value, chain.value[1..]);
    pristine := if |chain.value| == 1 then base.value else ram[..];
  }

  /** The checks of step 1: a Full root, Diffs of one size above it, a leaf of this version,
      and a root image of that size, which is returned. */
  method ValidateChain(store: SnapshotStore, layers: seq<Manifest>) returns (base: Option<Image>)
    requires |layers| > 0
    ensures RestoreChain(store.dirs, layers).Some? <==>
            base.Some? && OverlayLayers(store.dirs, base.value, layers[1..]).Some?
    ensures RestoreChain(store.dirs, layers).Some? ==>
              RestoreChain(store.dirs, layers).value.ram == OverlayLayers(store.dirs, base.value, layers[1..]).value
  {
    var root, leaf := layers[0], layers[|layers| - 1];
    if root.kind != Full { return None; }
    for i := 1 to |layers|
      invariant forall j :: 0 < j < i ==> layers[j].kind == Diff && layers[j].memSize == root.memSize
    {
      if layers[i].kind != Diff || layers[i].memSize != root.memSize { return None; }
    }
    var snap := ReadSnapshot(store.dirs, leaf.name);
    if snap.None? || snap.value.memSize != root.memSize { return None; }
    base := ReadRaw(store.dirs, root.name, MemoryBin);
    if base.Some? && |base.value| != root.memSize { return None; }
  }

  /** The private mapping of the root image, with every diff layer overlaid in order. */
  method MapAndOverlay(store: SnapshotStore, base: Image, layers: seq<Manifest>) returns (ok: bool, ram: array<uint8>)
    ensures ok <==> OverlayLayers(store.dirs, base, layers).Some?
    ensures fresh(ram) && (ok ==> ram[..] == OverlayLayers(store.dirs, base, layers).value)
  {
    ram := new uint8[|base|](i requires 0 <= i < |base| => base[i]);
    assert ram[..] == base;
    for k := 0 to |layers|
      invariant OverlayLayers(store.dirs, base, layers) == OverlayLayers(store.dirs, ram[..], layers[k..])
    {
      assert layers[k..][0] == layers[k] && layers[k..][1..] == layers[k + 1..];
      var n := layers[k].name;
      var idx, packed := ReadRaw(store.dirs, n, DirtyIdx), ReadRaw(store.dirs, n, MemoryBin);
      if idx.None? || packed.None? { return false, ram; }
      ghost var done;
      ok, done := ApplyDiff(ram, DecodeIndex(idx.value), packed.value);
      if !ok { return false, ram; }
    }
    ok := true;
  }
}
