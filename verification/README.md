# A verified model of the ignition microVM

ignition runs a Linux microVM on Apple's Hypervisor framework and can snapshot it, restore it,
chain incremental snapshots, and roll it back in place. This project models the parts of it whose
correctness is hardest to see and proves what they promise. `dafny verify dfyconfig.toml` checks
all of it.

**Tracked RAM, snapshot chains and reset.** Guest RAM is write-protected; a guest store faults,
is marked dirty and granted; device writes mark through the same bitmap. A snapshot writes all of
RAM or only the dirty pages on top of a parent, and a restore overlays the chain. `Dirty`,
`Memory`, `Images`, `Store` and `Writer` model the bitmap, guest memory, page layers, the
directory store and the writer; `Machine` puts them together as a state machine whose runs
interleave faults, guest stores, device writes, snapshots that may stop at any file operation,
checkpoints, resets and relaunches; `Guest` holds the handlers as methods, each proved to be one
step. The main theorems are `Machine.EverySnapshotRestoresItsCapture` and
`Machine.ResetReturnsToCheckpoint`. Snapshots and resets drain one tracker and names can be reused,
so the promises hold only under conditions; each condition is proved exact, and `Traces` gives the
runs that break them.

**virtio-gpu 2D.** `Backing` and `Raster` model scatter-gather reads and row geometry, `Gpu` the
commands over the resource table, `GpuCommands` what each request means to the guest,
`GpuDevice` the device with its in-place loops, save and restore. The main theorem is `Gpu.TransfersAreRedundant`: for the contents at the moment of each
FLUSH, host pixel buffers are only a cache of guest memory.

**virtio-blk.** `Disk` and `Blk` model scattered transfers against a file, `BlkDevice` the
request loops over a host file that may fail at any operation. The main theorem is
`Blk.WriteThenRead`.

**Device placement and routing.** `Devices` models the bump allocators, the overlap check, the
router and replay of saved records; `DeviceManager` the objects. The main theorems are
`Devices.EveryRunIsValid` and `Devices.ReplayKeepsRouting`.

**Virtual timer.** `Vtimer` follows the guest's counter through any number of snapshot
generations and bounds the WFI sleep.

Integers have their widths: where the program saturates, checks or wraps, the model writes that
out. Host outcomes such as I/O errors, failed re-protection, a device's verdict on its state and
host counter readings are nondeterministic or parameters.

## What the proofs found

- A finished snapshot restores its capture if and only if, when it is taken, the tracker covers
  every difference from the parent's image and it builds on neither its own name nor its staging
  name (`Machine.SnapshotExactIff`). A reset returns to the checkpoint if and only if, when it is done,
  the tracker covers every change since (`Machine.ResetIsExactIff`).
- One tracker serves both, so each can spoil the other's coverage. A checkpoint after a snapshot
  leaves the next diff uncovered exactly when RAM differs from the parent's image then
  (`Machine.CheckpointKeepsDiffIff`); a snapshot taken at once is then wrong
  (`Machine.SnapshotAfterCheckpointIff`, `Traces.CheckpointLosesAPage`), while later writes to the
  lost pages mark them again. A drained snapshot does the same to a reset point exactly when RAM
  differs from it (`Machine.SnapshotKeepsResetIff`, `Machine.ResetAfterSnapshotIff`,
  `Traces.SnapshotLosesAReset`).
- The reset handler ignores a failed re-protection. The next reset then undoes every possible run
  of memory writes if and only if no page had been granted (`Machine.WritesAfterResetUndoneIff`);
  otherwise a store goes through unseen (`Traces.IgnoredReprotectionLosesAWrite`).
- The overwrite guard knows only the direct parent and the restore source. Replacing an older layer
  of the same chain is accepted and makes the chain circular: neither the new snapshot nor any
  snapshot built on the replaced one restores again (`Writer.CircularWriteLosesAll`,
  `Traces.AncestorOverwriteLosesBoth`).
- Device writes are tracked exactly when the RAM base is a multiple of 16 KiB
  (`Dirty.MarkedIsTouchedIffAligned`), and the diff writer's bounds error needs a RAM size that is
  not (`Machine.BoundsErrorNeedsPartialPage`).
- A snapshot named `x.tmp` is its own staging directory (`Writer.TmpNameClash`): the writer
  deletes what it has just staged, so it fails, and what was stored there is gone, unless the host
  fails to delete it (`Writer.SnapshotStore.WriteSnapshot`).
- The bus lets two devices claim the last 64-bit address (`Devices.LastAddressIsAmbiguous`). The
  overlap test is wrong about non-empty ranges exactly when they meet in that address alone
  (`Devices.ClashIsMeetIff`), and exactly then an address has two devices
  (`Devices.UnambiguousIff`).
- A restore is documented to keep the guest's counter continuous. It does so exactly when the
  vCPU's offset was zero at capture (with the host counter not behind): at every later generation
  the counter jumps by the length of the stop before (`Vtimer.ContinuousIff`,
  `Vtimer.JumpAtRestore`, `Vtimer.SecondGenerationJumps`).
- The used-ring length of a successful block read is the data total plus one exactly below
  2^32 - 1 bytes (`Blk.ReadReportsIff`): for every chain of up to 4097 descriptors
  (`Blk.ShortReadReportsItsLength`), while a read into 4096 buffers of 1 MiB reports zero
  (`Blk.BigReadReportsZero`).

## Model

| member | source | states |
|---|---|---|
| Dirty.SetBitAdds | crates/vmm/src/dirty.rs:45 | Or-ing a bit into a word sets that bit and no other. |
| Dirty.PageCountIff | crates/vmm/src/dirty.rs:21-30 | Exactly the pages that hold a byte of RAM are counted. |
| Dirty.MarkAddsOnePage | crates/vmm/src/dirty.rs:36-45 | One `fetch_or` adds exactly one page to the set the words stand for. |
| Dirty.SwapRemovesOneWord | crates/vmm/src/dirty.rs:52-54 | One `swap(0)` removes exactly the pages of one word. |
| Dirty.AscendingListsExactly | crates/vmm/src/dirty.rs:56-70 | The list of a set of pages is strictly ascending and holds exactly its members. |
| Dirty.MarkedIsTouchedIffAligned | crates/vmm/src/dirty.rs:76-89 | A device write marks exactly the RAM pages it touches, up to the end of the address space, if and only if the RAM base is page aligned. |
| Dirty.DirtyTracker.constructor | crates/vmm/src/dirty.rs:21-30 | A new tracker counts a partial last page and holds no page. |
| Dirty.DirtyTracker.Mark | crates/vmm/src/dirty.rs:36-45 | Adds the page of an address inside RAM and ignores any other address. |
| Dirty.DirtyTracker.CollectPages | crates/vmm/src/dirty.rs:48-70 | Lists the set in ascending order; clearing empties it, inspecting keeps it. |
| Dirty.DirtyTracker.MarkDirty | crates/vmm/src/dirty.rs:76-89 | The stepping loop marks one page per granule of the written range, also where the range saturates. |
| Dirty.DrainLosesNoMark | crates/vmm/src/dirty.rs:36-70 | Under every interleaving of marks with a word-by-word drain, pages listed plus pages still set equal the initial pages plus all marks, and no page is listed twice. |
| Dirty.DrainTakesAll | crates/vmm/src/dirty.rs:52-70 | A drain that has passed all words lists at least every page set when it began, whatever was marked meanwhile. |
| Memory.ContainsIff | crates/devices/src/virtio/guest_ram.rs:56-63 | A range is accepted exactly when each of its addresses is one of RAM. |
| Memory.GuestRam.ReadSlice | crates/devices/src/virtio/guest_ram.rs:69-79 | Succeeds exactly for a range inside RAM and then copies it, else leaves the buffer. |
| Memory.GuestRam.WriteSlice | crates/devices/src/virtio/guest_ram.rs:81-94 | Succeeds exactly inside RAM; a success writes the bytes and marks the granules, a failure changes and marks nothing. |
| Images.OverlayExactIffCovered | crates/vmm/src/reset.rs:14-24 | Copying a set of pages reproduces the source if and only if the set covers every difference. |
| Images.RollbackFull | crates/vmm/src/reset.rs:6-9 | Live RAM becomes the pristine image. |
| Images.RollbackPages | crates/vmm/src/reset.rs:14-24 | Exactly the listed pages are taken from the pristine image, a partial last page is cut, an index past RAM is skipped. |
| Images.ApplyDiff | crates/vmm/src/snapshot.rs:362-375 | Fails exactly on a size mismatch or a page outside the target; whatever the result, a known prefix of the pages has been applied in order and nothing else. |
| Images.ApplyOfPack | crates/vmm/src/snapshot.rs:327-375 | Applying pages packed from an image copies exactly those pages of it. |
| Images.IndexRoundTrip | crates/vmm/src/snapshot.rs:341-357 | The page index decodes to what was encoded. |
| Images.IndexEntry | crates/vmm/src/snapshot.rs:341-344 | Page i of the index is the eight bytes from 8 * i on, least significant first. |
| Images.PackedByte | crates/vmm/src/snapshot.rs:331-340 | The packed bytes of page i start at i pages. |
| Images.AppliedByte | crates/vmm/src/snapshot.rs:362-375 | A byte of an applied diff comes from the last listed page that holds it, else it is kept. |
| Store.ResolveChainExact | crates/vmm/src/snapshot.rs:207-226 | The walk yields distinct layers, root first, each naming its predecessor as parent, and fails if and only if the parent path meets a missing manifest or a repeated name. |
| Store.RestoresIff | spike/src/bin/boot.rs:1765-1861 | A name restores if and only if its chain resolves, its root is a full layer whose memory file has the manifest's size, every other layer is a diff of that size that fits, and the leaf has this magic, version and size. |
| Store.RestoredByte | spike/src/bin/boot.rs:1847-1861 | In any store, a restored byte is that of the topmost layer listing its page, else the root's; the rest of the machine is the leaf's. |
| Store.RestoreStable | spike/src/bin/boot.rs:1765-1861 | A name that restores keeps restoring to the same machine while the directories it reads stay. |
| Store.WalkBreaks | crates/vmm/src/snapshot.rs:207-226 | A layer hung on a chain that it, or a removed directory, is part of: the walk meets a repeated name or a missing manifest. |
| Store.FailsThrough | crates/vmm/src/snapshot.rs:207-226 | A chain through a name that no longer resolves does not resolve. |
| Store.FullLayerRestores | spike/src/bin/boot.rs:1765-1861 | A full layer restores to its capture. |
| Store.DiffLayerRestores | spike/src/bin/boot.rs:1765-1861 | A diff layer, on a chain of any length, restores to its parent's RAM with exactly the listed pages replaced. |
| Writer.TmpNameClash | crates/vmm/src/snapshot.rs:264-266 | The staging name equals the snapshot name exactly for names that extend ".tmp". |
| Writer.TmpNameReplaces | crates/vmm/src/snapshot.rs:264-266 | The staging name replaces everything from the last dot on, and extends a name without one or with its last dot in front. |
| Writer.SnapshotStore.ResolveChain | crates/vmm/src/snapshot.rs:207-226 | The loop over chain, seen and cur computes the walk and terminates on every store. |
| Writer.SnapshotStore.CloneFile | crates/vmm/src/snapshot.rs:232-253 | A copy needs its source and an absent destination, and touches one file. |
| Writer.SnapshotStore.WriteSnapshot | crates/vmm/src/snapshot.rs:257-278 | Touches only the target and its staging directory, adds no manifest, and on success the target holds the full layer; without a host fault it succeeds exactly when the name is not its own staging name and there is a disk to copy. |
| Writer.SnapshotStore.WriteDiffSnapshot | crates/vmm/src/snapshot.rs:284-304 | The same for a diff layer, whose pages must also lie inside RAM. |
| Writer.SnapshotStore.WriteDiffPages | crates/vmm/src/snapshot.rs:327-346 | Success leaves the packed pages and their index, wherever a failure leaves the two files. |
| Writer.SnapshotWriter.Write | crates/vmm/src/snapshot.rs:80-117 | Refuses exactly the direct parent and the restore source unless forced; without a host fault any other write succeeds exactly when nothing in the request forbids it; the layer is published last; the parent advances exactly on a tracked success. |
| Writer.WriteKeepsOthers | crates/vmm/src/snapshot.rs:80-117 | Wherever a write ends, every chain that reads neither the written name nor its staging name keeps its directories. |
| Writer.FinishedWriteRestoresIff | crates/vmm/src/snapshot.rs:80-117 | A finished layer that builds on neither its own name nor its staging name restores its capture if and only if its pages cover every change since the parent. |
| Writer.CircularWriteLosesAll | crates/vmm/src/snapshot.rs:90-117 | A finished layer that does build on one of them never restores, and neither does any name whose chain went through it. |
| Writer.InterruptedWriteIsSafe | crates/vmm/src/snapshot.rs:257-304 | Wherever a write ends, new name or replaced, every name that reads neither it nor its staging name restores as before; a finished one restores the whole capture and an unfinished new one does not resolve. |
| Machine.BoundsErrorNeedsPartialPage | crates/vmm/src/snapshot.rs:321-346 | Every dirty page is in bounds if and only if RAM is a whole number of pages or its partial page is clean. |
| Machine.WriteIsCovered | crates/hvf/src/lib.rs:790-802 | A fault, guest store or device write changes only bytes on pages that are dirty afterwards, and keeps every guest-writable page dirty. |
| Machine.EveryStoreCompletes | crates/hvf/src/lib.rs:790-802 | Every guest store inside tracked RAM completes after one fault for each page it touches, and RAM then holds exactly what was stored. |
| Machine.DeviceWriteEffect | crates/devices/src/virtio/guest_ram.rs:81-94 | A device write lands, byte by byte, exactly when it lies inside RAM; otherwise nothing changes. |
| Machine.GuardRefusesIff | crates/vmm/src/snapshot.rs:90-95 | Without force a snapshot over the direct parent or the restore source changes nothing at all, and no other is refused. |
| Machine.SourceIsKept | crates/vmm/src/snapshot.rs:90-95 | Without force the directory a guest was restored from stays as it is through every run that does not stage into it. |
| Machine.SnapshotCanFinish | spike/src/bin/boot.rs:773-807 | From every state a snapshot that nothing forbids can finish. |
| Machine.SnapshotIsExact | spike/src/bin/boot.rs:773-807 | A snapshot, to a new or a replaced name that it does not build on, failed or not, re-protected or not, keeps the tracker covering every difference from the parent; a finished one restores to its capture. |
| Machine.SnapshotExactIff | spike/src/bin/boot.rs:773-807 | A finished snapshot restores its capture if and only if the tracker covered every difference from the parent and it builds on neither its own name nor its staging name. |
| Machine.CheckpointKeepsDiffIff | spike/src/bin/boot.rs:204-221 | Right after a checkpoint the tracker covers every difference from the parent if and only if there is no parent, re-protection failed, or RAM equals the parent's image. |
| Machine.SnapshotAfterCheckpointIff | spike/src/bin/boot.rs:204-221 | A snapshot taken right after a checkpoint restores its capture under exactly that condition. |
| Machine.SnapshotAfterResetIff | spike/src/bin/boot.rs:253-263 | A snapshot taken right after a reset restores its capture if and only if there is no parent or the reset image is the parent's. |
| Machine.ResetAfterSnapshotIff | spike/src/bin/boot.rs:793-803 | A reset right after a snapshot returns to the checkpoint if and only if the snapshot drained nothing or RAM had not moved from it. |
| Machine.SnapshotKeepsResetIff | spike/src/bin/boot.rs:793-803 | A snapshot keeps the next rollback exact if and only if it drained nothing, there is no reset point, or RAM equals it. |
| Machine.ResetIsExactIff | spike/src/bin/boot.rs:234-263 | In any state, a reset gives the full copy if and only if the tracker covers every change since the checkpoint. |
| Machine.ResetLeavesDiffIff | spike/src/bin/boot.rs:253-263 | Right after a reset the tracker covers every difference from the parent if and only if there is no parent or RAM as rolled back is the parent's image. |
| Machine.ResetKeepsDiffIff | spike/src/bin/boot.rs:253-263 | Where the rollback is exact, that is if and only if there is no parent or the reset image is the parent's. |
| Machine.ResetKeepsTrackingIff | spike/src/bin/boot.rs:253-263 | A reset keeps guest-writable pages dirty if and only if re-protection succeeded or no page was writable. |
| Machine.WritesAfterResetUndoneIff | spike/src/bin/boot.rs:253-263 | After a reset, the next one undoes every possible run of faults, stores and device writes if and only if re-protection succeeded or no page was writable. |
| Machine.BootIsExact | spike/src/bin/boot.rs:773-807 | A fresh boot, tracked or not, over any store, starts a run. |
| Machine.StepKeepsDiff | spike/src/bin/boot.rs:773-807 | Every step that meets its condition keeps the tracker exact and every chain it does not write into. |
| Machine.TrackerCoversEveryState | spike/src/bin/boot.rs:793-803 | In every reachable state each writable page and each page that differs from the parent's image is dirty. |
| Machine.RestoresUntilOverwritten | crates/vmm/src/snapshot.rs:80-117 | A name that restores goes on restoring to the same machine until a directory it reads is written or used for staging. |
| Machine.EverySnapshotRestoresItsCapture | spike/src/bin/boot.rs:1765-1861 | Every snapshot of a run restores to exactly the machine captured, at any later point until a directory it reads is written or used for staging, through chains, replaced names and relaunches of any length. |
| Machine.PlainRunIsExact | spike/src/bin/boot.rs:773-807 | The same for every run of writes, snapshots and relaunches without checkpoint or reset. |
| Machine.StepKeepsReset | spike/src/bin/boot.rs:204-263 | Every step that meets its condition keeps the rollback to the reset point exact. |
| Machine.CheckpointStaysCovered | spike/src/bin/boot.rs:204-263 | After a checkpoint the tracker covers every change from it, through any steps that meet their condition. |
| Machine.ResetReturnsToCheckpoint | spike/src/bin/boot.rs:204-263 | Each reset returns RAM byte for byte to the latest checkpoint, any number of times. |
| Machine.RelaunchSetsUp | spike/src/bin/boot.rs:1991-2038 | A restored guest starts with the restored RAM, clean and protected, that RAM as reset point, the snapshot as protected source and, when tracked, as parent. |
| Machine.RelaunchIsAligned | spike/src/bin/boot.rs:1991-2038 | A tracked restore starts with the reset image equal to the parent's image and both invariants in force. |
| Machine.WritesAndResetsStayAligned | spike/src/bin/boot.rs:1991-2038 | From there any interleaving of writes, resets and failed snapshots and checkpoints keeps diff and rollback exact. |
| Machine.DiffAfterResetsIsExact | spike/src/bin/boot.rs:793-803 | The next diff after such an interleaving restores to its capture. |
| Guest.Vm.OnDataAbort | crates/hvf/src/lib.rs:774-820 | A dirty fault is exactly a write at an address of tracked RAM, and is one fault step. |
| Guest.Vm.OnDeviceWrite | crates/devices/src/virtio/guest_ram.rs:81-94 | A device write is one step. |
| Guest.Vm.OnSnapshot | spike/src/bin/boot.rs:773-807 | The snapshot handler is one step, reports success exactly when written and re-protected, and without a host fault writes whatever nothing forbids. |
| Guest.Vm.OnCheckpoint | spike/src/bin/boot.rs:204-221 | The checkpoint handler is one step; a failed re-protection keeps the old reset point. |
| Guest.Vm.OnReset | spike/src/bin/boot.rs:234-263 | The reset handler is one step: drain, roll back what was drained, re-protect. |
| Guest.RunRestore | spike/src/bin/boot.rs:1765-2038 | Restoring succeeds exactly when the chain restores and fits, and leaves the relaunched state. |
| Guest.LoadRam | spike/src/bin/boot.rs:1765-1861 | The loaded RAM and the reset image are both the restored RAM, for a single layer or a chain. |
| Guest.ValidateChain | spike/src/bin/boot.rs:1765-1811 | The checks accept exactly the chains that restore, up to the overlays. |
| Guest.MapAndOverlay | spike/src/bin/boot.rs:1847-1861 | Overlaying each diff in place gives the chain's RAM. |
| Traces.CheckpointLosesAPage | spike/src/bin/boot.rs:204-221 | Snapshot, write, checkpoint, snapshot: the second snapshot does not restore its RAM. |
| Traces.SnapshotLosesAReset | spike/src/bin/boot.rs:793-803 | Checkpoint, write, snapshot, reset: the reset does not return to the checkpoint. |
| Traces.IgnoredReprotectionLosesAWrite | spike/src/bin/boot.rs:253-263 | Checkpoint, fault, reset whose re-protection fails, store, reset: the last reset does not return to the checkpoint. |
| Traces.AncestorOverwriteLosesBoth | crates/vmm/src/snapshot.rs:90-94 | Snapshot a, snapshot b, snapshot a again: accepted, and neither name restores. |
| Backing.FillByte | crates/devices/src/virtio/gpu.rs:105-131 | Byte i of a read is the flattened list's byte start + i, zero where that segment's span leaves RAM, unchanged past the end. |
| Backing.UnmappedIsZero | crates/devices/src/virtio/gpu.rs:119-126 | A byte of a segment whose part of the read leaves RAM reads as zero. |
| Backing.PastEndIsKept | crates/devices/src/virtio/gpu.rs:105-131 | A byte past the end of the backing keeps its value. |
| Backing.FillReadsFlat | crates/devices/src/virtio/gpu.rs:105-131 | With every segment in RAM, each byte read is the byte at its flattened guest address, for any segmentation. |
| Backing.ReadBacking | crates/devices/src/virtio/gpu.rs:105-131 | The loop with its running offsets performs that read on a slice and touches nothing else. |
| Raster.RowsInside | crates/devices/src/virtio/gpu.rs:196-208 | Each row of the range is read exactly once, from its own place. |
| Raster.RowsOutside | crates/devices/src/virtio/gpu.rs:196-208 | A byte of none of the rows keeps its value. |
| Gpu.DecodedBackingFits | crates/devices/src/virtio/gpu.rs:253-277 | A request within the size limit cannot describe 2^64 bytes of backing. |
| Gpu.StrideExactIff | crates/devices/src/virtio/gpu.rs:305-339 | The 32-bit stride is width * 4 unless the resource has no rows and 2^30 columns or more. |
| Gpu.TransferOutside | crates/devices/src/virtio/gpu.rs:179-210 | A TRANSFER leaves every pixel outside its rectangle. |
| Gpu.TransferInside | crates/devices/src/virtio/gpu.rs:196-208 | Inside, each clamped row is one read at the request's offset plus the row's own offset. |
| Gpu.ReaderIsFlat | crates/devices/src/virtio/gpu.rs:196-208 | With backing in RAM such a row holds the flattened backing's bytes. |
| Gpu.RefreshForgetsAllIffCovered | crates/devices/src/virtio/gpu.rs:305-339 | What FLUSH shows is independent of earlier pixels if and only if the backing covers the resource. |
| Gpu.DroppingTransfersShowsTheSame | crates/devices/src/virtio/gpu.rs:149-339 | Removing all TRANSFERs from a command sequence changes no shown byte that backing covers. |
| Gpu.TransfersAreRedundant | crates/devices/src/virtio/gpu.rs:149-339 | Sequences that differ only in TRANSFERs show the same frames wherever backing covers them. |
| Gpu.CoveredFramesAreEqual | crates/devices/src/virtio/gpu.rs:305-339 | Where it covers the whole resource, the frames are equal. |
| GpuCommands.CreateDecodes | crates/devices/src/virtio/gpu.rs:212-219 | A RESOURCE_CREATE_2D request laid out as in section 5.7 of Virtio 1.2 decodes to its fields. |
| GpuCommands.UnrefDecodes | crates/devices/src/virtio/gpu.rs:241-284 | So do RESOURCE_UNREF and RESOURCE_DETACH_BACKING. |
| GpuCommands.SetScanoutDecodes | crates/devices/src/virtio/gpu.rs:290-295 | So does SET_SCANOUT. |
| GpuCommands.FlushDecodes | crates/devices/src/virtio/gpu.rs:305-314 | So does RESOURCE_FLUSH. |
| GpuCommands.TransferDecodes | crates/devices/src/virtio/gpu.rs:179-190 | So does TRANSFER_TO_HOST_2D. |
| GpuCommands.AttachDecodes | crates/devices/src/virtio/gpu.rs:253-269 | So does RESOURCE_ATTACH_BACKING, with as many entries as it both announces and holds. |
| GpuCommands.InvalidIff | crates/devices/src/virtio/gpu.rs:149-168 | A request is malformed exactly for a short header, an unknown type or a short body. |
| GpuCommands.CommandEffect | crates/devices/src/virtio/gpu.rs:179-303 | What every command other than FLUSH replies, changes and leaves alone; none shows anything. |
| GpuCommands.FlushShows | crates/devices/src/virtio/gpu.rs:305-339 | Every FLUSH of the bound resource, whatever its rectangle, shows its geometry and the flattened backing byte by byte; a FLUSH of anything else shows and changes nothing. |
| GpuCommands.PresentShows | crates/devices/src/virtio/gpu.rs:429-448 | Presenting shows the bound resource whole, or nothing. |
| GpuCommands.TransferPixel | crates/devices/src/virtio/gpu.rs:192-208 | Each byte of each pixel inside rectangle and resource, after a TRANSFER, against the flattened backing. |
| GpuDevice.LoadIsValid | crates/devices/src/virtio/gpu.rs:383-427 | Every accepted document gives a valid state. |
| GpuDevice.LoadsIff | crates/devices/src/virtio/gpu.rs:383-427 | A document is accepted exactly when every entry is complete and within the cap and the scanout is 0 or listed; each id then holds what its last entry says, pixels zero. |
| GpuDevice.StateAfter | crates/devices/src/virtio/gpu.rs:149-427 | After every sequence of requests and restores, buffers have width * height * 4 bytes within the cap and the scanout is 0 or live. |
| GpuDevice.SaveRestoreRoundTrip | crates/devices/src/virtio/gpu.rs:361-427 | Restore accepts what save produces, whatever the table's order, and reproduces table and scanout. |
| GpuDevice.RestoredPaintsTheSame | crates/devices/src/virtio/gpu.rs:429-448 | It then presents the same frame wherever the backing covers the resource. |
| GpuDevice.RestoredShowsTheSame | crates/devices/src/virtio/gpu.rs:361-448 | A restored device shows, for every later command sequence whatever its TRANSFERs, what the original shows wherever backing covers it. |
| GpuDevice.VirtioGpu.Dispatch | crates/devices/src/virtio/gpu.rs:149-177 | One request has exactly the effect, response and frame of its command, and keeps the invariant. |
| GpuDevice.VirtioGpu.Create | crates/devices/src/virtio/gpu.rs:212-239 | Succeeds exactly when width * height * 4 is within the cap, and then adds or replaces one resource of that geometry, all zero and without backing, and touches no other. |
| GpuDevice.VirtioGpu.ReadEntries | crates/devices/src/virtio/gpu.rs:253-277 | The entry loop reads as many entries as both the count and the body have. |
| GpuDevice.VirtioGpu.Transfer2d | crates/devices/src/virtio/gpu.rs:179-210 | The clamped row loop in place has the effect of a TRANSFER. |
| GpuDevice.VirtioGpu.Repaint | crates/devices/src/virtio/gpu.rs:305-339 | Re-reads the whole buffer from its backing and presents it. |
| GpuDevice.VirtioGpu.PresentScanout | crates/devices/src/virtio/gpu.rs:429-448 | Repaints the bound resource, if any. |
| GpuDevice.VirtioGpu.Save | crates/devices/src/virtio/gpu.rs:361-381 | The document lists every resource, in some order. |
| GpuDevice.VirtioGpu.Restore | crates/devices/src/virtio/gpu.rs:383-427 | Accepts exactly the well-formed documents, and a rejection changes nothing. |
| Disk.GatherOfScatter | crates/devices/src/virtio/blk.rs:77-117 | Filling disjoint buffers and collecting them gives the data back. |
| Disk.ScatterElsewhere | crates/devices/src/virtio/blk.rs:77-97 | A read leaves guest memory outside its buffers. |
| Blk.WriteThenRead | crates/devices/src/virtio/blk.rs:45-117 | After a successful write and any requests that write elsewhere, a read of the same sectors by any other partition into disjoint buffers succeeds unless the request or the host makes it fail, delivers the bytes written, and reports their number plus one. |
| Blk.ParseIs | crates/devices/src/virtio/blk.rs:51-72 | The header's type and sector, for every value, and exactly when it is refused. |
| Blk.OutcomeIs | crates/devices/src/virtio/blk.rs:60-74 | The status of each kind of request, and that only reads and GET_ID report or store more than the status byte. |
| Blk.StatusIsStored | crates/devices/src/virtio/blk.rs:73-74 | A status buffer in RAM always receives the status. |
| Blk.RequestSparesMemory | crates/devices/src/virtio/blk.rs:45-132 | A request leaves guest memory outside its data buffers and status byte. |
| Blk.InsideFileSucceeds | crates/devices/src/virtio/blk.rs:77-117 | Every transfer inside the file, of buffers up to 1 MiB in RAM, succeeds unless the host fails. |
| Blk.BadBufferFails | crates/devices/src/virtio/blk.rs:77-117 | One larger buffer, or one outside RAM, makes it fail. |
| Blk.PaddedIdIs | crates/devices/src/virtio/blk.rs:119-132 | The identifier's bytes, then zeros, for every length. |
| Blk.SampleWriteThenRead | crates/devices/src/virtio/blk.rs:45-117 | A concrete one-byte write and read that meet all those conditions. |
| Blk.MissesKeepBytes | crates/devices/src/virtio/blk.rs:45-117 | Requests that write elsewhere, even failing part-way, keep the other disk bytes. |
| Blk.SucceedsUnlessFaulted | crates/devices/src/virtio/blk.rs:77-117 | Without host faults a possible write succeeds, and so does a read of a long enough file. |
| Blk.OnlyWritesChangeDisk | crates/devices/src/virtio/blk.rs:45-75 | A disk byte changes only under a write whose range holds it. |
| Blk.ReadReportsIff | crates/devices/src/virtio/blk.rs:73-97 | A successful read reports its total plus one if and only if the total is below 2^32 - 1, and else zero. |
| Blk.ShortReadReportsItsLength | crates/devices/src/virtio/blk.rs:73-97 | It does for every chain of up to 4097 descriptors. |
| Blk.BigReadReportsZero | crates/devices/src/virtio/blk.rs:73-97 | For every number of 1 MiB buffers from 4096 on, a read that succeeds and reports zero. |
| BlkDevice.VirtioBlk.Process | crates/devices/src/virtio/blk.rs:45-75 | One chain has its request's outcome, status byte and used length; after a successful FLUSH the file is on stable storage. |
| BlkDevice.VirtioBlk.ReadToGuest | crates/devices/src/virtio/blk.rs:77-97 | Fills all buffers, or errs having filled the first few and reports their length; without a host fault it errs only when the transfer is impossible. |
| BlkDevice.VirtioBlk.WriteFromGuest | crates/devices/src/virtio/blk.rs:99-117 | Stores all buffers at the sector, or errs having stored a prefix; without a host fault it errs only when the transfer is impossible. |
| BlkDevice.VirtioBlk.WriteId | crates/devices/src/virtio/blk.rs:119-132 | Writes the identifier, cut or zero-padded, into the first buffer. |
| BlkDevice.WritesStoreAll | crates/devices/src/virtio/blk.rs:99-117 | Writing buffer after buffer is one write of them all. |
| BlkDevice.ReadsFillAll | crates/devices/src/virtio/blk.rs:77-97 | Reading buffer after buffer is one read scattered over them. |
| Devices.ClashIsMeetIff | crates/devices/src/bus.rs:63-67 | For non-empty ranges the overlap test says whether they meet, if and only if they do not meet in the last address alone. |
| Devices.EmptyClashIff | crates/devices/src/bus.rs:63-67 | An empty range meets nothing and is refused exactly strictly inside another. |
| Devices.UnambiguousIff | crates/devices/src/bus.rs:79-85 | Every address has at most one device if and only if no two ranges meet in the last address alone. |
| Devices.LastAddressIsAmbiguous | crates/devices/src/bus.rs:63-67 | Two ranges that reach 2^64 both register and share the last address. |
| Devices.RouteFinds | crates/devices/src/bus.rs:79-85 | The router finds an entry if and only if one covers the address. |
| Devices.RoutingIgnoresOrder | crates/devices/src/bus.rs:79-85 | Routing does not depend on the order of registration, save at the last address when a range reaches 2^64. |
| Devices.EveryRunIsValid | crates/vmm/src/device_manager.rs:52-146 | After any sequence of add, add_restored and add_fixed no two ranges clash, every record is on the bus, and both cursors are past every record. |
| Devices.AddFailsOnlyOnFixed | crates/vmm/src/device_manager.rs:52-116 | `add` fails exactly by exhaustion or by hitting an entry that is no recorded device; its interrupt is above every recorded one. |
| Devices.AddsThatFitSucceed | crates/vmm/src/device_manager.rs:52-116 | Any number of adds that fit the window below every fixed device, and the interrupts, all succeed, at the prefix sums of their sizes. |
| Devices.NextAddFollows | crates/vmm/src/device_manager.rs:52-64 | The add after a successful one is exhausted exactly when it does not fit behind it, and else goes there. |
| Devices.OthersReply | crates/vmm/src/device_manager.rs:121-146 | What add_restored and add_fixed reply, exactly; a refusal changes nothing. |
| Devices.OperationRoutes | crates/vmm/src/device_manager.rs:93-146 | A done operation routes its range to its device and leaves every other route; any other reply leaves all. |
| Devices.IssuedInterruptsDiffer | crates/vmm/src/device_manager.rs:52-138 | Of two successful adds of any run the later gets the larger interrupt. |
| Devices.ReplayKeepsRouting | crates/vmm/src/device_manager.rs:121-138 | Saved records replay in any order on a fresh manager with their interrupts and the same routing, and nothing else routes. |
| Devices.ReplayKeepsCursors | crates/vmm/src/device_manager.rs:121-138 | Replay in any order also puts both allocators back where they were. |
| Devices.AddsAreTight | crates/vmm/src/device_manager.rs:52-116 | As it asks: adds that fit leave each cursor just past a record. |
| DeviceManager.Bus.Register | crates/devices/src/bus.rs:57-77 | Registers exactly when no entry clashes, else changes nothing. |
| DeviceManager.Bus.Find | crates/devices/src/bus.rs:79-85 | The scan returns the route. |
| DeviceManager.Bus.Access | crates/devices/src/bus.rs:87-99 | The device is handed its base and the offset from it. |
| DeviceManager.DeviceManager.Add | crates/vmm/src/device_manager.rs:106-116 | Has the effect of `add` and keeps the invariant. |
| DeviceManager.DeviceManager.AddRestored | crates/vmm/src/device_manager.rs:121-138 | Places at the saved address; a refusal moves no cursor. |
| DeviceManager.DeviceManager.AddFixed | crates/vmm/src/device_manager.rs:144-146 | Registers without window, interrupt or record. |
| DeviceManager.ManagerHasDistinctBases | crates/vmm/src/device_manager.rs:207-217 | With non-empty windows, recorded bases are distinct. |
| DeviceManager.RestoreHitsItsDevice | crates/vmm/src/device_manager.rs:193-217 | Each device gets its own saved state, or what its own rejection of that state left; no device is touched by another's. |
| DeviceManager.AcceptedRestoreIsExact | crates/vmm/src/device_manager.rs:193-217 | When every device accepts, all are back in the saved states. |
| DeviceManager.FrozenDevices.Save | crates/vmm/src/device_manager.rs:193-202 | Saves each device's placement and state. |
| DeviceManager.FrozenDevices.Restore | crates/vmm/src/device_manager.rs:207-217 | Pushes each state to the first device with its base, skips unmatched ones, and leaves a rejecting device as it left itself. |
| Vtimer.ResumesAtHostCounter | crates/hvf/src/lib.rs:388-399 | A restored counter resumes at the saved host counter, or at the host's own when that is behind. |
| Vtimer.ContinuousIff | crates/hvf/src/lib.rs:605-646 | When the counter does not run backwards and when it is continuous, exactly; otherwise it jumps by the offset at capture. |
| Vtimer.SharedOffsetKeepsSecondary | crates/hvf/src/lib.rs:392-399 | When a secondary vCPU's counter does not run backwards, exactly. |
| Vtimer.OnlyLastStopCounts | crates/hvf/src/lib.rs:605-646 | In any generation the guest is behind the host by its last stop only. |
| Vtimer.NeverBackwards | crates/hvf/src/lib.rs:605-646 | Over any number of generations the counter never runs backwards. |
| Vtimer.JumpAtRestore | crates/hvf/src/lib.rs:618-646 | The jump at each restore is the offset of the generation before, so continuity holds exactly for the first or after an immediate restore. |
| Vtimer.SecondGenerationJumps | crates/hvf/src/lib.rs:618-646 | A concrete second generation that is not continuous. |
| Vtimer.NanosRoundDown | crates/hvf/src/lib.rs:897-898 | The timeout never exceeds the exact deadline; without overflow it is short by at most a nanosecond a tick and exact if and only if the frequency divides 10^9. |
| Vtimer.TimeoutNeverOvershoots | crates/hvf/src/lib.rs:874-900 | An armed WFI exits at once exactly when the counter has reached the comparator, else sleeps no longer than that. |
| Vtimer.UnarmedWaits | crates/hvf/src/lib.rs:874-880 | A WFI waits for any event exactly when the timer is disabled or masked. |
| Vtimer.DeadlineAfterRestore | crates/hvf/src/lib.rs:618-646 | A pending deadline is nearer after a restore by the offset at capture, and expires at once exactly when that reaches it. |

## Left out

- Hypervisor calls, GIC and vCPU registers: foreign code; a snapshot carries them as opaque bytes, and re-protection is a success or failure.
- The vCPU rendezvous: handlers run with vCPUs and device writers stopped, so each is one step; host writers that race a reset are not modelled.
- Balloon and `madvise_free`: they discard pages without marking them, so the RAM theorems do not cover them.
- Machine.EverySnapshotRestoresItsCapture: asks that no snapshot of the run finishes under a name that is its own staging name, which takes a host that fails to delete a directory, and that RAM ends below 2^64.
- Machine.SnapshotExactIff: for a snapshot that builds on its own name or staging name, asks that the manifests of its parent's chain carry their directories' names, as the writer leaves them.
- Writer.CircularWriteLosesAll: asks the same.
- File contents after a host crash: a write stops part-way at every operation, but writes that did return are taken as durable.
- JSON text: a document is whole or unreadable; field order, numbers beyond 64 bits and other syntax are not modelled.
- Snapshot names with path separators or "..": names are single path components.
- Images.ApplyDiff: a page index whose byte offset exceeds 64 bits wraps as in a release build, where a debug build panics; a page whose end wraps past 2^64, such as index 2^50 - 1, is an error here, where a release build passes its guard and panics on the slice.
- Guest.Vm.OnCheckpoint: the vCPU and device state kept with the reset point is not part of this model; DeviceManager.FrozenDevices models the devices' side.
- Guest.Vm.OnReset: restoring device and vCPU state after the rollback is not part of this model, for the same reason.
- Guest.RunRestore: RAM that would reach 2^64 is rejected here, where mapping it would fail in the hypervisor; failures to map or protect memory, instance directories, the disk clone and the boot-timer device are not modelled.
- GpuDevice.VirtioGpu.Repaint: a presented frame holds the pixel contents at that moment, while the program hands out a shared buffer that a later TRANSFER can change before the window reads it.
- GpuDevice.VirtioGpu.PresentScanout: the same.
- GpuDevice.LoadIsValid: asks that a saved backing list has fewer than 2^32 entries, which memory bounds in practice.
- GpuDevice.VirtioGpu.Dispatch: responses are their kind only, without header encoding, fence echo, scatter into the response buffers and display geometry; the request is one already gathered byte string within the device's limit.
- BlkDevice.VirtioBlk.Process: the sum of a saturated count and one wraps as in a release build; capacity and configuration space are not modelled.
- BlkDevice.HostFile is the host's file system: seeking past 2^63 - 1 fails, reading past the end fails, and any operation may fail besides.
- DeviceManager.DeviceManager.AddRestored: asks that the saved range ends below 2^64 and the interrupt id fits 32 bits, where the program's sums would overflow.
- DeviceManager.FrozenDevices.Restore: a device's state is one JSON text; what a device does with it beyond accepting or rejecting is its own.
- Virtqueues, the virtio-mmio transport, vsock, net, input, serial, RTC, FDT, REST API, MCP, fuzzing and the user interface: easy state or I/O plumbing around the modelled core.
