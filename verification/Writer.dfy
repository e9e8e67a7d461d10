/** Writing layers (crates/vmm/src/snapshot.rs): the staged directory writes, the manifest
    that publishes them, and the writer that advances the parent. Every file operation may
    stop part-way, so an error return stands for every point at which the write can end. */
module Writer {
  import opened Prelude
  import opened Dirty
  import opened Images
  import opened Store

  datatype IoResult = Done | IoError | PageOutOfBounds | Refused | TrackingRequired

  // ---- the staging name ----

  /** Position of the last '.', or -1. */
  function LastDot(n: Name): (k: int)
    ensures -1 <= k < |n|
    ensures k >= 0 ==> n[k] == '.'
    ensures forall i :: k < i < |n| ==> n[i] != '.'
  {
    if n == [] then -1 else if n[|n| - 1] == '.' then |n| - 1 else LastDot(n[..|n| - 1])
  }

  /** `dir.with_extension("tmp")`: replaces an extension, and a leading dot is not one. */
  function TmpName(n: Name): Name
  {
    (if LastDot(n) > 0 then n[..LastDot(n)] else n) + ".tmp"
  }

  /** With `k` its last dot, everything from there on is replaced; a name without one (-1), or
      whose last dot is in front (0), is extended. */
  lemma TmpNameReplaces(n: Name, k: int)
    requires -1 <= k < |n| && (k >= 0 ==> n[k] == '.') && forall i :: k < i < |n| ==> n[i] != '.'
    ensures TmpName(n) == (if k > 0 then n[..k] else n) + ".tmp"
  {
    assert LastDot(n) == k;
  }

  /** The staging directory is the snapshot directory itself exactly for names `x.tmp`. */
  lemma TmpNameClash(n: Name)
    ensures TmpName(n) == n <==> |n| > 4 && n[|n| - 4..] == ".tmp"
  {
    var k := LastDot(n);
    if |n| > 4 && n[|n| - 4..] == ".tmp" {
      var tail := n[|n| - 4..];
      assert n[|n| - 4] == tail[0] && n[|n| - 3] == tail[1] && n[|n| - 2] == tail[2] && n[|n| - 1] == tail[3];
      assert k == |n| - 4;
      assert n == n[..k] + tail;
    }
    if TmpName(n) == n {
      assert |TmpName(n)| == (if k > 0 then k else |n|) + 4;
      assert n[k..] == TmpName(n)[k..] == ".tmp";
    }
  }

  // ---- effects on the directory tree ----

  /** Nothing outside `names` changes. */
  ghost predicate OnlyTouches(dirs: Dirs, dirs': Dirs, names: set<Name>)
  {
    forall n :: n !in names ==> (n in dirs <==> n in dirs') && (n in dirs ==> dirs'[n] == dirs[n])
  }

  /** `d'` is what is left of `d` after some files were removed. */
  ghost predicate Remnant(d: Dir, d': Dir)
  {
    forall f :: f in d' ==> f in d && d'[f] == d[f]
  }

  ghost predicate SameExcept(d: Dir, d': Dir, files: set<FileName>)
  {
    forall f :: f !in files ==> (f in d <==> f in d') && (f in d ==> d'[f] == d[f])
  }

  /** With an unpublished staging directory, no manifest appears: the target keeps its own or
      has none. */
  ghost predicate NoNewManifest(dirs: Dirs, dirs': Dirs, n: Name, tmp: Name)
  {
    !Published(dirs, tmp) ==>
      && !Published(dirs', tmp)
      && (Published(dirs', n) ==> ReadManifest(dirs', n) == ReadManifest(dirs, n))
  }

  class SnapshotStore {
    var dirs: Dirs
    ghost var faulted: bool // the host failed an operation that the tree made possible

    constructor (dirs: Dirs)
      ensures this.dirs == dirs && !faulted
    {
      this.dirs, this.faulted := dirs, false;
    }

    /** The callers ignore the result: the directory is gone or some of its files remain. */
    method RemoveDirAll(d: Name) returns (cleared: bool)
      modifies this
      ensures OnlyTouches(old(dirs), dirs, {d}) && (old(faulted) ==> faulted)
      ensures cleared <==> d !in dirs
      ensures !faulted ==> cleared
      ensures d in dirs ==> d in old(dirs) && Remnant(old(dirs)[d], dirs[d])
    {
      cleared := *;
      if cleared || d !in dirs {
        cleared, dirs := true, dirs - {d};
      } else {
        faulted := true;
        var kept: set<FileName> := *;
        dirs := dirs[d := map f | f in dirs[d] && f in kept :: dirs[d][f]];
      }
    }

    method CreateDirAll(d: Name) returns (ok: bool)
      modifies this
      ensures OnlyTouches(old(dirs), dirs, {d}) && (old(faulted) ==> faulted)
      ensures if ok then d in dirs && dirs[d] == (if d in old(dirs) then old(dirs)[d] else map[]) else dirs == old(dirs)
      ensures !ok ==> faulted
    {
      ok := *;
      if !ok { faulted := true; }
      if ok && d !in dirs { dirs := dirs[d := map[]]; }
    }

    /** `File::create` then `write_all`: a failure leaves no file, or a prefix of the bytes. */
    method WriteFile(d: Name, f: FileName, data: seq<uint8>) returns (ok: bool)
      modifies this
      ensures OnlyTouches(old(dirs), dirs, {d}) && (old(faulted) ==> faulted)
      ensures d in dirs <==> d in old(dirs)
      ensures d in dirs ==> SameExcept(old(dirs)[d], dirs[d], {f})
      ensures ok ==> d in dirs && f in dirs[d] && dirs[d][f] == Raw(data)
      ensures d in dirs && f in dirs[d] ==> dirs[d][f].Raw? || (f in old(dirs)[d] && dirs[d][f] == old(dirs)[d][f])
      ensures !ok && !faulted ==> d !in old(dirs)
    {
      ok := *;
      if d !in dirs {
        ok := false;
      } else if ok {
        dirs := dirs[d := dirs[d][f := Raw(data)]];
      } else {
        faulted := true;
        var written :| 0 <= written <= |data|;
        if * { dirs := dirs[d := dirs[d][f := Raw(data[..written])]]; }
      }
    }

    /** `write_all` on an open file: appends, or on failure appends a prefix. */
    method Append(d: Name, f: FileName, data: seq<uint8>) returns (ok: bool)
      requires d in dirs && f in dirs[d] && dirs[d][f].Raw?
      modifies this
      ensures OnlyTouches(old(dirs), dirs, {d}) && (old(faulted) ==> faulted)
      ensures d in dirs && SameExcept(old(dirs)[d], dirs[d], {f})
      ensures f in dirs[d] && dirs[d][f].Raw?
      ensures ok ==> dirs[d][f] == Raw(old(dirs)[d][f].bytes + data)
      ensures !ok ==> faulted
    {
      ok := *;
      if !ok { faulted := true; }
      var written :| 0 <= written <= |data|;
      var part := if ok then data else data[..written];
      dirs := dirs[d := dirs[d][f := Raw(dirs[d][f].bytes + part)]];
    }

    /** `clonefile_or_copy`: needs a source and an absent destination. */
    method CloneFile(src: Option<seq<uint8>>, d: Name, f: FileName) returns (ok: bool)
      modifies this
      ensures OnlyTouches(old(dirs), dirs, {d}) && (old(faulted) ==> faulted)
      ensures d in dirs <==> d in old(dirs)
      ensures d in dirs ==> SameExcept(old(dirs)[d], dirs[d], {f})
      ensures ok ==> src.Some? && d in dirs && f in dirs[d] && dirs[d][f] == Raw(src.value)
      ensures ok ==> d in old(dirs) && f !in old(dirs)[d]
      ensures !ok && !faulted ==> src.None? || d !in old(dirs) || f in old(dirs)[d]
    {
      ok := false;
      if src.Some? && d in dirs && f !in dirs[d] { ok := WriteFile(d, f, src.value); }
    }

    /** `fs::write` of a JSON document: a failure leaves the old file or a torn one. */
    method WriteDoc(d: Name, f: FileName, doc: File) returns (ok: bool)
      modifies this
      ensures OnlyTouches(old(dirs), dirs, {d}) && (old(faulted) ==> faulted)
      ensures d in dirs <==> d in old(dirs)
      ensures d in dirs ==> SameExcept(old(dirs)[d], dirs[d], {f})
      ensures ok ==> d in dirs && f in dirs[d] && dirs[d][f] == doc
      ensures !ok && d in dirs && f in dirs[d] ==>
                dirs[d][f] == Torn || (f in old(dirs)[d] && dirs[d][f] == old(dirs)[d][f])
      ensures !ok && !faulted ==> d !in old(dirs)
    {
      ok := *;
      if d !in dirs {
        ok := false;
      } else if ok {
        dirs := dirs[d := dirs[d][f := doc]];
      } else {
        faulted := true;
        if * { dirs := dirs[d := dirs[d][f := Torn]]; }
      }
    }

    /** Renaming a directory needs the source there and the destination absent or empty. */
    method Rename(src: Name, dst: Name) returns (ok: bool)
      modifies this
      ensures OnlyTouches(old(dirs), dirs, {src, dst}) && (old(faulted) ==> faulted)
      ensures !ok ==> dirs == old(dirs)
      ensures ok ==> src in old(dirs) && dst in dirs && dirs[dst] == old(dirs)[src]
      ensures ok && src != dst ==> src !in dirs
      ensures !ok && !faulted ==>
                src !in old(dirs) || (src != dst && dst in old(dirs) && old(dirs)[dst] != map[])
    {
      ok := *;
      if src !in dirs || (src != dst && dst in dirs && dirs[dst] != map[]) {
        ok := false;
      } else if !ok {
        faulted := true;
      }
      if ok && src != dst {
        dirs := dirs[dst := dirs[src]] - {src};
      }
    }

    /** The two last steps of both writers: clear the target, move the staged directory there.
        When the two are one, clearing it deletes what was staged. */
    method Install(tmp: Name, n: Name) returns (ok: bool, cleared: bool)
      modifies this
      ensures OnlyTouches(old(dirs), dirs, {n, tmp}) && (old(faulted) ==> faulted)
      ensures ok && tmp != n ==> tmp in old(dirs) && n in dirs && dirs[n] == old(dirs)[tmp] && tmp !in dirs
      ensures tmp == n && cleared ==> !ok && n !in dirs
      ensures !faulted ==> cleared && (ok <==> tmp != n && tmp in old(dirs))
      ensures NoNewManifest(old(dirs), dirs, n, tmp)
    {
      cleared := RemoveDirAll(n);
      ok := Rename(tmp, n);
    }

    /** The two first steps of both writers: clear any aborted attempt, then make the directory. */
    method OpenStaging(tmp: Name) returns (ok: bool)
      modifies this
      ensures OnlyTouches(old(dirs), dirs, {tmp}) && (old(faulted) ==> faulted)
      ensures ok ==> tmp in dirs
      ensures !faulted ==> ok && dirs[tmp] == map[]
      ensures !Published(old(dirs), tmp) ==> !Published(dirs, tmp)
    {
      var _ := RemoveDirAll(tmp);
      ok := CreateDirAll(tmp);
    }

    method StageCommon(tmp: Name, cap: VmImage) returns (ok: bool)
      modifies this
      ensures OnlyTouches(old(dirs), dirs, {tmp}) && (old(faulted) ==> faulted)
      ensures ok ==> tmp in dirs && CommonFiles(dirs[tmp], cap)
      ensures tmp in dirs ==> tmp in old(dirs) && SameExcept(old(dirs)[tmp], dirs[tmp], {GicBin, DiskImg, VmStateJson})
      ensures !ok && !faulted ==> cap.disk.None? || tmp !in old(dirs) || DiskImg in old(dirs)[tmp]
    {
      ok := WriteFile(tmp, GicBin, cap.gic);
      if !ok { return; }
      ok := CloneFile(cap.disk, tmp, DiskImg);
      if !ok { return; }
      ok := WriteDoc(tmp, VmStateJson, StateDoc(cap.snap));
    }

    /** A name that is its own staging directory deletes its staged files before the rename. */
    method WriteSnapshot(n: Name, cap: VmImage) returns (r: IoResult, ghost cleared: bool)
      modifies this
      ensures OnlyTouches(old(dirs), dirs, {n, TmpName(n)}) && (old(faulted) ==> faulted)
      ensures r == Done || r == IoError
      ensures r == Done && TmpName(n) != n ==> n in dirs && FullFiles(dirs[n], cap) && TmpName(n) !in dirs
      ensures TmpName(n) == n && cleared ==> n !in dirs
      ensures TmpName(n) == n && r == Done ==> !cleared
      ensures !faulted ==> (r == Done <==> TmpName(n) != n && cap.disk.Some?)
      ensures NoNewManifest(old(dirs), dirs, n, TmpName(n))
    {
      var tmp := TmpName(n);
      r, cleared := IoError, false;
      var ok := OpenStaging(tmp);
      if !ok { return; }
      ok := WriteFile(tmp, MemoryBin, cap.ram);
      if !ok { return; }
      ok := StageCommon(tmp, cap);
      if !ok { return; }
      ok, cleared := Install(tmp, n);
      if ok { r := Done; }
    }

    method WriteDiffSnapshot(n: Name, cap: VmImage, pages: seq<nat>) returns (r: IoResult, ghost cleared: bool)
      requires AllFit(pages)
      modifies this
      ensures OnlyTouches(old(dirs), dirs, {n, TmpName(n)}) && (old(faulted) ==> faulted)
      ensures r == Done || r == IoError || r == PageOutOfBounds
      ensures r == Done && TmpName(n) != n ==>
                && n in dirs && CommonFiles(dirs[n], cap) && DiffPages(dirs[n], cap.ram, pages)
                && TmpName(n) !in dirs
      ensures r == PageOutOfBounds ==> !AllInBounds(cap.ram, pages)
      ensures TmpName(n) == n && cleared ==> n !in dirs
      ensures TmpName(n) == n && r == Done ==> !cleared
      ensures !faulted ==> (r == Done <==> TmpName(n) != n && cap.disk.Some? && AllInBounds(cap.ram, pages))
      ensures NoNewManifest(old(dirs), dirs, n, TmpName(n))
    {
      var tmp := TmpName(n);
      r, cleared := IoError, false;
      var ok := OpenStaging(tmp);
      if !ok { return; }
      ok := StageCommon(tmp, cap);
      if !ok { return; }
      r := WriteDiffPages(tmp, pages, cap.ram);
      if r != Done { return; }
      ok, cleared := Install(tmp, n);
      if !ok { r := IoError; }
    }

    method WriteDiffPages(d: Name, pages: seq<nat>, ram: Image) returns (r: IoResult)
      requires d in dirs
      requires AllFit(pages)
      modifies this
      ensures OnlyTouches(old(dirs), dirs, {d}) && (old(faulted) ==> faulted)
      ensures d in dirs && SameExcept(old(dirs)[d], dirs[d], {MemoryBin, DirtyIdx})
      ensures r == Done || r == IoError || r == PageOutOfBounds
      ensures r == Done ==> DiffPages(dirs[d], ram, pages)
      ensures r == PageOutOfBounds ==> !AllInBounds(ram, pages)
      ensures r == IoError ==> faulted
    {
      r := WritePacked(d, pages, ram);
      if r != Done { return; }
      var ok := WriteIndex(d, pages);
      if !ok { r := IoError; }
    }

    method WritePacked(d: Name, pages: seq<nat>, ram: Image) returns (r: IoResult)
      requires d in dirs
      modifies this
      ensures OnlyTouches(old(dirs), dirs, {d}) && (old(faulted) ==> faulted)
      ensures d in dirs && SameExcept(old(dirs)[d], dirs[d], {MemoryBin})
      ensures r == Done || r == IoError || r == PageOutOfBounds
      ensures r == Done ==>
                AllInBounds(ram, pages) && MemoryBin in dirs[d] && dirs[d][MemoryBin] == Raw(Pack(ram, pages))
      ensures r == PageOutOfBounds ==> !AllInBounds(ram, pages)
      ensures r == IoError ==> faulted
    {
      r := IoError;
      var ok := WriteFile(d, MemoryBin, []);
      if !ok { return; }
      for k := 0 to |pages|
        invariant OnlyTouches(old(dirs), dirs, {d}) && (old(faulted) ==> faulted)
        invariant d in dirs && SameExcept(old(dirs)[d], dirs[d], {MemoryBin})
        invariant AllInBounds(ram, pages[..k])
        invariant MemoryBin in dirs[d] && dirs[d][MemoryBin] == Raw(Pack(ram, pages[..k]))
      {
        var o := PageOffset(pages[k]);
        if o + PAGE > |ram| {
          assert !InBounds(ram, pages[k]);
          return PageOutOfBounds;
        }
        PackSnoc(ram, pages[..k], pages[k]);
        assert pages[..k + 1] == pages[..k] + [pages[k]];
        ok := Append(d, MemoryBin, ram[o..o + PAGE]);
        if !ok { return; }
      }
      assert pages[..|pages|] == pages;
      r := Done;
    }

    method WriteIndex(d: Name, pages: seq<nat>) returns (ok: bool)
      requires d in dirs
      requires AllFit(pages)
      modifies this
      ensures OnlyTouches(old(dirs), dirs, {d}) && (old(faulted) ==> faulted)
      ensures d in dirs && SameExcept(old(dirs)[d], dirs[d], {DirtyIdx})
      ensures ok ==> DirtyIdx in dirs[d] && dirs[d][DirtyIdx] == Raw(EncodeIndex(pages))
      ensures !ok ==> faulted
    {
      ok := WriteFile(d, DirtyIdx, []);
      if !ok { return; }
      for k := 0 to |pages|
        invariant OnlyTouches(old(dirs), dirs, {d}) && (old(faulted) ==> faulted)
        invariant d in dirs && SameExcept(old(dirs)[d], dirs[d], {DirtyIdx})
        invariant AllFit(pages[..k])
        invariant DirtyIdx in dirs[d] && dirs[d][DirtyIdx] == Raw(EncodeIndex(pages[..k]))
      {
        IndexSnoc(pages[..k], pages[k]);
        assert pages[..k + 1] == pages[..k] + [pages[k]];
        ok := Append(d, DirtyIdx, Le64(pages[k]));
        if !ok { return; }
      }
      assert pages[..|pages|] == pages;
      ok := true;
    }

    /** `resolve_chain`: its loop over `chain`, `seen` and `cur`. */
    method ResolveChain(leaf: Name) returns (r: Option<seq<Manifest>>)
      ensures r == Walk(dirs, leaf, {})
    {
      var chain: seq<Manifest>, seen: set<Name>, cur := [], {}, leaf;
      assert Walk(dirs, leaf, {}).Some? ==> Walk(dirs, leaf, {}).value + [] == Walk(dirs, leaf, {}).value;
      while true
        invariant Walk(dirs, leaf, {}) == Onto(Walk(dirs, cur, seen), chain)
        decreases dirs.Keys - seen
      {
        if cur in seen { return None; }
        var m := ReadManifest(dirs, cur);
        if m.None? { return None; }
        assert cur in dirs.Keys - seen;
        if m.value.parent.Some? {
          OntoStep(Walk(dirs, m.value.parent.value, seen + {cur}), m.value, chain);
        }
        seen := seen + {cur};
        chain := [m.value] + chain; // pushed, and reversed at the end
        if m.value.parent.None? { return Some(chain); }
        cur := m.value.parent.value;
      }
    }
  }

  /** The chain found from here on, followed by the layers already walked. */
  ghost function Onto(walk: Option<seq<Manifest>>, walked: seq<Manifest>): Option<seq<Manifest>>
  {
    match walk
    case None => None
    case Some(rest) => Some(rest + walked)
  }

  lemma OntoStep(walk: Option<seq<Manifest>>, m: Manifest, walked: seq<Manifest>)
    ensures Onto(Onto(walk, [m]), walked) == Onto(walk, [m] + walked)
  {
    if walk.Some? { assert walk.value + [m] + walked == walk.value + ([m] + walked); }
  }

  lemma {:induction false} PackSnoc(ram: Image, pages: seq<nat>, p: nat)
    requires AllInBounds(ram, pages) && InBounds(ram, p)
    ensures AllInBounds(ram, pages + [p])
    ensures Pack(ram, pages + [p]) == Pack(ram, pages) + ram[PageOffset(p)..PageOffset(p) + PAGE]
  {
    if pages == [] {
      assert [] + [p] == [p];
    } else {
      PackSnoc(ram, pages[1..], p);
      assert (pages + [p])[1..] == pages[1..] + [p];
    }
  }

  /** The overwrite guard: the direct parent and the restore source, unless forced. */
  predicate Protected(n: Name, parent: Option<Name>, restoredFrom: Option<Name>, force: bool)
  {
    !force && (parent == Some(n) || restoredFrom == Some(n))
  }

  /** What one call of `write` may do to the store, finished (`Done`) or not. */
  ghost predicate WriteOutcome(dirs: Dirs, dirs': Dirs, n: Name, parent: Option<Name>, cap: VmImage,
                               dirty: Option<seq<nat>>, r: IoResult)
  {
    && OnlyTouches(dirs, dirs', {n, TmpName(n)})
    && (r == Refused ==> dirs' == dirs)
    && (r == TrackingRequired ==> parent.Some? && dirty.None?)
    && (r == PageOutOfBounds ==> dirty.Some? && !AllInBounds(cap.ram, dirty.value))
    && (r == Done && TmpName(n) != n ==>
          && (parent.Some? ==> dirty.Some?)
          && LayerAt(dirs', n, parent, cap, if dirty.Some? then dirty.value else [])
          && TmpName(n) !in dirs')
    && (!Published(dirs, TmpName(n)) ==>
          && (TmpName(n) != n ==> !Published(dirs', TmpName(n)))
          && (r != Done && Published(dirs', n) ==> ReadManifest(dirs', n) == ReadManifest(dirs, n)))
  }

  /** The manifest is the last file written, and the one that publishes the layer. */
  lemma ManifestPublishes(dirs: Dirs, staged: Dirs, dirs': Dirs, n: Name, parent: Option<Name>, cap: VmImage,
                          dirty: Option<seq<nat>>, ok: bool)
    requires OnlyTouches(dirs, staged, {n, TmpName(n)}) && OnlyTouches(staged, dirs', {n})
    requires parent.Some? ==> dirty.Some?
    requires TmpName(n) != n ==>
               && n in staged && LayerFiles(staged[n], parent, cap, if dirty.Some? then dirty.value else [])
               && TmpName(n) !in staged
    requires NoNewManifest(dirs, staged, n, TmpName(n))
    requires n in dirs' <==> n in staged
    requires n in dirs' ==> SameExcept(staged[n], dirs'[n], {ManifestJson})
    requires ok ==> n in dirs' && ManifestJson in dirs'[n]
                    && dirs'[n][ManifestJson] == ManifestDoc(ManifestFor(n, parent, cap.snap))
    requires !ok && n in dirs' && ManifestJson in dirs'[n] ==>
               || dirs'[n][ManifestJson] == Torn
               || (ManifestJson in staged[n] && dirs'[n][ManifestJson] == staged[n][ManifestJson])
    ensures WriteOutcome(dirs, dirs', n, parent, cap, dirty, if ok then Done else IoError)
  {
  }

  /** Writing `n` clears or replaces a directory that restoring `leaf` reads. */
  ghost predicate WritesInto(dirs: Dirs, leaf: Name, n: Name)
  {
    OnChain(dirs, leaf, n) || OnChain(dirs, leaf, TmpName(n))
  }

  /** A layer on `parent` may be written to `n`, new or replaced: it builds on neither that name
      nor its staging name. */
  ghost predicate Writable(dirs: Dirs, n: Name, parent: Option<Name>)
  {
    parent.Some? ==> !WritesInto(dirs, parent.value, n)
  }

  /** Wherever a write ends, every chain that does not read the name or its staging name keeps
      its directories. */
  lemma WriteKeepsOthers(dirs: Dirs, dirs': Dirs, n: Name, parent: Option<Name>, cap: VmImage,
                         dirty: Option<seq<nat>>, r: IoResult)
    requires WriteOutcome(dirs, dirs', n, parent, cap, dirty, r)
    ensures forall m :: Walk(dirs, m, {}).Some? && (r == Refused || !WritesInto(dirs, m, n)) ==>
              KeepsChain(dirs, dirs', m)
  {
    forall m | Walk(dirs, m, {}).Some? && (r == Refused || !WritesInto(dirs, m, n)) ensures KeepsChain(dirs, dirs', m) {
      forall x | x in ReadBy(dirs, m, {}) ensures SameDir(dirs, dirs', x) {
        assert r != Refused ==> x != n && x != TmpName(n);
      }
    }
  }

  /** Wherever a write ends, every name that restored before and reads neither the written name
      nor its staging name restores to the same machine. The new name restores the whole capture
      once the write is done, given that the listed pages cover every change since the parent, and
      an unfinished write to a new name does not resolve. */
  lemma InterruptedWriteIsSafe(dirs: Dirs, dirs': Dirs, n: Name, parent: Option<Name>, cap: VmImage,
                               dirty: Option<seq<nat>>, r: IoResult)
    requires WriteOutcome(dirs, dirs', n, parent, cap, dirty, r) && Writable(dirs, n, parent)
    requires Current(cap.snap, cap.ram) && |cap.ram| < TWO64
    requires parent.Some? ==>
               && Restore(dirs, parent.value).Some?
               && dirty.Some? && (forall i :: 0 <= i < |dirty.value| ==> dirty.value[i] * PAGE < |cap.ram|)
               && Covers(PageSet(dirty.value), cap.ram, Restore(dirs, parent.value).value.ram)
    ensures forall m :: Restore(dirs, m).Some? && !WritesInto(dirs, m, n) ==> Restore(dirs', m) == Restore(dirs, m)
    ensures r == Done && TmpName(n) != n ==> Restore(dirs', n) == Some(cap)
    ensures r != Done && !Published(dirs, n) && !Published(dirs, TmpName(n)) ==> Restore(dirs', n) == None
    ensures TmpName(n) != n && !Published(dirs, TmpName(n)) ==> Restore(dirs', TmpName(n)) == None
  {
    WriteKeepsOthers(dirs, dirs', n, parent, cap, dirty, r);
    forall m | Restore(dirs, m).Some? && !WritesInto(dirs, m, n) ensures Restore(dirs', m) == Restore(dirs, m) {
      RestoreStable(dirs, dirs', m);
    }
    if r == Done && TmpName(n) != n { FinishedWriteRestoresIff(dirs, dirs', n, parent, cap, dirty); }
  }

  /** A finished layer that builds on neither its own name nor its staging name restores its
      capture if and only if its pages cover every change since the parent; a full layer always
      does. */
  lemma FinishedWriteRestoresIff(dirs: Dirs, dirs': Dirs, n: Name, parent: Option<Name>, cap: VmImage,
                                 dirty: Option<seq<nat>>)
    requires WriteOutcome(dirs, dirs', n, parent, cap, dirty, Done) && TmpName(n) != n && Writable(dirs, n, parent)
    requires Current(cap.snap, cap.ram) && |cap.ram| < TWO64
    requires parent.Some? ==>
               && Restore(dirs, parent.value).Some? && |Restore(dirs, parent.value).value.ram| == |cap.ram|
               && dirty.Some? && (forall i :: 0 <= i < |dirty.value| ==> dirty.value[i] * PAGE < |cap.ram|)
    ensures Restore(dirs', n) == Some(cap) <==>
            parent.Some? ==> Covers(PageSet(dirty.value), cap.ram, Restore(dirs, parent.value).value.ram)
  {
    if parent.None? {
      FullLayerRestores(dirs', n, cap, if dirty.Some? then dirty.value else []);
    } else {
      var pages, base := dirty.value, Restore(dirs, parent.value).value.ram;
      WriteKeepsOthers(dirs, dirs', n, parent, cap, dirty, Done);
      PagesLieInside(cap.ram, pages);
      DiffLayerRestores(dirs, dirs', n, parent.value, cap, pages);
      OverlayExactIffCovered(base, cap.ram, PageSet(pages));
    }
  }

  /** A finished layer that builds on its own name or its staging name never restores, and
      neither does any name whose chain went through it. */
  lemma CircularWriteLosesAll(dirs: Dirs, dirs': Dirs, n: Name, parent: Name, cap: VmImage,
                              dirty: Option<seq<nat>>, m: Name)
    requires WriteOutcome(dirs, dirs', n, Some(parent), cap, dirty, Done) && TmpName(n) != n
    requires Walk(dirs, parent, {}).Some? && WellNamed(dirs, parent, {}) && !Writable(dirs, n, Some(parent))
    requires m == n || (OnChain(dirs, m, n) && WellNamed(dirs, m, {}))
    ensures Restore(dirs', m) == None
  {
    var gone := TmpName(n);
    WalkBreaks(dirs, dirs', parent, {}, n, gone);
    assert {} + {n} == {n};
    assert Walk(dirs', n, {}) == None;
    if m != n { FailsThrough(dirs, dirs', m, {}, n, gone); }
  }

  lemma PagesLieInside(ram: Image, pages: seq<nat>)
    requires AllInBounds(ram, pages) && |ram| < TWO64
    requires forall i :: 0 <= i < |pages| ==> pages[i] * PAGE < |ram|
    ensures forall i :: 0 <= i < |pages| ==> pages[i] * PAGE + PAGE <= |ram|
  {
    forall i | 0 <= i < |pages| ensures pages[i] * PAGE + PAGE <= |ram| {
      assert InBounds(ram, pages[i]);
    }
  }

  /** Nothing in the request itself makes a write fail: the name has a staging directory of its
      own, there is a disk to copy, and a diff layer has a dirty list whose pages lie inside RAM. */
  ghost predicate Possible(n: Name, parent: Option<Name>, cap: VmImage, dirty: Option<seq<nat>>)
  {
    && TmpName(n) != n && cap.disk.Some?
    && (parent.Some? ==> dirty.Some? && AllInBounds(cap.ram, dirty.value))
  }

  /** The writer's state: where the next layer hangs and which names it must not replace. */
  class SnapshotWriter {
    const store: SnapshotStore
    const name: Name
    const restoredFrom: Option<Name>
    const force: bool
    var parent: Option<Name>

    constructor (store: SnapshotStore, name: Name, parent: Option<Name>, restoredFrom: Option<Name>, force: bool)
      ensures this.store == store && this.name == name && this.parent == parent
      ensures this.restoredFrom == restoredFrom && this.force == force
    {
      this.store, this.name, this.parent, this.restoredFrom, this.force := store, name, parent, restoredFrom, force;
    }

    /** Writes and publishes one layer. `dirty` is None without tracking: then every capture
        is Full and the parent never moves. A name that is its own staging directory is never
        written: unless the host fails to delete it, what was stored there is gone. Without a host
        fault the write succeeds exactly when nothing in the request forbids it. */
    method Write(requested: Option<Name>, cap: VmImage, dirty: Option<seq<nat>>)
      returns (r: IoResult, ghost cleared: bool)
      requires dirty.Some? ==> AllFit(dirty.value)
      modifies this, store
      ensures var n := if requested.Some? then requested.value else name;
              && WriteOutcome(old(store.dirs), store.dirs, n, old(parent), cap, dirty, r)
              && (r == Refused <==> !force && (old(parent) == Some(n) || restoredFrom == Some(n)))
              && parent == (if r == Done && dirty.Some? then Some(n) else old(parent))
              && (TmpName(n) == n ==> (cleared ==> n !in store.dirs) && (r == Done ==> !cleared))
              && (!store.faulted && r != Refused ==> (r == Done <==> Possible(n, old(parent), cap, dirty)))
    {
      cleared, store.faulted := false, false;
      var n := if requested.Some? then requested.value else name;
      if !force && (parent == Some(n) || restoredFrom == Some(n)) { return Refused, false; }
      r, cleared := WriteFiles(n, cap, dirty);
      if r != Done { return; }
      ghost var staged := store.dirs;
      var manifest := Manifest(n, cap.snap.memSize, cap.snap.vcpuCount, if parent.Some? then Diff else Full, parent);
      var ok := store.WriteDoc(n, ManifestJson, ManifestDoc(manifest));
      ManifestPublishes(old(store.dirs), staged, store.dirs, n, parent, cap, dirty, ok);
      if !ok { return IoError, cleared; }
      if dirty.Some? { parent := Some(n); }
    }

    /** The match on `parent`: a diff layer needs the dirty list, a full one does not. */
    method WriteFiles(n: Name, cap: VmImage, dirty: Option<seq<nat>>) returns (r: IoResult, ghost cleared: bool)
      requires dirty.Some? ==> AllFit(dirty.value)
      modifies store
      ensures OnlyTouches(old(store.dirs), store.dirs, {n, TmpName(n)}) && (old(store.faulted) ==> store.faulted)
      ensures r != Refused
      ensures r == TrackingRequired ==> parent.Some? && dirty.None?
      ensures r == PageOutOfBounds ==> dirty.Some? && !AllInBounds(cap.ram, dirty.value)
      ensures r == Done ==> (parent.Some? ==> dirty.Some?)
      ensures r == Done && TmpName(n) != n ==>
                && n in store.dirs && TmpName(n) !in store.dirs
                && LayerFiles(store.dirs[n], parent, cap, if dirty.Some? then dirty.value else [])
      ensures TmpName(n) == n ==> (cleared ==> n !in store.dirs) && (r == Done ==> !cleared)
      ensures !store.faulted ==> (r == Done <==> Possible(n, parent, cap, dirty))
      ensures NoNewManifest(old(store.dirs), store.dirs, n, TmpName(n))
    {
      cleared := false;
      if parent.Some? {
        if dirty.None? { return TrackingRequired, false; }
        r, cleared := store.WriteDiffSnapshot(n, cap, dirty.value);
      } else {
        r, cleared := store.WriteSnapshot(n, cap);
      }
    }
  }
}
