/** The snapshot store: directories of layer files, the parent chain, and what restoring a
    name reads back (crates/vmm/src/snapshot.rs, run_restore in spike/src/bin/boot.rs). */
module Store {
  import opened Prelude
  import opened Dirty
  import opened Images

  type Name = string

  const SNAP_MAGIC: string := "ignition-snapshot-v3"
  const SNAP_VERSION: uint32 := 3

  datatype SnapshotType = Full | Diff

  datatype Manifest = Manifest(name: Name, memSize: uint64, vcpuCount: uint64,
                               kind: SnapshotType, parent: Option<Name>)

  /** `vmstate.json`; `machine` stands for the vCPU and device records, which the store
      only carries. */
  datatype VmSnapshot = VmSnapshot(magic: string, version: uint32, memSize: uint64,
                                   vcpuCount: uint64, machine: seq<uint8>)

  datatype FileName = MemoryBin | GicBin | DiskImg | VmStateJson | ManifestJson | DirtyIdx

  /** A JSON file either holds its whole document or, after an interrupted write, something
      that no longer parses. */
  datatype File = Raw(bytes: seq<uint8>) | StateDoc(snap: VmSnapshot) | ManifestDoc(manifest: Manifest) | Torn

  type Dir = map<FileName, File>
  type Dirs = map<Name, Dir>

  /** Everything one snapshot captures, and everything a restore brings back. */
  datatype VmImage = VmImage(ram: Image, snap: VmSnapshot, gic: seq<uint8>, disk: Option<seq<uint8>>)

  // ---- reading ----

  function ReadManifest(dirs: Dirs, n: Name): Option<Manifest>
  {
    if n in dirs && ManifestJson in dirs[n] && dirs[n][ManifestJson].ManifestDoc?
    then Some(dirs[n][ManifestJson].manifest) else None
  }

  /** A name that `read_manifest` accepts; only these can be layers of a chain. */
  predicate Published(dirs: Dirs, n: Name) { ReadManifest(dirs, n).Some? }

  function ReadRaw(dirs: Dirs, n: Name, f: FileName): Option<seq<uint8>>
  {
    if n in dirs && f in dirs[n] && dirs[n][f].Raw? then Some(dirs[n][f].bytes) else None
  }

  /** The walk of `resolve_chain` from `cur`, having seen `seen`; the result is root first. */
  function Walk(dirs: Dirs, cur: Name, seen: set<Name>): (chain: Option<seq<Manifest>>)
    ensures chain.Some? ==> |chain.value| > 0
    decreases dirs.Keys - seen
  {
    if cur in seen then None else
    match ReadManifest(dirs, cur)
    case None => None
    case Some(m) =>
      if m.parent.None? then Some([m]) else
      match (assert cur in dirs.Keys - seen; Walk(dirs, m.parent.value, seen + {cur}))
      case None => None
      case Some(rest) => Some(rest + [m])
  }

  /** The shape run_restore insists on: a Full root, then Diffs of the same RAM size. */
  predicate WellShaped(chain: seq<Manifest>)
  {
    && |chain| > 0
    && chain[0].kind == Full
    && forall i :: 0 < i < |chain| ==> chain[i].kind == Diff && chain[i].memSize == chain[0].memSize
  }

  /** `read_snapshot`: the state document must parse and carry this version. */
  function ReadSnapshot(dirs: Dirs, n: Name): Option<VmSnapshot>
  {
    if n in dirs && VmStateJson in dirs[n] && dirs[n][VmStateJson].StateDoc? &&
       dirs[n][VmStateJson].snap.magic == SNAP_MAGIC && dirs[n][VmStateJson].snap.version == SNAP_VERSION &&
       ReadRaw(dirs, n, GicBin).Some?
    then Some(dirs[n][VmStateJson].snap) else None
  }

  /** `read_diff_pages` and `apply_diff` for one layer. */
  function ApplyLayer(dirs: Dirs, ram: Image, n: Name): (r: Option<Image>)
    ensures r.Some? ==> |r.value| == |ram|
  {
    var idx, packed := ReadRaw(dirs, n, DirtyIdx), ReadRaw(dirs, n, MemoryBin);
    if idx.None? || packed.None? then None else
    var pages := DecodeIndex(idx.value);
    if |packed.value| != |pages| * PAGE then None else ApplyPages(ram, pages, packed.value)
  }

  function OverlayLayers(dirs: Dirs, ram: Image, layers: seq<Manifest>): (r: Option<Image>)
    ensures r.Some? ==> |r.value| == |ram|
    decreases |layers|
  {
    if layers == [] then Some(ram) else
    match ApplyLayer(dirs, ram, layers[0].name)
    case None => None
    case Some(next) => OverlayLayers(dirs, next, layers[1..])
  }

  /** Steps 1 to 2b of run_restore: resolve, validate, map the root image, overlay the diffs.
      RAM comes from the chain; vCPU, device, GIC and disk state from the leaf. */
  function Restore(dirs: Dirs, name: Name): (r: Option<VmImage>)
  {
    var chain := Walk(dirs, name, {});
    if chain.None? then None else RestoreChain(dirs, chain.value)
  }

  function RestoreChain(dirs: Dirs, chain: seq<Manifest>): (r: Option<VmImage>)
    requires |chain| > 0
  {
    var root, leaf := chain[0], chain[|chain| - 1];
    var snap, base := ReadSnapshot(dirs, leaf.name), ReadRaw(dirs, root.name, MemoryBin);
    if !WellShaped(chain) || snap.None? || snap.value.memSize != root.memSize ||
       base.None? || |base.value| != root.memSize then None else
    match OverlayLayers(dirs, base.value, chain[1..])
    case None => None
    case Some(ram) =>
      Some(VmImage(ram, snap.value, ReadRaw(dirs, leaf.name, GicBin).value, ReadRaw(dirs, leaf.name, DiskImg)))
  }

  // ---- what resolve_chain computes ----

  /** `path` follows parent links from `leaf`, one manifest after another. */
  ghost predicate ParentPath(dirs: Dirs, leaf: Name, path: seq<Name>)
  {
    && |path| > 0 && path[0] == leaf
    && forall i :: 0 <= i < |path| - 1 ==>
         Published(dirs, path[i]) && ReadManifest(dirs, path[i]).value.parent == Some(path[i + 1])
  }

  /** The path runs into a directory without a manifest, or into one it has been through. */
  ghost predicate Broken(dirs: Dirs, leaf: Name, path: seq<Name>)
  {
    && ParentPath(dirs, leaf, path)
    && (!Published(dirs, path[|path| - 1]) || path[|path| - 1] in path[..|path| - 1])
  }

  /** The path goes through distinct directories up to one without a parent, and `chain` is
      their manifests with the root first. */
  ghost predicate ReachesRoot(dirs: Dirs, leaf: Name, path: seq<Name>, chain: seq<Manifest>)
  {
    && ParentPath(dirs, leaf, path)
    && (forall i, j :: 0 <= i < j < |path| ==> path[i] != path[j])
    && |chain| == |path| && chain[0].parent == None
    && forall i :: 0 <= i < |path| ==> ReadManifest(dirs, path[i]) == Some(chain[|chain| - 1 - i])
  }

  /** `resolve_chain` succeeds with distinct layers, root first, each naming its predecessor
      as parent; it fails exactly when the walk meets a missing manifest or a repeated name. */
  lemma ResolveChainExact(dirs: Dirs, leaf: Name)
    ensures var chain := Walk(dirs, leaf, {});
            && (chain.Some? ==> exists path :: ReachesRoot(dirs, leaf, path, chain.value))
            && (chain.None? <==> exists path :: Broken(dirs, leaf, path))
  {
    assert SeenOn([leaf]) == {};
    var path := TraceWalk(dirs, leaf, [leaf]);
    if Walk(dirs, leaf, {}).Some? {
      assert ReachesRoot(dirs, leaf, path, Walk(dirs, leaf, {}).value);
      forall other ensures !Broken(dirs, leaf, other) {
        if ParentPath(dirs, leaf, other) {
          SamePath(dirs, leaf, path, Walk(dirs, leaf, {}).value, other);
        }
      }
    }
  }

  ghost function SeenOn(path: seq<Name>): set<Name>
    requires |path| > 0
  {
    set i | 0 <= i < |path| - 1 :: path[i]
  }

  lemma {:induction false} TraceWalk(dirs: Dirs, leaf: Name, path: seq<Name>) returns (whole: seq<Name>)
    requires ParentPath(dirs, leaf, path)
    requires forall i, j :: 0 <= i < j < |path| - 1 ==> path[i] != path[j]
    ensures var chain := Walk(dirs, path[|path| - 1], SeenOn(path));
            match chain
            case None => Broken(dirs, leaf, whole)
            case Some(layers) =>
              && |whole| == |path| - 1 + |layers| && path <= whole
              && ParentPath(dirs, leaf, whole)
              && (forall i, j :: 0 <= i < j < |whole| ==> whole[i] != whole[j])
              && layers[0].parent == None
              && (forall i :: |path| - 1 <= i < |whole| ==>
                    ReadManifest(dirs, whole[i]) == Some(layers[|whole| - 1 - i]))
    decreases dirs.Keys - SeenOn(path)
  {
    var cur := path[|path| - 1];
    whole := path;
    if cur in SeenOn(path) || !Published(dirs, cur) {
    } else {
      var m := ReadManifest(dirs, cur).value;
      if m.parent.Some? {
        var longer := path + [m.parent.value];
        assert SeenOn(longer) == SeenOn(path) + {cur} by {
          assert forall i | 0 <= i < |path| :: longer[i] == path[i];
        }
        assert cur in dirs.Keys - SeenOn(path);
        whole := TraceWalk(dirs, leaf, longer);
      }
    }
  }

  lemma {:induction false} SamePath(dirs: Dirs, leaf: Name, path: seq<Name>, chain: seq<Manifest>, other: seq<Name>)
    requires ReachesRoot(dirs, leaf, path, chain) && ParentPath(dirs, leaf, other)
    ensures other <= path
    decreases |other|
  {
    if |other| > 1 {
      var k := |other| - 2;
      SamePath(dirs, leaf, path, chain, other[..k + 1]);
      assert other[..k + 1][k] == other[k] == path[k];
      assert ReadManifest(dirs, path[k]) == Some(chain[|chain| - 1 - k]);
      assert ReadManifest(dirs, other[k]).value.parent == Some(other[k + 1]);
      assert other == other[..k + 1] + [path[k + 1]];
    } else {
      assert other == [leaf] == path[..1];
    }
  }

  // ---- what restoring accepts, and what it reads ----

  /** A diff layer that can be overlaid on RAM of `size` bytes: both files there, one page of bytes
      for each index, and every page inside RAM. */
  ghost predicate LayerFits(dirs: Dirs, size: nat, n: Name)
  {
    var idx, packed := ReadRaw(dirs, n, DirtyIdx), ReadRaw(dirs, n, MemoryBin);
    && idx.Some? && packed.Some? && |packed.value| == |idx.value| / 8 * PAGE
    && forall i :: 0 <= i < |idx.value| / 8 ==> PageOffset(ReadLe64(idx.value, 8 * i)) + PAGE <= size
  }

  lemma {:induction false} DecodeAt(raw: seq<uint8>, i: nat)
    requires i < |raw| / 8
    ensures DecodeIndex(raw)[i] == ReadLe64(raw, 8 * i)
    decreases |raw|
  {
    if i > 0 {
      DecodeAt(raw[8..], i - 1);
      assert raw[8..][8 * (i - 1)..8 * (i - 1) + 8] == raw[8 * i..8 * i + 8];
    }
  }

  lemma LayerAppliesIff(dirs: Dirs, ram: Image, n: Name)
    ensures ApplyLayer(dirs, ram, n).Some? <==> LayerFits(dirs, |ram|, n)
  {
    var idx, packed := ReadRaw(dirs, n, DirtyIdx), ReadRaw(dirs, n, MemoryBin);
    if idx.Some? && packed.Some? && |packed.value| == |idx.value| / 8 * PAGE {
      AppliesIff(ram, DecodeIndex(idx.value), packed.value);
      forall i | 0 <= i < |idx.value| / 8 ensures DecodeIndex(idx.value)[i] == ReadLe64(idx.value, 8 * i) {
        DecodeAt(idx.value, i);
      }
    }
  }

  lemma {:induction false} OverlaysIff(dirs: Dirs, ram: Image, layers: seq<Manifest>)
    ensures OverlayLayers(dirs, ram, layers).Some? <==>
            forall i :: 0 <= i < |layers| ==> LayerFits(dirs, |ram|, layers[i].name)
    decreases |layers|
  {
    if layers != [] {
      LayerAppliesIff(dirs, ram, layers[0].name);
      var next := ApplyLayer(dirs, ram, layers[0].name);
      if next.Some? {
        OverlaysIff(dirs, next.value, layers[1..]);
        assert forall i :: 0 < i < |layers| ==> layers[i] == layers[1..][i - 1];
      }
    }
  }

  /** The leaf's state document and GIC state are there, of this version. */
  ghost predicate LeafFits(dirs: Dirs, n: Name, size: nat)
  {
    && n in dirs && VmStateJson in dirs[n] && dirs[n][VmStateJson].StateDoc?
    && var snap := dirs[n][VmStateJson].snap;
       && snap.magic == "ignition-snapshot-v3" && snap.version == 3 && snap.memSize == size
       && GicBin in dirs[n] && dirs[n][GicBin].Raw?
  }

  /** A name restores if and only if its chain resolves, starts with a full layer whose memory file
      has exactly the size its manifest says, goes on with diff layers of that size that fit it, and
      ends in a leaf of this version and size. */
  lemma RestoresIff(dirs: Dirs, n: Name)
    ensures Restore(dirs, n).Some? <==>
            && Walk(dirs, n, {}).Some?
            && var chain := Walk(dirs, n, {}).value;
               var root := chain[0];
               && root.kind == Full && ReadRaw(dirs, root.name, MemoryBin).Some?
               && |ReadRaw(dirs, root.name, MemoryBin).value| == root.memSize
               && LeafFits(dirs, chain[|chain| - 1].name, root.memSize)
               && forall i :: 0 < i < |chain| ==>
                    chain[i].kind == Diff && chain[i].memSize == root.memSize &&
                    LayerFits(dirs, root.memSize, chain[i].name)
  {
    var walk := Walk(dirs, n, {});
    if walk.Some? {
      var chain := walk.value;
      var base := ReadRaw(dirs, chain[0].name, MemoryBin);
      if base.Some? && |base.value| == chain[0].memSize {
        OverlaysIff(dirs, base.value, chain[1..]);
        assert forall i :: 0 < i < |chain| ==> chain[i] == chain[1..][i - 1];
      }
    }
  }

  /** Byte `i` as one layer has it, if it lists its page. */
  ghost function LayerByte(dirs: Dirs, size: nat, n: Name, i: nat): Option<uint8>
    requires LayerFits(dirs, size, n)
  {
    ListedByte(DecodeIndex(ReadRaw(dirs, n, DirtyIdx).value), ReadRaw(dirs, n, MemoryBin).value, i)
  }

  lemma LayerGives(dirs: Dirs, ram: Image, n: Name, i: nat)
    requires LayerFits(dirs, |ram|, n) && i < |ram|
    ensures ApplyLayer(dirs, ram, n).Some?
    ensures var b := LayerByte(dirs, |ram|, n, i);
            ApplyLayer(dirs, ram, n).value[i] == if b.Some? then b.value else ram[i]
  {
    LayerAppliesIff(dirs, ram, n);
    AppliedByte(ram, DecodeIndex(ReadRaw(dirs, n, DirtyIdx).value), ReadRaw(dirs, n, MemoryBin).value, i);
  }

  ghost predicate AllFitOn(dirs: Dirs, size: nat, layers: seq<Manifest>)
  {
    forall j :: 0 <= j < |layers| ==> LayerFits(dirs, size, layers[j].name)
  }

  /** Byte `i` as the topmost layer that lists its page has it, else as the base does. */
  ghost function TopmostByte(dirs: Dirs, base: Image, layers: seq<Manifest>, i: nat): uint8
    requires i < |base| && AllFitOn(dirs, |base|, layers)
    decreases |layers|
  {
    if layers == [] then base[i] else
    var top, below := layers[|layers| - 1], layers[..|layers| - 1];
    assert LayerFits(dirs, |base|, top.name);
    var b := LayerByte(dirs, |base|, top.name, i);
    if b.Some? then b.value else TopmostByte(dirs, base, below, i)
  }

  /** Overlaying layer after layer leaves each byte as the topmost layer that lists it has it. */
  lemma {:induction false} OverlaidByte(dirs: Dirs, base: Image, layers: seq<Manifest>, i: nat)
    requires i < |base| && AllFitOn(dirs, |base|, layers)
    ensures OverlayLayers(dirs, base, layers).Some?
    ensures OverlayLayers(dirs, base, layers).value[i] == TopmostByte(dirs, base, layers, i)
    decreases |layers|
  {
    if layers != [] {
      var m, below := layers[|layers| - 1], layers[..|layers| - 1];
      OverlaidByte(dirs, base, below, i);
      OverlayAppend(dirs, base, below, m);
      assert below + [m] == layers;
      var mid := OverlayLayers(dirs, base, below).value;
      LayerGives(dirs, mid, m.name, i);
      OneLayer(dirs, mid, m);
    }
  }

  lemma OneLayer(dirs: Dirs, ram: Image, m: Manifest)
    ensures OverlayLayers(dirs, ram, [m]) == ApplyLayer(dirs, ram, m.name)
  {
    assert [m][1..] == [];
    var next := ApplyLayer(dirs, ram, m.name);
    if next.Some? { assert OverlayLayers(dirs, next.value, []) == Some(next.value); }
  }

  /** Whatever wrote the store: a restored byte is that of the topmost layer listing its page, else
      the root's; the rest of the machine is the leaf's. */
  lemma RestoredByte(dirs: Dirs, n: Name, i: nat)
    requires Restore(dirs, n).Some? && i < |Restore(dirs, n).value.ram|
    ensures var chain, r := Walk(dirs, n, {}).value, Restore(dirs, n).value;
            var base, leaf := ReadRaw(dirs, chain[0].name, MemoryBin).value, chain[|chain| - 1].name;
            && |r.ram| == |base|
            && AllFitOn(dirs, |base|, chain[1..])
            && r.ram[i] == TopmostByte(dirs, base, chain[1..], i)
            && r.snap == dirs[leaf][VmStateJson].snap && Raw(r.gic) == dirs[leaf][GicBin]
            && r.disk == ReadRaw(dirs, leaf, DiskImg)
  {
    RestoresIff(dirs, n);
    var chain := Walk(dirs, n, {}).value;
    OverlaidByte(dirs, ReadRaw(dirs, chain[0].name, MemoryBin).value, chain[1..], i);
  }

  // ---- stability: a chain restores the same while the directories it reads stay ----

  /** The directories that restoring from `cur` reads: those the walk visits, and those their
      manifests name. */
  ghost function ReadBy(dirs: Dirs, cur: Name, seen: set<Name>): set<Name>
    requires Walk(dirs, cur, seen).Some?
    decreases dirs.Keys - seen
  {
    var m := ReadManifest(dirs, cur).value;
    {cur, m.name} +
    if m.parent.None? then {} else assert cur in dirs.Keys - seen; ReadBy(dirs, m.parent.value, seen + {cur})
  }

  ghost predicate SameDir(dirs: Dirs, dirs': Dirs, n: Name)
  {
    (n in dirs <==> n in dirs') && (n in dirs ==> dirs'[n] == dirs[n])
  }

  /** `n` is one of the directories that restoring `leaf` reads. */
  ghost predicate OnChain(dirs: Dirs, leaf: Name, n: Name)
  {
    Walk(dirs, leaf, {}).Some? && n in ReadBy(dirs, leaf, {})
  }

  /** Every directory that restoring `leaf` reads is still there, unchanged. */
  ghost predicate KeepsChain(dirs: Dirs, dirs': Dirs, leaf: Name)
  {
    Walk(dirs, leaf, {}).Some? && forall n :: n in ReadBy(dirs, leaf, {}) ==> SameDir(dirs, dirs', n)
  }

  lemma {:induction false} WalkStable(dirs: Dirs, dirs': Dirs, cur: Name, seen: set<Name>, extra: set<Name>)
    requires Walk(dirs, cur, seen).Some?
    requires forall n :: n in ReadBy(dirs, cur, seen) ==> SameDir(dirs, dirs', n) && n !in extra
    ensures Walk(dirs', cur, seen + extra) == Walk(dirs, cur, seen)
    ensures ReadBy(dirs', cur, seen + extra) == ReadBy(dirs, cur, seen)
    decreases dirs.Keys - seen
  {
    var m := ReadManifest(dirs, cur).value;
    assert SameDir(dirs, dirs', cur);
    if m.parent.Some? {
      assert cur in dirs.Keys - seen;
      WalkStable(dirs, dirs', m.parent.value, seen + {cur}, extra);
      assert seen + {cur} + extra == seen + extra + {cur};
    }
  }

  /** The layers of a chain are among the directories read. */
  lemma {:induction false} LayersAreRead(dirs: Dirs, cur: Name, seen: set<Name>)
    requires Walk(dirs, cur, seen).Some?
    ensures var chain := Walk(dirs, cur, seen).value;
            forall i :: 0 <= i < |chain| ==> chain[i].name in ReadBy(dirs, cur, seen)
    decreases dirs.Keys - seen
  {
    var m := ReadManifest(dirs, cur).value;
    if m.parent.Some? {
      assert cur in dirs.Keys - seen;
      LayersAreRead(dirs, m.parent.value, seen + {cur});
    }
  }

  lemma {:induction false} OverlayStable(dirs: Dirs, dirs': Dirs, ram: Image, layers: seq<Manifest>)
    requires forall i :: 0 <= i < |layers| ==> SameDir(dirs, dirs', layers[i].name)
    ensures OverlayLayers(dirs', ram, layers) == OverlayLayers(dirs, ram, layers)
    decreases |layers|
  {
    if layers != [] {
      assert SameDir(dirs, dirs', layers[0].name);
      var next := ApplyLayer(dirs, ram, layers[0].name);
      assert ApplyLayer(dirs', ram, layers[0].name) == next;
      if next.Some? { OverlayStable(dirs, dirs', next.value, layers[1..]); }
    }
  }

  /** A name that restores keeps restoring to the same machine while the directories it reads
      stay. */
  lemma RestoreStable(dirs: Dirs, dirs': Dirs, n: Name)
    requires Restore(dirs, n).Some? && KeepsChain(dirs, dirs', n)
    ensures Restore(dirs', n) == Restore(dirs, n)
  {
    WalkStable(dirs, dirs', n, {}, {});
    var none: set<Name> := {};
    assert none + none == none;
    LayersAreRead(dirs, n, {});
    var chain := Walk(dirs, n, {}).value;
    assert SameDir(dirs, dirs', chain[0].name) && SameDir(dirs, dirs', chain[|chain| - 1].name);
    OverlayStable(dirs, dirs', ReadRaw(dirs, chain[0].name, MemoryBin).value, chain[1..]);
  }

  // ---- circular chains ----

  /** Each directory of the walk holds a manifest of its own name, as the writer leaves it. */
  ghost predicate WellNamed(dirs: Dirs, cur: Name, seen: set<Name>)
    requires Walk(dirs, cur, seen).Some?
    decreases dirs.Keys - seen
  {
    var m := ReadManifest(dirs, cur).value;
    && m.name == cur
    && (m.parent.Some? ==> cur in dirs.Keys - seen && WellNamed(dirs, m.parent.value, seen + {cur}))
  }

  /** A layer `n` hung on a chain that it is itself part of, or that `gone` was part of: the walk
      meets `n` again or misses `gone`. */
  lemma {:induction false} WalkBreaks(dirs: Dirs, dirs': Dirs, cur: Name, seen: set<Name>, n: Name, gone: Name)
    requires Walk(dirs, cur, seen).Some? && WellNamed(dirs, cur, seen)
    requires n in ReadBy(dirs, cur, seen) || gone in ReadBy(dirs, cur, seen)
    requires forall m :: m != n && m != gone ==> SameDir(dirs, dirs', m)
    requires n != gone && !Published(dirs', gone)
    ensures Walk(dirs', cur, seen + {n}) == None
    decreases dirs.Keys - seen
  {
    var m := ReadManifest(dirs, cur).value;
    if cur != n && cur != gone {
      assert SameDir(dirs, dirs', cur);
      assert cur in dirs.Keys - seen && m.parent.Some?;
      WalkBreaks(dirs, dirs', m.parent.value, seen + {cur}, n, gone);
      assert seen + {cur} + {n} == seen + {n} + {cur};
    }
  }

  /** A walk that fails also fails when more names count as seen. */
  lemma {:induction false} FailsWithMoreSeen(dirs: Dirs, cur: Name, seen: set<Name>, more: set<Name>)
    requires Walk(dirs, cur, seen) == None
    ensures Walk(dirs, cur, seen + more) == None
    decreases dirs.Keys - seen
  {
    if cur !in seen && cur !in more && Published(dirs, cur) {
      var m := ReadManifest(dirs, cur).value;
      assert cur in dirs.Keys - seen;
      FailsWithMoreSeen(dirs, m.parent.value, seen + {cur}, more);
      assert seen + {cur} + more == seen + more + {cur};
    }
  }

  /** A chain through a name that no longer resolves does not resolve. */
  lemma {:induction false} FailsThrough(dirs: Dirs, dirs': Dirs, cur: Name, seen: set<Name>, n: Name, gone: Name)
    requires Walk(dirs, cur, seen).Some? && WellNamed(dirs, cur, seen) && n in ReadBy(dirs, cur, seen)
    requires forall m :: m != n && m != gone ==> SameDir(dirs, dirs', m)
    requires !Published(dirs', gone) && Walk(dirs', n, {}) == None
    ensures Walk(dirs', cur, seen) == None
    decreases dirs.Keys - seen
  {
    if cur == n {
      FailsWithMoreSeen(dirs', n, {}, seen);
      assert {} + seen == seen;
    } else if cur != gone {
      var m := ReadManifest(dirs, cur).value;
      assert SameDir(dirs, dirs', cur) && cur in dirs.Keys - seen;
      FailsThrough(dirs, dirs', m.parent.value, seen + {cur}, n, gone);
    }
  }

  // ---- layers as the writer leaves them ----

  ghost predicate CommonFiles(d: Dir, cap: VmImage)
  {
    && GicBin in d && d[GicBin] == Raw(cap.gic)
    && VmStateJson in d && d[VmStateJson] == StateDoc(cap.snap)
    && cap.disk.Some? && DiskImg in d && d[DiskImg] == Raw(cap.disk.value)
  }

  ghost predicate FullFiles(d: Dir, cap: VmImage)
  {
    CommonFiles(d, cap) && MemoryBin in d && d[MemoryBin] == Raw(cap.ram)
  }

  ghost predicate DiffPages(d: Dir, ram: Image, pages: seq<nat>)
  {
    && AllInBounds(ram, pages)
    && AllFit(pages)
    && MemoryBin in d && d[MemoryBin] == Raw(Pack(ram, pages))
    && DirtyIdx in d && d[DirtyIdx] == Raw(EncodeIndex(pages))
  }

  ghost function ManifestFor(n: Name, parent: Option<Name>, snap: VmSnapshot): Manifest
  {
    Manifest(n, snap.memSize, snap.vcpuCount, if parent.Some? then Diff else Full, parent)
  }

  /** Directory `n` holds a finished layer of `cap`: all of RAM without a parent, else `pages`. */
  ghost predicate LayerAt(dirs: Dirs, n: Name, parent: Option<Name>, cap: VmImage, pages: seq<nat>)
  {
    && ReadManifest(dirs, n) == Some(ManifestFor(n, parent, cap.snap))
    && LayerFiles(dirs[n], parent, cap, pages)
  }

  ghost predicate LayerFiles(d: Dir, parent: Option<Name>, cap: VmImage, pages: seq<nat>)
  {
    if parent.None? then FullFiles(d, cap) else CommonFiles(d, cap) && DiffPages(d, cap.ram, pages)
  }

  /** A state document of this version that agrees with the RAM it goes with. */
  predicate Current(snap: VmSnapshot, ram: Image)
  {
    snap.magic == SNAP_MAGIC && snap.version == SNAP_VERSION && snap.memSize == |ram|
  }

  lemma FullLayerRestores(dirs: Dirs, n: Name, cap: VmImage, pages: seq<nat>)
    requires LayerAt(dirs, n, None, cap, pages) && Current(cap.snap, cap.ram)
    ensures Restore(dirs, n) == Some(cap)
  {
    assert Walk(dirs, n, {}) == Some([ManifestFor(n, None, cap.snap)]);
  }

  /** A diff layer restores to its parent's RAM with exactly the listed pages replaced. */
  lemma DiffLayerRestores(dirs: Dirs, dirs': Dirs, n: Name, p: Name, cap: VmImage, pages: seq<nat>)
    requires KeepsChain(dirs, dirs', p) && !OnChain(dirs, p, n)
    requires LayerAt(dirs', n, Some(p), cap, pages) && Current(cap.snap, cap.ram)
    requires Restore(dirs, p).Some? && |Restore(dirs, p).value.ram| == |cap.ram| < TWO64
    requires forall i :: 0 <= i < |pages| ==> pages[i] * PAGE + PAGE <= |cap.ram|
    ensures Restore(dirs', n) == Some(cap.(ram := Overlay(Restore(dirs, p).value.ram, cap.ram, PageSet(pages))))
  {
    var m, chain := ManifestFor(n, Some(p), cap.snap), Walk(dirs, p, {}).value;
    ChainGrows(dirs, dirs', n, p, m);
    RamGrows(dirs, dirs', p, m, cap, pages);
    LayersAreRead(dirs, p, {});
    assert SameDir(dirs, dirs', chain[0].name);
    LeafOnChain(dirs', chain, m, cap, Overlay(Restore(dirs, p).value.ram, cap.ram, PageSet(pages)));
  }

  /** A well-shaped chain with one more diff on top restores to the leaf's state over `ram`. */
  lemma LeafOnChain(dirs: Dirs, chain: seq<Manifest>, m: Manifest, cap: VmImage, ram: Image)
    requires WellShaped(chain) && m.kind == Diff && m.memSize == chain[0].memSize == |cap.ram|
    requires m.name in dirs && CommonFiles(dirs[m.name], cap) && Current(cap.snap, cap.ram)
    requires ReadRaw(dirs, chain[0].name, MemoryBin).Some?
    requires |ReadRaw(dirs, chain[0].name, MemoryBin).value| == |cap.ram|
    requires OverlayLayers(dirs, ReadRaw(dirs, chain[0].name, MemoryBin).value, (chain + [m])[1..]) == Some(ram)
    ensures RestoreChain(dirs, chain + [m]) == Some(cap.(ram := ram))
  {
    var longer := chain + [m];
    assert longer[0] == chain[0] && longer[|longer| - 1] == m;
    assert WellShaped(longer);
    assert ReadSnapshot(dirs, m.name) == Some(cap.snap);
  }

  lemma ChainGrows(dirs: Dirs, dirs': Dirs, n: Name, p: Name, m: Manifest)
    requires KeepsChain(dirs, dirs', p) && !OnChain(dirs, p, n)
    requires ReadManifest(dirs', n) == Some(m) && m.parent == Some(p)
    ensures Walk(dirs', n, {}) == Some(Walk(dirs, p, {}).value + [m])
  {
    WalkStable(dirs, dirs', p, {}, {n});
    assert {} + {n} == {n};
  }

  lemma RamGrows(dirs: Dirs, dirs': Dirs, p: Name, m: Manifest, cap: VmImage, pages: seq<nat>)
    requires KeepsChain(dirs, dirs', p) && Restore(dirs, p).Some?
    requires m.name in dirs' && DiffPages(dirs'[m.name], cap.ram, pages)
    requires |Restore(dirs, p).value.ram| == |cap.ram| < TWO64
    requires forall i :: 0 <= i < |pages| ==> pages[i] * PAGE + PAGE <= |cap.ram|
    ensures var chain, ram := Walk(dirs, p, {}).value, Restore(dirs, p).value.ram;
            OverlayLayers(dirs', ReadRaw(dirs, chain[0].name, MemoryBin).value, (chain + [m])[1..])
            == Some(Overlay(ram, cap.ram, PageSet(pages)))
  {
    var chain, ram := Walk(dirs, p, {}).value, Restore(dirs, p).value.ram;
    var base := ReadRaw(dirs, chain[0].name, MemoryBin).value;
    LayersAreRead(dirs, p, {});
    OverlayStable(dirs, dirs', base, chain[1..]);
    assert (chain + [m])[1..] == chain[1..] + [m];
    OverlayAppend(dirs', base, chain[1..], m);
    IndexRoundTrip(pages);
    ApplyOfPack(ram, cap.ram, pages);
    var next := Overlay(ram, cap.ram, PageSet(pages));
    assert ApplyLayer(dirs', ram, m.name) == Some(next);
    assert OverlayLayers(dirs', next, []) == Some(next);
    assert [m][1..] == [];
  }

  lemma {:induction false} OverlayAppend(dirs: Dirs, ram: Image, layers: seq<Manifest>, m: Manifest)
    ensures OverlayLayers(dirs, ram, layers + [m]) ==
            match OverlayLayers(dirs, ram, layers)
            case None => None
            case Some(mid) => OverlayLayers(dirs, mid, [m])
    decreases |layers|
  {
    if layers != [] {
      assert (layers + [m])[0] == layers[0] && (layers + [m])[1..] == layers[1..] + [m];
      var next := ApplyLayer(dirs, ram, layers[0].name);
      if next.Some? { OverlayAppend(dirs, next.value, layers[1..], m); }
    } else {
      assert [] + [m] == [m];
    }
  }
}
