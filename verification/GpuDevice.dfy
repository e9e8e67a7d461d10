/** The virtio-gpu object (crates/devices/src/virtio/gpu.rs): its command handlers, save,
    restore and repaint, proved against Gpu. */
module GpuDevice {
  import opened Prelude
  import opened Memory
  import opened Backing
  import opened Raster
  import opened Gpu

  // ---- the saved document ----

  /** A JSON field that may be missing or not an unsigned number. */
  type Field = Option<uint64>

  datatype SavedSeg = SavedSeg(gpa: Field, len: Field)
  datatype SavedResource =
    SavedResource(id: Field, format: Field, width: Field, height: Field, backing: Option<seq<SavedSeg>>)
  datatype SavedGpu = SavedGpu(resources: Option<seq<SavedResource>>, scanout: Field)

  function Num(x: uint64): Field { Some(x) }

  /** `as u32`. */
  function Trunc32(x: uint64): (r: uint32)
    ensures x < TWO32 ==> r == x
  {
    x % TWO32
  }

  function LoadSegs(segs: seq<SavedSeg>): (r: Option<seq<Seg>>)
    ensures r.Some? ==> |r.value| == |segs|
  {
    if segs == [] then Some([])
    else if segs[0].gpa.None? || segs[0].len.None? then None else
    match LoadSegs(segs[1..])
    case None => None
    case Some(rest) => Some([Seg(segs[0].gpa.value, Trunc32(segs[0].len.value))] + rest)
  }

  /** One resource with a zeroed pixel buffer, or None where restore returns an error. */
  function LoadResource(e: SavedResource): Option<Resource>
  {
    if e.id.None? || e.format.None? || e.width.None? || e.height.None? || e.backing.None? then None else
    var w, h, segs := Trunc32(e.width.value), Trunc32(e.height.value), LoadSegs(e.backing.value);
    if PixelBytes(w, h).None? || segs.None? then None else
    Some(Resource(Trunc32(e.format.value), w, h, segs.value, Zeros(PixelBytes(w, h).value)))
  }

  /** The entries added to `table` in order, a later one replacing an earlier one of its id. */
  function LoadTable(es: seq<SavedResource>, table: map<uint32, Resource>): Option<map<uint32, Resource>>
    decreases |es|
  {
    if es == [] then Some(table) else
    match LoadResource(es[0])
    case None => None
    case Some(r) => LoadTable(es[1..], table[Trunc32(es[0].id.value) := r])
  }

  function Load(doc: SavedGpu): Option<State>
  {
    if doc.resources.None? then None else
    var table := LoadTable(doc.resources.value, map[]);
    if table.None? || doc.scanout.None? then None else
    var scanout := Trunc32(doc.scanout.value);
    if scanout != 0 && scanout !in table.value then None else Some(State(table.value, scanout))
  }

  /** A backing list is held in memory, so it has fewer than 2^32 entries. */
  ghost predicate HostSized(doc: SavedGpu)
  {
    doc.resources.Some? ==> forall i :: 0 <= i < |doc.resources.value| ==>
      (doc.resources.value[i].backing.Some? ==> |doc.resources.value[i].backing.value| < TWO32)
  }

  lemma {:induction false} LoadTableIsValid(es: seq<SavedResource>, table: map<uint32, Resource>)
    requires forall i :: 0 <= i < |es| ==> (es[i].backing.Some? ==> |es[i].backing.value| < TWO32)
    requires forall id :: id in table ==> ValidResource(table[id])
    ensures var r := LoadTable(es, table);
            r.Some? ==> forall id :: id in r.value ==> ValidResource(r.value[id])
    decreases |es|
  {
    if es != [] {
      var r := LoadResource(es[0]);
      if r.Some? {
        TotalBound(r.value.backing);
        LoadTableIsValid(es[1..], table[Trunc32(es[0].id.value) := r.value]);
      }
    }
  }

  /** Every accepted document gives a valid state. */
  lemma LoadIsValid(doc: SavedGpu)
    requires HostSized(doc)
    ensures Load(doc).Some? ==> Valid(Load(doc).value)
  {
    if doc.resources.Some? { LoadTableIsValid(doc.resources.value, map[]); }
  }

  /** An entry that restore accepts: every field there, a size within the cap. */
  ghost predicate Acceptable(e: SavedResource)
  {
    && e.id.Some? && e.format.Some? && e.width.Some? && e.height.Some? && e.backing.Some?
    && e.width.value % TWO32 * (e.height.value % TWO32) * 4 <= 0x1000_0000
    && forall j :: 0 <= j < |e.backing.value| ==> e.backing.value[j].gpa.Some? && e.backing.value[j].len.Some?
  }

  /** ... and the resource it stands for: numbers cut to 32 bits, pixels zero. */
  ghost predicate StandsFor(e: SavedResource, r: Resource)
    requires Acceptable(e)
  {
    && r.format == e.format.value % TWO32 && r.width == e.width.value % TWO32 && r.height == e.height.value % TWO32
    && |r.backing| == |e.backing.value| && |r.pixels| == r.width * r.height * 4
    && (forall j :: 0 <= j < |r.backing| ==>
          r.backing[j] == Seg(e.backing.value[j].gpa.value, e.backing.value[j].len.value % TWO32))
    && forall i :: 0 <= i < |r.pixels| ==> r.pixels[i] == 0
  }

  lemma {:induction false} SegsLoadIff(segs: seq<SavedSeg>)
    ensures LoadSegs(segs).Some? <==> forall j :: 0 <= j < |segs| ==> segs[j].gpa.Some? && segs[j].len.Some?
    ensures LoadSegs(segs).Some? ==> forall j :: 0 <= j < |segs| ==>
              LoadSegs(segs).value[j] == Seg(segs[j].gpa.value, segs[j].len.value % TWO32)
  {
    if segs != [] {
      SegsLoadIff(segs[1..]);
      assert forall j :: 0 < j < |segs| ==> segs[j] == segs[1..][j - 1];
    }
  }

  lemma ResourceLoadsIff(e: SavedResource)
    ensures LoadResource(e).Some? <==> Acceptable(e)
    ensures LoadResource(e).Some? ==> StandsFor(e, LoadResource(e).value)
  {
    if e.backing.Some? { SegsLoadIff(e.backing.value); }
    if e.width.Some? && e.height.Some? { WithinCap(Trunc32(e.width.value), Trunc32(e.height.value)); }
  }

  /** The last entry with this id, or -1. */
  ghost function LastWith(es: seq<SavedResource>, id: uint32): (k: int)
    ensures -1 <= k < |es|
    ensures k >= 0 ==> es[k].id.Some? && es[k].id.value % TWO32 == id
    ensures forall j :: k < j < |es| ==> !(es[j].id.Some? && es[j].id.value % TWO32 == id)
  {
    if es == [] then -1
    else if es[|es| - 1].id.Some? && es[|es| - 1].id.value % TWO32 == id then |es| - 1
    else LastWith(es[..|es| - 1], id)
  }

  lemma {:induction false} LoadTableSnoc(es: seq<SavedResource>, e: SavedResource, table: map<uint32, Resource>)
    ensures LoadTable(es + [e], table) ==
            match LoadTable(es, table)
            case None => None
            case Some(t) =>
              if LoadResource(e).None? then None else Some(t[Trunc32(e.id.value) := LoadResource(e).value])
    decreases |es|
  {
    if es == [] {
      assert es + [e] == [e] && [e][1..] == [];
    } else {
      assert (es + [e])[0] == es[0] && (es + [e])[1..] == es[1..] + [e];
      var r := LoadResource(es[0]);
      if r.Some? { LoadTableSnoc(es[1..], e, table[Trunc32(es[0].id.value) := r.value]); }
    }
  }

  /** The table is refused exactly for an unacceptable entry, and otherwise holds, for each id
      listed, what the last entry with that id stands for. */
  lemma {:induction false} TableLoadsIff(es: seq<SavedResource>, id: uint32)
    ensures LoadTable(es, map[]).Some? <==> forall i :: 0 <= i < |es| ==> Acceptable(es[i])
    ensures LoadTable(es, map[]).Some? ==>
              var t, k := LoadTable(es, map[]).value, LastWith(es, id);
              && (id in t <==> k >= 0)
              && (k >= 0 ==> StandsFor(es[k], t[id]))
    decreases |es|
  {
    if es != [] {
      var m := |es| - 1;
      TableLoadsIff(es[..m], id);
      ResourceLoadsIff(es[m]);
      LoadTableSnoc(es[..m], es[m], map[]);
      assert es[..m] + [es[m]] == es;
    }
  }

  /** A document is accepted exactly when its entries are acceptable and its scanout is 0 or one of
      them; then the state holds what the entries stand for. */
  lemma LoadsIff(doc: SavedGpu, id: uint32)
    ensures Load(doc).Some? <==>
            && doc.resources.Some?
            && (forall i :: 0 <= i < |doc.resources.value| ==> Acceptable(doc.resources.value[i]))
            && doc.scanout.Some?
            && (doc.scanout.value % TWO32 == 0 || LastWith(doc.resources.value, doc.scanout.value % TWO32) >= 0)
    ensures Load(doc).Some? ==>
              var s, k := Load(doc).value, LastWith(doc.resources.value, id);
              && s.scanout == doc.scanout.value % TWO32 && (id in s.resources <==> k >= 0)
              && (k >= 0 ==> StandsFor(doc.resources.value[k], s.resources[id]))
  {
    if doc.resources.Some? {
      TableLoadsIff(doc.resources.value, id);
      if doc.scanout.Some? { TableLoadsIff(doc.resources.value, doc.scanout.value % TWO32); }
    }
  }

  /** What can change the device: a control request with memory as it is then, or a restore. */
  datatype Input = Request(event: Event) | Restoring(doc: SavedGpu)

  ghost predicate Fits(x: Input)
  {
    match x
    case Request(e) => |e.req| <= MAX_REQUEST_BYTES
    case Restoring(doc) => HostSized(doc)
  }

  /** The state after any sequence of requests and restores, rejected or not: every pixel buffer
      has `width * height * 4` bytes within the cap, and the scanout is 0 or a live resource. */
  ghost function StateAfter(s: State, inputs: seq<Input>): (r: State)
    requires Valid(s) && forall i :: 0 <= i < |inputs| ==> Fits(inputs[i])
    ensures Valid(r)
    decreases |inputs|
  {
    if inputs == [] then s else
    var s', last := StateAfter(s, inputs[..|inputs| - 1]), inputs[|inputs| - 1];
    assert Fits(last);
    match last
    case Request(e) =>
      DecodedBackingFits(e.req); ExecuteKeepsValid(s', Decode(e.req), e.mem);
      Execute(s', Decode(e.req), e.mem).state
    case Restoring(doc) =>
      LoadIsValid(doc);
      if Load(doc).Some? then Load(doc).value else s'
  }

  // ---- save, then restore ----

  function SaveSegs(sg: seq<Seg>): (r: seq<SavedSeg>)
    ensures |r| == |sg|
  {
    seq(|sg|, i requires 0 <= i < |sg| => SavedSeg(Num(sg[i].gpa), Num(sg[i].len)))
  }

  function SaveResource(id: uint32, r: Resource): SavedResource
  {
    SavedResource(Num(id), Num(r.format), Num(r.width), Num(r.height), Some(SaveSegs(r.backing)))
  }

  /** The document when the table is iterated in the order `ids`. */
  function SaveAs(s: State, ids: seq<uint32>): SavedGpu
    requires forall i :: 0 <= i < |ids| ==> ids[i] in s.resources
  {
    SavedGpu(Some(seq(|ids|, i requires 0 <= i < |ids| => SaveResource(ids[i], s.resources[ids[i]]))), Num(s.scanout))
  }

  function Blank(r: Resource): Resource { r.(pixels := Zeros(|r.pixels|)) }

  function BlankState(s: State): State
  {
    s.(resources := map id | id in s.resources :: Blank(s.resources[id]))
  }

  lemma {:induction false} SegsRoundTrip(sg: seq<Seg>)
    ensures LoadSegs(SaveSegs(sg)) == Some(sg)
  {
    if sg != [] {
      SegsRoundTrip(sg[1..]);
      var saved := SaveSegs(sg);
      assert saved[0] == SavedSeg(Num(sg[0].gpa), Num(sg[0].len)) && saved[1..] == SaveSegs(sg[1..]);
      assert [Seg(sg[0].gpa, Trunc32(sg[0].len))] + sg[1..] == sg;
    }
  }

  lemma ResourceRoundTrip(id: uint32, r: Resource)
    requires ValidResource(r)
    ensures LoadResource(SaveResource(id, r)) == Some(Blank(r))
  {
    SegsRoundTrip(r.backing);
  }

  /** `table` with a blank copy of each listed resource added. */
  ghost function Added(s: State, ids: seq<uint32>, table: map<uint32, Resource>): map<uint32, Resource>
    requires forall i :: 0 <= i < |ids| ==> ids[i] in s.resources
    decreases |ids|
  {
    if ids == [] then table else Added(s, ids[1..], table[ids[0] := Blank(s.resources[ids[0]])])
  }

  lemma {:induction false} AddedHolds(s: State, ids: seq<uint32>, table: map<uint32, Resource>, id: uint32)
    requires forall i :: 0 <= i < |ids| ==> ids[i] in s.resources
    ensures id in Added(s, ids, table) <==> id in ids || id in table
    ensures id in ids ==> Added(s, ids, table)[id] == Blank(s.resources[id])
    ensures id in table && id !in ids ==> Added(s, ids, table)[id] == table[id]
    decreases |ids|
  {
    if ids != [] {
      var table' := table[ids[0] := Blank(s.resources[ids[0]])];
      AddedHolds(s, ids[1..], table', id);
      assert id in ids <==> id == ids[0] || id in ids[1..];
    }
  }

  lemma {:induction false} TableRoundTrip(s: State, ids: seq<uint32>, table: map<uint32, Resource>)
    requires Valid(s) && forall i :: 0 <= i < |ids| ==> ids[i] in s.resources
    ensures LoadTable(SaveAs(s, ids).resources.value, table) == Some(Added(s, ids, table))
    decreases |ids|
  {
    var es := SaveAs(s, ids).resources.value;
    if ids != [] {
      var id := ids[0];
      ResourceRoundTrip(id, s.resources[id]);
      assert es[0] == SaveResource(id, s.resources[id]) && es[1..] == SaveAs(s, ids[1..]).resources.value;
      TableRoundTrip(s, ids[1..], table[id := Blank(s.resources[id])]);
    }
  }

  /** `ids` iterates the table: every resource is listed, and nothing else. */
  ghost predicate Iterates(s: State, ids: seq<uint32>)
  {
    && (forall i :: 0 <= i < |ids| ==> ids[i] in s.resources)
    && (forall id :: id in s.resources ==> id in ids)
  }

  /** Restore accepts what save produces, in any order of the table, and reproduces the table
      and the scanout with zeroed pixels. */
  lemma SaveRestoreRoundTrip(s: State, ids: seq<uint32>)
    requires Valid(s) && Iterates(s, ids)
    ensures Load(SaveAs(s, ids)) == Some(BlankState(s))
  {
    TableRoundTrip(s, ids, map[]);
    TableIsBlank(s, ids);
    LoadOf(SaveAs(s, ids), BlankState(s).resources, s.scanout);
  }

  lemma LoadOf(doc: SavedGpu, table: map<uint32, Resource>, scanout: uint32)
    requires doc.resources.Some? && LoadTable(doc.resources.value, map[]) == Some(table)
    requires doc.scanout == Num(scanout) && (scanout == 0 || scanout in table)
    ensures Load(doc) == Some(State(table, scanout))
  {
  }

  lemma TableIsBlank(s: State, ids: seq<uint32>)
    requires Iterates(s, ids)
    ensures Added(s, ids, map[]) == BlankState(s).resources
  {
    var table := Added(s, ids, map[]);
    forall id: uint32
      ensures id in table <==> id in s.resources
      ensures id in s.resources ==> table[id] == Blank(s.resources[id])
    {
      AddedHolds(s, ids, map[], id);
    }
  }

  lemma BlankIsSame(s: State)
    requires Valid(s)
    ensures Valid(BlankState(s)) && SameButPixels(s, BlankState(s))
  {
  }

  /** ... and then repaints the same frame wherever the backing covers the resource. */
  lemma RestoredPaintsTheSame(s: State, mem: Mem)
    requires Valid(s) && s.scanout != 0
    ensures Valid(BlankState(s))
    ensures var o, p := Present(s, mem), Present(BlankState(s), mem);
            var covered := Covered(s.resources[s.scanout]);
            && o.frame.Some? && p.frame.Some?
            && SameWhereCovered(Shown(o.frame.value, covered), Shown(p.frame.value, covered))
  {
    var r := s.resources[s.scanout];
    SameRefresh(r, Blank(r), mem, Rect(0, 0, r.width, r.height));
  }

  /** From then on the restored device shows, for every later command sequence and whatever its
      TRANSFERs, the same frames as the original wherever the backing covers the resource. */
  lemma RestoredShowsTheSame(s: State, ids: seq<uint32>, xs: seq<Event>, ys: seq<Event>)
    requires Valid(s) && Iterates(s, ids) && InLimits(xs) && InLimits(ys)
    requires WithoutTransfers(xs) == WithoutTransfers(ys)
    ensures Load(SaveAs(s, ids)).Some? && Valid(Load(SaveAs(s, ids)).value)
    ensures SameShown(ShownAll(s, xs), ShownAll(Load(SaveAs(s, ids)).value, ys))
  {
    var t := BlankState(s);
    SaveRestoreRoundTrip(s, ids);
    BlankIsSame(s);
    DroppingTransfersShowsTheSame(s, t, xs);
    DroppingTransfersShowsTheSame(t, t, ys);
    SameShownTransitive(ShownAll(s, xs), ShownAll(t, ys), ShownAll(t, WithoutTransfers(xs)));
  }

  lemma SpliceSame(s: seq<uint8>, from: nat, to: nat)
    requires from <= to <= |s|
    ensures Splice(s, from, s[from..to]) == s
  {
  }

  lemma ReaderReads(sg: seq<Seg>, mem: Mem, logical: nat, run: seq<uint8>)
    ensures BackingReader(sg, mem)(logical, run) == if logical > U64_MAX then run else Fill(sg, mem, logical, run)
  {
  }

  /** The overflow checks never decide: what overflows is over the cap. */
  lemma WithinCap(w: uint32, h: uint32)
    ensures PixelBytes(w, h).Some? <==> w * h * 4 <= MAX_RESOURCE_BYTES
  {
  }

  /** `id` names a resource of this geometry, without backing and all zero; nothing else changed. */
  ghost predicate NewlyCreated(
    was: map<uint32, Resource>, now: map<uint32, Resource>, id: uint32, format: uint32, w: uint32, h: uint32)
  {
    && now.Keys == was.Keys + {id} && (forall k :: k in was && k != id ==> now[k] == was[k])
    && var r := now[id];
       && r.format == format && r.width == w && r.height == h && r.backing == []
       && |r.pixels| == w * h * 4 && forall i :: 0 <= i < |r.pixels| ==> r.pixels[i] == 0
  }

  lemma NewlyCreatedIs(
    was: map<uint32, Resource>, now: map<uint32, Resource>, id: uint32, format: uint32, w: uint32, h: uint32)
    requires NewlyCreated(was, now, id, format, w, h)
    ensures now == was[id := Resource(format, w, h, [], Zeros(w * h * 4))]
  {
    assert now[id].pixels == Zeros(w * h * 4);
  }

  // ---- the device ----

  class VirtioGpu {
    var resources: map<uint32, Resource>
    var scanout: uint32
    var presented: seq<Frame> // what the display sink was handed

    ghost function View(): State
      reads this
    {
      State(resources, scanout)
    }

    constructor ()
      ensures View() == State(map[], 0) && Valid(View()) && presented == []
    {
      resources, scanout, presented := map[], 0, [];
    }

    /** One controlq request. */
    method Dispatch(req: seq<uint8>, mem: GuestRam) returns (resp: Resp)
      requires Valid(View()) && |req| <= MAX_REQUEST_BYTES
      modifies this
      ensures Valid(View())
      ensures var o := Execute(old(View()), Decode(req), mem.View());
              && View() == o.state && resp == o.resp
              && presented == old(presented) + (if o.frame.Some? then [o.frame.value] else [])
    {
      ghost var c := Decode(req);
      DecodedBackingFits(req);
      ExecuteKeepsValid(View(), c, mem.View());
      if |req| < CTRL_HDR_LEN { return ErrUnspec; }
      var cmd, body := ReadLe32(req, 0), req[CTRL_HDR_LEN..];
      if cmd == GET_DISPLAY_INFO {
        resp := OkDisplayInfo;
      } else if cmd == RESOURCE_CREATE_2D && |body| >= 16 {
        resp := CreateFrom(body);
      } else if cmd == RESOURCE_UNREF && |body| >= 4 {
        var id := ReadLe32(body, 0);
        resources := resources - {id};
        if scanout == id { scanout := 0; }
        resp := OkNoData;
      } else if cmd == RESOURCE_ATTACH_BACKING && |body| >= 8 {
        var sg := ReadEntries(body);
        resp := SetBacking(ReadLe32(body, 0), sg, ErrUnspec);
      } else if cmd == RESOURCE_DETACH_BACKING && |body| >= 4 {
        resp := SetBacking(ReadLe32(body, 0), [], OkNoData);
      } else if cmd == SET_SCANOUT && |body| >= 24 {
        var id := ReadLe32(body, 20);
        if id != 0 && id !in resources { return ErrUnspec; }
        scanout := id;
        resp := OkNoData;
      } else if cmd == TRANSFER_TO_HOST_2D && |body| >= 32 {
        resp := Transfer2d(ReadRect(body), ReadLe64(body, 16), ReadLe32(body, 24), mem);
      } else if cmd == RESOURCE_FLUSH && |body| >= 20 {
        var id := ReadLe32(body, 16);
        if id != 0 && id == scanout && id in resources { Repaint(id, ReadRect(body), mem); }
        resp := OkNoData;
      } else {
        resp := ErrUnspec;
      }
    }

    method CreateFrom(body: seq<uint8>) returns (resp: Resp)
      requires |body| >= 16 && Valid(View())
      modifies this`resources
      ensures var c := Create2d(ReadLe32(body, 0), ReadLe32(body, 4), ReadLe32(body, 8), ReadLe32(body, 12));
              var o := Execute(old(View()), c, Mem(0, []));
              View() == o.state && resp == o.resp
    {
      var id, format, w, h := ReadLe32(body, 0), ReadLe32(body, 4), ReadLe32(body, 8), ReadLe32(body, 12);
      resp := Create(id, format, w, h);
      WithinCap(w, h);
      if resp == OkNoData { NewlyCreatedIs(old(resources), resources, id, format, w, h); }
    }

    /** Succeeds exactly within the cap, and then adds or replaces one blank resource. */
    method Create(id: uint32, format: uint32, w: uint32, h: uint32) returns (resp: Resp)
      modifies this`resources
      ensures resp == if w * h * 4 <= MAX_RESOURCE_BYTES then OkNoData else ErrUnspec
      ensures resp == ErrUnspec ==> resources == old(resources)
      ensures resp == OkNoData ==> NewlyCreated(old(resources), resources, id, format, w, h)
    {
      var size := PixelBytes(w, h);
      WithinCap(w, h);
      if size.None? { return ErrUnspec; }
      resources := resources[id := Resource(format, w, h, [], Zeros(size.value))];
      resp := OkNoData;
    }

    /** The entry loop of attach_backing. */
    method ReadEntries(body: seq<uint8>) returns (sg: seq<Seg>)
      requires |body| >= 8
      ensures sg == Entries(body, EntryCount(body))
    {
      var nr := EntryCount(body);
      sg := [];
      for i := 0 to nr
        invariant |sg| == i && forall j :: 0 <= j < i ==> sg[j] == Entries(body, nr)[j]
      {
        var off := 8 + i * 16;
        sg := sg + [Seg(ReadLe64(body, off), ReadLe32(body, off + 8))];
      }
    }

    method SetBacking(id: uint32, sg: seq<Seg>, missing: Resp) returns (resp: Resp)
      modifies this`resources
      ensures if id in old(resources)
              then resources == old(resources)[id := old(resources)[id].(backing := sg)] && resp == OkNoData
              else resources == old(resources) && resp == missing
    {
      if id !in resources { return missing; }
      resources := resources[id := resources[id].(backing := sg)];
      resp := OkNoData;
    }

    /** The row loop of transfer_2d, in place on the host buffer. */
    method Transfer2d(rect: Rect, offset: uint64, id: uint32, mem: GuestRam) returns (resp: Resp)
      requires Valid(View())
      modifies this`resources
      ensures var o := Execute(old(View()), Gpu.Transfer(rect, offset, id), mem.View());
              View() == o.state && resp == o.resp
    {
      if id !in resources { return ErrUnspec; }
      var r := resources[id];
      ValidIsSized(r);
      resp := OkNoData;
      if rect.x >= r.width || rect.y >= r.height {
        assert resources == resources[id := r];
        return;
      }
      var host := new uint8[|r.pixels|](i requires 0 <= i < |r.pixels| => r.pixels[i]);
      assert host[..] == r.pixels;
      CopyRows(ClampedRows(r, rect), r.backing, offset, rect.y, Clamp(r, rect).1, mem, host);
      resources := resources[id := r.(pixels := host[..])];
    }

    method CopyRows(g: Rows, sg: seq<Seg>, offset: uint64, yStart: nat, yEnd: nat, mem: GuestRam, host: array<uint8>)
      requires g.Fits(host[..]) && yEnd <= g.h && Total(sg) <= U64_MAX && host != mem.bytes
      modifies host
      ensures host[..] == Raster.Transfer(g, old(host[..]), BackingReader(sg, mem.View()), offset, yStart, yEnd)
    {
      ghost var goal := Raster.Transfer(g, host[..], BackingReader(sg, mem.View()), offset, yStart, yEnd);
      var y := yStart;
      while y < yEnd
        invariant g.Fits(host[..]) && mem.View() == old(mem.View())
        invariant goal == Raster.Transfer(g, host[..], BackingReader(sg, mem.View()), offset, y, yEnd)
      {
        CopyRow(g, sg, offset, y, mem, host);
        y := y + 1;
      }
    }

    method CopyRow(g: Rows, sg: seq<Seg>, offset: uint64, y: nat, mem: GuestRam, host: array<uint8>)
      requires g.Fits(host[..]) && y < g.h && Total(sg) <= U64_MAX && host != mem.bytes
      modifies host
      ensures mem.View() == old(mem.View())
      ensures host[..] == OneRow(g, old(host[..]), BackingReader(sg, mem.View()), offset, y)
    {
      ghost var px, read := host[..], BackingReader(sg, mem.View());
      var hostOff := HostOffset(g, y);
      RowFits(g.w, g.h, g.x, g.n, y);
      ghost var row := ReadRow(sg, offset + hostOff, mem, host, hostOff, hostOff + g.n * 4);
      OneRowIs(g, px, read, offset, y, hostOff, row);
    }

    /** One row's read, skipped when its logical offset overflowed. */
    static method ReadRow(sg: seq<Seg>, logical: nat, mem: GuestRam, host: array<uint8>, from: nat, to: nat)
      returns (ghost row: seq<uint8>)
      requires from <= to <= host.Length && Total(sg) <= U64_MAX && host != mem.bytes
      modifies host
      ensures mem.View() == old(mem.View())
      ensures row == BackingReader(sg, mem.View())(logical, old(host[..])[from..to])
      ensures host[..] == Splice(old(host[..]), from, row)
    {
      ReaderReads(sg, mem.View(), logical, host[..][from..to]);
      if logical > U64_MAX {
        row := host[..][from..to];
        SpliceSame(host[..], from, to);
      } else {
        row := ReadBacking(sg, mem, logical, host, from, to);
      }
    }

    static method HostOffset(g: Rows, y: nat) returns (at: nat)
      ensures at == g.At(y)
    {
      RowAtIsProduct(g.w, g.x, y);
      at := (y * g.w + g.x) * 4;
    }

    /** Re-reads the whole buffer from its backing and hands it to the display. */
    method Repaint(id: uint32, dirty: Rect, mem: GuestRam)
      requires id in resources && ValidResource(resources[id])
      modifies this`resources, this`presented
      ensures var r := Refreshed(old(resources)[id], mem.View());
              resources == old(resources)[id := r] && presented == old(presented) + [FrameOf(r, dirty)]
    {
      var r := resources[id];
      var px := ReadAll(r.pixels, r.backing, mem);
      resources := resources[id := r.(pixels := px)];
      presented := presented + [FrameOf(r.(pixels := px), dirty)];
    }

    static method ReadAll(px: seq<uint8>, sg: seq<Seg>, mem: GuestRam) returns (r: seq<uint8>)
      requires Total(sg) <= U64_MAX
      ensures r == Fill(sg, mem.View(), 0, px)
    {
      var host := new uint8[|px|](i requires 0 <= i < |px| => px[i]);
      assert host[..] == px && px[0..|px|] == px;
      ghost var filled := ReadBacking(sg, mem, 0, host, 0, host.Length);
      SpliceAll(px, filled);
      r := host[..];
    }

    method PresentScanout(mem: GuestRam)
      requires Valid(View())
      modifies this
      ensures var o := Present(old(View()), mem.View());
              && View() == o.state
              && presented == old(presented) + (if o.frame.Some? then [o.frame.value] else [])
    {
      if scanout == 0 || scanout !in resources { return; }
      var r := resources[scanout];
      Repaint(scanout, Rect(0, 0, r.width, r.height), mem);
    }

    /** Saves the table in whatever order it is iterated. */
    method Save() returns (doc: SavedGpu)
      ensures exists ids: seq<uint32> :: Iterates(View(), ids) && doc == SaveAs(View(), ids)
    {
      var todo, out := resources.Keys, [];
      ghost var ids: seq<uint32> := [];
      while todo != {}
        invariant todo <= resources.Keys
        invariant forall id :: id in resources <==> id in todo || id in ids
        invariant |out| == |ids| && forall i :: 0 <= i < |ids| ==>
                    ids[i] in resources && out[i] == SaveResource(ids[i], resources[ids[i]])
        decreases |todo|
      {
        var id :| id in todo;
        out := out + [SaveResource(id, resources[id])];
        ids := ids + [id];
        todo := todo - {id};
      }
      doc := SavedGpu(Some(out), Num(scanout));
      assert Iterates(View(), ids) && out == SaveAs(View(), ids).resources.value;
    }

    /** Builds the whole table before touching the device: a rejection changes nothing. */
    method Restore(doc: SavedGpu) returns (ok: bool)
      modifies this`resources, this`scanout
      ensures ok == Load(doc).Some?
      ensures View() == if ok then Load(doc).value else old(View())
    {
      if doc.resources.None? { return false; }
      var es, table: map<uint32, Resource> := doc.resources.value, map[];
      assert es[0..] == es;
      for i := 0 to |es|
        invariant LoadTable(es, map[]) == LoadTable(es[i..], table)
      {
        assert es[i..][0] == es[i] && es[i..][1..] == es[i + 1..];
        var r := LoadResource(es[i]);
        if r.None? { return false; }
        table := table[Trunc32(es[i].id.value) := r.value];
      }
      if doc.scanout.None? { return false; }
      var s := Trunc32(doc.scanout.value);
      if s != 0 && s !in table { return false; }
      resources, scanout := table, s;
      ok := true;
    }
  }
}
