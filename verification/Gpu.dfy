/** The 2D virtio-gpu device (crates/devices/src/virtio/gpu.rs): control commands over a
    resource table, whose host pixel buffers are a cache of guest backing. */
module Gpu {
  import opened Prelude
  import opened Memory
  import opened Backing
  import opened Raster

  const CTRL_HDR_LEN: nat := 24
  const MAX_RESOURCE_BYTES: nat := 256 * 1024 * 1024
  const MAX_REQUEST_BYTES: nat := 2 * 1024 * 1024

  const GET_DISPLAY_INFO: uint32 := 0x0100
  const RESOURCE_CREATE_2D: uint32 := 0x0101
  const RESOURCE_UNREF: uint32 := 0x0102
  const SET_SCANOUT: uint32 := 0x0103
  const RESOURCE_FLUSH: uint32 := 0x0104
  const TRANSFER_TO_HOST_2D: uint32 := 0x0105
  const RESOURCE_ATTACH_BACKING: uint32 := 0x0106
  const RESOURCE_DETACH_BACKING: uint32 := 0x0107

  datatype Rect = Rect(x: uint32, y: uint32, w: uint32, h: uint32)

  datatype Resource = Resource(format: uint32, width: uint32, height: uint32, backing: seq<Seg>, pixels: seq<uint8>)

  /** What FLUSH hands to the display: geometry and the pixel contents at that moment. */
  datatype Frame = Frame(width: uint32, height: uint32, stride: uint32, dirty: Rect, pixels: seq<uint8>)

  datatype Resp = OkNoData | OkDisplayInfo | ErrUnspec

  /** The resource table and the resource bound to scanout 0 (0 = none). */
  datatype State = State(resources: map<uint32, Resource>, scanout: uint32)

  datatype Command =
    | GetDisplayInfo
    | Create2d(id: uint32, format: uint32, w: uint32, h: uint32)
    | Unref(id: uint32)
    | Attach(id: uint32, sg: seq<Seg>)
    | Detach(id: uint32)
    | SetScanout(id: uint32)
    | Transfer(rect: Rect, offset: uint64, id: uint32)
    | Flush(rect: Rect, id: uint32)
    | Invalid // unknown, or shorter than its fixed part

  // ---- decoding a request ----

  function ReadRect(body: seq<uint8>): Rect
    requires |body| >= 16
  {
    Rect(ReadLe32(body, 0), ReadLe32(body, 4), ReadLe32(body, 8), ReadLe32(body, 12))
  }

  /** The entries that both the count and the body have room for. */
  function EntryCount(body: seq<uint8>): nat
    requires |body| >= 8
  {
    Min(ReadLe32(body, 4), (|body| - 8) / 16)
  }

  function Entries(body: seq<uint8>, nr: nat): (sg: seq<Seg>)
    requires 8 + 16 * nr <= |body|
    ensures |sg| == nr
  {
    seq(nr, i requires 0 <= i < nr => Seg(ReadLe64(body, 8 + i * 16), ReadLe32(body, 8 + i * 16 + 8)))
  }

  function Decode(req: seq<uint8>): Command
  {
    if |req| < CTRL_HDR_LEN then Invalid else
    var cmd, body := ReadLe32(req, 0), req[CTRL_HDR_LEN..];
    if cmd == GET_DISPLAY_INFO then GetDisplayInfo
    else if cmd == RESOURCE_CREATE_2D && |body| >= 16 then
      Create2d(ReadLe32(body, 0), ReadLe32(body, 4), ReadLe32(body, 8), ReadLe32(body, 12))
    else if cmd == RESOURCE_UNREF && |body| >= 4 then Unref(ReadLe32(body, 0))
    else if cmd == RESOURCE_ATTACH_BACKING && |body| >= 8 then
      Attach(ReadLe32(body, 0), Entries(body, EntryCount(body)))
    else if cmd == RESOURCE_DETACH_BACKING && |body| >= 4 then Detach(ReadLe32(body, 0))
    else if cmd == SET_SCANOUT && |body| >= 24 then SetScanout(ReadLe32(body, 20))
    else if cmd == TRANSFER_TO_HOST_2D && |body| >= 32 then
      Transfer(ReadRect(body), ReadLe64(body, 16), ReadLe32(body, 24))
    else if cmd == RESOURCE_FLUSH && |body| >= 20 then Flush(ReadRect(body), ReadLe32(body, 16))
    else Invalid
  }

  // ---- sizes ----

  /** `w * h * 4` when it neither overflows nor exceeds the cap. */
  function PixelBytes(w: uint32, h: uint32): Option<nat>
  {
    if w * h < TWO64 && w * h * 4 < TWO64 && w * h * 4 <= MAX_RESOURCE_BYTES then Some(w * h * 4) else None
  }

  ghost predicate ValidResource(r: Resource)
  {
    && |r.pixels| == r.width * r.height * 4 <= MAX_RESOURCE_BYTES
    && Total(r.backing) <= U64_MAX
  }

  ghost predicate Valid(s: State)
  {
    && (forall id :: id in s.resources ==> ValidResource(s.resources[id]))
    && (s.scanout == 0 || s.scanout in s.resources)
  }

  lemma ValidIsSized(r: Resource)
    requires ValidResource(r)
    ensures |r.pixels| == RowAt(r.width, 0, r.height)
  {
    RowAtIsProduct(r.width, 0, r.height);
    assert r.height * r.width == r.width * r.height;
  }

  // ---- the handlers ----

  /** The reads of a TRANSFER: from the backing, unless the logical offset overflowed 64 bits. */
  function BackingReader(sg: seq<Seg>, mem: Mem): (read: Reader)
    ensures KeepsLength(read)
  {
    (logical: nat, run: seq<uint8>) => if logical > U64_MAX then run else Fill(sg, mem, logical, run)
  }

  /** End column and end row of the rectangle, saturated and clamped to the resource. */
  function Clamp(r: Resource, rect: Rect): (int, int)
  {
    (Min(Min(rect.x + rect.w, TWO32 - 1), r.width), Min(Min(rect.y + rect.h, TWO32 - 1), r.height))
  }

  /** The rows a TRANSFER of a rectangle that starts inside the resource reads. */
  function ClampedRows(r: Resource, rect: Rect): Rows
    requires rect.x < r.width
  {
    Rows(r.width, r.height, rect.x, Clamp(r, rect).0 - rect.x)
  }

  /** Each row reads the backing at the request's offset plus the row's own byte offset in the
      resource, into that same place of the host buffer. */
  function Transferred(r: Resource, mem: Mem, rect: Rect, offset: nat): (r': Resource)
    requires |r.pixels| == RowAt(r.width, 0, r.height)
    ensures r' == r.(pixels := r'.pixels) && |r'.pixels| == |r.pixels|
  {
    if rect.x >= r.width || rect.y >= r.height then r else
    r.(pixels := Raster.Transfer(ClampedRows(r, rect), r.pixels, BackingReader(r.backing, mem), offset,
                                 rect.y, Clamp(r, rect).1))
  }

  /** The whole buffer re-read from the backing. */
  function Refreshed(r: Resource, mem: Mem): Resource { r.(pixels := Fill(r.backing, mem, 0, r.pixels)) }

  /** `width * 4` as a 32-bit product. */
  function FrameOf(r: Resource, dirty: Rect): Frame
  {
    Frame(r.width, r.height, (r.width * 4) % TWO32, dirty, r.pixels)
  }

  datatype Outcome = Outcome(state: State, resp: Resp, frame: Option<Frame>)

  function Execute(s: State, c: Command, mem: Mem): (o: Outcome)
    requires Valid(s)
  {
    match c
    case GetDisplayInfo => Outcome(s, OkDisplayInfo, None)
    case Create2d(id, format, w, h) =>
      var size := PixelBytes(w, h);
      if size.None? then Outcome(s, ErrUnspec, None) else
      Outcome(s.(resources := s.resources[id := Resource(format, w, h, [], Zeros(size.value))]), OkNoData, None)
    case Unref(id) =>
      Outcome(State(s.resources - {id}, if s.scanout == id then 0 else s.scanout), OkNoData, None)
    case Attach(id, sg) =>
      if id !in s.resources then Outcome(s, ErrUnspec, None) else
      Outcome(s.(resources := s.resources[id := s.resources[id].(backing := sg)]), OkNoData, None)
    case Detach(id) =>
      if id !in s.resources then Outcome(s, OkNoData, None) else
      Outcome(s.(resources := s.resources[id := s.resources[id].(backing := [])]), OkNoData, None)
    case SetScanout(id) =>
      if id != 0 && id !in s.resources then Outcome(s, ErrUnspec, None) else
      Outcome(s.(scanout := id), OkNoData, None)
    case Transfer(rect, offset, id) =>
      if id !in s.resources then Outcome(s, ErrUnspec, None) else
      ValidIsSized(s.resources[id]);
      Outcome(s.(resources := s.resources[id := Transferred(s.resources[id], mem, rect, offset)]), OkNoData, None)
    case Flush(rect, id) =>
      if id == 0 || id != s.scanout || id !in s.resources then Outcome(s, OkNoData, None) else
      var r := Refreshed(s.resources[id], mem);
      Outcome(s.(resources := s.resources[id := r]), OkNoData, Some(FrameOf(r, rect)))
    case Invalid => Outcome(s, ErrUnspec, None)
  }

  /** `present_scanout`: repaint the bound resource, if any. */
  function Present(s: State, mem: Mem): (o: Outcome)
    requires Valid(s)
  {
    if s.scanout == 0 || s.scanout !in s.resources then Outcome(s, OkNoData, None) else
    var r := Refreshed(s.resources[s.scanout], mem);
    Outcome(s.(resources := s.resources[s.scanout := r]), OkNoData,
            Some(FrameOf(r, Rect(0, 0, r.width, r.height))))
  }

  // ---- the invariant over every command sequence ----

  lemma {:induction false} TotalBound(sg: seq<Seg>)
    ensures Total(sg) <= |sg| * TWO32
  {
    if sg != [] { TotalBound(sg[1..]); }
  }

  /** A request within the device's size limit cannot describe more than 64 bits of backing. */
  lemma DecodedBackingFits(req: seq<uint8>)
    requires |req| <= MAX_REQUEST_BYTES
    ensures Decode(req).Attach? ==> Total(Decode(req).sg) <= U64_MAX
  {
    if Decode(req).Attach? { TotalBound(Decode(req).sg); }
  }

  lemma ExecuteKeepsValid(s: State, c: Command, mem: Mem)
    requires Valid(s) && (c.Attach? ==> Total(c.sg) <= U64_MAX)
    ensures Valid(Execute(s, c, mem).state)
  {
  }

  /** The 32-bit stride is exact unless the resource has no rows and is very wide. */
  lemma StrideExactIff(r: Resource, dirty: Rect)
    requires ValidResource(r)
    ensures FrameOf(r, dirty).stride == r.width * 4 <==> !(r.height == 0 && r.width >= 0x4000_0000)
  {
    if r.height > 0 { ProductGrows(r.width, r.height); }
  }

  lemma ProductGrows(w: nat, h: nat)
    requires h > 0
    ensures w <= w * h
  {
    assert w * h == w + w * (h - 1);
  }

  // ---- TRANSFER changes only the clamped rectangle ----

  /** Byte `c` of pixel (px, py), at index `i`, is untouched outside the rectangle. */
  lemma TransferOutside(r: Resource, mem: Mem, rect: Rect, offset: uint64, px: nat, py: nat, c: nat, i: nat)
    requires ValidResource(r) && px < r.width && py < r.height && c < 4 && i == (py * r.width + px) * 4 + c
    requires !(rect.x <= px < rect.x + rect.w && rect.y <= py < rect.y + rect.h)
    ensures |r.pixels| == RowAt(r.width, 0, r.height)
    ensures i < |r.pixels| && Transferred(r, mem, rect, offset).pixels[i] == r.pixels[i]
  {
    ValidIsSized(r);
    RowAtIsProduct(r.width, px, py);
    RowFits(r.width, r.height, px, 1, py);
    if rect.x < r.width && rect.y < r.height {
      var g, yEnd := ClampedRows(r, rect), Clamp(r, rect).1;
      RowsMiss(g, rect.y, yEnd, px, py, c, i);
      RowsOutside(g, r.pixels, BackingReader(r.backing, mem), offset, rect.y, yEnd, i);
    }
  }

  /** Inside it each row, cut at the resource's edge, is one read of the backing at the request's
      offset plus the row's own offset in the resource. */
  lemma TransferInside(r: Resource, mem: Mem, rect: Rect, offset: uint64, py: nat)
    requires |r.pixels| == RowAt(r.width, 0, r.height)
    requires rect.x < r.width && py < r.height && rect.y <= py < rect.y + rect.h
    ensures var g := ClampedRows(r, rect);
            RowOf(g, Transferred(r, mem, rect, offset).pixels, py) ==
            BackingReader(r.backing, mem)(offset + g.At(py), RowOf(g, r.pixels, py))
  {
    RowsInside(ClampedRows(r, rect), r.pixels, BackingReader(r.backing, mem), offset, rect.y, Clamp(r, rect).1, py);
  }

  /** With the backing in RAM, such a row takes byte `logical + k` of the flattened backing at
      `k`, where that exists. With offset 0 that is what a FLUSH reads there. */
  lemma ReaderIsFlat(sg: seq<Seg>, mem: Mem, logical: nat, run: seq<uint8>, k: nat, off: nat)
    requires Mapped(sg, mem) && k < |run| && logical <= U64_MAX && off == logical + k
    ensures BackingReader(sg, mem)(logical, run)[k] == if off < Total(sg) then MemByte(mem, Flat(sg)[off]) else run[k]
  {
    if off < Total(sg) { FillReadsFlat(sg, mem, logical, run, k, off); } else { FillByte(sg, mem, logical, run, k); }
  }

  // ---- TRANSFER is redundant for what is shown ----

  /** The two states agree on everything but pixel contents. */
  ghost predicate SameButPixels(a: State, b: State)
  {
    && a.scanout == b.scanout && a.resources.Keys == b.resources.Keys
    && forall id :: id in a.resources ==>
         && |a.resources[id].pixels| == |b.resources[id].pixels|
         && a.resources[id] == b.resources[id].(pixels := a.resources[id].pixels)
  }

  /** A frame together with how many of its bytes the backing covered when it was shown. */
  datatype Shown = Shown(frame: Frame, covered: nat)

  ghost predicate SameWhereCovered(a: Shown, b: Shown)
  {
    && a.covered == b.covered <= |a.frame.pixels| == |b.frame.pixels|
    && a.frame == b.frame.(pixels := a.frame.pixels)
    && a.frame.pixels[..a.covered] == b.frame.pixels[..b.covered]
  }

  /** Full coverage makes that equality of frames. */
  lemma CoveredFramesAreEqual(a: Shown, b: Shown)
    requires SameWhereCovered(a, b) && a.covered == |a.frame.pixels|
    ensures a.frame == b.frame
  {
    assert a.frame.pixels[..a.covered] == a.frame.pixels && b.frame.pixels[..b.covered] == b.frame.pixels;
  }

  ghost function Covered(r: Resource): nat { Min(Total(r.backing), |r.pixels|) }

  /** Re-reading overwrites everything the backing covers and nothing else. */
  lemma RefreshForgets(sg: seq<Seg>, mem: Mem, p: seq<uint8>, q: seq<uint8>)
    requires |p| == |q|
    ensures forall i :: 0 <= i < |p| && i < Total(sg) ==> Fill(sg, mem, 0, p)[i] == Fill(sg, mem, 0, q)[i]
    ensures forall i :: Total(sg) <= i < |p| ==> Fill(sg, mem, 0, p)[i] == p[i]
  {
    forall i | 0 <= i < |p|
      ensures i < Total(sg) ==> Fill(sg, mem, 0, p)[i] == Fill(sg, mem, 0, q)[i]
      ensures i >= Total(sg) ==> Fill(sg, mem, 0, p)[i] == p[i]
    {
      FillByte(sg, mem, 0, p, i);
      FillByte(sg, mem, 0, q, i);
    }
  }

  /** What a FLUSH shows does not depend on earlier pixel contents exactly when the backing
      covers the whole resource. */
  lemma RefreshForgetsAllIffCovered(sg: seq<Seg>, mem: Mem, size: nat)
    ensures Total(sg) >= size <==>
            forall p: seq<uint8>, q: seq<uint8> :: |p| == |q| == size ==> Fill(sg, mem, 0, p) == Fill(sg, mem, 0, q)
  {
    if Total(sg) >= size {
      forall p: seq<uint8>, q: seq<uint8> | |p| == |q| == size ensures Fill(sg, mem, 0, p) == Fill(sg, mem, 0, q) {
        RefreshForgets(sg, mem, p, q);
      }
    } else {
      var p, q := Zeros(size), Splice(Zeros(size), size - 1, [1]);
      RefreshForgets(sg, mem, p, q);
      RefreshForgets(sg, mem, q, p);
      assert Fill(sg, mem, 0, p)[size - 1] == 0 && Fill(sg, mem, 0, q)[size - 1] == 1;
    }
  }

  ghost function ShownBy(s: State, c: Command, mem: Mem): Option<Shown>
    requires Valid(s)
  {
    var o := Execute(s, c, mem);
    if o.frame.None? then None else Some(Shown(o.frame.value, Covered(o.state.resources[s.scanout])))
  }

  lemma SameCommandSameShown(a: State, b: State, c: Command, mem: Mem)
    requires Valid(a) && Valid(b) && SameButPixels(a, b)
    ensures SameButPixels(Execute(a, c, mem).state, Execute(b, c, mem).state)
    ensures ShownBy(a, c, mem).Some? <==> ShownBy(b, c, mem).Some?
    ensures ShownBy(a, c, mem).Some? ==> SameWhereCovered(ShownBy(a, c, mem).value, ShownBy(b, c, mem).value)
  {
    if c.Flush? { SameFlush(a, b, c, mem); } else { OthersShowNothing(a, b, c, mem); }
  }

  lemma OthersShowNothing(a: State, b: State, c: Command, mem: Mem)
    requires Valid(a) && Valid(b) && SameButPixels(a, b) && !c.Flush?
    ensures SameButPixels(Execute(a, c, mem).state, Execute(b, c, mem).state)
    ensures ShownBy(a, c, mem).None? && ShownBy(b, c, mem).None?
  {
    NoFrame(a, c, mem);
    NoFrame(b, c, mem);
    if c.Transfer? { SameTransfer(a, b, c, mem); } else { SameTable(a, b, c, mem); }
  }

  lemma NoFrame(s: State, c: Command, mem: Mem)
    requires Valid(s) && !c.Flush?
    ensures Execute(s, c, mem).frame.None?
  {
  }

  lemma SameTransfer(a: State, b: State, c: Command, mem: Mem)
    requires Valid(a) && Valid(b) && SameButPixels(a, b) && c.Transfer?
    ensures SameButPixels(Execute(a, c, mem).state, Execute(b, c, mem).state)
  {
  }

  lemma SameTable(a: State, b: State, c: Command, mem: Mem)
    requires Valid(a) && Valid(b) && SameButPixels(a, b) && !c.Flush? && !c.Transfer?
    ensures SameButPixels(Execute(a, c, mem).state, Execute(b, c, mem).state)
  {
  }

  lemma SameFlush(a: State, b: State, c: Command, mem: Mem)
    requires Valid(a) && Valid(b) && SameButPixels(a, b) && c.Flush?
    ensures SameButPixels(Execute(a, c, mem).state, Execute(b, c, mem).state)
    ensures ShownBy(a, c, mem).Some? <==> ShownBy(b, c, mem).Some?
    ensures ShownBy(a, c, mem).Some? ==> SameWhereCovered(ShownBy(a, c, mem).value, ShownBy(b, c, mem).value)
  {
    if c.id != 0 && c.id == a.scanout && c.id in a.resources {
      SameRefresh(a.resources[c.id], b.resources[c.id], mem, c.rect);
    }
  }

  lemma SameRefresh(p: Resource, q: Resource, mem: Mem, rect: Rect)
    requires p == q.(pixels := p.pixels) && |p.pixels| == |q.pixels|
    ensures var p', q' := Refreshed(p, mem), Refreshed(q, mem);
            SameWhereCovered(Shown(FrameOf(p', rect), Covered(p')), Shown(FrameOf(q', rect), Covered(q')))
  {
    RefreshForgets(p.backing, mem, p.pixels, q.pixels);
  }

  lemma TransferShowsNothing(a: State, b: State, c: Command, mem: Mem)
    requires Valid(a) && SameButPixels(a, b) && c.Transfer?
    ensures SameButPixels(Execute(a, c, mem).state, b) && ShownBy(a, c, mem).None?
  {
  }

  /** One control-queue request together with guest memory as the device finds it then. */
  datatype Event = Event(req: seq<uint8>, mem: Mem)

  ghost predicate InLimits(events: seq<Event>)
  {
    forall i :: 0 <= i < |events| ==> |events[i].req| <= MAX_REQUEST_BYTES
  }

  /** Everything a command sequence shows. */
  ghost function ShownAll(s: State, events: seq<Event>): (r: seq<Shown>)
    requires Valid(s) && InLimits(events)
    decreases |events|
  {
    if events == [] then [] else
    var c, mem := Decode(events[0].req), events[0].mem;
    DecodedBackingFits(events[0].req); ExecuteKeepsValid(s, c, mem);
    (if ShownBy(s, c, mem).Some? then [ShownBy(s, c, mem).value] else [])
    + ShownAll(Execute(s, c, mem).state, events[1..])
  }

  ghost function WithoutTransfers(events: seq<Event>): (r: seq<Event>)
  {
    if events == [] then [] else
    (if Decode(events[0].req).Transfer? then [] else [events[0]]) + WithoutTransfers(events[1..])
  }

  lemma {:induction false} WithoutTransfersInLimits(events: seq<Event>)
    requires InLimits(events)
    ensures InLimits(WithoutTransfers(events))
  {
    if events != [] { WithoutTransfersInLimits(events[1..]); }
  }

  ghost predicate SameShown(a: seq<Shown>, b: seq<Shown>)
  {
    |a| == |b| && forall i :: 0 <= i < |a| ==> SameWhereCovered(a[i], b[i])
  }

  lemma {:induction false} DroppingTransfersShowsTheSame(a: State, b: State, events: seq<Event>)
    requires Valid(a) && Valid(b) && SameButPixels(a, b) && InLimits(events)
    ensures InLimits(WithoutTransfers(events))
    ensures SameShown(ShownAll(a, events), ShownAll(b, WithoutTransfers(events)))
    decreases |events|
  {
    WithoutTransfersInLimits(events);
    if events != [] {
      var c, mem := Decode(events[0].req), events[0].mem;
      DecodedBackingFits(events[0].req);
      ExecuteKeepsValid(a, c, mem);
      ExecuteKeepsValid(b, c, mem);
      var a' := Execute(a, c, mem).state;
      if c.Transfer? {
        TransferShowsNothing(a, b, c, mem);
        DroppingTransfersShowsTheSame(a', b, events[1..]);
        assert WithoutTransfers(events) == WithoutTransfers(events[1..]);
        assert ShownAll(a, events) == ShownAll(a', events[1..]);
      } else {
        SameCommandSameShown(a, b, c, mem);
        DroppingTransfersShowsTheSame(a', Execute(b, c, mem).state, events[1..]);
        var rest := WithoutTransfers(events);
        assert rest[0] == events[0] && rest[1..] == WithoutTransfers(events[1..]);
      }
    }
  }

  /** Two command sequences that differ only in TRANSFERs show the same frames: same count, same
      geometry, same bytes wherever the backing covers the resource. */
  lemma TransfersAreRedundant(s: State, xs: seq<Event>, ys: seq<Event>)
    requires Valid(s) && InLimits(xs) && InLimits(ys) && WithoutTransfers(xs) == WithoutTransfers(ys)
    ensures SameShown(ShownAll(s, xs), ShownAll(s, ys))
  {
    DroppingTransfersShowsTheSame(s, s, xs);
    DroppingTransfersShowsTheSame(s, s, ys);
    SameShownTransitive(ShownAll(s, xs), ShownAll(s, ys), ShownAll(s, WithoutTransfers(xs)));
  }

  lemma SameShownTransitive(x: seq<Shown>, y: seq<Shown>, z: seq<Shown>)
    requires SameShown(x, z) && SameShown(y, z)
    ensures SameShown(x, y)
  {
    forall i | 0 <= i < |x| ensures SameWhereCovered(x[i], y[i]) {
      assert SameWhereCovered(x[i], z[i]) && SameWhereCovered(y[i], z[i]);
    }
  }
}
