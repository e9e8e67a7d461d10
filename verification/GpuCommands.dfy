/** What each virtio-gpu request means to the guest that sends it: its layout (section 5.7 of
    Virtio 1.2), its reply, what it changes and what it shows (crates/devices/src/virtio/gpu.rs). */
module GpuCommands {
  import opened Prelude
  import opened Memory
  import opened Backing
  import opened Raster
  import opened Gpu

  // ---- layout ----

  /** Little-endian 32-bit words, one after another. */
  function Words(xs: seq<uint32>): (r: seq<uint8>)
    ensures |r| == 4 * |xs|
  {
    if xs == [] then [] else LeBytes(xs[0], 4) + Words(xs[1..])
  }

  lemma {:induction false} WordAt(xs: seq<uint32>, tail: seq<uint8>, i: nat, at: nat)
    requires i < |xs| && at == 4 * i
    ensures ReadLe32(Words(xs) + tail, at) == xs[i]
    decreases |xs|
  {
    var bytes := Words(xs) + tail;
    if i == 0 {
      assert bytes[0..4] == LeBytes(xs[0], 4);
      Pow256Values();
      LeRoundTrip(xs[0], 4);
    } else {
      WordAt(xs[1..], tail, i - 1, at - 4);
      assert bytes[at..at + 4] == (Words(xs[1..]) + tail)[at - 4..at];
    }
  }

  lemma LongAt(xs: seq<uint32>, tail: seq<uint8>, i: nat, at: nat, x: uint64)
    requires i + 1 < |xs| && at == 4 * i && xs[i] == x % TWO32 && xs[i + 1] == x / TWO32
    ensures ReadLe64(Words(xs) + tail, at) == x
  {
    WordAt(xs, tail, i, at);
    WordAt(xs, tail, i + 1, at + 4);
    ReadLe64Is(Words(xs) + tail, at);
  }

  /** A request: its type, the other 20 bytes of the header, the words of its body, and whatever
      follows. */
  function Request(kind: uint32, header: seq<uint8>, xs: seq<uint32>, tail: seq<uint8>): seq<uint8>
    requires |header| == 20
  {
    LeBytes(kind, 4) + header + (Words(xs) + tail)
  }

  lemma RequestHas(kind: uint32, header: seq<uint8>, xs: seq<uint32>, tail: seq<uint8>)
    requires |header| == 20
    ensures var req := Request(kind, header, xs, tail);
            |req| >= 24 && ReadLe32(req, 0) == kind && req[24..] == Words(xs) + tail
  {
    var req := Request(kind, header, xs, tail);
    assert req[0..4] == LeBytes(kind, 4);
    Pow256Values();
    LeRoundTrip(kind, 4);
  }

  lemma DisplayInfoDecodes(header: seq<uint8>, tail: seq<uint8>)
    requires |header| == 20
    ensures Decode(Request(0x100, header, [], tail)) == GetDisplayInfo
  {
    RequestHas(0x100, header, [], tail);
  }

  lemma CreateDecodes(header: seq<uint8>, id: uint32, format: uint32, w: uint32, h: uint32, tail: seq<uint8>)
    requires |header| == 20
    ensures Decode(Request(0x101, header, [id, format, w, h], tail)) == Create2d(id, format, w, h)
  {
    var xs := [id, format, w, h];
    RequestHas(0x101, header, xs, tail);
    WordAt(xs, tail, 0, 0);
    WordAt(xs, tail, 1, 4);
    WordAt(xs, tail, 2, 8);
    WordAt(xs, tail, 3, 12);
  }

  lemma UnrefDecodes(header: seq<uint8>, id: uint32, tail: seq<uint8>)
    requires |header| == 20
    ensures Decode(Request(0x102, header, [id], tail)) == Unref(id)
    ensures Decode(Request(0x107, header, [id], tail)) == Detach(id)
  {
    RequestHas(0x102, header, [id], tail);
    RequestHas(0x107, header, [id], tail);
    WordAt([id], tail, 0, 0);
  }

  lemma RectAt(rect: Rect, more: seq<uint32>, tail: seq<uint8>)
    ensures ReadRect(Words([rect.x, rect.y, rect.w, rect.h] + more) + tail) == rect
  {
    var xs := [rect.x, rect.y, rect.w, rect.h] + more;
    WordAt(xs, tail, 0, 0);
    WordAt(xs, tail, 1, 4);
    WordAt(xs, tail, 2, 8);
    WordAt(xs, tail, 3, 12);
  }

  /** The rectangle of SET_SCANOUT and its scanout id are not looked at. */
  lemma SetScanoutDecodes(header: seq<uint8>, rect: Rect, scanout: uint32, id: uint32, tail: seq<uint8>)
    requires |header| == 20
    ensures Decode(Request(0x103, header, [rect.x, rect.y, rect.w, rect.h] + [scanout, id], tail)) == SetScanout(id)
  {
    var xs := [rect.x, rect.y, rect.w, rect.h] + [scanout, id];
    RequestHas(0x103, header, xs, tail);
    WordAt(xs, tail, 5, 20);
  }

  lemma FlushDecodes(header: seq<uint8>, rect: Rect, id: uint32, tail: seq<uint8>)
    requires |header| == 20
    ensures Decode(Request(0x104, header, [rect.x, rect.y, rect.w, rect.h] + [id], tail)) == Flush(rect, id)
  {
    var xs := [rect.x, rect.y, rect.w, rect.h] + [id];
    RequestHas(0x104, header, xs, tail);
    RectAt(rect, [id], tail);
    WordAt(xs, tail, 4, 16);
  }

  lemma TransferDecodes(header: seq<uint8>, rect: Rect, offset: uint64, id: uint32, pad: uint32, tail: seq<uint8>)
    requires |header| == 20
    ensures var more := [offset % TWO32, offset / TWO32, id, pad];
            Decode(Request(0x105, header, [rect.x, rect.y, rect.w, rect.h] + more, tail)) ==
            Gpu.Transfer(rect, offset, id)
  {
    var more := [offset % TWO32, offset / TWO32, id, pad];
    var xs := [rect.x, rect.y, rect.w, rect.h] + more;
    RequestHas(0x105, header, xs, tail);
    RectAt(rect, more, tail);
    LongAt(xs, tail, 4, 16, offset);
    WordAt(xs, tail, 6, 24);
  }

  /** Address, length and padding of each entry. */
  function EntryWords(sg: seq<Seg>, pads: seq<uint32>): (r: seq<uint32>)
    requires |pads| == |sg|
    ensures |r| == 4 * |sg|
  {
    if sg == [] then [] else
    [sg[0].gpa % TWO32, sg[0].gpa / TWO32, sg[0].len, pads[0]] + EntryWords(sg[1..], pads[1..])
  }

  lemma {:induction false} EntryWordsAt(sg: seq<Seg>, pads: seq<uint32>, i: nat, k: nat)
    requires |pads| == |sg| && i < |sg| && k == 4 * i
    ensures var r := EntryWords(sg, pads);
            r[k] == sg[i].gpa % TWO32 && r[k + 1] == sg[i].gpa / TWO32 && r[k + 2] == sg[i].len
    decreases |sg|
  {
    if i > 0 { EntryWordsAt(sg[1..], pads[1..], i - 1, k - 4); }
  }

  /** As many entries are attached as the request both announces and holds. */
  lemma AttachDecodes(header: seq<uint8>, id: uint32, nr: uint32, sg: seq<Seg>, pads: seq<uint32>, tail: seq<uint8>)
    requires |header| == 20 && |pads| == |sg| && |tail| < 16
    ensures Decode(Request(0x106, header, [id, nr] + EntryWords(sg, pads), tail)) == Attach(id, sg[..Min(nr, |sg|)])
  {
    var xs, n := [id, nr] + EntryWords(sg, pads), Min(nr, |sg|);
    RequestHas(0x106, header, xs, tail);
    DecodeAttach(Request(0x106, header, xs, tail), Words(xs) + tail);
    WordAt(xs, tail, 0, 0);
    WordAt(xs, tail, 1, 4);
    EntriesAre(xs, tail, sg, pads, n);
  }

  lemma DecodeAttach(req: seq<uint8>, body: seq<uint8>)
    requires |req| >= 24 && ReadLe32(req, 0) == 0x106 && req[24..] == body && |body| >= 8
    ensures Decode(req) == Attach(ReadLe32(body, 0), Entries(body, EntryCount(body)))
  {
  }

  lemma EntriesAre(xs: seq<uint32>, tail: seq<uint8>, sg: seq<Seg>, pads: seq<uint32>, n: nat)
    requires |pads| == |sg| && |xs| == 2 + 4 * |sg| && xs[2..] == EntryWords(sg, pads) && n <= |sg|
    ensures Entries(Words(xs) + tail, n) == sg[..n]
  {
    var body, ws := Words(xs) + tail, EntryWords(sg, pads);
    var got := Entries(body, n);
    forall i | 0 <= i < n ensures got[i] == sg[i] { OneEntry(xs, tail, body, ws, sg, pads, n, i, 4 * i, 8 + i * 16); }
  }

  lemma OneEntry(
    xs: seq<uint32>, tail: seq<uint8>, body: seq<uint8>, ws: seq<uint32>, sg: seq<Seg>, pads: seq<uint32>, n: nat,
    i: nat, k: nat, at: nat)
    requires |pads| == |sg| && ws == EntryWords(sg, pads) && |xs| == |ws| + 2 && xs[2..] == ws
    requires i < n <= |sg| && k == 4 * i && at == 8 + i * 16 && body == Words(xs) + tail
    ensures Entries(body, n)[i] == sg[i]
  {
    EntryWordsAt(sg, pads, i, k);
    EntryIs(xs, tail, ws, sg[i], k, 2 + k, at);
    EntryReads(body, n, i, at, sg[i]);
  }

  /** Word `k` after the first two is word `j`. */
  lemma EntryIs(xs: seq<uint32>, tail: seq<uint8>, ws: seq<uint32>, seg: Seg, k: nat, j: nat, at: nat)
    requires |xs| == |ws| + 2 && xs[2..] == ws && k + 2 < |ws| && j == 2 + k && at == 4 * j
    requires ws[k] == seg.gpa % TWO32 && ws[k + 1] == seg.gpa / TWO32 && ws[k + 2] == seg.len
    ensures ReadLe64(Words(xs) + tail, at) == seg.gpa && ReadLe32(Words(xs) + tail, at + 8) == seg.len
  {
    assert xs[j] == ws[k] && xs[j + 1] == ws[k + 1] && xs[j + 2] == ws[k + 2];
    EntryAt(xs, tail, seg, j, at);
  }

  lemma EntryReads(body: seq<uint8>, n: nat, i: nat, at: nat, seg: Seg)
    requires 8 + 16 * n <= |body| && i < n && at == 8 + i * 16
    requires ReadLe64(body, at) == seg.gpa && ReadLe32(body, at + 8) == seg.len
    ensures Entries(body, n)[i] == seg
  {
  }

  lemma EntryAt(xs: seq<uint32>, tail: seq<uint8>, seg: Seg, j: nat, at: nat)
    requires j + 2 < |xs| && at == 4 * j
    requires xs[j] == seg.gpa % TWO32 && xs[j + 1] == seg.gpa / TWO32 && xs[j + 2] == seg.len
    ensures ReadLe64(Words(xs) + tail, at) == seg.gpa && ReadLe32(Words(xs) + tail, at + 8) == seg.len
  {
    LongAt(xs, tail, j, at, seg.gpa);
    WordAt(xs, tail, j + 2, at + 8);
  }

  /** The bytes a body must have, by type. */
  function FixedPart(kind: uint32): Option<nat>
  {
    if kind == 0x100 then Some(0)
    else if kind == 0x101 then Some(16)
    else if kind == 0x102 || kind == 0x107 then Some(4)
    else if kind == 0x103 then Some(24)
    else if kind == 0x104 then Some(20)
    else if kind == 0x105 then Some(32)
    else if kind == 0x106 then Some(8)
    else None
  }

  /** A request is refused as malformed exactly for a short header, an unknown type or a short body. */
  lemma InvalidIff(req: seq<uint8>)
    ensures Decode(req).Invalid? <==>
            |req| < 24 || FixedPart(ReadLe32(req, 0)).None? || |req| < 24 + FixedPart(ReadLe32(req, 0)).value
  {
  }

  // ---- effects ----

  /** Nothing but resource `id` differs, and it is there before and after. */
  ghost predicate OnlyChanges(s: State, t: State, id: uint32)
  {
    && t.scanout == s.scanout && id in s.resources && t.resources.Keys == s.resources.Keys
    && forall k :: k in s.resources && k != id ==> t.resources[k] == s.resources[k]
  }

  /** What each command other than FLUSH replies and changes; it shows nothing. */
  lemma CommandEffect(s: State, c: Command, mem: Mem)
    requires Valid(s) && !c.Flush?
    ensures var o := Execute(s, c, mem);
            && o.frame.None?
            && match c
               case GetDisplayInfo => o.state == s && o.resp == OkDisplayInfo
               case Invalid => o.state == s && o.resp == ErrUnspec
               case Create2d(id, format, w, h) =>
                 if w * h * 4 <= 0x1000_0000 then
                   && o.resp == OkNoData && o.state.scanout == s.scanout
                   && o.state.resources.Keys == s.resources.Keys + {id}
                   && (forall k :: k in s.resources && k != id ==> o.state.resources[k] == s.resources[k])
                   && var r := o.state.resources[id];
                      && r.format == format && r.width == w && r.height == h && r.backing == []
                      && |r.pixels| == w * h * 4 && forall i :: 0 <= i < |r.pixels| ==> r.pixels[i] == 0
                 else o.state == s && o.resp == ErrUnspec
               case Unref(id) =>
                 && o.resp == OkNoData && o.state.resources.Keys == s.resources.Keys - {id}
                 && (forall k :: k in s.resources && k != id ==> o.state.resources[k] == s.resources[k])
                 && o.state.scanout == if s.scanout == id then 0 else s.scanout
               case Attach(id, sg) =>
                 if id in s.resources then
                   && o.resp == OkNoData && OnlyChanges(s, o.state, id)
                   && o.state.resources[id] == s.resources[id].(backing := sg)
                 else o.state == s && o.resp == ErrUnspec
               case Detach(id) =>
                 && o.resp == OkNoData
                 && if id in s.resources then
                      && OnlyChanges(s, o.state, id)
                      && o.state.resources[id] == s.resources[id].(backing := [])
                    else o.state == s
               case SetScanout(id) =>
                 if id == 0 || id in s.resources then
                   o.resp == OkNoData && o.state.resources == s.resources && o.state.scanout == id
                 else o.state == s && o.resp == ErrUnspec
               case Transfer(_, _, id) =>
                 if id in s.resources then
                   && o.resp == OkNoData && OnlyChanges(s, o.state, id)
                   && o.state.resources[id] == s.resources[id].(pixels := o.state.resources[id].pixels)
                 else o.state == s && o.resp == ErrUnspec
  {
  }

  // ---- what is shown ----

  /** The frame of a resource re-read from its backing: its geometry, and at each byte what the
      flattened backing holds, or the byte it had past the backing's end. */
  ghost predicate ShowsBacking(f: Frame, r: Resource, dirty: Rect, mem: Mem)
  {
    && f.width == r.width && f.height == r.height && f.dirty == dirty && |f.pixels| == |r.pixels|
    && forall i :: 0 <= i < |r.pixels| ==>
         f.pixels[i] == FlatByte(r.backing, mem, 0, |r.pixels|, i, r.pixels[i])
  }

  lemma RefreshedShows(r: Resource, dirty: Rect, mem: Mem)
    ensures ShowsBacking(FrameOf(Refreshed(r, mem), dirty), r, dirty, mem)
  {
    forall i | 0 <= i < |r.pixels|
      ensures Refreshed(r, mem).pixels[i] == FlatByte(r.backing, mem, 0, |r.pixels|, i, r.pixels[i])
    {
      FillByte(r.backing, mem, 0, r.pixels, i);
    }
  }

  /** Every FLUSH of the bound resource, whatever its rectangle, shows the backing as it is in
      memory then; a FLUSH of anything else shows and changes nothing. Both succeed. */
  lemma FlushShows(s: State, rect: Rect, id: uint32, mem: Mem)
    requires Valid(s)
    ensures var o := Execute(s, Flush(rect, id), mem);
            && o.resp == OkNoData
            && if id != 0 && id == s.scanout then
                 && id in s.resources && o.frame.Some? && ShowsBacking(o.frame.value, s.resources[id], rect, mem)
                 && OnlyChanges(s, o.state, id)
                 && o.state.resources[id] == s.resources[id].(pixels := o.frame.value.pixels)
               else o.frame.None? && o.state == s
  {
    if id != 0 && id == s.scanout { RefreshedShows(s.resources[id], rect, mem); }
  }

  /** `present_scanout` shows the bound resource whole, or nothing when none is bound. */
  lemma PresentShows(s: State, mem: Mem)
    requires Valid(s)
    ensures var o := Present(s, mem);
            if s.scanout != 0 then
              && o.frame.Some?
              && var r := s.resources[s.scanout]; ShowsBacking(o.frame.value, r, Rect(0, 0, r.width, r.height), mem)
            else o.frame.None? && o.state == s
  {
    if s.scanout != 0 {
      var r := s.resources[s.scanout];
      RefreshedShows(r, Rect(0, 0, r.width, r.height), mem);
    }
  }

  /** Byte `c` of pixel (px, py) inside both the rectangle and the resource, after a TRANSFER: one
      read of the row, cut at the resource's edge, at the request's offset plus the place of the
      row's first pixel; unchanged where that offset overflows 64 bits. */
  lemma TransferPixel(
    r: Resource, mem: Mem, rect: Rect, offset: uint64, px: nat, py: nat, c: nat, i: nat, row: nat, k: nat, n: nat)
    requires ValidResource(r) && px < r.width && py < r.height && c < 4
    requires rect.x <= px < rect.x + rect.w && rect.y <= py < rect.y + rect.h
    requires i == (py * r.width + px) * 4 + c && row == (py * r.width + rect.x) * 4 && k == (px - rect.x) * 4 + c
    requires n == (Min(rect.x + rect.w, r.width) - rect.x) * 4
    ensures |r.pixels| == RowAt(r.width, 0, r.height) && i < |r.pixels|
    ensures Transferred(r, mem, rect, offset).pixels[i] ==
            if offset + row > U64_MAX then r.pixels[i]
            else FlatByte(r.backing, mem, offset + row, n, k, r.pixels[i])
  {
    ValidIsSized(r);
    PixelPlace(ClampedRows(r, rect), px, py, c, i, row, k);
    TransferredAt(r, mem, rect, offset, py, row, k, i);
  }

  lemma TransferredAt(r: Resource, mem: Mem, rect: Rect, offset: uint64, py: nat, row: nat, k: nat, i: nat)
    requires |r.pixels| == RowAt(r.width, 0, r.height) && rect.x < r.width && py < r.height
    requires rect.y <= py < rect.y + rect.h && i == row + k && i < |r.pixels|
    requires ClampedRows(r, rect).At(py) == row && k < ClampedRows(r, rect).n * 4
    ensures Transferred(r, mem, rect, offset).pixels[i] ==
            if offset + row > U64_MAX then r.pixels[i]
            else FlatByte(r.backing, mem, offset + row, ClampedRows(r, rect).n * 4, k, r.pixels[i])
  {
    var g, px' := ClampedRows(r, rect), Transferred(r, mem, rect, offset).pixels;
    var run, logical := RowOf(g, r.pixels, py), offset + row;
    var got := BackingReader(r.backing, mem)(logical, run);
    TransferRow(r, mem, rect, offset, py, logical);
    RowByte(g, r.pixels, py, row, k, i);
    RowByte(g, px', py, row, k, i);
    ReaderGives(r.backing, mem, logical, run, k);
  }

  lemma TransferRow(r: Resource, mem: Mem, rect: Rect, offset: uint64, py: nat, logical: nat)
    requires |r.pixels| == RowAt(r.width, 0, r.height) && rect.x < r.width && py < r.height
    requires rect.y <= py < rect.y + rect.h && logical == offset + ClampedRows(r, rect).At(py)
    ensures var g := ClampedRows(r, rect);
            RowOf(g, Transferred(r, mem, rect, offset).pixels, py) ==
            BackingReader(r.backing, mem)(logical, RowOf(g, r.pixels, py))
  {
    TransferInside(r, mem, rect, offset, py);
  }

  /** Where a pixel of a rectangle's row lies in the buffer and in the row. */
  lemma PixelPlace(g: Rows, px: nat, py: nat, c: nat, i: nat, row: nat, k: nat)
    requires g.x <= px < g.x + g.n && g.x + g.n <= g.w && py < g.h && c < 4
    requires i == (py * g.w + px) * 4 + c && row == (py * g.w + g.x) * 4 && k == (px - g.x) * 4 + c
    ensures g.At(py) == row && i == row + k && k < g.n * 4 && i < RowAt(g.w, 0, g.h)
  {
    RowAtIsProduct(g.w, g.x, py);
    RowFits(g.w, g.h, g.x, g.n, py);
  }

  lemma RowByte(g: Rows, px: seq<uint8>, py: nat, row: nat, k: nat, i: nat)
    requires g.Fits(px) && py < g.h && g.At(py) == row && k < g.n * 4 && i == row + k && i < |px|
    ensures |RowOf(g, px, py)| == g.n * 4 && RowOf(g, px, py)[k] == px[i]
  {
    RowFits(g.w, g.h, g.x, g.n, py);
  }

  lemma ReaderGives(sg: seq<Seg>, mem: Mem, logical: nat, run: seq<uint8>, k: nat)
    requires k < |run|
    ensures BackingReader(sg, mem)(logical, run)[k] ==
            if logical > U64_MAX then run[k] else FlatByte(sg, mem, logical, |run|, k, run[k])
  {
    if logical <= U64_MAX { FillByte(sg, mem, logical, run, k); }
  }
}
