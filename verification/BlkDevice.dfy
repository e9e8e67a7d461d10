/** The virtio-blk object (crates/devices/src/virtio/blk.rs): the request loops over the host
    file and guest memory, proved against Blk. */
module BlkDevice {
  import opened Prelude
  import opened Memory
  import opened Disk
  import opened Blk

  lemma NothingWritten(disk: seq<uint8>, off: nat)
    ensures Overwrite(disk, off, []) == disk
  {
  }

  /** The backing file. Any operation may fail for reasons of the host's own. */
  class HostFile {
    var bytes: seq<uint8>
    ghost var faulted: bool // an operation failed that the request did not make impossible
    ghost var synced: bool // all bytes are on stable storage

    /** seek, then read_exact. */
    method Read(off: uint64, n: nat) returns (data: Option<seq<uint8>>)
      modifies `faulted
      ensures old(faulted) ==> faulted
      ensures data.Some? ==>
                && faulted == old(faulted) && off <= I64_MAX
                && Readable(bytes, off, n) && data.value == ReadAt(bytes, off, n)
      ensures data.None? && !faulted ==> off > I64_MAX || !Readable(bytes, off, n)
    {
      if off > I64_MAX || !Readable(bytes, off, n) { return None; }
      if * {
        faulted := true;
        return None;
      }
      data := Some(ReadAt(bytes, off, n));
    }

    /** seek, then write_all, which may stop part-way. */
    method Write(off: uint64, data: seq<uint8>) returns (ok: bool, ghost stored: nat)
      modifies this
      ensures old(faulted) ==> faulted
      ensures stored <= |data| && bytes == Overwrite(old(bytes), off, data[..stored])
      ensures ok ==> faulted == old(faulted) && stored == |data|
      ensures ok || stored > 0 ==> off <= I64_MAX
      ensures !ok && !faulted ==> off > I64_MAX
    {
      ok, stored := off <= I64_MAX, 0;
      if !ok {
        NothingWritten(bytes, off);
        return;
      }
      var n := |data|;
      if * {
        n :| 0 <= n <= |data|;
        ok, faulted := false, true;
      }
      stored, synced := n, false;
      bytes := Overwrite(bytes, off, data[..n]);
      assert data[..|data|] == data;
    }

    method SyncAll() returns (ok: bool)
      modifies `faulted, `synced
      ensures old(faulted) ==> faulted
      ensures !old(faulted) ==> ok == !faulted
      ensures ok ==> synced
    {
      ok := *;
      if ok { synced := true; } else { faulted := true; }
    }
  }

  // ---- the loops, point by point ----

  /** The state between two buffers of a transfer. */
  datatype Point = Point(off: nat, disk: seq<uint8>, mem: Mem)

  /** A buffer that a transfer at `off` cannot get past. */
  ghost predicate Blocked(mem: Mem, d: Desc, off: nat)
  {
    d.len > MAX_DESC_LEN || !mem.Contains(d.addr, d.len) || off > I64_MAX
  }

  ghost predicate Wrote(d: Desc, p: Point, q: Point)
  {
    && !Blocked(p.mem, d, p.off) && q.mem == p.mem && q.off == p.off + d.len
    && q.disk == Overwrite(p.disk, p.off, p.mem.Read(d.addr, d.len))
  }

  ghost predicate Delivered(d: Desc, p: Point, q: Point)
  {
    && !Blocked(p.mem, d, p.off) && Readable(p.disk, p.off, d.len) && q.disk == p.disk && q.off == p.off + d.len
    && q.mem == p.mem.Write(d.addr, ReadAt(p.disk, p.off, d.len))
  }

  ghost predicate Writes(ds: seq<Desc>, trail: seq<Point>)
  {
    0 < |trail| <= |ds| + 1 && forall i :: 0 <= i < |trail| - 1 ==> Wrote(ds[i], trail[i], trail[i + 1])
  }

  ghost predicate Reads(ds: seq<Desc>, trail: seq<Point>)
  {
    0 < |trail| <= |ds| + 1 && forall i :: 0 <= i < |trail| - 1 ==> Delivered(ds[i], trail[i], trail[i + 1])
  }

  lemma Blocks(mem: Mem, ds: seq<Desc>, start: nat, k: nat, off: nat)
    requires k < |ds| && off == start + Length(ds, k) && Blocked(mem, ds[k], off)
    ensures !Transferable(mem, ds, |ds|, start)
  {
    if ds[k].len > MAX_DESC_LEN {
      assert !SmallEnough(ds, |ds|);
    } else if off > I64_MAX {
      assert !Seekable(start, ds, |ds|);
    } else {
      assert !InRam(mem, ds, |ds|);
    }
  }

  lemma Passes(mem: Mem, ds: seq<Desc>, start: nat, k: nat, off: nat)
    requires k < |ds| && off == start + Length(ds, k) && !Blocked(mem, ds[k], off) && Transferable(mem, ds, k, start)
    ensures Transferable(mem, ds, k + 1, start)
  {
  }

  lemma OneMoreStored(disk: seq<uint8>, mem: Mem, ds: seq<Desc>, start: nat, k: nat, off: nat)
    requires k < |ds| && InRam(mem, ds, k + 1) && off == start + Length(ds, k)
    ensures Overwrite(Overwrite(disk, start, Gather(mem, ds, k)), off, mem.Read(ds[k].addr, ds[k].len)) ==
            Overwrite(disk, start, Gather(mem, ds, k + 1))
  {
    GatherStep(mem, ds, k);
    OverwriteTwice(disk, start, Gather(mem, ds, k), off, mem.Read(ds[k].addr, ds[k].len));
  }

  /** Writing buffer after buffer is one write of them all. */
  lemma WritesStoreAll(ds: seq<Desc>, trail: seq<Point>)
    requires Writes(ds, trail) && trail[0].off < TWO64
    ensures var p, q, k := trail[0], trail[|trail| - 1], |trail| - 1;
            && Transferable(p.mem, ds, k, p.off) && q.mem == p.mem && q.off == p.off + Length(ds, k)
            && q.disk == Overwrite(p.disk, p.off, Gather(p.mem, ds, k))
  {
    var p := trail[0];
    NothingWritten(p.disk, p.off);
    for i := 0 to |trail| - 1
      invariant Transferable(p.mem, ds, i, p.off) && trail[i].mem == p.mem && trail[i].off == p.off + Length(ds, i)
      invariant trail[i].disk == Overwrite(p.disk, p.off, Gather(p.mem, ds, i))
    {
      assert Wrote(ds[i], trail[i], trail[i + 1]);
      LengthStep(ds, i);
      Passes(p.mem, ds, p.off, i, trail[i].off);
      OneMoreStored(p.disk, p.mem, ds, p.off, i, trail[i].off);
    }
  }

  lemma NothingStored(disk: seq<uint8>, mem: Mem, ds: seq<Desc>, start: nat)
    requires start >= TWO64
    ensures WriteOutcome(disk, mem, ds, start, Outcome(disk, mem, S_IOERR, 0, false))
  {
    NothingWritten(disk, start);
    assert Partial(mem, ds, 0, 0) == [];
    assert StoredPart(disk, mem, ds, start, disk, 0, 0);
  }

  /** A write that stops in the next buffer has stored `n` bytes of it. */
  lemma WriteStops(ds: seq<Desc>, trail: seq<Point>, n: nat, disk': seq<uint8>, faulted: bool)
    requires Writes(ds, trail) && trail[0].off < TWO64 && |trail| - 1 < |ds|
    requires var q, d := trail[|trail| - 1], ds[|trail| - 1];
             && (faulted || Blocked(q.mem, d, q.off))
             && (n > 0 ==> q.mem.Contains(d.addr, d.len) && n <= d.len)
             && disk' == if n == 0 then q.disk else Overwrite(q.disk, q.off, q.mem.Read(d.addr, d.len)[..n])
    ensures var p := trail[0]; WriteOutcome(p.disk, p.mem, ds, p.off, Outcome(disk', p.mem, S_IOERR, 0, faulted))
  {
    var p, q, k := trail[0], trail[|trail| - 1], |trail| - 1;
    WritesStoreAll(ds, trail);
    if !faulted { Blocks(p.mem, ds, p.off, k, q.off); }
    if n == 0 {
      assert Partial(p.mem, ds, k, 0) == Gather(p.mem, ds, k);
    } else {
      OverwriteTwice(p.disk, p.off, Gather(p.mem, ds, k), q.off, p.mem.Read(ds[k].addr, ds[k].len)[..n]);
    }
    assert StoredPart(p.disk, p.mem, ds, p.off, disk', k, n);
  }

  lemma OneMoreFilled(mem: Mem, ds: seq<Desc>, disk: seq<uint8>, start: nat, k: nat, n: nat, off: nat, m: nat)
    requires k < |ds| && InRam(mem, ds, k + 1) && n == Length(ds, k) && off == start + n && m == n + ds[k].len
    requires Readable(disk, start, n) && Readable(disk, off, ds[k].len)
    ensures Readable(disk, start, m) && m == Length(ds, k + 1)
    ensures Scatter(mem, ds, k + 1, ReadAt(disk, start, m)) ==
            Scatter(mem, ds, k, ReadAt(disk, start, n)).Write(ds[k].addr, ReadAt(disk, off, ds[k].len))
  {
    LengthStep(ds, k);
    ReadTwice(disk, start, n, off, ds[k].len);
    ScatterStep(mem, ds, k, ReadAt(disk, start, n), ReadAt(disk, off, ds[k].len), ReadAt(disk, start, m));
  }

  /** Reading buffer after buffer is one read scattered over them. */
  lemma ReadsFillAll(ds: seq<Desc>, trail: seq<Point>)
    requires Reads(ds, trail) && trail[0].off < TWO64
    ensures var p, q, k := trail[0], trail[|trail| - 1], |trail| - 1;
            && Transferable(p.mem, ds, k, p.off) && q.disk == p.disk && q.off == p.off + Length(ds, k)
            && FilledPart(p.disk, p.mem, ds, p.off, q.mem, Length(ds, k), k)
  {
    var p := trail[0];
    for i := 0 to |trail| - 1
      invariant Transferable(p.mem, ds, i, p.off) && trail[i].disk == p.disk && trail[i].off == p.off + Length(ds, i)
      invariant Readable(p.disk, p.off, Length(ds, i))
      invariant trail[i].mem == Scatter(p.mem, ds, i, ReadAt(p.disk, p.off, Length(ds, i)))
    {
      var here, next, n := trail[i], trail[i + 1], Length(ds, i);
      assert Delivered(ds[i], here, next);
      Passes(p.mem, ds, p.off, i, here.off);
      OneMoreFilled(p.mem, ds, p.disk, p.off, i, n, here.off, n + ds[i].len);
    }
  }

  lemma NothingFilled(disk: seq<uint8>, mem: Mem, ds: seq<Desc>, start: nat)
    requires start >= TWO64
    ensures ReadOutcome(disk, mem, ds, start, Outcome(disk, mem, S_IOERR, 0, false))
  {
    assert FilledPart(disk, mem, ds, start, mem, 0, 0);
  }

  /** A read that stops at the next buffer without a host fault could not have gone on. */
  lemma ReadStops(ds: seq<Desc>, trail: seq<Point>, faulted: bool)
    requires Reads(ds, trail) && trail[0].off < TWO64 && |trail| - 1 < |ds|
    requires var q, d := trail[|trail| - 1], ds[|trail| - 1];
             faulted || Blocked(q.mem, d, q.off) || !Readable(q.disk, q.off, d.len)
    ensures var p, q, n := trail[0], trail[|trail| - 1], Length(ds, |trail| - 1);
            q.off == p.off + n && ReadOutcome(p.disk, p.mem, ds, p.off, Outcome(p.disk, q.mem, S_IOERR, n, faulted))
  {
    var p, q, k := trail[0], trail[|trail| - 1], |trail| - 1;
    ReadsFillAll(ds, trail);
    if faulted {
    } else if Blocked(q.mem, ds[k], q.off) {
      Blocks(p.mem, ds, p.off, k, q.off);
    } else {
      TooShort(p.disk, ds, p.off, k, q.off);
    }
  }

  lemma TooShort(disk: seq<uint8>, ds: seq<Desc>, start: nat, k: nat, off: nat)
    requires k < |ds| && off == start + Length(ds, k) && !Readable(disk, off, ds[k].len)
    ensures !Readable(disk, start, Length(ds, |ds|))
  {
    LengthGrows(ds, k, |ds|);
  }

  class VirtioBlk {
    const file: HostFile

    constructor (file: HostFile)
      ensures this.file == file
    {
      this.file := file;
    }

    /** One chain. The result is the used-ring length. */
    method Process(chain: seq<Desc>, mem: GuestRam) returns (len: uint32, ghost o: Outcome)
      requires mem.Valid()
      modifies file, mem.Footprint()
      ensures mem.Valid()
      ensures Processed(old(file.bytes), old(mem.View()), chain, file.bytes, mem.View(), len, o)
      ensures |chain| >= 2 && Parse(old(mem.View()), chain).Flush? && o.status == S_OK ==> file.synced
    {
      o := Outcome(file.bytes, mem.View(), S_IOERR, 0, false);
      if |chain| < 2 { return 0, o; }
      var hdr := ReadHeader(chain[0], mem);
      if hdr.None? {
        SetStatus(mem, chain[|chain| - 1].addr, S_IOERR);
        return 1, o;
      }
      var kind, sector := ReadLe32(hdr.value, 0), ReadLe64(hdr.value, 8);
      var status, written;
      status, written, o := Serve(mem, kind, sector, chain[1..|chain| - 1]);
      SetStatus(mem, chain[|chain| - 1].addr, status);
      len := (written + 1) % TWO32;
    }

    method Serve(mem: GuestRam, kind: uint32, sector: uint64, data: seq<Desc>)
      returns (status: uint8, written: uint32, ghost o: Outcome)
      requires mem.Valid()
      modifies file, mem.Footprint()
      ensures mem.Valid() && o.disk == file.bytes && o.mem == mem.View()
      ensures o.status == status && written == Min(o.written, TWO32 - 1)
      ensures Ran(old(file.bytes), old(mem.View()), Named(kind, sector), data, o)
      ensures kind == T_FLUSH && status == S_OK ==> file.synced
    {
      file.faulted := false;
      written, o := 0, Outcome(file.bytes, mem.View(), S_UNSUPP, 0, false);
      if kind == T_IN {
        status, written, o := ReadToGuest(mem, data, sector);
      } else if kind == T_OUT {
        status, o := WriteFromGuest(mem, data, sector);
      } else if kind == T_FLUSH {
        var ok := file.SyncAll();
        status := if ok then S_OK else S_IOERR;
        o := o.(status := status, faulted := file.faulted);
      } else if kind == T_GET_ID {
        status, written := WriteId(mem, data);
        o := Outcome(file.bytes, mem.View(), status, written, false);
      } else {
        status := S_UNSUPP;
      }
    }

    static method ReadHeader(d: Desc, mem: GuestRam) returns (hdr: Option<seq<uint8>>)
      ensures hdr == if d.len >= 16 && mem.View().Contains(d.addr, 16) then Some(mem.View().Read(d.addr, 16)) else None
    {
      if d.len < 16 { return None; }
      hdr := ReadBuffer(mem, d.addr, 16);
    }

    static method ReadBuffer(mem: GuestRam, addr: uint64, n: nat) returns (r: Option<seq<uint8>>)
      ensures r == if mem.View().Contains(addr, n) then Some(mem.View().Read(addr, n)) else None
    {
      var buf := new uint8[n](i => 0);
      ghost var was := buf[..];
      var ok := mem.ReadSlice(addr, buf, 0, n);
      if !ok { return None; }
      SpliceAll(was, mem.View().Read(addr, n));
      r := Some(buf[..]);
    }

    static method SetStatus(mem: GuestRam, addr: uint64, status: uint8)
      requires mem.Valid()
      modifies mem.Footprint()
      ensures mem.Valid() && mem.View() == WithStatus(old(mem.View()), addr, status)
    {
      var _ := mem.WriteSlice(addr, [status]);
    }

    method WriteFromGuest(mem: GuestRam, ds: seq<Desc>, sector: uint64) returns (status: uint8, ghost o: Outcome)
      requires !file.faulted
      modifies file
      ensures mem.View() == old(mem.View())
      ensures o.disk == file.bytes && o.status == status
      ensures WriteOutcome(old(file.bytes), mem.View(), ds, sector * SECTOR_SIZE, o)
    {
      ghost var view := mem.View();
      ghost var trail := [Point(sector * SECTOR_SIZE, file.bytes, view)];
      if sector * SECTOR_SIZE >= TWO64 {
        NothingStored(trail[0].disk, view, ds, trail[0].off);
        return S_IOERR, Outcome(file.bytes, view, S_IOERR, 0, false);
      }
      var off, k := sector * SECTOR_SIZE, 0;
      while k < |ds|
        invariant 0 <= k <= |ds| && |trail| == k + 1 && !file.faulted && mem.View() == view
        invariant Writes(ds, trail) && trail[0] == Point(sector * SECTOR_SIZE, old(file.bytes), view)
        invariant trail[k].mem == view && trail[k].disk == file.bytes && off == Min(trail[k].off, U64_MAX)
      {
        var ok, stored := WriteOne(mem, ds[k], off);
        if !ok {
          WriteStops(ds, trail, stored, file.bytes, file.faulted);
          return S_IOERR, Outcome(file.bytes, view, S_IOERR, 0, file.faulted);
        }
        trail := trail + [Point(off + ds[k].len, file.bytes, view)];
        off, k := SaturatingAdd64(off, ds[k].len), k + 1;
      }
      WritesStoreAll(ds, trail);
      status, o := S_OK, Outcome(file.bytes, view, S_OK, 0, false);
    }

    /** One buffer of a write. */
    method WriteOne(mem: GuestRam, d: Desc, off: uint64) returns (ok: bool, ghost stored: nat)
      requires !file.faulted
      modifies file
      ensures mem.View() == old(mem.View())
      ensures ok ==>
                && !file.faulted && !Blocked(mem.View(), d, off)
                && file.bytes == Overwrite(old(file.bytes), off, mem.View().Read(d.addr, d.len))
      ensures !ok && !file.faulted ==> Blocked(mem.View(), d, off)
      ensures !ok && stored > 0 ==> mem.View().Contains(d.addr, d.len) && stored <= d.len && off <= I64_MAX
      ensures !ok ==>
                file.bytes == if stored == 0 then old(file.bytes)
                              else Overwrite(old(file.bytes), off, mem.View().Read(d.addr, d.len)[..stored])
    {
      ok, stored := false, 0;
      if d.len > MAX_DESC_LEN { return; }
      var buf := ReadBuffer(mem, d.addr, d.len);
      if buf.None? { return; }
      ok, stored := file.Write(off, buf.value);
      NothingWritten(old(file.bytes), off);
      assert buf.value[..d.len] == buf.value;
    }

    method ReadToGuest(mem: GuestRam, ds: seq<Desc>, sector: uint64)
      returns (status: uint8, written: uint32, ghost o: Outcome)
      requires mem.Valid() && !file.faulted
      modifies file`faulted, mem.Footprint()
      ensures mem.Valid()
      ensures o.mem == mem.View() && o.status == status && written == Min(o.written, TWO32 - 1)
      ensures ReadOutcome(file.bytes, old(mem.View()), ds, sector * SECTOR_SIZE, o)
    {
      ghost var trail := [Point(sector * SECTOR_SIZE, file.bytes, mem.View())];
      written, o := 0, Outcome(file.bytes, mem.View(), S_IOERR, 0, false);
      if sector * SECTOR_SIZE >= TWO64 {
        NothingFilled(file.bytes, mem.View(), ds, sector * SECTOR_SIZE);
        return S_IOERR, 0, o;
      }
      var off, k := sector * SECTOR_SIZE, 0;
      while k < |ds|
        invariant 0 <= k <= |ds| && |trail| == k + 1 && !file.faulted && mem.Valid()
        invariant Reads(ds, trail) && trail[0] == Point(sector * SECTOR_SIZE, file.bytes, old(mem.View()))
        invariant trail[k].mem == mem.View() && trail[k].disk == file.bytes && off == Min(trail[k].off, U64_MAX)
        invariant trail[0].off <= trail[k].off && written == Min(trail[k].off - trail[0].off, TWO32 - 1)
      {
        var ok, data := ReadOne(mem, ds[k], off);
        if !ok {
          ReadStops(ds, trail, file.faulted);
          o := Outcome(file.bytes, mem.View(), S_IOERR, Length(ds, k), file.faulted);
          return S_IOERR, written, o;
        }
        trail := trail + [Point(off + ds[k].len, file.bytes, mem.View())];
        written := Min(written + ds[k].len, TWO32 - 1);
        off, k := SaturatingAdd64(off, ds[k].len), k + 1;
      }
      ReadsFillAll(ds, trail);
      status, o := S_OK, Outcome(file.bytes, mem.View(), S_OK, Length(ds, |ds|), false);
    }

    /** One buffer of a read. */
    method ReadOne(mem: GuestRam, d: Desc, off: uint64) returns (ok: bool, ghost data: seq<uint8>)
      requires mem.Valid() && !file.faulted
      modifies file`faulted, mem.Footprint()
      ensures mem.Valid()
      ensures ok ==>
                && !file.faulted && !Blocked(old(mem.View()), d, off) && Readable(file.bytes, off, d.len)
                && data == ReadAt(file.bytes, off, d.len) && mem.View() == old(mem.View()).Write(d.addr, data)
      ensures !ok ==> mem.View() == old(mem.View())
      ensures !ok && !file.faulted ==> Blocked(mem.View(), d, off) || !Readable(file.bytes, off, d.len)
    {
      data := [];
      if d.len > MAX_DESC_LEN { return false, data; }
      var buf := file.Read(off, d.len);
      if buf.None? { return false, data; }
      data := buf.value;
      ok := mem.WriteSlice(d.addr, buf.value);
    }

    /** GET_ID. */
    static method WriteId(mem: GuestRam, ds: seq<Desc>) returns (status: uint8, written: uint32)
      requires mem.Valid()
      modifies mem.Footprint()
      ensures mem.Valid()
      ensures forall disk: seq<uint8> ::
                IdOutcome(disk, old(mem.View()), ds, Outcome(disk, mem.View(), status, written, false))
    {
      if ds == [] || ds[0].len > MAX_DESC_LEN { return S_IOERR, 0; }
      var ok := mem.WriteSlice(ds[0].addr, PaddedId(ds[0].len));
      if ok { return S_OK, ds[0].len; }
      return S_IOERR, 0;
    }
  }
}
