/** The virtio-blk device (crates/devices/src/virtio/blk.rs) on one descriptor chain. */
module Blk {
  import opened Prelude
  import opened Memory
  import opened Disk

  const T_IN: uint32 := 0
  const T_OUT: uint32 := 1
  const T_FLUSH: uint32 := 4
  const T_GET_ID: uint32 := 8

  const S_OK: uint8 := 0
  const S_IOERR: uint8 := 1
  const S_UNSUPP: uint8 := 2

  /** "ignition-vda". */
  const DEVICE_ID: seq<uint8> := [105, 103, 110, 105, 116, 105, 111, 110, 45, 118, 100, 97]

  // ---- what a request means ----

  datatype Request = BadHeader | In(sector: uint64) | Out(sector: uint64) | Flush | GetId | Unsupported

  /** The 16-byte header in the chain's first buffer. */
  function Parse(mem: Mem, chain: seq<Desc>): Request
    requires |chain| >= 2
  {
    if chain[0].len < 16 || !mem.Contains(chain[0].addr, 16) then BadHeader else
    var hdr := mem.Read(chain[0].addr, 16);
    Named(ReadLe32(hdr, 0), ReadLe64(hdr, 8))
  }

  function Named(kind: uint32, sector: uint64): Request
  {
    if kind == T_IN then In(sector) else if kind == T_OUT then Out(sector)
    else if kind == T_FLUSH then Flush else if kind == T_GET_ID then GetId else Unsupported
  }

  /** The buffers between header and status. */
  function Data(chain: seq<Desc>): seq<Desc>
    requires |chain| >= 2
  {
    chain[1..|chain| - 1]
  }

  predicate SmallEnough(ds: seq<Desc>, k: nat)
    requires k <= |ds|
  {
    forall i :: 0 <= i < k ==> ds[i].len <= MAX_DESC_LEN
  }

  /** Every buffer's byte offset can be seeked to. */
  predicate Seekable(off: nat, ds: seq<Desc>, k: nat)
    requires k <= |ds|
  {
    forall j :: 0 <= j < k ==> off + Length(ds, j) <= I64_MAX
  }

  /** Nothing in the request itself makes a transfer of the first `k` buffers fail. */
  ghost predicate Transferable(mem: Mem, ds: seq<Desc>, k: nat, off: nat)
    requires k <= |ds|
  {
    off < TWO64 && SmallEnough(ds, k) && InRam(mem, ds, k) && Seekable(off, ds, k)
  }

  /** What a request did, before its status byte is stored: `faulted` says that the host file
      failed an operation the request did not make impossible. */
  datatype Outcome = Outcome(disk: seq<uint8>, mem: Mem, status: uint8, written: nat, faulted: bool)

  /** The first `k` buffers and `n` bytes of the next one. */
  ghost function Partial(mem: Mem, ds: seq<Desc>, k: nat, n: nat): seq<uint8>
    requires k <= |ds| && InRam(mem, ds, k)
    requires n > 0 ==> k < |ds| && mem.Contains(ds[k].addr, ds[k].len) && n <= ds[k].len
  {
    Gather(mem, ds, k) + if n == 0 then [] else mem.Read(ds[k].addr, ds[k].len)[..n]
  }

  /** A write stores all its buffers at the sector, or reports an error having stored a part. */
  ghost predicate WriteOutcome(disk: seq<uint8>, mem: Mem, ds: seq<Desc>, off: nat, o: Outcome)
  {
    && o.mem == mem && o.written == 0
    && (o.status == S_OK ==> Transferable(mem, ds, |ds|, off) && o.disk == Overwrite(disk, off, Gather(mem, ds, |ds|)))
    && (o.status != S_OK ==>
          && o.status == S_IOERR && (o.faulted || !Transferable(mem, ds, |ds|, off))
          && exists k: nat, n: nat :: StoredPart(disk, mem, ds, off, o.disk, k, n))
  }

  ghost predicate StoredPart(disk: seq<uint8>, mem: Mem, ds: seq<Desc>, off: nat, disk': seq<uint8>, k: nat, n: nat)
  {
    && k <= |ds| && InRam(mem, ds, k)
    && (n > 0 ==> k < |ds| && mem.Contains(ds[k].addr, ds[k].len) && n <= ds[k].len)
    && disk' == Overwrite(disk, off, Partial(mem, ds, k, n))
  }

  /** A read fills all its buffers from the sector on, or reports an error having filled the
      first few, whose length it reports. */
  ghost predicate ReadOutcome(disk: seq<uint8>, mem: Mem, ds: seq<Desc>, off: nat, o: Outcome)
  {
    && o.disk == disk
    && (o.status == S_OK ==> Transferable(mem, ds, |ds|, off) && FilledPart(disk, mem, ds, off, o.mem, o.written, |ds|))
    && (o.status != S_OK ==>
          && o.status == S_IOERR
          && (o.faulted || !Transferable(mem, ds, |ds|, off) || !Readable(disk, off, Length(ds, |ds|)))
          && exists k: nat :: FilledPart(disk, mem, ds, off, o.mem, o.written, k))
  }

  ghost predicate FilledPart(disk: seq<uint8>, mem: Mem, ds: seq<Desc>, off: nat, mem': Mem, n: nat, k: nat)
  {
    && k <= |ds| && n == Length(ds, k) && InRam(mem, ds, k)
    && Readable(disk, off, n) && mem' == Scatter(mem, ds, k, ReadAt(disk, off, n))
  }

  /** The identifier, cut or zero-padded to the first buffer's length. */
  ghost predicate IdOutcome(disk: seq<uint8>, mem: Mem, ds: seq<Desc>, o: Outcome)
  {
    && o.disk == disk
    && if ds != [] && ds[0].len <= MAX_DESC_LEN && mem.Contains(ds[0].addr, ds[0].len)
       then o.status == S_OK && o.written == ds[0].len && o.mem == mem.Write(ds[0].addr, PaddedId(ds[0].len))
       else o.status == S_IOERR && o.written == 0 && o.mem == mem
  }

  function PaddedId(n: nat): (r: seq<uint8>)
    ensures |r| == n
  {
    seq(n, i requires 0 <= i => if i < |DEVICE_ID| then DEVICE_ID[i] else 0)
  }

  ghost predicate Ran(disk: seq<uint8>, mem: Mem, req: Request, ds: seq<Desc>, o: Outcome)
  {
    match req
    case In(sector) => ReadOutcome(disk, mem, ds, sector * SECTOR_SIZE, o)
    case Out(sector) => WriteOutcome(disk, mem, ds, sector * SECTOR_SIZE, o)
    case GetId => IdOutcome(disk, mem, ds, o)
    case Flush =>
      && o.disk == disk && o.mem == mem && o.written == 0
      && o.status == if o.faulted then S_IOERR else S_OK
    case BadHeader => o == Outcome(disk, mem, S_IOERR, 0, false)
    case Unsupported => o == Outcome(disk, mem, S_UNSUPP, 0, false)
  }

  /** The status byte, dropped when its address is outside RAM. */
  function WithStatus(mem: Mem, addr: uint64, status: uint8): Mem
  {
    if mem.Contains(addr, 1) then mem.Write(addr, [status]) else mem
  }

  /** `written` as the 32-bit sum the loop keeps, plus one for the status byte. */
  function Reported(written: nat): uint32 { (Min(written, TWO32 - 1) + 1) % TWO32 }

  /** One processed chain: memory, disk and the length put on the used ring. */
  ghost predicate Processed(
    disk: seq<uint8>, mem: Mem, chain: seq<Desc>, disk': seq<uint8>, mem': Mem, len: uint32, o: Outcome)
  {
    if |chain| < 2 then disk' == disk && mem' == mem && len == 0 else
    && Ran(disk, mem, Parse(mem, chain), Data(chain), o) && disk' == o.disk && len == Reported(o.written)
    && mem' == WithStatus(o.mem, chain[|chain| - 1].addr, o.status)
  }

  // ---- what the guest sees of a request ----

  /** The request in the chain's first 16 bytes: type at 0, sector at 8, both least significant
      byte first; anything shorter, or outside RAM, is refused. */
  lemma ParseIs(mem: Mem, chain: seq<Desc>)
    requires |chain| >= 2
    ensures var ok := chain[0].len >= 16 && mem.Contains(chain[0].addr, 16);
            && (Parse(mem, chain).BadHeader? <==> !ok)
            && (ok ==>
                  var hdr := mem.Read(chain[0].addr, 16);
                  var kind, sector := ReadLe32(hdr, 0), ReadLe64(hdr, 8);
                  && (Parse(mem, chain) == In(sector) <==> kind == 0)
                  && (Parse(mem, chain) == Out(sector) <==> kind == 1)
                  && (Parse(mem, chain) == Flush <==> kind == 4)
                  && (Parse(mem, chain) == GetId <==> kind == 8)
                  && (Parse(mem, chain) == Unsupported <==> kind !in {0, 1, 4, 8}))
  {
  }

  /** The identifier's bytes, then zeros. */
  lemma PaddedIdIs(n: nat, i: nat)
    requires i < n
    ensures PaddedId(n)[i] == if i < 12 then "ignition-vda"[i] as int else 0
  {
    var id := "ignition-vda";
    assert id == ['i', 'g', 'n', 'i', 't', 'i', 'o', 'n', '-', 'v', 'd', 'a'];
    assert forall j :: 0 <= j < 12 ==> DEVICE_ID[j] == id[j] as int;
  }

  /** The status byte: 0 done, 1 failed, 2 not supported. Only reads and GET_ID report more than
      that one byte. */
  lemma OutcomeIs(disk: seq<uint8>, mem: Mem, req: Request, ds: seq<Desc>, o: Outcome)
    requires Ran(disk, mem, req, ds, o)
    ensures o.status in {0, 1, 2} && (o.status == 2 <==> req.Unsupported?) && (req.BadHeader? ==> o.status == 1)
    ensures req.Flush? ==> (o.status == 0 <==> !o.faulted)
    ensures !req.In? && !req.GetId? ==> o.written == 0 && Reported(o.written) == 1 && o.mem == mem
    ensures !req.Out? ==> o.disk == disk
    ensures req.GetId? ==>
              if ds != [] && ds[0].len <= 0x10_0000 && mem.Contains(ds[0].addr, ds[0].len) then
                && o.status == 0 && Reported(o.written) == ds[0].len + 1
                && o.mem == mem.Write(ds[0].addr, PaddedId(ds[0].len))
              else o.status == 1 && Reported(o.written) == 1 && o.mem == mem
  {
  }

  lemma RanKeepsShape(disk: seq<uint8>, mem: Mem, req: Request, ds: seq<Desc>, o: Outcome)
    requires Ran(disk, mem, req, ds, o)
    ensures o.mem.base == mem.base && |o.mem.bytes| == |mem.bytes|
  {
    if req.In? && o.status != S_OK {
      var k: nat :| FilledPart(disk, mem, ds, req.sector * SECTOR_SIZE, o.mem, o.written, k);
    }
  }

  /** A status buffer in RAM always receives the status, whatever the request. */
  lemma StatusIsStored(disk: seq<uint8>, r: Served)
    requires |r.chain| >= 2 && Processed(disk, r.mem, r.chain, r.disk, r.mem', r.len, r.o)
    requires r.mem.Contains(r.chain[|r.chain| - 1].addr, 1)
    ensures var at := r.chain[|r.chain| - 1].addr;
            r.mem'.Contains(at, 1) && r.mem'.Read(at, 1) == [r.o.status]
  {
    RanKeepsShape(disk, r.mem, Parse(r.mem, r.chain), Data(r.chain), r.o);
  }

  /** A processed chain leaves guest memory outside its data buffers and its status byte. */
  lemma RequestSparesMemory(disk: seq<uint8>, r: Served, e: Desc)
    requires Processed(disk, r.mem, r.chain, r.disk, r.mem', r.len, r.o) && r.mem.Contains(e.addr, e.len)
    requires |r.chain| >= 2 ==>
               AllApart(Data(r.chain), |Data(r.chain)|, e) && Apart(e, Desc(r.chain[|r.chain| - 1].addr, 1, true))
    ensures r.mem'.Contains(e.addr, e.len) && r.mem'.Read(e.addr, e.len) == r.mem.Read(e.addr, e.len)
  {
    if |r.chain| >= 2 {
      var req, ds, status := Parse(r.mem, r.chain), Data(r.chain), Desc(r.chain[|r.chain| - 1].addr, 1, true);
      RanKeepsShape(disk, r.mem, req, ds, r.o);
      RanSparesMemory(disk, r.mem, req, ds, r.o, e);
      if r.o.mem.Contains(status.addr, 1) { WriteElsewhere(r.o.mem, e, status, [r.o.status]); }
    }
  }

  lemma FilledSpares(
    disk: seq<uint8>, mem: Mem, ds: seq<Desc>, off: nat, mem': Mem, n: nat, k: nat, e: Desc)
    requires FilledPart(disk, mem, ds, off, mem', n, k) && mem.Contains(e.addr, e.len) && AllApart(ds, |ds|, e)
    ensures mem'.Contains(e.addr, e.len) && mem'.Read(e.addr, e.len) == mem.Read(e.addr, e.len)
  {
    ScatterElsewhere(mem, ds, k, ReadAt(disk, off, n), e);
  }

  lemma RanSparesMemory(disk: seq<uint8>, mem: Mem, req: Request, ds: seq<Desc>, o: Outcome, e: Desc)
    requires Ran(disk, mem, req, ds, o) && mem.Contains(e.addr, e.len) && AllApart(ds, |ds|, e)
    ensures o.mem.Contains(e.addr, e.len) && o.mem.Read(e.addr, e.len) == mem.Read(e.addr, e.len)
  {
    if req.In? {
      var off := req.sector * SECTOR_SIZE;
      assert ReadOutcome(disk, mem, ds, off, o);
      var k: nat :| FilledPart(disk, mem, ds, off, o.mem, o.written, k);
      FilledSpares(disk, mem, ds, off, o.mem, o.written, k, e);
    } else if req.GetId? && o.status == S_OK {
      WriteElsewhere(mem, e, ds[0], PaddedId(ds[0].len));
    }
  }

  // ---- reading back what was written ----

  function DataLength(chain: seq<Desc>): nat
    requires |chain| >= 2
  {
    Length(Data(chain), |Data(chain)|)
  }

  predicate DataInRam(mem: Mem, chain: seq<Desc>)
    requires |chain| >= 2
  {
    InRam(mem, Data(chain), |Data(chain)|)
  }

  function DataBytes(mem: Mem, chain: seq<Desc>): seq<uint8>
    requires |chain| >= 2 && DataInRam(mem, chain)
  {
    Gather(mem, Data(chain), |Data(chain)|)
  }

  /** The byte the status goes to. */
  function StatusByte(chain: seq<Desc>): Desc
    requires |chain| >= 2
  {
    Desc(chain[|chain| - 1].addr, 1, true)
  }

  predicate StatusApart(chain: seq<Desc>)
    requires |chain| >= 2
  {
    AllApart(Data(chain), |Data(chain)|, StatusByte(chain))
  }

  /** A chain does not write into `[at, at + n)` of the disk, even where it fails part-way. */
  ghost predicate Misses(mem: Mem, chain: seq<Desc>, at: nat, n: nat)
  {
    |chain| >= 2 && Parse(mem, chain).Out? ==>
      var off := Parse(mem, chain).sector * SECTOR_SIZE;
      at + n <= off || off + DataLength(chain) <= at
  }

  /** One request of a run, with memory as the guest presents it. */
  datatype Served = Served(mem: Mem, chain: seq<Desc>, disk: seq<uint8>, mem': Mem, len: uint32, o: Outcome)

  /** Requests served one after another from `disk` on; between them the guest may change
      memory as it likes. */
  ghost predicate Serves(disk: seq<uint8>, run: seq<Served>, disk': seq<uint8>)
  {
    if run == [] then disk' == disk else
    var last, init := run[|run| - 1], run[..|run| - 1];
    && last.disk == disk'
    && exists mid ::
         Serves(disk, init, mid) && Processed(mid, last.mem, last.chain, disk', last.mem', last.len, last.o)
  }

  /** Such a chain leaves those bytes of the disk. */
  lemma MissKeepsBytes(disk: seq<uint8>, r: Served, at: nat, n: nat)
    requires Readable(disk, at, n) && Misses(r.mem, r.chain, at, n)
    requires Processed(disk, r.mem, r.chain, r.disk, r.mem', r.len, r.o)
    ensures Readable(r.disk, at, n) && ReadAt(r.disk, at, n) == ReadAt(disk, at, n)
  {
    if |r.chain| >= 2 && Parse(r.mem, r.chain).Out? {
      var off, ds := Parse(r.mem, r.chain).sector * SECTOR_SIZE, Data(r.chain);
      if r.o.status == S_OK {
        ReadElsewhere(disk, off, Gather(r.mem, ds, |ds|), at, n);
      } else {
        var k: nat, i: nat :| StoredPart(disk, r.mem, ds, off, r.disk, k, i);
        LengthGrows(ds, k, |ds|);
        ReadElsewhere(disk, off, Partial(r.mem, ds, k, i), at, n);
      }
    }
  }

  lemma {:induction false} MissesKeepBytes(disk: seq<uint8>, run: seq<Served>, disk': seq<uint8>, at: nat, n: nat)
    requires Readable(disk, at, n) && Serves(disk, run, disk')
    requires forall i :: 0 <= i < |run| ==> Misses(run[i].mem, run[i].chain, at, n)
    ensures Readable(disk', at, n) && ReadAt(disk', at, n) == ReadAt(disk, at, n)
    decreases |run|
  {
    if run != [] {
      var last, init := run[|run| - 1], run[..|run| - 1];
      var mid :| Serves(disk, init, mid) && Processed(mid, last.mem, last.chain, disk', last.mem', last.len, last.o);
      MissesKeepBytes(disk, init, mid, at, n);
      MissKeepsBytes(mid, last, at, n);
    }
  }

  /** A successful write, then any run of requests that write elsewhere, then a read of the same
      sectors into disjoint buffers of any other partition, which neither the request nor the host
      makes fail: the read succeeds, delivers the bytes written and reports their number plus one. */
  lemma WriteThenRead(disk: seq<uint8>, w: Served, run: seq<Served>, disk': seq<uint8>, r: Served)
    requires |w.chain| >= 2 && |r.chain| >= 2
    requires Processed(disk, w.mem, w.chain, w.disk, w.mem', w.len, w.o)
    requires Serves(w.disk, run, disk')
    requires Processed(disk', r.mem, r.chain, r.disk, r.mem', r.len, r.o)
    requires Parse(w.mem, w.chain).Out? && Parse(r.mem, r.chain) == In(Parse(w.mem, w.chain).sector)
    requires w.o.status == S_OK
    requires var at := Parse(w.mem, w.chain).sector * SECTOR_SIZE;
             r.o.status == S_OK || (!r.o.faulted && Transferable(r.mem, Data(r.chain), |Data(r.chain)|, at))
    requires DataLength(r.chain) == DataLength(w.chain)
    requires Disjoint(Data(r.chain)) && StatusApart(r.chain)
    requires var at := Parse(w.mem, w.chain).sector * SECTOR_SIZE;
             forall i :: 0 <= i < |run| ==> Misses(run[i].mem, run[i].chain, at, DataLength(w.chain))
    ensures r.o.status == S_OK && DataInRam(w.mem, w.chain) && DataInRam(r.mem', r.chain)
    ensures DataBytes(r.mem', r.chain) == DataBytes(w.mem, w.chain)
    ensures r.disk == disk' && (DataLength(r.chain) < TWO32 - 1 ==> r.len == DataLength(r.chain) + 1)
  {
    var at, data := Parse(w.mem, w.chain).sector * SECTOR_SIZE, DataBytes(w.mem, w.chain);
    ReadOfOverwrite(disk, at, data);
    MissesKeepBytes(w.disk, run, disk', at, |data|);
    ReadDelivers(disk', r, at, data);
  }

  /** A successful read puts the disk's bytes into its buffers. */
  lemma ReadDelivers(disk: seq<uint8>, r: Served, at: nat, data: seq<uint8>)
    requires |r.chain| >= 2 && Processed(disk, r.mem, r.chain, r.disk, r.mem', r.len, r.o)
    requires Parse(r.mem, r.chain).In? && at == Parse(r.mem, r.chain).sector * SECTOR_SIZE && r.o.status == S_OK
    requires |data| == DataLength(r.chain) && Readable(disk, at, |data|) && ReadAt(disk, at, |data|) == data
    requires Disjoint(Data(r.chain)) && StatusApart(r.chain)
    ensures DataInRam(r.mem', r.chain) && DataBytes(r.mem', r.chain) == data
    ensures r.disk == disk && (|data| < TWO32 - 1 ==> r.len == |data| + 1)
  {
    var ds := Data(r.chain);
    assert ReadOutcome(disk, r.mem, ds, at, r.o);
    StatusSpares(r.mem, ds, data, r.o.mem, StatusByte(r.chain), r.o.status);
  }

  /** Filled disjoint buffers still hold the data after the status byte is stored beside them. */
  lemma StatusSpares(mem: Mem, ds: seq<Desc>, data: seq<uint8>, mem': Mem, e: Desc, status: uint8)
    requires InRam(mem, ds, |ds|) && |data| == Length(ds, |ds|) && Disjoint(ds) && AllApart(ds, |ds|, e) && e.len == 1
    requires mem' == Scatter(mem, ds, |ds|, data)
    ensures var stored := WithStatus(mem', e.addr, status);
            InRam(stored, ds, |ds|) && Gather(stored, ds, |ds|) == data
  {
    GatherOfScatter(mem, ds, |ds|, data);
    if mem'.Contains(e.addr, 1) { GatherElsewhere(mem', ds, |ds|, e, [status]); }
  }

  /** Without host faults a transfer that is possible succeeds: a write always, a read when the
      file is long enough, as it is after the write. */
  lemma SucceedsUnlessFaulted(disk: seq<uint8>, mem: Mem, ds: seq<Desc>, off: nat, o: Outcome)
    requires Transferable(mem, ds, |ds|, off) && !o.faulted
    ensures WriteOutcome(disk, mem, ds, off, o) ==>
              && o.status == S_OK && Readable(o.disk, off, Length(ds, |ds|))
              && ReadAt(o.disk, off, Length(ds, |ds|)) == Gather(mem, ds, |ds|)
    ensures ReadOutcome(disk, mem, ds, off, o) && Readable(disk, off, Length(ds, |ds|)) ==> o.status == S_OK
  {
    ReadOfOverwrite(disk, off, Gather(mem, ds, |ds|));
  }

  lemma DiskNeverShrinks(disk: seq<uint8>, r: Served)
    requires Processed(disk, r.mem, r.chain, r.disk, r.mem', r.len, r.o)
    ensures |r.disk| >= |disk|
  {
    if disk != [] && |r.chain| >= 2 && Parse(r.mem, r.chain).Out? && r.o.status != S_OK {
      var off, ds := Parse(r.mem, r.chain).sector * SECTOR_SIZE, Data(r.chain);
      var k: nat, n: nat :| StoredPart(disk, r.mem, ds, off, r.disk, k, n);
    }
  }

  lemma SameByte(disk: seq<uint8>, disk': seq<uint8>, i: nat)
    requires Readable(disk, i, 1) && Readable(disk', i, 1) && ReadAt(disk', i, 1) == ReadAt(disk, i, 1)
    ensures disk'[i] == disk[i]
  {
    assert ReadAt(disk', i, 1)[0] == disk'[i] && ReadAt(disk, i, 1)[0] == disk[i];
  }

  /** Every transfer inside a file of up to 2^63 - 1 bytes, of buffers of up to 1 MiB in RAM,
      succeeds unless the host fails. */
  lemma InsideFileSucceeds(disk: seq<uint8>, mem: Mem, ds: seq<Desc>, sector: uint64, o: Outcome)
    requires |disk| <= 0x7FFF_FFFF_FFFF_FFFF && sector * 512 + Length(ds, |ds|) <= |disk| && !o.faulted
    requires forall i :: 0 <= i < |ds| ==> ds[i].len <= 0x10_0000 && mem.Contains(ds[i].addr, ds[i].len)
    ensures WriteOutcome(disk, mem, ds, sector * 512, o) || ReadOutcome(disk, mem, ds, sector * 512, o) ==>
              o.status == 0
  {
    forall j | 0 <= j < |ds| ensures sector * 512 + Length(ds, j) <= I64_MAX { LengthGrows(ds, j, |ds|); }
    assert Transferable(mem, ds, |ds|, sector * 512);
    SucceedsUnlessFaulted(disk, mem, ds, sector * 512, o);
  }

  /** One buffer above 1 MiB or outside RAM makes a transfer fail. */
  lemma BadBufferFails(disk: seq<uint8>, mem: Mem, ds: seq<Desc>, off: nat, o: Outcome, i: nat)
    requires i < |ds| && (ds[i].len > 0x10_0000 || !mem.Contains(ds[i].addr, ds[i].len))
    ensures WriteOutcome(disk, mem, ds, off, o) || ReadOutcome(disk, mem, ds, off, o) ==> o.status == 1
  {
  }

  /** Only a write changes the disk, and only inside its own range. */
  lemma OnlyWritesChangeDisk(disk: seq<uint8>, r: Served, i: nat)
    requires Processed(disk, r.mem, r.chain, r.disk, r.mem', r.len, r.o) && i < |disk|
    ensures |r.disk| >= |disk|
    ensures r.disk[i] != disk[i] ==>
              && |r.chain| >= 2 && Parse(r.mem, r.chain).Out?
              && var off := Parse(r.mem, r.chain).sector * SECTOR_SIZE; off <= i < off + DataLength(r.chain)
  {
    DiskNeverShrinks(disk, r);
    if Misses(r.mem, r.chain, i, 1) {
      MissKeepsBytes(disk, r, i, 1);
      SameByte(disk, r.disk, i);
    }
  }

  // ---- a run of the theorem ----

  /** A request header for sector 0. */
  function Header(kind: uint32): (r: seq<uint8>)
    ensures |r| == 16
  {
    LeBytes(kind, 4) + Zeros(12)
  }

  lemma {:induction false} ZerosAreZero(bytes: seq<uint8>)
    requires forall i :: 0 <= i < |bytes| ==> bytes[i] == 0
    ensures LeNat(bytes) == 0
  {
    if bytes != [] { ZerosAreZero(bytes[1..]); }
  }

  lemma HeaderParses(kind: uint32)
    ensures ReadLe32(Header(kind), 0) == kind && ReadLe64(Header(kind), 8) == 0
  {
    var hdr := Header(kind);
    assert hdr[0..4] == LeBytes(kind, 4);
    Pow256Values();
    LeRoundTrip(kind, 4);
    ZerosAreZero(hdr[8..16]);
  }

  /** Header, one data byte, status byte. */
  function SampleMem(kind: uint32, v: uint8): Mem { Mem(0, Header(kind) + [v] + [0]) }

  const SAMPLE: seq<Desc> := [Desc(0, 16, false), Desc(16, 1, true), Desc(17, 1, true)]

  lemma SampleParses(kind: uint32, v: uint8)
    ensures Parse(SampleMem(kind, v), SAMPLE) == Named(kind, 0) && Data(SAMPLE) == [Desc(16, 1, true)]
  {
    assert SampleMem(kind, v).Read(0, 16) == Header(kind);
    HeaderParses(kind);
  }

  /** One byte at the start of the disk, written or read. */
  lemma SampleTransfers(kind: uint32, v: uint8)
    ensures var mem, ds := SampleMem(kind, v), [Desc(16, 1, true)];
            && Transferable(mem, ds, 1, 0) && Length(ds, 1) == 1 && Gather(mem, ds, 1) == [v]
            && forall u: uint8 :: Scatter(mem, ds, 1, [u]) == SampleMem(kind, u)
  {
    var mem, ds := SampleMem(kind, v), [Desc(16, 1, true)];
    assert Length(ds, 0) == 0 && Length(ds, 1) == 1;
    assert mem.Read(16, 1) == [v];
    forall u: uint8 ensures Scatter(mem, ds, 1, [u]) == SampleMem(kind, u) {
      assert [u][..0] == [] && [u][0..] == [u];
      assert Splice(mem.bytes, 16, [u]) == SampleMem(kind, u).bytes;
    }
  }

  lemma SampleWrite(v: uint8) returns (w: Served)
    ensures Processed([], w.mem, SAMPLE, [v], w.mem', w.len, w.o) && w.chain == SAMPLE && w.disk == [v]
    ensures Parse(w.mem, SAMPLE) == Out(0) && w.o.status == S_OK
    ensures DataInRam(w.mem, SAMPLE) && DataBytes(w.mem, SAMPLE) == [v]
  {
    var mem := SampleMem(T_OUT, v);
    SampleParses(T_OUT, v);
    SampleTransfers(T_OUT, v);
    var o := Outcome([v], mem, S_OK, 0, false);
    w := Served(mem, SAMPLE, [v], WithStatus(mem, 17, S_OK), Reported(0), o);
    assert Overwrite([], 0, [v]) == [v];
    assert WriteOutcome([], mem, Data(SAMPLE), 0, o);
  }

  lemma SampleRead(v: uint8) returns (r: Served)
    ensures Processed([v], r.mem, SAMPLE, [v], r.mem', r.len, r.o) && r.chain == SAMPLE && r.disk == [v]
    ensures Parse(r.mem, SAMPLE) == In(0) && r.o.status == S_OK
  {
    var mem := SampleMem(T_IN, 0);
    SampleParses(T_IN, 0);
    SampleTransfers(T_IN, 0);
    var o := Outcome([v], SampleMem(T_IN, v), S_OK, 1, false);
    r := Served(mem, SAMPLE, [v], WithStatus(o.mem, 17, S_OK), Reported(1), o);
    assert ReadAt([v], 0, 1) == [v];
    assert FilledPart([v], mem, Data(SAMPLE), 0, o.mem, 1, 1);
    assert ReadOutcome([v], mem, Data(SAMPLE), 0, o);
  }

  /** The theorem's conditions can be met: a write of one byte, then a read of it. */
  lemma SampleWriteThenRead(v: uint8) returns (w: Served, r: Served)
    ensures w.chain == r.chain == SAMPLE && DataInRam(r.mem', SAMPLE) && DataBytes(r.mem', SAMPLE) == [v]
  {
    w := SampleWrite(v);
    r := SampleRead(v);
    assert Data(SAMPLE) == [Desc(16, 1, true)];
    WriteThenRead([], w, [], [v], r);
  }

  // ---- the reported length ----

  lemma {:induction false} LengthBound(ds: seq<Desc>, k: nat)
    requires k <= |ds| && SmallEnough(ds, k)
    ensures Length(ds, k) <= k * MAX_DESC_LEN
  {
    if k > 0 { LengthBound(ds, k - 1); }
  }

  /** A successful read reports its total plus one exactly when that fits 32 bits. */
  lemma ReadReportsIff(disk: seq<uint8>, r: Served)
    requires |r.chain| >= 2 && Processed(disk, r.mem, r.chain, r.disk, r.mem', r.len, r.o)
    requires Parse(r.mem, r.chain).In? && r.o.status == S_OK
    ensures r.len == DataLength(r.chain) + 1 <==> DataLength(r.chain) < TWO32 - 1
    ensures DataLength(r.chain) >= TWO32 - 1 ==> r.len == 0
  {
    var n := DataLength(r.chain);
    assert ReadOutcome(disk, r.mem, Data(r.chain), Parse(r.mem, r.chain).sector * SECTOR_SIZE, r.o);
    assert r.o.written == n && r.len == Reported(n);
    ReportedIs(n);
  }

  lemma ReportedIs(n: nat)
    ensures Reported(n) == if n < TWO32 - 1 then n + 1 else 0
  {
  }

  /** As it does for every chain of up to 4097 descriptors, header and status included. */
  lemma ShortReadReportsItsLength(disk: seq<uint8>, r: Served)
    requires 2 <= |r.chain| <= 4097 && Processed(disk, r.mem, r.chain, r.disk, r.mem', r.len, r.o)
    requires Parse(r.mem, r.chain).In? && r.o.status == S_OK
    ensures r.len == DataLength(r.chain) + 1
  {
    LengthBound(Data(r.chain), |Data(r.chain)|);
    ReadReportsIff(disk, r);
  }

  /** `n` buffers of 1 MiB, all over the same region. */
  function Big(n: nat): (ds: seq<Desc>)
    ensures |ds| == n && forall i :: 0 <= i < n ==> ds[i] == Desc(16, 0x10_0000, true)
  {
    seq(n, i => Desc(16, 0x10_0000, true))
  }

  lemma {:induction false} BigLength(n: nat, k: nat)
    requires k <= n
    ensures Length(Big(n), k) == k * MAX_DESC_LEN
  {
    if k > 0 { BigLength(n, k - 1); }
  }

  function BigMem(): Mem { Mem(0, Header(T_IN) + Zeros(0x10_0001)) }

  function BigChain(n: nat): seq<Desc> { [Desc(0, 16, false)] + Big(n) + [Desc(0x10_0010, 1, true)] }

  lemma BigParses(n: nat)
    ensures Parse(BigMem(), BigChain(n)) == In(0) && Data(BigChain(n)) == Big(n)
  {
    assert BigChain(n)[0] == Desc(0, 16, false) && BigMem().Read(0, 16) == Header(T_IN);
    HeaderParses(T_IN);
  }

  lemma BigTransfers(n: nat)
    requires n < 0x1_0000
    ensures Transferable(BigMem(), Big(n), n, 0) && Length(Big(n), n) == n * MAX_DESC_LEN
  {
    BigLength(n, n);
    forall j | 0 <= j < n ensures 0 + Length(Big(n), j) <= I64_MAX { BigLength(n, j); }
  }

  lemma BigOutcome(n: nat, disk: seq<uint8>, total: nat, o: Outcome)
    requires Transferable(BigMem(), Big(n), n, 0) && total == Length(Big(n), n) == |disk| && total > 0
    requires o == Outcome(disk, Scatter(BigMem(), Big(n), n, ReadAt(disk, 0, total)), S_OK, total, false)
    ensures ReadOutcome(disk, BigMem(), Big(n), 0, o)
  {
    assert FilledPart(disk, BigMem(), Big(n), 0, o.mem, total, n);
  }

  /** From 4096 such buffers on, in a queue of any allowed size, a read that succeeds reports a
      length of zero. */
  lemma BigReadReportsZero(n: nat, disk: seq<uint8>) returns (r: Served)
    requires 4096 <= n < 0xFFFF && |disk| == n * MAX_DESC_LEN
    ensures |r.chain| == n + 2 && Processed(disk, r.mem, r.chain, r.disk, r.mem', r.len, r.o)
    ensures Parse(r.mem, r.chain) == In(0) && r.o.status == S_OK && DataLength(r.chain) == |disk| && r.len == 0
  {
    BigParses(n);
    BigTransfers(n);
    var total := |disk|;
    var mem := Scatter(BigMem(), Big(n), n, ReadAt(disk, 0, total));
    var o := Outcome(disk, mem, S_OK, total, false);
    r := Served(BigMem(), BigChain(n), disk, WithStatus(mem, 0x10_0010, S_OK), Reported(total), o);
    BigOutcome(n, disk, total, o);
    assert r.chain[|r.chain| - 1].addr == 0x10_0010;
    ReadReportsIff(disk, r);
  }
}
