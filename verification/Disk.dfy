/** The value side of virtio-blk (crates/devices/src/virtio/blk.rs): scattering and gathering
    guest buffers, a file as a byte string, and what a request may do to both. */
module Disk {
  import opened Prelude
  import opened Memory

  const SECTOR_SIZE: int := 512
  const MAX_DESC_LEN: int := 0x10_0000
  const I64_MAX: int := 0x7FFF_FFFF_FFFF_FFFF

  datatype Desc = Desc(addr: uint64, len: uint32, writable: bool)

  // ---- guest buffers ----

  /** Bytes in the first `k` buffers. */
  function Length(ds: seq<Desc>, k: nat): (n: nat)
    requires k <= |ds|
    decreases k
  {
    if k == 0 then 0 else Length(ds, k - 1) + ds[k - 1].len
  }

  predicate InRam(mem: Mem, ds: seq<Desc>, k: nat)
    requires k <= |ds|
  {
    forall i :: 0 <= i < k ==> mem.Contains(ds[i].addr, ds[i].len)
  }

  /** The bytes of the first `k` buffers, one buffer after another. */
  function Gather(mem: Mem, ds: seq<Desc>, k: nat): (r: seq<uint8>)
    requires k <= |ds| && InRam(mem, ds, k)
    ensures |r| == Length(ds, k)
  {
    if k == 0 then [] else Gather(mem, ds, k - 1) + mem.Read(ds[k - 1].addr, ds[k - 1].len)
  }

  /** Memory after filling the first `k` buffers, one after another, with `data`. */
  function Scatter(mem: Mem, ds: seq<Desc>, k: nat, data: seq<uint8>): (r: Mem)
    requires k <= |ds| && InRam(mem, ds, k) && |data| == Length(ds, k)
    ensures r.base == mem.base && |r.bytes| == |mem.bytes|
    decreases k
  {
    if k == 0 then mem else
    var n := Length(ds, k - 1);
    Scatter(mem, ds, k - 1, data[..n]).Write(ds[k - 1].addr, data[n..])
  }

  lemma {:induction false} LengthGrows(ds: seq<Desc>, j: nat, k: nat)
    requires j <= k <= |ds|
    ensures Length(ds, j) <= Length(ds, k) && (j < k ==> Length(ds, j) + ds[j].len <= Length(ds, k))
    decreases k
  {
    if j < k { LengthGrows(ds, j, k - 1); }
  }

  predicate Apart(a: Desc, b: Desc) { a.addr + a.len <= b.addr || b.addr + b.len <= a.addr }

  predicate Disjoint(ds: seq<Desc>)
  {
    forall i, j :: 0 <= i < j < |ds| ==> Apart(ds[i], ds[j])
  }

  predicate AllApart(ds: seq<Desc>, k: nat, d: Desc)
    requires k <= |ds|
  {
    forall i :: 0 <= i < k ==> Apart(ds[i], d)
  }

  /** A write outside a buffer leaves its bytes. */
  lemma WriteElsewhere(mem: Mem, d: Desc, e: Desc, data: seq<uint8>)
    requires mem.Contains(d.addr, d.len) && mem.Contains(e.addr, e.len) && Apart(d, e) && |data| == e.len
    ensures mem.Write(e.addr, data).Read(d.addr, d.len) == mem.Read(d.addr, d.len)
  {
  }

  lemma {:induction false} GatherElsewhere(mem: Mem, ds: seq<Desc>, k: nat, e: Desc, data: seq<uint8>)
    requires k <= |ds| && InRam(mem, ds, k) && mem.Contains(e.addr, e.len) && AllApart(ds, k, e) && |data| == e.len
    ensures InRam(mem.Write(e.addr, data), ds, k) && Gather(mem.Write(e.addr, data), ds, k) == Gather(mem, ds, k)
  {
    if k > 0 {
      GatherElsewhere(mem, ds, k - 1, e, data);
      WriteElsewhere(mem, ds[k - 1], e, data);
    }
  }

  /** Filling disjoint buffers and collecting them again gives the data back. */
  lemma {:induction false} GatherOfScatter(mem: Mem, ds: seq<Desc>, k: nat, data: seq<uint8>)
    requires k <= |ds| && InRam(mem, ds, k) && |data| == Length(ds, k) && Disjoint(ds)
    ensures Gather(Scatter(mem, ds, k, data), ds, k) == data
    decreases k
  {
    if k > 0 {
      var d, n := ds[k - 1], Length(ds, k - 1);
      GatherOfScatter(mem, ds, k - 1, data[..n]);
      GatherElsewhere(Scatter(mem, ds, k - 1, data[..n]), ds, k - 1, d, data[n..]);
      assert data[..n] + data[n..] == data;
    }
  }

  /** A byte of none of the buffers keeps its value. */
  lemma {:induction false} ScatterElsewhere(mem: Mem, ds: seq<Desc>, k: nat, data: seq<uint8>, e: Desc)
    requires k <= |ds| && InRam(mem, ds, k) && |data| == Length(ds, k)
    requires mem.Contains(e.addr, e.len) && AllApart(ds, k, e)
    ensures Scatter(mem, ds, k, data).Read(e.addr, e.len) == mem.Read(e.addr, e.len)
    decreases k
  {
    if k > 0 {
      var n := Length(ds, k - 1);
      ScatterElsewhere(mem, ds, k - 1, data[..n], e);
      WriteElsewhere(Scatter(mem, ds, k - 1, data[..n]), e, ds[k - 1], data[n..]);
    }
  }

  lemma LengthStep(ds: seq<Desc>, k: nat)
    requires k < |ds|
    ensures Length(ds, k + 1) == Length(ds, k) + ds[k].len
  {
  }

  lemma GatherStep(mem: Mem, ds: seq<Desc>, k: nat)
    requires k < |ds| && InRam(mem, ds, k + 1)
    ensures Gather(mem, ds, k + 1) == Gather(mem, ds, k) + mem.Read(ds[k].addr, ds[k].len)
  {
  }

  lemma ScatterStep(mem: Mem, ds: seq<Desc>, k: nat, a: seq<uint8>, b: seq<uint8>, data: seq<uint8>)
    requires k < |ds| && InRam(mem, ds, k + 1) && |a| == Length(ds, k) && |b| == ds[k].len && data == a + b
    ensures |data| == Length(ds, k + 1) && Scatter(mem, ds, k + 1, data) == Scatter(mem, ds, k, a).Write(ds[k].addr, b)
  {
    assert data[..|a|] == a && data[|a|..] == b;
  }

  // ---- the file ----

  /** A file after writing `data` at `off`: a gap before it reads as zero, and writing nothing
      does not extend the file. */
  function Overwrite(disk: seq<uint8>, off: nat, data: seq<uint8>): (r: seq<uint8>)
    ensures |r| == if data == [] then |disk| else Max(|disk|, off + |data|)
    ensures forall i {:trigger r[i]} :: 0 <= i < |r| ==>
              r[i] == if off <= i < off + |data| then data[i - off] else if i < |disk| then disk[i] else 0
  {
    seq(if data == [] then |disk| else Max(|disk|, off + |data|),
        i requires 0 <= i =>
          if off <= i < off + |data| then data[i - off] else if i < |disk| then disk[i] else 0)
  }

  /** `n` bytes at `off` can be read: reading nothing succeeds anywhere. */
  predicate Readable(disk: seq<uint8>, off: nat, n: nat) { n == 0 || off + n <= |disk| }

  function ReadAt(disk: seq<uint8>, off: nat, n: nat): (r: seq<uint8>)
    requires Readable(disk, off, n)
    ensures |r| == n
  {
    if n == 0 then [] else disk[off..off + n]
  }

  lemma OverwriteTwice(disk: seq<uint8>, off: nat, a: seq<uint8>, off': nat, b: seq<uint8>)
    requires off' == off + |a|
    ensures Overwrite(Overwrite(disk, off, a), off', b) == Overwrite(disk, off, a + b)
  {
  }

  lemma ReadTwice(disk: seq<uint8>, off: nat, n: nat, off': nat, m: nat)
    requires off' == off + n && Readable(disk, off, n) && Readable(disk, off', m)
    ensures Readable(disk, off, n + m) && ReadAt(disk, off, n + m) == ReadAt(disk, off, n) + ReadAt(disk, off', m)
  {
  }

  lemma ReadOfOverwrite(disk: seq<uint8>, off: nat, data: seq<uint8>)
    ensures Readable(Overwrite(disk, off, data), off, |data|)
    ensures ReadAt(Overwrite(disk, off, data), off, |data|) == data
  {
  }

  lemma ReadElsewhere(disk: seq<uint8>, off: nat, data: seq<uint8>, at: nat, n: nat)
    requires Readable(disk, at, n) && (at + n <= off || off + |data| <= at)
    ensures Readable(Overwrite(disk, off, data), at, n)
    ensures ReadAt(Overwrite(disk, off, data), at, n) == ReadAt(disk, at, n)
  {
  }
}
