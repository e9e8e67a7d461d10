/** Scatter-gather backing of a GPU resource (read_backing in
    crates/devices/src/virtio/gpu.rs): reading a logical range out of guest segments. */
module Backing {
  import opened Prelude
  import opened Memory

  datatype Seg = Seg(gpa: uint64, len: uint32)

  function Total(sg: seq<Seg>): (n: nat)
  {
    if sg == [] then 0 else sg[0].len + Total(sg[1..])
  }

  /** The bytes of one span of one segment; a span that is not wholly in RAM reads as zero. */
  function Span(mem: Mem, addr: nat, n: nat): (r: seq<uint8>)
    ensures |r| == n
  {
    if addr < TWO64 && mem.Contains(addr, n) then mem.Read(addr, n) else Zeros(n)
  }

  /** `out` after reading the segments from logical offset `start` on. Bytes past the end of
      the backing keep what `out` held. */
  function Fill(sg: seq<Seg>, mem: Mem, start: nat, out: seq<uint8>): (r: seq<uint8>)
    ensures |r| == |out|
    decreases |sg|
  {
    if sg == [] then out
    else if start >= sg[0].len then Fill(sg[1..], mem, start - sg[0].len, out)
    else
      var n := Min(|out|, sg[0].len - start);
      Span(mem, sg[0].gpa + start, n) + Fill(sg[1..], mem, 0, out[n..])
  }

  // ---- the flattened list as reference ----

  /** The segment that holds logical offset `off`. */
  ghost function SegOf(sg: seq<Seg>, off: nat): (k: nat)
    requires off < Total(sg)
    ensures k < |sg|
  {
    if off < sg[0].len then 0 else 1 + SegOf(sg[1..], off - sg[0].len)
  }

  /** The logical offset at which segment `k` begins. */
  ghost function Begin(sg: seq<Seg>, k: nat): (off: nat)
    requires k <= |sg|
  {
    if k == 0 then 0 else sg[0].len + Begin(sg[1..], k - 1)
  }

  /** The part of segment `k` that a read of `[start, start + n)` takes lies in RAM. */
  ghost predicate SpanMapped(sg: seq<Seg>, mem: Mem, start: nat, n: nat, k: nat)
    requires k < |sg|
  {
    var lo, hi := Max(start, Begin(sg, k)), Min(start + n, Begin(sg, k + 1));
    var addr := sg[k].gpa + (lo - Begin(sg, k));
    lo <= hi && addr < TWO64 && mem.Contains(addr, hi - lo)
  }

  ghost function MemByte(mem: Mem, addr: nat): uint8
  {
    if mem.base <= addr < mem.base + |mem.bytes| then mem.bytes[addr - mem.base] else 0
  }

  /** Byte `i` of a read of `n` bytes: `stale` past the end of the flattened list, else the byte
      at the flattened address, or zero when that segment's span leaves RAM. */
  ghost function FlatByte(sg: seq<Seg>, mem: Mem, start: nat, n: nat, i: nat, stale: uint8): uint8
  {
    var off := start + i;
    if off >= Total(sg) then stale else
    var k := SegOf(sg, off);
    if SpanMapped(sg, mem, start, n, k) && Begin(sg, k) <= off
    then MemByte(mem, sg[k].gpa + (off - Begin(sg, k))) else 0
  }

  lemma {:induction false} SegHolds(sg: seq<Seg>, off: nat)
    requires off < Total(sg)
    ensures Begin(sg, SegOf(sg, off)) <= off < Begin(sg, SegOf(sg, off) + 1)
  {
    if off >= sg[0].len { SegHolds(sg[1..], off - sg[0].len); }
  }

  /** Dropping the first segment shifts the read by its length. */
  lemma FlatByteShift(sg: seq<Seg>, mem: Mem, start: nat, n: nat, i: nat, stale: uint8, start': nat, n': nat, i': nat)
    requires sg != [] && start' == Max(start - sg[0].len, 0)
    requires start' + n' == start + n - sg[0].len && start' + i' == start + i - sg[0].len
    ensures FlatByte(sg, mem, start, n, i, stale) == FlatByte(sg[1..], mem, start', n', i', stale)
  {
    if start + i < Total(sg) {
      SpanMappedShift(sg, mem, start, n, SegOf(sg[1..], start' + i'), start', n');
    }
  }

  lemma SpanMappedShift(sg: seq<Seg>, mem: Mem, start: nat, n: nat, k: nat, start': nat, n': nat)
    requires k < |sg| - 1 && start' == Max(start - sg[0].len, 0) && start' + n' == start + n - sg[0].len
    ensures SpanMapped(sg, mem, start, n, k + 1) <==> SpanMapped(sg[1..], mem, start', n', k)
    ensures Begin(sg, k + 1) == sg[0].len + Begin(sg[1..], k)
  {
    assert Begin(sg, k + 2) == sg[0].len + Begin(sg[1..], k + 1);
  }

  /** A byte taken from the first segment. */
  lemma FirstSegByte(sg: seq<Seg>, mem: Mem, start: nat, out: seq<uint8>, i: nat)
    requires sg != [] && i < |out| && start + i < sg[0].len
    ensures Fill(sg, mem, start, out)[i] == FlatByte(sg, mem, start, |out|, i, out[i])
  {
    var n := Min(|out|, sg[0].len - start);
    var span := Span(mem, sg[0].gpa + start, n);
    assert Fill(sg, mem, start, out)[i] == span[i];
    assert SegOf(sg, start + i) == 0 && Begin(sg, 1) == sg[0].len;
    assert SpanMapped(sg, mem, start, |out|, 0) <==> sg[0].gpa + start < TWO64 && mem.Contains(sg[0].gpa + start, n);
  }

  /** A read is a read of the flattened list, byte by byte. */
  lemma {:induction false} FillByte(sg: seq<Seg>, mem: Mem, start: nat, out: seq<uint8>, i: nat)
    requires i < |out|
    ensures Fill(sg, mem, start, out)[i] == FlatByte(sg, mem, start, |out|, i, out[i])
    decreases |sg|
  {
    if sg != [] {
      var len, rest := sg[0].len, sg[1..];
      if start >= len {
        FillByte(rest, mem, start - len, out, i);
        FlatByteShift(sg, mem, start, |out|, i, out[i], start - len, |out|, i);
      } else if start + i < len {
        FirstSegByte(sg, mem, start, out, i);
      } else {
        var n, j := len - start, i - (len - start);
        FillByte(rest, mem, 0, out[n..], j);
        FlatByteShift(sg, mem, start, |out|, i, out[i], 0, |out| - n, j);
        RestOfFill(sg, mem, start, out, i, n, j);
      }
    }
  }

  /** A byte taken from a later segment. */
  lemma RestOfFill(sg: seq<Seg>, mem: Mem, start: nat, out: seq<uint8>, i: nat, n: nat, j: nat)
    requires sg != [] && i < |out| && start < sg[0].len && n == sg[0].len - start && i == n + j
    ensures Fill(sg, mem, start, out)[i] == Fill(sg[1..], mem, 0, out[n..])[j]
  {
    assert n == Min(|out|, sg[0].len - start);
    var span, rest := Span(mem, sg[0].gpa + start, n), Fill(sg[1..], mem, 0, out[n..]);
    assert Fill(sg, mem, start, out) == span + rest;
  }

  /** A byte of a segment whose part of the read is not wholly in RAM reads as zero. */
  lemma UnmappedIsZero(sg: seq<Seg>, mem: Mem, start: nat, out: seq<uint8>, i: nat, off: nat)
    requires i < |out| && off == start + i < Total(sg) && !SpanMapped(sg, mem, start, |out|, SegOf(sg, off))
    ensures Fill(sg, mem, start, out)[i] == 0
  {
    FillByte(sg, mem, start, out, i);
  }

  /** A byte past the end of the backing keeps its value. */
  lemma PastEndIsKept(sg: seq<Seg>, mem: Mem, start: nat, out: seq<uint8>, i: nat)
    requires i < |out| && start + i >= Total(sg)
    ensures Fill(sg, mem, start, out)[i] == out[i]
  {
    FillByte(sg, mem, start, out, i);
  }

  /** The guest address of every logical byte, in order. */
  ghost function Flat(sg: seq<Seg>): (r: seq<nat>)
    ensures |r| == Total(sg)
  {
    if sg == [] then [] else seq(sg[0].len, i requires 0 <= i => sg[0].gpa + i) + Flat(sg[1..])
  }

  /** Every segment lies in RAM, and RAM in the 64-bit address space. */
  ghost predicate Mapped(sg: seq<Seg>, mem: Mem)
  {
    mem.base + |mem.bytes| <= TWO64 &&
    forall k :: 0 <= k < |sg| ==> mem.Contains(sg[k].gpa, sg[k].len)
  }

  /** With every segment in RAM, every byte read is the byte at its flattened address. */
  lemma FillReadsFlat(sg: seq<Seg>, mem: Mem, start: nat, out: seq<uint8>, i: nat, off: nat)
    requires i < |out| && Mapped(sg, mem) && off == start + i < Total(sg)
    ensures Fill(sg, mem, start, out)[i] == MemByte(mem, Flat(sg)[off])
    ensures mem.base <= Flat(sg)[off] < mem.base + |mem.bytes|
  {
    FillByte(sg, mem, start, out, i);
    FlatByteMapped(sg, mem, start, |out|, i, out[i], off);
  }

  lemma FlatByteMapped(sg: seq<Seg>, mem: Mem, start: nat, n: nat, i: nat, stale: uint8, off: nat)
    requires i < n && Mapped(sg, mem) && off == start + i < Total(sg)
    ensures FlatByte(sg, mem, start, n, i, stale) == MemByte(mem, Flat(sg)[off])
    ensures mem.base <= Flat(sg)[off] < mem.base + |mem.bytes|
  {
    var k := SegOf(sg, off);
    SegHolds(sg, off);
    FlatAt(sg, off);
    SegLength(sg, k);
    assert mem.Contains(sg[k].gpa, sg[k].len);
    MappedSpan(sg, mem, start, n, i, k);
  }

  lemma MappedSpan(sg: seq<Seg>, mem: Mem, start: nat, n: nat, i: nat, k: nat)
    requires k < |sg| && Begin(sg, k + 1) == Begin(sg, k) + sg[k].len
    requires mem.Contains(sg[k].gpa, sg[k].len) && mem.base + |mem.bytes| <= TWO64
    requires i < n && Begin(sg, k) <= start + i < Begin(sg, k + 1)
    ensures SpanMapped(sg, mem, start, n, k)
  {
  }

  lemma {:induction false} FlatAt(sg: seq<Seg>, off: nat)
    requires off < Total(sg)
    ensures Flat(sg)[off] == sg[SegOf(sg, off)].gpa + (off - Begin(sg, SegOf(sg, off)))
  {
    if off >= sg[0].len { FlatAt(sg[1..], off - sg[0].len); }
  }

  lemma {:induction false} SegLength(sg: seq<Seg>, k: nat)
    requires k < |sg|
    ensures Begin(sg, k + 1) == Begin(sg, k) + sg[k].len
  {
    if k > 0 { SegLength(sg[1..], k - 1); }
  }

  // ---- the loop ----

  /** `read_backing` on the slice `out[from..to]`. A list whose total length fits 64 bits is
      all the loop's saturating offsets ever see. */
  method ReadBacking(sg: seq<Seg>, mem: GuestRam, logicalStart: uint64, out: array<uint8>, from: nat, to: nat)
    returns (ghost filled: seq<uint8>)
    requires from <= to <= out.Length && out != mem.bytes && Total(sg) <= U64_MAX
    modifies out
    ensures mem.View() == old(mem.View())
    ensures filled == Fill(sg, old(mem.View()), logicalStart, old(out[..])[from..to])
    ensures out[..] == Splice(old(out[..]), from, filled)
  {
    ghost var was, view, target := out[..], mem.View(), out[..][from..to];
    filled := Fill(sg, view, logicalStart, target);
    var segBase, outOff, k := 0, 0, 0;
    while k < |sg|
      invariant 0 <= k <= |sg| && 0 <= outOff <= to - from && segBase == Begin(sg, k)
      invariant outOff == to - from ||
                (segBase <= logicalStart + outOff && (outOff == 0 || segBase == logicalStart + outOff))
      invariant forall i :: 0 <= i < out.Length ==>
                  out[i] == if from <= i < from + outOff then filled[i - from] else was[i]
    {
      if outOff >= to - from { break; }
      SegLength(sg, k);
      BeginBelowTotal(sg, k + 1);
      var segEnd := SaturatingAdd64(segBase, sg[k].len);
      if logicalStart + outOff > U64_MAX { break; } // checked_add overflowed
      var cur := logicalStart + outOff;
      if segBase <= cur < segEnd {
        outOff := TakeSegment(sg, k, mem, view, logicalStart, target, cur - segBase, out, from, outOff, to);
      }
      segBase, k := segEnd, k + 1;
    }
    BeginBelowTotal(sg, |sg|);
    RestIsStale(sg, view, logicalStart, target, outOff);
  }

  lemma {:induction false} BeginBelowTotal(sg: seq<Seg>, k: nat)
    requires k <= |sg|
    ensures Begin(sg, k) <= Total(sg) && (k == |sg| ==> Begin(sg, k) == Total(sg))
  {
    if k > 0 { BeginBelowTotal(sg[1..], k - 1); }
  }

  lemma {:induction false} SegOfUnique(sg: seq<Seg>, k: nat, off: nat)
    requires k < |sg| && Begin(sg, k) <= off < Begin(sg, k + 1)
    ensures off < Total(sg) && SegOf(sg, off) == k
  {
    BeginBelowTotal(sg, k + 1);
    if k > 0 { SegOfUnique(sg[1..], k - 1, off - sg[0].len); }
  }

  /** The span the loop copies out of segment `k` is that part of the read. */
  lemma SpanIsFill(sg: seq<Seg>, mem: Mem, start: nat, target: seq<uint8>, k: nat, off: nat, within: nat, m: nat)
    requires k < |sg| && off < |target| && start + off == Begin(sg, k) + within && within < sg[k].len
    requires off == 0 || within == 0
    requires m == Min(|target| - off, sg[k].len - within)
    ensures forall i :: off <= i < off + m ==>
              Fill(sg, mem, start, target)[i] == Span(mem, sg[k].gpa + within, m)[i - off]
  {
    forall i | off <= i < off + m
      ensures Fill(sg, mem, start, target)[i] == Span(mem, sg[k].gpa + within, m)[i - off]
    {
      FillByte(sg, mem, start, target, i);
      SpanIsFlat(sg, mem, start, |target|, k, off, within, m, i, target[i]);
    }
  }

  lemma SpanIsFlat(
    sg: seq<Seg>, mem: Mem, start: nat, n: nat, k: nat, off: nat, within: nat, m: nat, i: nat, stale: uint8)
    requires k < |sg| && off < n && start + off == Begin(sg, k) + within && within < sg[k].len
    requires off == 0 || within == 0
    requires m == Min(n - off, sg[k].len - within) && off <= i < off + m
    ensures FlatByte(sg, mem, start, n, i, stale) == Span(mem, sg[k].gpa + within, m)[i - off]
  {
    SegLength(sg, k);
    SegOfUnique(sg, k, start + i);
    var lo, hi := Max(start, Begin(sg, k)), Min(start + n, Begin(sg, k + 1));
    assert lo == start + off && hi - lo == m;
  }

  lemma RestIsStale(sg: seq<Seg>, mem: Mem, start: nat, target: seq<uint8>, off: nat)
    requires off <= |target| && (off < |target| ==> start + off >= Total(sg))
    ensures forall j :: off <= j < |target| ==> Fill(sg, mem, start, target)[j] == target[j]
  {
    forall j | off <= j < |target| ensures Fill(sg, mem, start, target)[j] == target[j] {
      FillByte(sg, mem, start, target, j);
    }
  }

  /** The loop's work on segment `k`: that part of the read, and how far it has come then. */
  method TakeSegment(sg: seq<Seg>, k: nat, mem: GuestRam, ghost view: Mem, start: nat, ghost target: seq<uint8>,
                     within: nat, out: array<uint8>, from: nat, off: nat, to: nat) returns (off': nat)
    requires k < |sg| && off < |target| && start + off == Begin(sg, k) + within && within < sg[k].len
    requires off == 0 || within == 0
    requires from + |target| == to <= out.Length && out != mem.bytes && mem.View() == view
    modifies out
    ensures off' == off + Min(|target| - off, sg[k].len - within)
    ensures forall i :: 0 <= i < out.Length ==>
              out[i] == if from + off <= i < from + off' then Fill(sg, view, start, target)[i - from] else old(out[i])
  {
    var m := CopySegment(mem, view, sg[k], within, out, from, off, to);
    SpanIsFill(sg, view, start, target, k, off, within, m);
    off' := off + m;
  }

  /** The bytes one segment contributes from `within` on, as far as `out[from + off..to]` has room. */
  method CopySegment(
    mem: GuestRam, ghost view: Mem, seg: Seg, within: nat, out: array<uint8>, from: nat, off: nat, to: nat)
    returns (m: nat)
    requires from + off < to <= out.Length && out != mem.bytes && within < seg.len && mem.View() == view
    modifies out
    ensures m == Min(to - from - off, seg.len - within)
    ensures forall i :: 0 <= i < out.Length ==>
              out[i] == if from + off <= i < from + off + m
                        then Span(view, seg.gpa + within, m)[i - from - off] else old(out[i])
  {
    m := Min(to - from - off, seg.len - within);
    var ok, at := false, from + off;
    if seg.gpa + within < TWO64 { ok := mem.ReadSlice(seg.gpa + within, out, at, at + m); }
    if !ok { forall i | at <= i < at + m { out[i] := 0; } }
  }
}
