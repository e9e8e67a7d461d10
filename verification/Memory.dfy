/** Guest RAM as devices see it (crates/devices/src/virtio/guest_ram.rs): a bounds-checked
    window whose successful writes are reported to the dirty tracker. */
module Memory {
  import opened Prelude
  import opened Dirty

  /** The bytes of guest RAM and the guest-physical address of the first one. */
  datatype Mem = Mem(base: uint64, bytes: seq<uint8>) {
    predicate Contains(gpa: uint64, n: nat) {
      base <= gpa && gpa - base + n <= |bytes|
    }

    function Read(gpa: uint64, n: nat): (r: seq<uint8>)
      requires Contains(gpa, n)
      ensures |r| == n
    {
      bytes[gpa - base..gpa - base + n]
    }

    function Write(gpa: uint64, data: seq<uint8>): (m: Mem)
      requires Contains(gpa, |data|)
      ensures m.base == base && |m.bytes| == |bytes|
      ensures m.Contains(gpa, |data|) && m.Read(gpa, |data|) == data
    {
      assert Splice(bytes, gpa - base, data)[gpa - base..gpa - base + |data|] == data;
      Mem(base, Splice(bytes, gpa - base, data))
    }
  }

  /** A non-empty range is contained exactly when each of its addresses is one of RAM; an empty
      one from the first address to the one past the last. */
  lemma ContainsIff(m: Mem, gpa: uint64, n: nat)
    ensures n > 0 ==>
              (m.Contains(gpa, n) <==> forall a: nat :: gpa <= a < gpa + n ==> Addressed(m, a))
    ensures m.Contains(gpa, 0) <==> m.base <= gpa <= m.base + |m.bytes|
  {
    if n > 0 && !m.Contains(gpa, n) {
      var last := gpa + n - 1;
      assert !Addressed(m, gpa) || !Addressed(m, last);
    }
  }

  predicate Addressed(m: Mem, a: nat) { m.base <= a < m.base + |m.bytes| }

  class GuestRam {
    const base: uint64
    const bytes: array<uint8>
    const dirty: DirtyTracker?

    ghost predicate Valid()
      reads Footprint()
    {
      && bytes.Length < TWO64
      && (dirty != null ==>
            && dirty.Valid() && dirty.bits as object != bytes
            && dirty.base == base && dirty.pageCount == PageCount(bytes.Length))
    }

    ghost function View(): Mem
      reads bytes
    {
      Mem(base, bytes[..])
    }

    ghost function Footprint(): set<object> {
      if dirty != null then {bytes as object, dirty.bits as object} else {bytes as object}
    }

    constructor (base: uint64, bytes: array<uint8>, dirty: DirtyTracker?)
      ensures this.base == base && this.bytes == bytes && this.dirty == dirty
    {
      this.base, this.bytes, this.dirty := base, bytes, dirty;
    }

    method ReadSlice(gpa: uint64, out: array<uint8>, from: nat, to: nat) returns (ok: bool)
      requires from <= to <= out.Length && out != bytes
      modifies out
      ensures ok <==> base <= gpa && gpa + (to - from) <= base + bytes.Length
      ensures ok == View().Contains(gpa, to - from)
      ensures out[..] == if ok then Splice(old(out[..]), from, View().Read(gpa, to - from)) else old(out[..])
    {
      ok := base <= gpa && gpa - base + (to - from) <= bytes.Length;
      if ok {
        var off := gpa - base;
        ghost var was, data := out[..], View().Read(gpa, to - from);
        forall i | from <= i < to { out[i] := bytes[off + (i - from)]; }
        IsSplice(was, from, data, out[..]);
      }
    }

    /** A failed write changes nothing and marks nothing; a successful one marks every
        page it touches when a tracker is attached. */
    method WriteSlice(gpa: uint64, data: seq<uint8>) returns (ok: bool)
      requires Valid()
      modifies Footprint()
      ensures Valid()
      ensures ok <==> base <= gpa && gpa + |data| <= base + bytes.Length
      ensures ok == old(View()).Contains(gpa, |data|)
      ensures View() == if ok then old(View()).Write(gpa, data) else old(View())
      ensures dirty != null ==>
                dirty.Pages() == old(dirty.Pages()) +
                                 if ok then MarkedByWrite(base, dirty.pageCount, gpa, |data|) else {}
    {
      ok := base <= gpa && gpa - base + |data| <= bytes.Length;
      if ok {
        var off := gpa - base;
        forall i | off <= i < off + |data| { bytes[i] := data[i - off]; }
        if dirty != null { dirty.MarkDirty(gpa, |data|); }
      }
    }
  }
}
