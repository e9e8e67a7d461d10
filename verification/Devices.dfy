/** Device placement and MMIO routing on values (crates/vmm/src/device_manager.rs and
    crates/devices/src/bus.rs): the bump allocators, the overlap check, the router, and replay
    of saved records. */
module Devices {
  import opened Prelude

  // ---- the bus ----

  /** A registered range; `dev` names the device behind it. */
  datatype Entry = Entry(base: uint64, len: uint64, dev: nat) {
    /** `addr - base < len`, without wrap-around. */
    predicate Covers(addr: uint64) { base <= addr < base + len }
  }

  /** The overlap test, whose range ends saturate at the last address. */
  predicate Clash(a: Entry, b: Entry)
  {
    a.base < SaturatingAdd64(b.base, b.len) && b.base < SaturatingAdd64(a.base, a.len)
  }

  predicate ClashesWith(es: seq<Entry>, e: Entry)
  {
    exists i :: 0 <= i < |es| && Clash(e, es[i])
  }

  predicate NoClash(es: seq<Entry>)
  {
    forall i, j :: 0 <= i < j < |es| ==> !Clash(es[i], es[j])
  }

  /** The entry that answers an access: the first that covers the address. */
  function Route(es: seq<Entry>, addr: uint64): Option<Entry>
  {
    if es == [] then None else if es[0].Covers(addr) then Some(es[0]) else Route(es[1..], addr)
  }

  /** Both ranges hold the last address, and one of them holds no other. */
  predicate MeetOnlyAtTop(a: Entry, b: Entry)
  {
    a.base + a.len > U64_MAX && b.base + b.len > U64_MAX && (a.base == U64_MAX || b.base == U64_MAX)
  }

  ghost predicate Meet(a: Entry, b: Entry) { exists addr: uint64 :: a.Covers(addr) && b.Covers(addr) }

  /** For non-empty ranges the test is right about whether they meet, unless they meet in the
      last address alone: exactly then it misses the overlap. */
  lemma ClashIsMeetIff(a: Entry, b: Entry)
    requires a.len > 0 && b.len > 0
    ensures (Clash(a, b) <==> Meet(a, b)) <==> !MeetOnlyAtTop(a, b)
    ensures MeetOnlyAtTop(a, b) ==> !Clash(a, b) && Meet(a, b)
  {
    var addr: uint64 := Max(a.base, b.base);
    if Clash(a, b) { assert a.Covers(addr) && b.Covers(addr); }
    if MeetOnlyAtTop(a, b) { assert a.Covers(U64_MAX) && b.Covers(U64_MAX); }
  }

  /** On a bus without clashes every address has at most one device if and only if no two ranges
      meet in the last address alone. */
  lemma UnambiguousIff(es: seq<Entry>)
    requires NoClash(es) && forall i :: 0 <= i < |es| ==> es[i].len > 0
    ensures (forall i, j :: 0 <= i < j < |es| ==> !Meet(es[i], es[j])) <==>
            (forall i, j :: 0 <= i < j < |es| ==> !MeetOnlyAtTop(es[i], es[j]))
  {
    forall i, j | 0 <= i < j < |es| ensures Meet(es[i], es[j]) <==> MeetOnlyAtTop(es[i], es[j]) {
      ClashIsMeetIff(es[i], es[j]);
    }
  }

  /** An empty range never meets another; the test still refuses one strictly inside a range. */
  lemma EmptyClashIff(a: Entry, b: Entry)
    requires a.len == 0
    ensures !Meet(a, b)
    ensures Clash(a, b) <==> b.base < a.base < SaturatingAdd64(b.base, b.len)
  {
  }

  /** Ranges that pass the test share no address except, possibly, the very last one. */
  lemma NoClashShareNothing(a: Entry, b: Entry, addr: uint64)
    requires !Clash(a, b) && a.Covers(addr) && b.Covers(addr)
    ensures addr == U64_MAX && a.base + a.len > U64_MAX && b.base + b.len > U64_MAX
  {
  }

  /** The address after which the test saturates can be claimed twice; the order of
      registration then decides. */
  lemma LastAddressIsAmbiguous() returns (a: Entry, b: Entry)
    ensures NoClash([a, b]) && NoClash([b, a]) && a.dev != b.dev
    ensures Route([a, b], U64_MAX) == Some(a) && Route([b, a], U64_MAX) == Some(b)
  {
    a, b := Entry(U64_MAX, 1, 0), Entry(U64_MAX, 1, 1);
  }

  /** Some entry covers `addr` exactly when the router finds one, and it finds one of those. */
  lemma {:induction false} RouteFinds(es: seq<Entry>, addr: uint64)
    ensures Route(es, addr).Some? <==> exists i :: 0 <= i < |es| && es[i].Covers(addr)
    ensures Route(es, addr).Some? ==> exists i :: 0 <= i < |es| && es[i] == Route(es, addr).value && es[i].Covers(addr)
  {
    if es != [] {
      RouteFinds(es[1..], addr);
      if es[0].Covers(addr) {
      } else if Route(es[1..], addr).Some? {
        var i :| 0 <= i < |es[1..]| && es[1..][i] == Route(es[1..], addr).value && es[1..][i].Covers(addr);
        assert es[i + 1] == es[1..][i];
      } else {
        forall i | 0 <= i < |es| ensures !es[i].Covers(addr) {
          if i > 0 { assert es[i] == es[1..][i - 1]; }
        }
      }
    }
  }

  /** A covering entry is the one found, wherever it was registered. */
  lemma RouteIsUnique(es: seq<Entry>, addr: uint64, k: nat)
    requires NoClash(es) && k < |es| && es[k].Covers(addr) && es[k].base + es[k].len < TWO64
    ensures Route(es, addr) == Some(es[k])
  {
    RouteFinds(es, addr);
    var i :| 0 <= i < |es| && es[i] == Route(es, addr).value && es[i].Covers(addr);
    if i != k {
      assert i < k ==> !Clash(es[i], es[k]);
      assert k < i ==> !Clash(es[k], es[i]);
      NoClashShareNothing(es[i], es[k], addr);
    }
  }

  /** The two lists hold the same entries. */
  ghost predicate SameEntries(es: seq<Entry>, fs: seq<Entry>)
  {
    && (forall i :: 0 <= i < |es| ==> es[i] in fs)
    && (forall i :: 0 <= i < |fs| ==> fs[i] in es)
  }

  /** Routing does not depend on the order of registration, for every address when no range
      reaches 2^64, and in any case for every address but the last. */
  lemma RoutingIgnoresOrder(es: seq<Entry>, fs: seq<Entry>, addr: uint64)
    requires NoClash(es) && NoClash(fs) && SameEntries(es, fs)
    requires addr < U64_MAX || forall i :: 0 <= i < |es| ==> es[i].base + es[i].len < TWO64
    ensures Route(es, addr) == Route(fs, addr)
  {
    RouteFinds(es, addr);
    RouteFinds(fs, addr);
    if Route(es, addr).Some? {
      var i :| 0 <= i < |es| && es[i] == Route(es, addr).value && es[i].Covers(addr);
      var j :| 0 <= j < |fs| && fs[j] == es[i];
      var k :| 0 <= k < |fs| && fs[k] == Route(fs, addr).value && fs[k].Covers(addr);
      if j != k {
        assert j < k ==> !Clash(fs[j], fs[k]);
        assert k < j ==> !Clash(fs[k], fs[j]);
        NoClashShareNothing(fs[j], fs[k], addr);
      }
    }
  }

  // ---- the manager ----

  datatype FdtKind = Ns16550a | VirtioMmio | Pl031 | IgnitionFuzz

  /** A placed device: what the saved record keeps of it, and the device. */
  datatype Placed = Placed(id: string, kind: FdtKind, base: uint64, size: uint64, spi: uint32, dev: nat)

  function EntryOf(p: Placed): Entry { Entry(p.base, p.size, p.dev) }

  datatype Manager = Manager(
    entries: seq<Entry>, records: seq<Placed>, mmioNext: uint64, mmioEnd: uint64, spiNext: uint32, spiEnd: uint32)

  datatype Reply = Done(base: uint64, spi: uint32) | WindowExhausted | SpiExhausted | BusOverlap | Rejected

  function New(mmioBase: uint64, mmioLen: uint64, spiBase: uint32, spiCount: uint32): Manager
    requires mmioBase + mmioLen < TWO64 && spiBase + spiCount + 31 < TWO32
  {
    Manager([], [], mmioBase, mmioBase + mmioLen, spiBase, spiBase + spiCount)
  }

  /** Registers and records a device, or changes nothing. */
  function Place(m: Manager, p: Placed): (Manager, Reply)
  {
    if ClashesWith(m.entries, EntryOf(p)) then (m, BusOverlap) else
    (m.(entries := m.entries + [EntryOf(p)], records := m.records + [p]), Done(p.base, p.spi))
  }

  /** Allocates a window and an interrupt, then places. A failed placement keeps them used up. */
  function Add(m: Manager, size: uint64, id: string, kind: FdtKind, dev: nat): (Manager, Reply)
  {
    if size > Max(m.mmioEnd - m.mmioNext, 0) then (m, WindowExhausted)
    else if m.spiNext >= m.spiEnd then (m, SpiExhausted)
    else
      Place(m.(mmioNext := m.mmioNext + size, spiNext := m.spiNext + 1),
            Placed(id, kind, m.mmioNext, size, m.spiNext, dev))
  }

  /** Arithmetic on the saved record, down to its interrupt id `spi + 32`, stays in range. */
  predicate InRange(p: Placed) { p.base + p.size < TWO64 && p.spi + 32 < TWO32 }

  /** Replays one saved record; `accepted` is the device's own verdict on its state. */
  function AddRestored(m: Manager, p: Placed, accepted: bool): (Manager, Reply)
    requires InRange(p)
  {
    if !accepted then (m, Rejected) else
    var (placed, reply) := Place(m, p);
    if reply.BusOverlap? then (placed, reply) else
    (placed.(mmioNext := Max(m.mmioNext, p.base + p.size), spiNext := Max(m.spiNext, p.spi + 1)), reply)
  }

  /** A pseudo device: no window, no interrupt, no record. */
  function AddFixed(m: Manager, e: Entry): (Manager, Reply)
  {
    if ClashesWith(m.entries, e) then (m, BusOverlap) else (m.(entries := m.entries + [e]), Done(e.base, 0))
  }

  ghost predicate Apart(ps: seq<Placed>)
  {
    forall i, j :: 0 <= i < j < |ps| ==> !Clash(EntryOf(ps[i]), EntryOf(ps[j]))
  }

  /** Entries never clash, every record is on the bus, and both cursors are past every record. */
  ghost predicate Valid(m: Manager)
  {
    && NoClash(m.entries) && Apart(m.records) && m.spiEnd + 31 < TWO32 && m.spiNext + 31 < TWO32
    && forall i :: 0 <= i < |m.records| ==>
         && m.records[i].base + m.records[i].size <= m.mmioNext && m.records[i].spi < m.spiNext
         && EntryOf(m.records[i]) in m.entries
  }

  lemma RegisterKeepsNoClash(es: seq<Entry>, e: Entry)
    requires NoClash(es) && !ClashesWith(es, e)
    ensures NoClash(es + [e])
  {
    var fs := es + [e];
    forall i, j | 0 <= i < j < |fs| ensures !Clash(fs[i], fs[j]) {
      if j == |es| { assert !Clash(e, es[i]); }
    }
  }

  lemma PlaceKeepsValid(m: Manager, p: Placed)
    requires Valid(m) && p.base + p.size <= m.mmioNext && p.spi < m.spiNext
    ensures Valid(Place(m, p).0)
  {
    if !ClashesWith(m.entries, EntryOf(p)) {
      RegisterKeepsNoClash(m.entries, EntryOf(p));
      var m' := Place(m, p).0;
      forall i | 0 <= i < |m'.records| ensures EntryOf(m'.records[i]) in m'.entries {
        if i == |m.records| { assert m'.entries[|m.entries|] == EntryOf(p); }
      }
      forall i | 0 <= i < |m.records| ensures !Clash(EntryOf(m.records[i]), EntryOf(p)) {
        var k :| 0 <= k < |m.entries| && m.entries[k] == EntryOf(m.records[i]);
        assert !Clash(EntryOf(p), m.entries[k]);
      }
    }
  }

  datatype Op =
    | DoAdd(size: uint64, id: string, kind: FdtKind, dev: nat)
    | DoRestore(rec: Placed, accepted: bool)
    | DoFixed(entry: Entry)

  predicate OpInRange(op: Op) { op.DoRestore? ==> InRange(op.rec) }

  function Apply(m: Manager, op: Op): Manager
    requires OpInRange(op)
  {
    match op
    case DoAdd(size, id, kind, dev) => Add(m, size, id, kind, dev).0
    case DoRestore(rec, accepted) => AddRestored(m, rec, accepted).0
    case DoFixed(e) => AddFixed(m, e).0
  }

  function ApplyAll(m: Manager, ops: seq<Op>): Manager
    requires forall i :: 0 <= i < |ops| ==> OpInRange(ops[i])
  {
    if ops == [] then m else Apply(ApplyAll(m, ops[..|ops| - 1]), ops[|ops| - 1])
  }

  lemma ApplyKeepsValid(m: Manager, op: Op)
    requires Valid(m) && OpInRange(op)
    ensures Valid(Apply(m, op))
  {
    match op
    case DoAdd(size, id, kind, dev) =>
      if size <= Max(m.mmioEnd - m.mmioNext, 0) && m.spiNext < m.spiEnd {
        var next := m.(mmioNext := m.mmioNext + size, spiNext := m.spiNext + 1);
        PlaceKeepsValid(next, Placed(id, kind, m.mmioNext, size, m.spiNext, dev));
      }
    case DoRestore(rec, accepted) =>
      if accepted && !ClashesWith(m.entries, EntryOf(rec)) {
        var next := m.(mmioNext := Max(m.mmioNext, rec.base + rec.size), spiNext := Max(m.spiNext, rec.spi + 1));
        PlaceKeepsValid(next, rec);
      }
    case DoFixed(e) =>
      if !ClashesWith(m.entries, e) { RegisterKeepsNoClash(m.entries, e); }
  }

  /** Whatever is added, restored or fixed, in any order, the ranges stay apart. */
  lemma {:induction false} EveryRunIsValid(m: Manager, ops: seq<Op>)
    requires Valid(m) && forall i :: 0 <= i < |ops| ==> OpInRange(ops[i])
    ensures Valid(ApplyAll(m, ops))
  {
    if ops != [] {
      EveryRunIsValid(m, ops[..|ops| - 1]);
      ApplyKeepsValid(ApplyAll(m, ops[..|ops| - 1]), ops[|ops| - 1]);
    }
  }

  /** `add` fails exactly by exhaustion or because its window hits something on the bus, and
      what it hits is never a recorded device. Its interrupt is larger than every recorded one. */
  lemma AddFailsOnlyOnFixed(m: Manager, size: uint64, id: string, kind: FdtKind, dev: nat)
    requires Valid(m)
    ensures var reply, window := Add(m, size, id, kind, dev).1, Entry(m.mmioNext, size, dev);
            && (reply.WindowExhausted? <==> m.mmioNext + size > Max(m.mmioEnd, m.mmioNext))
            && (reply.SpiExhausted? <==> !reply.WindowExhausted? && m.spiNext >= m.spiEnd)
            && (reply.BusOverlap? <==>
                  !reply.WindowExhausted? && !reply.SpiExhausted? && ClashesWith(m.entries, window))
            && (reply.Done? ==> reply == Done(m.mmioNext, m.spiNext))
    ensures forall i :: 0 <= i < |m.entries| && Clash(Entry(m.mmioNext, size, dev), m.entries[i]) ==>
              forall j :: 0 <= j < |m.records| ==> m.entries[i] != EntryOf(m.records[j])
    ensures forall i :: 0 <= i < |m.records| ==> m.records[i].spi < m.spiNext
  {
  }

  lemma {:induction false} SpiCursorGrows(m: Manager, ops: seq<Op>, k: nat)
    requires k <= |ops| && forall i :: 0 <= i < |ops| ==> OpInRange(ops[i])
    ensures ApplyAll(m, ops[..k]).spiNext <= ApplyAll(m, ops).spiNext
    decreases |ops| - k
  {
    if k == |ops| {
      assert ops[..k] == ops;
    } else {
      assert ops[..k + 1][..k] == ops[..k];
      SpiCursorGrows(m, ops, k + 1);
    }
  }

  /** What operation `i` of a run, an `add`, replied. */
  function AddReply(m: Manager, ops: seq<Op>, i: nat): Reply
    requires i < |ops| && ops[i].DoAdd? && forall j :: 0 <= j < |ops| ==> OpInRange(ops[j])
  {
    Add(ApplyAll(m, ops[..i]), ops[i].size, ops[i].id, ops[i].kind, ops[i].dev).1
  }

  /** No interrupt is handed out twice: of two successful adds of any run, whatever happens in
      between, the later one gets the larger interrupt. */
  lemma IssuedInterruptsDiffer(m: Manager, ops: seq<Op>, i: nat, j: nat)
    requires i < j < |ops| && ops[i].DoAdd? && ops[j].DoAdd?
    requires forall k :: 0 <= k < |ops| ==> OpInRange(ops[k])
    requires AddReply(m, ops, i).Done? && AddReply(m, ops, j).Done?
    ensures AddReply(m, ops, i).spi < AddReply(m, ops, j).spi
  {
    var run := ops[..j];
    assert run[..i + 1] == ops[..i + 1] && ops[..i + 1][..i] == ops[..i];
    SpiCursorGrows(m, run, i + 1);
    assert ApplyAll(m, run[..i + 1]).spiNext == AddReply(m, ops, i).spi + 1;
  }

  /** The other two operations: what they reply, and that a refusal changes nothing. */
  lemma OthersReply(m: Manager, p: Placed, accepted: bool, e: Entry)
    requires InRange(p)
    ensures var (m', reply) := AddRestored(m, p, accepted);
            && (reply == Rejected <==> !accepted)
            && (reply == BusOverlap <==> accepted && ClashesWith(m.entries, Entry(p.base, p.size, p.dev)))
            && (reply.Done? ==> reply == Done(p.base, p.spi)) && (!reply.Done? ==> m' == m)
    ensures var (m', reply) := AddFixed(m, e);
            && (reply == BusOverlap <==> ClashesWith(m.entries, e)) && (reply.Done? <==> !ClashesWith(m.entries, e))
            && (!reply.Done? ==> m' == m) && m'.records == m.records
            && m'.mmioNext == m.mmioNext && m'.spiNext == m.spiNext
  {
  }

  lemma {:induction false} RouteSnoc(es: seq<Entry>, e: Entry, addr: uint64)
    ensures Route(es + [e], addr) ==
            if Route(es, addr).Some? then Route(es, addr) else if e.Covers(addr) then Some(e) else None
  {
    if es == [] {
      assert es + [e] == [e] && [e][1..] == [];
    } else {
      assert (es + [e])[0] == es[0] && (es + [e])[1..] == es[1..] + [e];
      RouteSnoc(es[1..], e, addr);
    }
  }

  function ReplyTo(m: Manager, op: Op): Reply
    requires OpInRange(op)
  {
    match op
    case DoAdd(size, id, kind, dev) => Add(m, size, id, kind, dev).1
    case DoRestore(rec, accepted) => AddRestored(m, rec, accepted).1
    case DoFixed(e) => AddFixed(m, e).1
  }

  /** The range an operation asks for. */
  function RangeOf(m: Manager, op: Op): Entry
  {
    match op
    case DoAdd(size, _, _, dev) => Entry(m.mmioNext, size, dev)
    case DoRestore(p, _) => Entry(p.base, p.size, p.dev)
    case DoFixed(e) => e
  }

  /** A done operation puts its range on the bus: from then on each of its addresses routes to its
      device, and every other address as before. Any other reply leaves all routes. */
  lemma OperationRoutes(m: Manager, op: Op, addr: uint64)
    requires Valid(m) && OpInRange(op)
    ensures var m', e := Apply(m, op), RangeOf(m, op);
            if ReplyTo(m, op).Done? then
              && (e.base + e.len < TWO64 && e.Covers(addr) ==> Route(m'.entries, addr) == Some(e))
              && (!e.Covers(addr) ==> Route(m'.entries, addr) == Route(m.entries, addr))
            else Route(m'.entries, addr) == Route(m.entries, addr)
  {
    var m', e := Apply(m, op), RangeOf(m, op);
    ApplyKeepsValid(m, op);
    if ReplyTo(m, op).Done? {
      assert m'.entries == m.entries + [e];
      RouteSnoc(m.entries, e, addr);
      if e.base + e.len < TWO64 && e.Covers(addr) { RouteIsUnique(m'.entries, addr, |m.entries|); }
    }
  }

  // ---- adds that fit all succeed ----

  /** What is on the bus without a record starts at `limit` or above, as the boot timer does. */
  ghost predicate ClearBelow(m: Manager, limit: nat)
  {
    forall i :: 0 <= i < |m.entries| ==>
      m.entries[i].base >= limit || m.entries[i].base + m.entries[i].len <= m.mmioNext
  }

  /** An add that fits is done, at the cursors, and moves both exactly past itself. */
  lemma AddFits(m: Manager, size: uint64, id: string, kind: FdtKind, dev: nat, limit: nat)
    requires ClearBelow(m, limit) && m.mmioNext + size <= limit <= m.mmioEnd && m.spiNext < m.spiEnd
    ensures var (m', reply) := Add(m, size, id, kind, dev);
            && reply == Done(m.mmioNext, m.spiNext) && ClearBelow(m', limit)
            && m'.mmioNext == m.mmioNext + size && m'.spiNext == m.spiNext + 1
            && m'.mmioEnd == m.mmioEnd && m'.spiEnd == m.spiEnd
            && m'.records == m.records + [Placed(id, kind, m.mmioNext, size, m.spiNext, dev)]
  {
    var window := Entry(m.mmioNext, size, dev);
    forall i | 0 <= i < |m.entries| ensures !Clash(window, m.entries[i]) {
      assert m.entries[i].base >= limit || m.entries[i].base + m.entries[i].len <= m.mmioNext;
    }
  }

  /** Sizes of the first `k` adds together. */
  function SizeSum(ops: seq<Op>, k: nat): nat
    requires k <= |ops| && forall i :: 0 <= i < k ==> ops[i].DoAdd?
  {
    if k == 0 then 0 else SizeSum(ops, k - 1) + ops[k - 1].size
  }

  ghost predicate AllAdds(ops: seq<Op>) { forall i :: 0 <= i < |ops| ==> ops[i].DoAdd? }

  lemma {:induction false} SizeSumGrows(ops: seq<Op>, j: nat, k: nat)
    requires j <= k <= |ops| && AllAdds(ops)
    ensures SizeSum(ops, j) <= SizeSum(ops, k)
    decreases k
  {
    if j < k { SizeSumGrows(ops, j, k - 1); }
  }

  lemma {:induction false} AddsReach(m: Manager, ops: seq<Op>, limit: nat, k: nat)
    requires ClearBelow(m, limit) && AllAdds(ops) && k <= |ops|
    requires m.mmioNext + SizeSum(ops, |ops|) <= limit <= m.mmioEnd && m.spiNext + |ops| <= m.spiEnd
    ensures var t := ApplyAll(m, ops[..k]);
            && ClearBelow(t, limit) && t.mmioNext == m.mmioNext + SizeSum(ops, k) && t.spiNext == m.spiNext + k
            && t.mmioEnd == m.mmioEnd && t.spiEnd == m.spiEnd && |t.records| == |m.records| + k
            && (k > 0 ==>
                  var last := t.records[|t.records| - 1];
                  last.base + last.size == t.mmioNext && last.spi + 1 == t.spiNext)
    decreases k
  {
    if k > 0 {
      AddsReach(m, ops, limit, k - 1);
      SizeSumGrows(ops, k, |ops|);
      assert ops[..k][..k - 1] == ops[..k - 1];
      var op := ops[k - 1];
      AddFits(ApplyAll(m, ops[..k - 1]), op.size, op.id, op.kind, op.dev, limit);
    }
  }

  /** Any number of adds that together fit the window below every fixed device, and the interrupts,
      all succeed: windows at the prefix sums of their sizes, interrupts one after another. */
  lemma AddsThatFitSucceed(m: Manager, ops: seq<Op>, limit: nat, i: nat)
    requires ClearBelow(m, limit) && AllAdds(ops) && i < |ops|
    requires m.mmioNext + SizeSum(ops, |ops|) <= limit <= m.mmioEnd && m.spiNext + |ops| <= m.spiEnd
    ensures var reply := AddReply(m, ops, i);
            reply.Done? && reply.base == m.mmioNext + SizeSum(ops, i) && reply.spi == m.spiNext + i
  {
    AddsReach(m, ops, limit, i);
    SizeSumGrows(ops, i + 1, |ops|);
    var op := ops[i];
    AddFits(ApplyAll(m, ops[..i]), op.size, op.id, op.kind, op.dev, limit);
  }

  /** The add after a successful one: exhausted exactly when it does not fit behind it. */
  lemma NextAddFollows(m: Manager, a: Op, b: Op)
    requires a.DoAdd? && b.DoAdd? && Add(m, a.size, a.id, a.kind, a.dev).1.Done?
    ensures var (m', first) := Add(m, a.size, a.id, a.kind, a.dev);
            var second := Add(m', b.size, b.id, b.kind, b.dev).1;
            && (second.WindowExhausted? <==> first.base + a.size + b.size > Max(m.mmioEnd, first.base + a.size))
            && (second.Done? ==> second == Done(first.base + a.size, first.spi + 1))
  {
  }

  // ---- replay ----

  /** A reordering of `n` positions. */
  ghost predicate IsOrder(perm: seq<nat>, n: nat)
  {
    && (forall i :: 0 <= i < |perm| ==> perm[i] < n)
    && (forall i, j :: 0 <= i < j < |perm| ==> perm[i] != perm[j])
    && (forall k: nat :: k < n ==> k in perm)
  }

  ghost function Reordered(ps: seq<Placed>, perm: seq<nat>): (r: seq<Placed>)
    requires IsOrder(perm, |ps|)
    ensures |r| == |perm| && forall i :: 0 <= i < |r| ==> r[i] == ps[perm[i]]
  {
    seq(|perm|, i requires 0 <= i < |perm| => ps[perm[i]])
  }

  function EntriesOf(ps: seq<Placed>): (es: seq<Entry>)
    ensures |es| == |ps| && forall i :: 0 <= i < |es| ==> es[i] == EntryOf(ps[i])
  {
    seq(|ps|, i requires 0 <= i < |ps| => EntryOf(ps[i]))
  }

  /** The records replayed in turn; None when one is refused. */
  function Replay(m: Manager, ps: seq<Placed>): Option<Manager>
    requires forall i :: 0 <= i < |ps| ==> InRange(ps[i])
  {
    if ps == [] then Some(m) else
    match Replay(m, ps[..|ps| - 1])
    case None => None
    case Some(m') =>
      var (r, reply) := AddRestored(m', ps[|ps| - 1], true);
      if reply.Done? then Some(r) else None
  }

  lemma ReplayOne(m: Manager, init: seq<Placed>, p: Placed)
    requires Valid(m) && m.records == init && m.entries == EntriesOf(init) && InRange(p)
    requires forall i :: 0 <= i < |init| ==> !Clash(EntryOf(init[i]), EntryOf(p))
    ensures var (r, reply) := AddRestored(m, p, true);
            reply.Done? && Valid(r) && r.records == init + [p] && r.entries == EntriesOf(init + [p])
  {
    ApplyKeepsValid(m, DoRestore(p, true));
    assert EntriesOf(init) + [EntryOf(p)] == EntriesOf(init + [p]);
  }

  lemma {:induction false} ReplayPlacesAll(m: Manager, ps: seq<Placed>)
    requires Valid(m) && m.entries == [] && m.records == [] && Apart(ps)
    requires forall i :: 0 <= i < |ps| ==> InRange(ps[i])
    ensures var r := Replay(m, ps);
            r.Some? && r.value.records == ps && r.value.entries == EntriesOf(ps) && Valid(r.value)
  {
    if ps == [] {
      assert EntriesOf(ps) == [];
    } else {
      var k, init := |ps| - 1, ps[..|ps| - 1];
      ReplayPlacesAll(m, init);
      ReplayOne(Replay(m, init).value, init, ps[k]);
      assert init + [ps[k]] == ps;
    }
  }

  lemma ReorderedIsApart(ps: seq<Placed>, perm: seq<nat>)
    requires Apart(ps) && IsOrder(perm, |ps|)
    ensures Apart(Reordered(ps, perm))
  {
    var qs := Reordered(ps, perm);
    forall i, j | 0 <= i < j < |qs| ensures !Clash(EntryOf(qs[i]), EntryOf(qs[j])) {
      var a, b := perm[i], perm[j];
      assert a != b;
      assert a < b ==> !Clash(EntryOf(ps[a]), EntryOf(ps[b]));
      assert b < a ==> !Clash(EntryOf(ps[b]), EntryOf(ps[a]));
    }
  }

  /** The saved records, replayed on a fresh manager in any order, are all placed again with
      their interrupts; every address of a recorded device routes to it as before, and no other
      address routes anywhere. */
  lemma ReplayKeepsRouting(m: Manager, blank: Manager, perm: seq<nat>, addr: uint64)
    requires Valid(m) && IsOrder(perm, |m.records|)
    requires Valid(blank) && blank.entries == [] && blank.records == []
    ensures var r := Replay(blank, Reordered(m.records, perm));
            && r.Some? && Valid(r.value) && r.value.records == Reordered(m.records, perm)
            && (forall i :: 0 <= i < |m.records| ==> m.records[i] in r.value.records)
            && (forall i :: 0 <= i < |m.records| && EntryOf(m.records[i]).Covers(addr) ==>
                  Route(r.value.entries, addr) == Route(m.entries, addr) == Some(EntryOf(m.records[i])))
            && (Route(r.value.entries, addr).Some? ==>
                  exists i :: 0 <= i < |m.records| && EntryOf(m.records[i]).Covers(addr))
  {
    var ps := Reordered(m.records, perm);
    ReorderedIsApart(m.records, perm);
    ReplayPlacesAll(blank, ps);
    forall i | 0 <= i < |m.records|
      ensures m.records[i] in ps
      ensures EntryOf(m.records[i]).Covers(addr) ==>
                Route(EntriesOf(ps), addr) == Route(m.entries, addr) == Some(EntryOf(m.records[i]))
    {
      SameRoute(m, perm, i, addr);
    }
    OnlyRecordsRoute(m.records, perm, addr);
  }

  lemma SameRoute(m: Manager, perm: seq<nat>, i: nat, addr: uint64)
    requires Valid(m) && IsOrder(perm, |m.records|) && i < |m.records|
    requires NoClash(EntriesOf(Reordered(m.records, perm)))
    ensures m.records[i] in Reordered(m.records, perm)
    ensures EntryOf(m.records[i]).Covers(addr) ==>
              && Route(m.entries, addr) == Some(EntryOf(m.records[i]))
              && Route(EntriesOf(Reordered(m.records, perm)), addr) == Some(EntryOf(m.records[i]))
  {
    var ps := Reordered(m.records, perm);
    assert i in perm;
    var k :| 0 <= k < |perm| && perm[k] == i;
    assert ps[k] == m.records[i];
    if EntryOf(ps[k]).Covers(addr) {
      RouteIsUnique(EntriesOf(ps), addr, k);
      var j :| 0 <= j < |m.entries| && m.entries[j] == EntryOf(m.records[i]);
      RouteIsUnique(m.entries, addr, j);
    }
  }

  lemma OnlyRecordsRoute(ps: seq<Placed>, perm: seq<nat>, addr: uint64)
    requires IsOrder(perm, |ps|)
    ensures Route(EntriesOf(Reordered(ps, perm)), addr).Some? ==>
              exists i :: 0 <= i < |ps| && EntryOf(ps[i]).Covers(addr)
  {
    var es := EntriesOf(Reordered(ps, perm));
    RouteFinds(es, addr);
    if Route(es, addr).Some? {
      var k :| 0 <= k < |es| && es[k] == Route(es, addr).value && es[k].Covers(addr);
      assert EntryOf(ps[perm[k]]).Covers(addr);
    }
  }

  /** Each cursor is where it began or just past some record. */
  ghost predicate Tight(m: Manager, mmio: nat, spi: nat)
  {
    && mmio <= m.mmioNext && spi <= m.spiNext
    && (m.mmioNext == mmio || exists i :: 0 <= i < |m.records| && m.records[i].base + m.records[i].size == m.mmioNext)
    && (m.spiNext == spi || exists i :: 0 <= i < |m.records| && m.records[i].spi + 1 == m.spiNext)
  }

  /** Adds that fit leave the cursors so. */
  lemma AddsAreTight(m: Manager, ops: seq<Op>, limit: nat)
    requires ClearBelow(m, limit) && AllAdds(ops)
    requires m.mmioNext + SizeSum(ops, |ops|) <= limit <= m.mmioEnd && m.spiNext + |ops| <= m.spiEnd
    ensures Tight(ApplyAll(m, ops), m.mmioNext, m.spiNext)
  {
    AddsReach(m, ops, limit, |ops|);
    assert ops[..|ops|] == ops;
    var t := ApplyAll(m, ops);
    if ops != [] {
      var last := |t.records| - 1;
      assert t.records[last].base + t.records[last].size == t.mmioNext && t.records[last].spi + 1 == t.spiNext;
    }
  }

  lemma {:induction false} ReplayIsTight(m: Manager, ps: seq<Placed>)
    requires m.records == [] && forall i :: 0 <= i < |ps| ==> InRange(ps[i])
    requires Replay(m, ps).Some?
    ensures Replay(m, ps).value.records == ps && Tight(Replay(m, ps).value, m.mmioNext, m.spiNext)
  {
    if ps != [] {
      var k, init := |ps| - 1, ps[..|ps| - 1];
      ReplayIsTight(m, init);
      var mid, r := Replay(m, init).value, Replay(m, ps).value;
      assert init + [ps[k]] == ps;
      TightStep(mid, r, ps[k], m.mmioNext, m.spiNext);
    }
  }

  lemma TightStep(mid: Manager, r: Manager, p: Placed, mmio: nat, spi: nat)
    requires Tight(mid, mmio, spi) && r.records == mid.records + [p]
    requires r.mmioNext == Max(mid.mmioNext, p.base + p.size) && r.spiNext == Max(mid.spiNext, p.spi + 1)
    ensures Tight(r, mmio, spi)
  {
    var n := |mid.records|;
    assert r.records[n] == p;
    if mid.mmioNext != mmio {
      var i :| 0 <= i < n && mid.records[i].base + mid.records[i].size == mid.mmioNext;
      assert r.records[i] == mid.records[i];
    }
    if mid.spiNext != spi {
      var i :| 0 <= i < n && mid.records[i].spi + 1 == mid.spiNext;
      assert r.records[i] == mid.records[i];
    }
  }

  /** Replay also puts the allocators back where they were, so that the next device goes where it
      would have gone. */
  lemma ReplayKeepsCursors(m: Manager, blank: Manager, perm: seq<nat>)
    requires Valid(m) && IsOrder(perm, |m.records|) && Tight(m, blank.mmioNext, blank.spiNext)
    requires Valid(blank) && blank.entries == [] && blank.records == []
    ensures var r := Replay(blank, Reordered(m.records, perm));
            r.Some? && r.value.mmioNext == m.mmioNext && r.value.spiNext == m.spiNext
  {
    var ps := Reordered(m.records, perm);
    ReorderedIsApart(m.records, perm);
    ReplayPlacesAll(blank, ps);
    ReplayIsTight(blank, ps);
    TightIsUnique(m, Replay(blank, ps).value, perm, blank.mmioNext, blank.spiNext);
  }

  lemma TightIsUnique(m: Manager, r: Manager, perm: seq<nat>, mmio: nat, spi: nat)
    requires Valid(m) && Valid(r) && Tight(m, mmio, spi) && Tight(r, mmio, spi)
    requires IsOrder(perm, |m.records|) && r.records == Reordered(m.records, perm)
    ensures r.mmioNext == m.mmioNext && r.spiNext == m.spiNext
  {
    forall i | 0 <= i < |r.records|
      ensures r.records[i].base + r.records[i].size <= m.mmioNext && r.records[i].spi < m.spiNext
    {
      assert r.records[i] == m.records[perm[i]];
    }
    forall i | 0 <= i < |m.records|
      ensures m.records[i].base + m.records[i].size <= r.mmioNext && m.records[i].spi < r.spiNext
    {
      assert i in perm;
      var k :| 0 <= k < |perm| && perm[k] == i;
      assert r.records[k] == m.records[i];
    }
  }

  /** Two recorded devices with non-empty windows never share a base: the key in-place restore
      looks devices up by. */
  lemma BasesAreDistinct(m: Manager, i: nat, j: nat)
    requires Valid(m) && i < j < |m.records| && m.records[i].size > 0 && m.records[j].size > 0
    ensures m.records[i].base != m.records[j].base
  {
    assert !Clash(EntryOf(m.records[i]), EntryOf(m.records[j]));
  }
}
