/** The bus, the device manager and the frozen device set as objects
    (crates/devices/src/bus.rs, crates/vmm/src/device_manager.rs), proved against Devices. */
module DeviceManager {
  import opened Prelude
  import opened Devices

  class Bus {
    var devices: seq<Entry>

    constructor ()
      ensures devices == []
    {
      devices := [];
    }

    method Register(base: uint64, len: uint64, dev: nat) returns (ok: bool)
      modifies this
      ensures ok == !ClashesWith(old(devices), Entry(base, len, dev))
      ensures devices == if ok then old(devices) + [Entry(base, len, dev)] else old(devices)
    {
      var e := Entry(base, len, dev);
      for i := 0 to |devices|
        invariant devices == old(devices) && forall j :: 0 <= j < i ==> !Clash(e, devices[j])
      {
        var b := devices[i];
        if base < SaturatingAdd64(b.base, b.len) && b.base < SaturatingAdd64(base, len) {
          assert Clash(e, devices[i]);
          return false;
        }
      }
      devices := devices + [e];
      ok := true;
    }

    /** The base and device that answer an access. */
    method Find(addr: uint64) returns (r: Option<Entry>)
      ensures r == Route(devices, addr)
    {
      var i := 0;
      assert devices[0..] == devices;
      while i < |devices|
        invariant 0 <= i <= |devices| && Route(devices, addr) == Route(devices[i..], addr)
      {
        if devices[i].base <= addr && addr - devices[i].base < devices[i].len { return Some(devices[i]); }
        assert devices[i..][1..] == devices[i + 1..];
        i := i + 1;
      }
      r := None;
    }

    /** The device an access reaches, with the base and the offset it is handed. */
    method Access(addr: uint64) returns (r: Option<(nat, uint64, uint64)>)
      ensures r.Some? <==> Route(devices, addr).Some?
      ensures r.Some? ==> var e := Route(devices, addr).value;
                          && r.value.0 == e.dev && r.value.1 == e.base
                          && r.value.1 + r.value.2 == addr && r.value.2 < e.len
    {
      RouteFinds(devices, addr);
      var e := Find(addr);
      if e.None? { return None; }
      r := Some((e.value.dev, e.value.base, addr - e.value.base));
    }
  }

  class DeviceManager {
    const bus: Bus
    var records: seq<Placed>
    var mmioNext: uint64
    const mmioEnd: uint64
    var spiNext: uint32
    const spiEnd: uint32

    ghost function View(): Manager
      reads this, bus
    {
      Manager(bus.devices, records, mmioNext, mmioEnd, spiNext, spiEnd)
    }

    constructor (mmioBase: uint64, mmioLen: uint64, spiBase: uint32, spiCount: uint32)
      requires mmioBase + mmioLen < TWO64 && spiBase + spiCount + 31 < TWO32
      ensures View() == New(mmioBase, mmioLen, spiBase, spiCount) && Valid(View()) && fresh(bus)
    {
      bus := new Bus();
      records, mmioNext, mmioEnd, spiNext, spiEnd := [], mmioBase, mmioBase + mmioLen, spiBase, spiBase + spiCount;
    }

    method Place(p: Placed) returns (reply: Reply)
      modifies this`records, bus
      ensures (View(), reply) == Devices.Place(old(View()), p)
    {
      var ok := bus.Register(p.base, p.size, p.dev);
      if !ok { return BusOverlap; }
      records := records + [p];
      reply := Done(p.base, p.spi);
    }

    method Add(size: uint64, id: string, kind: FdtKind, dev: nat) returns (reply: Reply)
      requires Valid(View())
      modifies this, bus
      ensures Valid(View()) && (View(), reply) == Devices.Add(old(View()), size, id, kind, dev)
    {
      ApplyKeepsValid(View(), DoAdd(size, id, kind, dev));
      if size > Max(mmioEnd - mmioNext, 0) { return WindowExhausted; }
      if spiNext >= spiEnd { return SpiExhausted; }
      var base, spi := mmioNext, spiNext;
      mmioNext, spiNext := mmioNext + size, spiNext + 1;
      reply := Place(Placed(id, kind, base, size, spi, dev));
    }

    /** The cursors move only after a successful placement. */
    method AddRestored(rec: Placed, accepted: bool) returns (reply: Reply)
      requires Valid(View()) && InRange(rec)
      modifies this, bus
      ensures Valid(View()) && (View(), reply) == Devices.AddRestored(old(View()), rec, accepted)
    {
      ApplyKeepsValid(View(), DoRestore(rec, accepted));
      if !accepted { return Reply.Rejected; }
      reply := Place(rec);
      if reply.BusOverlap? { return; }
      mmioNext := Max(mmioNext, rec.base + rec.size);
      spiNext := Max(spiNext, rec.spi + 1);
    }

    method AddFixed(base: uint64, len: uint64, dev: nat) returns (reply: Reply)
      requires Valid(View())
      modifies bus
      ensures Valid(View()) && (View(), reply) == Devices.AddFixed(old(View()), Entry(base, len, dev))
    {
      ApplyKeepsValid(View(), DoFixed(Entry(base, len, dev)));
      var ok := bus.Register(base, len, dev);
      reply := if ok then Done(base, 0) else BusOverlap;
    }
  }

  // ---- in-place restore ----

  /** A device's saved state, as JSON text. */
  type Json = string

  /** A saved record: the placement and the device's state. */
  datatype Saved = Saved(id: string, kind: FdtKind, base: uint64, size: uint64, spi: uint32, state: Json)

  function SavedOf(p: Placed, state: Json): Saved { Saved(p.id, p.kind, p.base, p.size, p.spi, state) }

  /** A device takes a state over, or rejects it and may have applied part of it. */
  datatype Verdict = Accepted | Rejected(left: Json)

  function LeftBy(v: Verdict, state: Json): Json { if v.Accepted? then state else v.left }

  class Device {
    var state: Json

    method Restore(v: Json) returns (r: Verdict)
      modifies this
      ensures state == LeftBy(r, v)
    {
      var left: Json := *;
      if * {
        state, r := v, Accepted;
      } else {
        state, r := left, Verdict.Rejected(left);
      }
    }
  }

  function FirstAt(records: seq<Placed>, base: uint64): (r: Option<nat>)
    ensures r.Some? ==> r.value < |records| && records[r.value].base == base
    ensures r.None? ==> forall i :: 0 <= i < |records| ==> records[i].base != base
  {
    if records == [] then None
    else if records[0].base == base then Some(0)
    else match FirstAt(records[1..], base)
      case None =>
        assert forall i :: 1 <= i < |records| ==> records[i] == records[1..][i - 1];
        None
      case Some(i) => Some(i + 1)
  }

  /** Device states after pushing the first `n` saved states back, with each device's verdict. */
  ghost function PushedBack(
    records: seq<Placed>, states: seq<Json>, saved: seq<Saved>, verdicts: seq<Verdict>, n: nat): (r: seq<Json>)
    requires |states| == |records| && n <= |saved| && n <= |verdicts|
    ensures |r| == |records|
  {
    if n == 0 then states else
    var now, at := PushedBack(records, states, saved, verdicts, n - 1), FirstAt(records, saved[n - 1].base);
    if at.None? then now else now[at.value := LeftBy(verdicts[n - 1], saved[n - 1].state)]
  }

  ghost predicate DistinctBases(records: seq<Placed>)
  {
    forall i, j :: 0 <= i < j < |records| ==> records[i].base != records[j].base
  }

  /** Which holds of every manager whose windows are non-empty. */
  lemma ManagerHasDistinctBases(m: Manager)
    requires Valid(m) && forall i :: 0 <= i < |m.records| ==> m.records[i].size > 0
    ensures DistinctBases(m.records)
  {
    forall i, j | 0 <= i < j < |m.records| ensures m.records[i].base != m.records[j].base { BasesAreDistinct(m, i, j); }
  }

  /** The records describe these devices in these states. */
  ghost predicate SavedFrom(records: seq<Placed>, states: seq<Json>, saved: seq<Saved>)
  {
    |saved| == |records| == |states| && forall i :: 0 <= i < |saved| ==> saved[i] == SavedOf(records[i], states[i])
  }

  /** Pushing saved states back gives every device its own saved state, or what its own rejection
      of that state left; no device is touched by another's. */
  lemma {:induction false} RestoreHitsItsDevice(
    records: seq<Placed>, before: seq<Json>, now: seq<Json>, saved: seq<Saved>, verdicts: seq<Verdict>, n: nat, i: nat)
    requires DistinctBases(records) && SavedFrom(records, before, saved) && |now| == |records|
    requires n <= |saved| && n <= |verdicts| && i < |records|
    ensures PushedBack(records, now, saved, verdicts, n)[i] == if i < n then LeftBy(verdicts[i], before[i]) else now[i]
  {
    if n > 0 {
      RestoreHitsItsDevice(records, before, now, saved, verdicts, n - 1, i);
      var at := FirstAt(records, saved[n - 1].base);
      assert records[n - 1].base == saved[n - 1].base;
      assert at.Some? && at.value == n - 1;
    }
  }

  /** When every device accepts, all are back in the saved states. */
  lemma AcceptedRestoreIsExact(
    records: seq<Placed>, before: seq<Json>, now: seq<Json>, saved: seq<Saved>, verdicts: seq<Verdict>, n: nat,
    r: seq<Json>)
    requires DistinctBases(records) && SavedFrom(records, before, saved) && |now| == |records|
    requires n == |saved| == |verdicts| && r == PushedBack(records, now, saved, verdicts, n)
    requires forall i :: 0 <= i < n ==> verdicts[i].Accepted?
    ensures r == before
  {
    forall i | 0 <= i < |r| ensures r[i] == before[i] {
      RestoreHitsItsDevice(records, before, now, saved, verdicts, n, i);
    }
  }

  class FrozenDevices {
    const records: seq<Placed>
    const devices: seq<Device>

    ghost predicate Valid()
    {
      && |devices| == |records|
      && forall i, j :: 0 <= i < j < |devices| ==> devices[i] != devices[j]
    }

    ghost function States(): (r: seq<Json>)
      requires Valid()
      reads devices
      ensures |r| == |records|
    {
      seq(|devices|, i requires 0 <= i < |devices| reads devices => devices[i].state)
    }

    method Save() returns (saved: seq<Saved>)
      requires Valid()
      ensures SavedFrom(records, States(), saved)
    {
      saved := [];
      for i := 0 to |records|
        invariant |saved| == i && forall j :: 0 <= j < i ==> saved[j] == SavedOf(records[j], devices[j].state)
      {
        saved := saved + [SavedOf(records[i], devices[i].state)];
      }
    }

    /** Best effort: an unmatched record is skipped, and a rejected state is not retried. */
    method Restore(saved: seq<Saved>) returns (ghost verdicts: seq<Verdict>)
      requires Valid()
      modifies devices
      ensures |verdicts| == |saved| && States() == PushedBack(records, old(States()), saved, verdicts, |saved|)
    {
      verdicts := [];
      for k := 0 to |saved|
        invariant |verdicts| == k && States() == PushedBack(records, old(States()), saved, verdicts, k)
      {
        ghost var was := States();
        var i := FindBase(saved[k].base);
        var v := Accepted;
        if i < |records| { v := devices[i].Restore(saved[k].state); }
        SameVerdicts(records, old(States()), saved, verdicts, v, k);
        verdicts := verdicts + [v];
        assert States() == if i < |records| then was[i := LeftBy(v, saved[k].state)] else was;
      }
    }

    method FindBase(base: uint64) returns (i: nat)
      ensures i <= |records| && FirstAt(records, base) == if i < |records| then Some(i) else None
    {
      i := 0;
      assert records[0..] == records;
      while i < |records|
        invariant i <= |records|
        invariant FirstAt(records, base) ==
                  match FirstAt(records[i..], base) case None => None case Some(j) => Some(j + i)
      {
        if records[i].base == base { return; }
        assert records[i..][1..] == records[i + 1..];
        i := i + 1;
      }
    }
  }

  /** A further verdict does not change what came before it. */
  lemma {:induction false} SameVerdicts(
    records: seq<Placed>, states: seq<Json>, saved: seq<Saved>, verdicts: seq<Verdict>, v: Verdict, n: nat)
    requires |states| == |records| && n <= |saved| && n <= |verdicts|
    ensures PushedBack(records, states, saved, verdicts, n) == PushedBack(records, states, saved, verdicts + [v], n)
  {
    if n > 0 { SameVerdicts(records, states, saved, verdicts, v, n - 1); }
  }
}
