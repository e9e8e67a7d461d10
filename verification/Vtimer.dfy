/** The guest's virtual counter across snapshot generations and the WFI timeout
    (crates/hvf/src/lib.rs). Host counter readings are parameters. */
module Vtimer {
  import opened Prelude

  const NANOS: int := 1_000_000_000

  /** `mach_now.saturating_sub(host_counter)`. */
  function OffsetFrom(machNow: uint64, hostCounter: uint64): uint64
  {
    Max(machNow - hostCounter, 0)
  }

  /** CNTVCT: `mach.wrapping_sub(offset)`. */
  function GuestCounter(mach: uint64, offset: uint64): uint64 { (mach - offset) % TWO64 }

  /** One vCPU's capture: the offset then in force and the host counter read. */
  datatype Capture = Capture(offset: uint64, hostCounter: uint64) {
    predicate Sane() { offset <= hostCounter }

    /** What the guest read at that moment. */
    function Seen(): uint64 { GuestCounter(hostCounter, offset) }
  }

  /** What the guest reads when restored at host counter `mach`. */
  function Resumed(c: Capture, mach: uint64): uint64 { GuestCounter(mach, OffsetFrom(mach, c.hostCounter)) }

  /** The counter resumes at the saved host counter, or at the host's own when that is behind. */
  lemma ResumesAtHostCounter(c: Capture, mach: uint64)
    ensures Resumed(c, mach) == Min(mach, c.hostCounter)
  {
  }

  /** It never runs backwards exactly when the host counter has reached what the guest last saw,
      and it is continuous exactly when either the offset at capture was zero and the host
      counter is not behind, or the host counter equals what the guest last saw. */
  lemma ContinuousIff(c: Capture, mach: uint64)
    requires c.Sane()
    ensures Resumed(c, mach) >= c.Seen() <==> mach >= c.hostCounter - c.offset
    ensures Resumed(c, mach) == c.Seen() <==>
              (mach >= c.hostCounter && c.offset == 0) || mach == c.hostCounter - c.offset
    ensures mach >= c.hostCounter ==> Resumed(c, mach) == c.Seen() + c.offset
  {
    ResumesAtHostCounter(c, mach);
    assert c.Seen() == c.hostCounter - c.offset;
  }

  /** All vCPUs share the primary's offset: a secondary's counter does not run backwards exactly
      when the primary was captured no earlier than what the secondary last saw. */
  lemma SharedOffsetKeepsSecondary(primary: Capture, secondary: Capture, mach: uint64)
    requires secondary.Sane() && mach >= primary.hostCounter
    ensures Resumed(primary, mach) >= secondary.Seen() <==>
            primary.hostCounter >= secondary.hostCounter - secondary.offset
  {
    ResumesAtHostCounter(primary, mach);
    assert secondary.Seen() == secondary.hostCounter - secondary.offset;
  }

  // ---- any number of generations ----

  /** One life of the guest: restored at `from` (or booted), captured at `until`. */
  datatype Life = Life(from: uint64, until: uint64)

  /** Host counter readings never run backwards, within a life or between lives. */
  ghost predicate Forward(lives: seq<Life>)
  {
    && (forall i :: 0 <= i < |lives| ==> lives[i].from <= lives[i].until)
    && (forall i :: 0 < i < |lives| ==> lives[i - 1].until <= lives[i].from)
  }

  /** The offset in force in life `k`; a fresh boot has none. */
  function OffsetIn(lives: seq<Life>, k: nat): uint64
    requires k < |lives|
  {
    if k == 0 then 0 else OffsetFrom(lives[k].from, lives[k - 1].until)
  }

  /** What the guest reads in life `k` at host counter `mach`. */
  function Reads(lives: seq<Life>, k: nat, mach: uint64): uint64
    requires k < |lives|
  {
    GuestCounter(mach, OffsetIn(lives, k))
  }

  /** In life `k` the guest is behind the host by the time it was last stopped, and by no
      earlier stop. */
  lemma OnlyLastStopCounts(lives: seq<Life>, k: nat, mach: uint64)
    requires Forward(lives) && k < |lives| && lives[k].from <= mach
    ensures Reads(lives, k, mach) == if k == 0 then mach else lives[k - 1].until + (mach - lives[k].from)
  {
    if k > 0 { assert lives[k - 1].until <= lives[k].from; }
  }

  /** Over any run of generations the guest's counter never runs backwards. */
  lemma {:induction false} NeverBackwards(lives: seq<Life>, i: nat, a: uint64, j: nat, b: uint64)
    requires Forward(lives) && i <= j < |lives|
    requires lives[i].from <= a <= lives[i].until && lives[j].from <= b <= lives[j].until && a <= b
    ensures Reads(lives, i, a) <= Reads(lives, j, b)
    decreases j
  {
    OnlyLastStopCounts(lives, j, b);
    if i < j {
      var last := lives[j - 1].until;
      assert last <= lives[j].from && lives[j - 1].from <= last;
      Ordered(lives, i, j - 1);
      NeverBackwards(lives, i, a, j - 1, last);
      OnlyLastStopCounts(lives, j - 1, last);
    } else {
      OnlyLastStopCounts(lives, i, a);
    }
  }

  lemma {:induction false} Ordered(lives: seq<Life>, i: nat, j: nat)
    requires Forward(lives) && i <= j < |lives|
    ensures lives[i].until <= lives[j].until
    decreases j
  {
    if i < j {
      Ordered(lives, i, j - 1);
      assert lives[j - 1].until <= lives[j].from <= lives[j].until;
    }
  }

  /** At each restore the counter jumps by exactly the offset of the life before, so it is
      continuous there exactly when that life had none: always for the first snapshot of a
      freshly booted guest, and afterwards only when the previous restore was immediate. */
  lemma JumpAtRestore(lives: seq<Life>, k: nat)
    requires Forward(lives) && 0 < k < |lives|
    ensures Reads(lives, k, lives[k].from) == Reads(lives, k - 1, lives[k - 1].until) + OffsetIn(lives, k - 1)
    ensures Reads(lives, k, lives[k].from) == Reads(lives, k - 1, lives[k - 1].until) <==>
              k == 1 || lives[k - 1].from == lives[k - 2].until
  {
    OnlyLastStopCounts(lives, k, lives[k].from);
    OnlyLastStopCounts(lives, k - 1, lives[k - 1].until);
    if k > 1 { assert lives[k - 2].until <= lives[k - 1].from; }
  }

  /** The continuity the restore path documents fails at a second generation: a guest booted at
      0, stopped from 10 to 50, and stopped again at 60 last reads 20 and resumes at 60. */
  lemma SecondGenerationJumps() returns (lives: seq<Life>)
    ensures Forward(lives) && |lives| == 3
    ensures Reads(lives, 1, lives[1].until) == 20 && Reads(lives, 2, lives[2].from) == 60
  {
    lives := [Life(0, 10), Life(50, 60), Life(70, 80)];
    OnlyLastStopCounts(lives, 1, 60);
    OnlyLastStopCounts(lives, 2, 70);
  }

  // ---- WFI ----

  datatype Wfi = WaitForEvent | Expired | Timeout(nanos: uint64)

  /** A timer that is disabled or masked: the guest waits for any event. */
  lemma UnarmedWaits(ctl: uint64, cval: uint64, mach: uint64, offset: uint64, cntfrq: uint64)
    requires cntfrq > 0
    ensures WfiExit(ctl, cval, mach, offset, cntfrq).WaitForEvent? <==> ctl % 2 == 0 || ctl / 2 % 2 == 1
  {
  }

  /** Ticks in nanoseconds as the 64-bit product of ticks and whole nanoseconds a tick. */
  function Nanos(ticks: nat, cntfrq: uint64): uint64
    requires cntfrq > 0
  {
    (ticks * (NANOS / cntfrq)) % TWO64
  }

  /** The exit of a trapped WFI. `ctl` is CNTV_CTL: bit 0 enables, bit 1 masks. */
  function WfiExit(ctl: uint64, cval: uint64, mach: uint64, offset: uint64, cntfrq: uint64): Wfi
    requires cntfrq > 0
  {
    if ctl % 2 == 0 || ctl / 2 % 2 == 1 then WaitForEvent else
    var cntvct := GuestCounter(mach, offset);
    if cntvct >= cval then Expired else Timeout(Nanos(cval - cntvct, cntfrq))
  }

  lemma Scale(ticks: nat, frq: nat, q: nat, r: nat, exact: nat)
    requires NANOS == q * frq + r && r < frq && exact == ticks * q
    ensures exact * frq + ticks * r == ticks * NANOS && ticks * r <= ticks * frq
    ensures ticks > 0 ==> (ticks * r == 0 <==> r == 0)
  {
    assert exact * frq == ticks * (q * frq);
    assert ticks * (q * frq) + ticks * r == ticks * (q * frq + r);
  }

  lemma Distribute(a: nat, b: nat, c: nat)
    ensures (a + b) * c == a * c + b * c && a * c >= 0 && (a <= b ==> a * c <= b * c)
  {
    if a <= b { assert (b - a) * c >= 0; }
  }

  /** The product never overshoots `ticks * 10^9 / cntfrq`, even where it overflows. Where it
      does not, it is short by at most a nanosecond a tick, and exact exactly when the frequency
      divides 10^9. */
  lemma NanosRoundDown(ticks: nat, cntfrq: uint64)
    requires cntfrq > 0 && ticks > 0
    ensures Nanos(ticks, cntfrq) * cntfrq <= ticks * NANOS
    ensures ticks * (NANOS / cntfrq) < TWO64 ==>
              && ticks * NANOS <= (Nanos(ticks, cntfrq) + ticks) * cntfrq
              && (Nanos(ticks, cntfrq) * cntfrq == ticks * NANOS <==> NANOS % cntfrq == 0)
  {
    var q, r := NANOS / cntfrq, NANOS % cntfrq;
    var exact, nanos := ticks * q, Nanos(ticks, cntfrq);
    Scale(ticks, cntfrq, q, r, exact);
    Distribute(nanos, exact, cntfrq);
    Distribute(nanos, ticks, cntfrq);
  }

  /** A WFI with its timer armed exits at once exactly when the guest's counter has reached the
      comparator, and otherwise sleeps no longer than until it does. */
  lemma TimeoutNeverOvershoots(ctl: uint64, cval: uint64, mach: uint64, offset: uint64, cntfrq: uint64)
    requires cntfrq > 0 && ctl % 2 == 1 && ctl / 2 % 2 == 0
    ensures var exit, cntvct := WfiExit(ctl, cval, mach, offset, cntfrq), GuestCounter(mach, offset);
            && (exit.Expired? <==> cntvct >= cval)
            && (cntvct < cval ==> exit.Timeout? && exit.nanos * cntfrq <= (cval - cntvct) * NANOS)
  {
    if GuestCounter(mach, offset) < cval { NanosRoundDown(cval - GuestCounter(mach, offset), cntfrq); }
  }

  /** A deadline pending at capture is, after the restore, closer by the offset at capture: the
      same distance away for a guest whose offset was zero. */
  lemma DeadlineAfterRestore(c: Capture, cval: uint64, mach: uint64)
    requires c.Sane() && mach >= c.hostCounter && c.Seen() < cval
    ensures cval - Resumed(c, mach) == (cval - c.Seen()) - c.offset
    ensures Resumed(c, mach) >= cval <==> c.offset >= cval - c.Seen()
  {
    ContinuousIff(c, mach);
  }
}
