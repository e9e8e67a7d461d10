/** The dirty-page bitmap (crates/vmm/src/dirty.rs): one bit per 16 KiB page, packed in
    64-bit words, marked by vCPU faults and device writes, listed and cleared by a drain. */
module Dirty {
  import opened Prelude

  const PAGE: nat := 16384

  /** `size.div_ceil(PAGE)`: a partial last page counts. */
  function PageCount(size: nat): nat { (size + PAGE - 1) / PAGE }

  /** Exactly the pages that hold a byte of RAM are counted. */
  lemma PageCountIff(size: nat, p: nat)
    ensures p < PageCount(size) <==> p * PAGE < size
  {
  }

  /** `(w >> b) & 1 == 1`. */
  predicate Bit(w: nat, b: nat)
  {
    if b == 0 then w % 2 == 1 else Bit(w / 2, b - 1)
  }

  /** `w | (1 << b)`. */
  function SetBit(w: nat, b: nat): (r: nat)
  {
    if b == 0 then w - w % 2 + 1 else 2 * SetBit(w / 2, b - 1) + w % 2
  }

  function Pow2(n: nat): nat { if n == 0 then 1 else 2 * Pow2(n - 1) }

  lemma {:induction false} SetBitAdds(w: nat, i: nat, j: nat)
    ensures Bit(SetBit(w, i), j) <==> i == j || Bit(w, j)
    decreases i
  {
    if i > 0 && j > 0 {
      SetBitAdds(w / 2, i - 1, j - 1);
      assert SetBit(w, i) / 2 == SetBit(w / 2, i - 1);
    } else if i == 0 && j > 0 {
      assert SetBit(w, 0) / 2 == w / 2;
    }
  }

  lemma {:induction false} SetBitFits(w: nat, b: nat, n: nat)
    requires b < n && w < Pow2(n)
    ensures SetBit(w, b) < Pow2(n)
  {
    var half := Pow2(n - 1);
    assert Pow2(n) == 2 * half;
    if b > 0 {
      assert w / 2 < half;
      SetBitFits(w / 2, b - 1, n - 1);
      var upper := SetBit(w / 2, b - 1);
      assert SetBit(w, b) == 2 * upper + w % 2;
    }
  }

  lemma Pow2Of64()
    ensures Pow2(64) == TWO64
  {
    assert Pow2(16) == 0x1_0000 by { assert Pow2(8) == 256; }
    assert Pow2(32) == 0x1_0000 * Pow2(16) by { Pow2Adds(16, 16); }
    assert Pow2(64) == Pow2(32) * Pow2(32) by { Pow2Adds(32, 32); }
  }

  lemma {:induction false} Pow2Adds(m: nat, n: nat)
    ensures Pow2(m + n) == Pow2(m) * Pow2(n)
    decreases m
  {
    if m > 0 {
      Pow2Adds(m - 1, n);
      Twice(Pow2(m - 1), Pow2(n));
    }
  }

  lemma Twice(a: nat, b: nat)
    ensures (2 * a) * b == 2 * (a * b)
  {
  }

  lemma {:induction false} ZeroHasNoBit(b: nat)
    ensures !Bit(0, b)
  {
    if b > 0 { ZeroHasNoBit(b - 1); }
  }

  /** The set of pages a word array stands for. */
  ghost function PagesOf(words: seq<uint64>): (s: set<nat>)
    ensures forall k: nat :: k in s <==> k < 64 * |words| && Bit(words[k / 64], k % 64)
  {
    set k: nat | k < 64 * |words| && Bit(words[k / 64], k % 64)
  }

  /** `fetch_or(1 << (p % 64))` on the word that holds page `p`. */
  function MarkWord(words: seq<uint64>, p: nat): (r: seq<uint64>)
    requires p < 64 * |words|
    ensures |r| == |words|
  {
    Pow2Of64(); SetBitFits(words[p / 64], p % 64, 64);
    words[p / 64 := SetBit(words[p / 64], p % 64)]
  }

  lemma MarkAddsOnePage(words: seq<uint64>, p: nat)
    requires p < 64 * |words|
    ensures PagesOf(MarkWord(words, p)) == PagesOf(words) + {p}
  {
    forall k: nat | k < 64 * |words|
      ensures k in PagesOf(MarkWord(words, p)) <==> k in PagesOf(words) || k == p
    {
      if k / 64 == p / 64 {
        SetBitAdds(words[p / 64], p % 64, k % 64);
        assert k % 64 == p % 64 ==> k == p;
      }
    }
  }

  lemma SwapRemovesOneWord(words: seq<uint64>, wi: nat)
    requires wi < |words|
    ensures forall k: nat :: k in PagesOf(words[wi := 0]) <==> k in PagesOf(words) && k / 64 != wi
  {
    forall k: nat
      ensures k in PagesOf(words[wi := 0]) <==> k in PagesOf(words) && k / 64 != wi
    {
      ZeroHasNoBit(k % 64);
    }
  }

  // ---- listing a set of pages ----

  /** The members of `s` below `n`, in ascending order. */
  ghost function Ascending(s: set<nat>, n: nat): (r: seq<nat>)
  {
    if n == 0 then [] else Ascending(s, n - 1) + (if n - 1 in s then [n - 1] else [])
  }

  ghost predicate StrictlyAscending(r: seq<nat>)
  {
    forall i, j :: 0 <= i < j < |r| ==> r[i] < r[j]
  }

  lemma {:induction false} AscendingListsExactly(s: set<nat>, n: nat)
    ensures StrictlyAscending(Ascending(s, n))
    ensures forall p: nat :: p in Ascending(s, n) <==> p in s && p < n
  {
    if n > 0 {
      AscendingListsExactly(s, n - 1);
      var r := Ascending(s, n - 1);
      assert forall i | 0 <= i < |r| :: r[i] in r;
    }
  }

  lemma {:induction false} AscendingSkipsGap(s: set<nat>, m: nat, n: nat)
    requires m <= n && forall p | m <= p < n :: p !in s
    ensures Ascending(s, n) == Ascending(s, m)
    decreases n
  {
    if m < n { AscendingSkipsGap(s, m, n - 1); }
  }

  lemma AscendingStep(s: set<nat>, p: nat)
    ensures Ascending(s, p + 1) == Ascending(s, p) + (if p in s then [p] else [])
  {
  }

  lemma PageOfBit(words: seq<uint64>, wi: nat, b: nat, p: nat)
    requires wi < |words| && b < 64 && p == 64 * wi + b
    ensures p in PagesOf(words) <==> Bit(words[wi], b)
  {
    assert p / 64 == wi && p % 64 == b;
  }

  lemma AscendingSkipsEmptyWord(words: seq<uint64>, wi: nat)
    requires wi < |words| && words[wi] == 0
    ensures Ascending(PagesOf(words), 64 * wi + 64) == Ascending(PagesOf(words), 64 * wi)
  {
    forall p | 64 * wi <= p < 64 * wi + 64 ensures p !in PagesOf(words) {
      ZeroHasNoBit(p % 64);
    }
    AscendingSkipsGap(PagesOf(words), 64 * wi, 64 * wi + 64);
  }

  lemma ZeroWordsHoldNoPage(words: seq<uint64>)
    requires forall k | 0 <= k < |words| :: words[k] == 0
    ensures PagesOf(words) == {}
  {
    forall k: nat ensures k !in PagesOf(words) { ZeroHasNoBit(k % 64); }
  }

  // ---- which pages a device write marks ----

  /** The last address a write of `len > 0` bytes at `gpa` names: saturating, as in the code. */
  function LastByte(gpa: uint64, len: nat): uint64
    requires len > 0
  {
    SaturatingAdd64(gpa, len - 1)
  }

  /** The granule that `mark` files under page `k` is one of `[first, past)`. */
  predicate Granule(base: uint64, first: nat, k: nat, past: nat)
  {
    first <= k + (base + PAGE - 1) / PAGE < past
  }

  /** The pages `mark_dirty` marks: one `mark` per 16 KiB-aligned address (aligned in the
      address space, not relative to `base`) from the one below `gpa` up to the last byte. */
  ghost function MarkedByWrite(base: uint64, pageCount: nat, gpa: uint64, len: nat): (r: set<nat>)
  {
    if len == 0 then {} else
      var first, past := gpa / PAGE, LastByte(gpa, len) / PAGE + 1;
      set k: nat | k < pageCount && Granule(base, first, k, past)
  }

  /** Page `k` of RAM holds an address of the written range. */
  ghost predicate Touches(base: uint64, k: nat, gpa: uint64, len: nat)
  {
    exists a: uint64 :: gpa <= a < gpa + len && base <= a && OnPage(base, a, k)
  }

  predicate OnPage(base: uint64, a: uint64, k: nat) { base <= a && (a - base) / PAGE == k }

  /** The tracker covers device writes exactly when the RAM base is page aligned. */
  lemma MarkedIsTouchedIffAligned(base: uint64, pageCount: nat)
    requires pageCount > 0
    ensures base % PAGE == 0 <==>
            forall gpa: uint64, len: nat, k: nat | k < pageCount ::
              k in MarkedByWrite(base, pageCount, gpa, len) <==> Touches(base, k, gpa, len)
  {
    if base % PAGE == 0 {
      forall gpa: uint64, len: nat, k: nat | k < pageCount
        ensures k in MarkedByWrite(base, pageCount, gpa, len) <==> Touches(base, k, gpa, len)
      {
        AlignedMarks(base, pageCount, gpa, len, k);
      }
    } else {
      assert OnPage(base, base, 0);
      assert Touches(base, 0, base, 1);
      assert (base + PAGE - 1) / PAGE == base / PAGE + 1;
      assert 0 !in MarkedByWrite(base, pageCount, base, 1);
    }
  }

  lemma AlignedMarks(base: uint64, pageCount: nat, gpa: uint64, len: nat, k: nat)
    requires base % PAGE == 0 && k < pageCount
    ensures k in MarkedByWrite(base, pageCount, gpa, len) <==> Touches(base, k, gpa, len)
  {
    if len > 0 && k in MarkedByWrite(base, pageCount, gpa, len) {
      var a := Max(gpa, base + k * PAGE);
      assert a <= LastByte(gpa, len);
      assert OnPage(base, a, k);
    }
    if Touches(base, k, gpa, len) {
      var a: uint64 :| gpa <= a < gpa + len && base <= a && OnPage(base, a, k);
      assert a / PAGE == k + base / PAGE;
      assert gpa / PAGE <= a / PAGE <= LastByte(gpa, len) / PAGE;
    }
  }

  // ---- the tracker ----

  class DirtyTracker {
    const base: uint64
    const pageCount: nat
    const bits: array<uint64>

    ghost predicate Valid()
      reads bits
    {
      && bits.Length == (pageCount + 63) / 64
      && forall p :: p in Pages() ==> p < pageCount
    }

    ghost function Pages(): set<nat>
      reads bits
    {
      PagesOf(bits[..])
    }

    constructor (base: uint64, size: nat)
      ensures this.base == base && pageCount == PageCount(size)
      ensures Valid() && fresh(bits) && Pages() == {}
    {
      this.base := base;
      this.pageCount := PageCount(size);
      var words := (PageCount(size) + 63) / 64;
      var zeroed := new uint64[words](i => 0);
      this.bits := zeroed;
      new;
      ZeroWordsHoldNoPage(bits[..]);
    }

    method Mark(ipa: uint64)
      requires Valid()
      modifies bits
      ensures Valid()
      ensures Pages() == old(Pages()) +
              (if ipa >= base && (ipa - base) / PAGE < pageCount then {(ipa - base) / PAGE} else {})
    {
      if ipa < base { return; }
      var p := (ipa - base) / PAGE;
      if p >= pageCount { return; }
      MarkAddsOnePage(bits[..], p);
      Pow2Of64(); SetBitFits(bits[p / 64], p % 64, 64);
      bits[p / 64] := SetBit(bits[p / 64], p % 64);
      assert bits[..] == MarkWord(old(bits[..]), p);
      assert Pages() == old(Pages()) + {p};
    }

    /** `pages` (clear = false) and `drain` (clear = true) share one loop over the words. */
    method CollectPages(clear: bool) returns (out: seq<nat>)
      requires Valid()
      modifies bits
      ensures Valid()
      ensures out == Ascending(old(Pages()), pageCount)
      ensures Pages() == if clear then {} else old(Pages())
      ensures !clear ==> bits[..] == old(bits[..])
    {
      out := [];
      ghost var words := bits[..];
      assert Pages() == PagesOf(words);
      for wi := 0 to bits.Length
        invariant out == Ascending(PagesOf(words), 64 * wi)
        invariant forall k | wi <= k < bits.Length :: bits[k] == words[k]
        invariant forall k | 0 <= k < wi :: bits[k] == if clear then 0 else words[k]
      {
        var v := bits[wi];
        if clear { bits[wi] := 0; }
        out := AppendWord(v, wi, out, words);
      }
      AscendingSkipsGap(PagesOf(words), pageCount, 64 * bits.Length);
      if clear { ZeroWordsHoldNoPage(bits[..]); } else { assert bits[..] == words; }
    }

    /** The loop over one word: `out` grows by the pages of `v`, the word at index `wi`. */
    static method AppendWord(v: uint64, wi: nat, out: seq<nat>, ghost words: seq<uint64>) returns (r: seq<nat>)
      requires wi < |words| && v == words[wi]
      requires out == Ascending(PagesOf(words), 64 * wi)
      ensures r == Ascending(PagesOf(words), 64 * (wi + 1))
    {
      r := out;
      if v == 0 {
        AscendingSkipsEmptyWord(words, wi);
        return;
      }
      ghost var pages, p := PagesOf(words), 64 * wi;
      for b := 0 to 64
        invariant p == 64 * wi + b && r == Ascending(pages, p)
      {
        PageOfBit(words, wi, b, p);
        AscendingStep(pages, p);
        if Bit(v, b) { r := r + [wi * 64 + b]; }
        p := p + 1;
      }
    }

    method MarkDirty(gpa: uint64, len: nat)
      requires Valid()
      modifies bits
      ensures Valid()
      ensures Pages() == old(Pages()) + MarkedByWrite(base, pageCount, gpa, len)
    {
      if len == 0 { return; }
      var end := LastByte(gpa, len);
      var p := gpa - gpa % PAGE; // gpa & !(PAGE - 1)
      ghost var first := gpa / PAGE;
      ghost var shift := (base + PAGE - 1) / PAGE;
      ghost var q := first;
      while p <= end
        invariant 0 <= p < TWO64 && p == q * PAGE && first <= q <= end / PAGE + 1
        invariant Valid()
        invariant Pages() == old(Pages()) + set k: nat | k < pageCount && Granule(base, first, k, q)
        decreases end + PAGE - p
      {
        assert p >= base ==> (p - base) / PAGE == q - shift;
        assert p < base ==> q < shift;
        Mark(p);
        q := q + 1;
        if p + PAGE > U64_MAX { break; } // checked_add overflowed
        p := p + PAGE;
      }
      assert q == end / PAGE + 1;
    }
  }

  // ---- a drain that runs while other threads keep marking ----

  /** The word a drain has reached and what it has listed so far; marks go on meanwhile. */
  datatype Draining = Draining(words: seq<uint64>, next: nat, out: seq<nat>)

  /** One atomic access: `fetch_or` by a marking thread, or the drain's next `swap(0)`. */
  datatype Access = FetchOr(page: nat) | Swap

  predicate BitAt(w: uint64, wi: nat, k: nat) { k / 64 == wi && Bit(w, k % 64) }

  ghost function BitsOf(w: uint64, wi: nat): seq<nat>
  {
    Ascending(set k: nat | k < 64 * wi + 64 && BitAt(w, wi, k), 64 * wi + 64)
  }

  ghost predicate Enabled(d: Draining, a: Access)
  {
    match a
    case FetchOr(p) => p < 64 * |d.words|
    case Swap => d.next < |d.words|
  }

  ghost function Access1(d: Draining, a: Access): Draining
    requires Enabled(d, a)
  {
    match a
    case FetchOr(p) => d.(words := MarkWord(d.words, p))
    case Swap => Draining(d.words[d.next := 0], d.next + 1, d.out + BitsOf(d.words[d.next], d.next))
  }

  ghost predicate Schedule(d: Draining, accesses: seq<Access>)
    decreases |accesses|
  {
    accesses == [] ||
    (Enabled(d, accesses[0]) && Schedule(Access1(d, accesses[0]), accesses[1..]))
  }

  ghost function After(d: Draining, accesses: seq<Access>): Draining
    requires Schedule(d, accesses)
    decreases |accesses|
  {
    if accesses == [] then d else After(Access1(d, accesses[0]), accesses[1..])
  }

  ghost function Marks(accesses: seq<Access>): set<nat>
  {
    set a | a in accesses && a.FetchOr? :: a.page
  }

  ghost function Listed(out: seq<nat>): set<nat> { set p | p in out }

  /** No mark is lost and none is invented, whatever the interleaving; the list stays
      ascending, so one drain never lists a page twice. */
  lemma {:induction false} DrainLosesNoMark(d: Draining, accesses: seq<Access>)
    requires Schedule(d, accesses)
    requires StrictlyAscending(d.out) && forall p | p in d.out :: p < 64 * d.next
    ensures var e := After(d, accesses);
            && Listed(e.out) + PagesOf(e.words) == Listed(d.out) + PagesOf(d.words) + Marks(accesses)
            && StrictlyAscending(e.out)
            && d.out <= e.out
    decreases |accesses|
  {
    if accesses == [] {
    } else {
      var a, rest := accesses[0], accesses[1..];
      var d1 := Access1(d, a);
      assert Marks(accesses) == Marks([a]) + Marks(rest) by {
        assert accesses == [a] + rest;
      }
      if a.FetchOr? {
        MarkAddsOnePage(d.words, a.page);
        assert Marks([a]) == {a.page} by { assert a in [a]; }
      } else {
        SwapMovesWord(d);
        assert Marks([a]) == {};
      }
      DrainLosesNoMark(d1, rest);
    }
  }

  /** A drain that has gone through all words lists at least every page that was set when it
      began, whatever was marked meanwhile. */
  lemma DrainTakesAll(d: Draining, accesses: seq<Access>)
    requires Schedule(d, accesses) && d.next == 0 && d.out == [] && After(d, accesses).next == |d.words|
    ensures PagesOf(d.words) <= Listed(After(d, accesses).out)
  {
    forall p | p in PagesOf(d.words) ensures p in Listed(After(d, accesses).out) { DrainTakes(d, accesses, p); }
  }

  /** A set page of a word still to come is listed once the drain has passed that word. */
  lemma {:induction false} DrainTakes(d: Draining, accesses: seq<Access>, p: nat)
    requires Schedule(d, accesses) && p < 64 * |d.words|
    requires p in d.out || (p in PagesOf(d.words) && d.next <= p / 64)
    ensures After(d, accesses).next > p / 64 ==> p in After(d, accesses).out
    decreases |accesses|
  {
    if accesses != [] {
      var a := accesses[0];
      if p in d.out {
      } else if a.FetchOr? {
        MarkAddsOnePage(d.words, a.page);
      } else {
        BitsOfWord(d.words, d.next);
        SwapRemovesOneWord(d.words, d.next);
      }
      DrainTakes(Access1(d, a), accesses[1..], p);
    }
  }

  lemma SwapMovesWord(d: Draining)
    requires d.next < |d.words|
    requires StrictlyAscending(d.out) && forall p | p in d.out :: p < 64 * d.next
    ensures var e := Access1(d, Swap);
            && Listed(e.out) + PagesOf(e.words) == Listed(d.out) + PagesOf(d.words)
            && StrictlyAscending(e.out)
            && forall p | p in e.out :: p < 64 * e.next
  {
    var wi := d.next;
    var bits := BitsOf(d.words[wi], wi);
    BitsOfWord(d.words, wi);
    SwapRemovesOneWord(d.words, wi);
    assert Listed(d.out + bits) == Listed(d.out) + Listed(bits);
    AscendingConcat(d.out, bits, 64 * wi);
  }

  lemma BitsOfWord(words: seq<uint64>, wi: nat)
    requires wi < |words|
    ensures var bits := BitsOf(words[wi], wi);
            && StrictlyAscending(bits)
            && (forall k: nat :: k in bits <==> k in PagesOf(words) && k / 64 == wi)
  {
    var inWord := set k: nat | k < 64 * wi + 64 && BitAt(words[wi], wi, k);
    AscendingListsExactly(inWord, 64 * wi + 64);
  }

  lemma AscendingConcat(a: seq<nat>, b: seq<nat>, mid: nat)
    requires StrictlyAscending(a) && StrictlyAscending(b)
    requires forall p :: p in a ==> p < mid
    requires forall p :: p in b ==> mid <= p
    ensures StrictlyAscending(a + b)
  {
    assert forall i | 0 <= i < |a| :: a[i] in a;
    assert forall i | 0 <= i < |b| :: b[i] in b;
  }
}
