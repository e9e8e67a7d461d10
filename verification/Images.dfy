/** Whole-RAM images, the packed pages of a diff layer (crates/vmm/src/snapshot.rs) and
    the in-place rollback (crates/vmm/src/reset.rs). */
module Images {
  import opened Prelude
  import opened Dirty

  type Image = seq<uint8>

  /** Every byte on which the two images disagree lies on one of `pages`. */
  ghost predicate Covers(pages: set<nat>, a: Image, b: Image)
  {
    |a| == |b| && forall i :: 0 <= i < |a| && a[i] != b[i] ==> i / PAGE in pages
  }

  /** `target` with the listed pages taken from `source`. */
  ghost function Overlay(target: Image, source: Image, pages: set<nat>): (r: Image)
    requires |target| == |source|
    ensures |r| == |target|
    ensures forall i :: 0 <= i < |r| ==> r[i] == if i / PAGE in pages then source[i] else target[i]
  {
    seq(|target|, i requires 0 <= i < |target| => if i / PAGE in pages then source[i] else target[i])
  }

  /** Copying a set of pages reproduces the source exactly when the set covers every change. */
  lemma OverlayExactIffCovered(target: Image, source: Image, pages: set<nat>)
    requires |target| == |source|
    ensures Overlay(target, source, pages) == source <==> Covers(pages, source, target)
  {
    var r := Overlay(target, source, pages);
    if r == source {
      forall i | 0 <= i < |source| && source[i] != target[i] ensures i / PAGE in pages {
        assert r[i] == source[i];
      }
    }
  }

  ghost function PageSet(pages: seq<nat>): set<nat> { set p | p in pages }

  // ---- rollback ----

  method RollbackFull(pristine: Image, live: array<uint8>)
    requires |pristine| == live.Length
    modifies live
    ensures live[..] == pristine
  {
    forall i | 0 <= i < live.Length { live[i] := pristine[i]; }
  }

  method RollbackPages(pristine: Image, live: array<uint8>, pages: seq<nat>)
    requires |pristine| == live.Length
    modifies live
    ensures live[..] == Overlay(old(live[..]), pristine, PageSet(pages))
  {
    ghost var was := live[..];
    for k := 0 to |pages|
      invariant live[..] == Overlay(was, pristine, PageSet(pages[..k]))
    {
      var start := pages[k] * PAGE;
      ghost var before := live[..];
      if start < live.Length {
        var end := Min(start + PAGE, live.Length);
        forall i | start <= i < end { live[i] := pristine[i]; }
      }
      assert pages[..k + 1] == pages[..k] + [pages[k]];
      forall i | 0 <= i < live.Length
        ensures live[i] == Overlay(was, pristine, PageSet(pages[..k + 1]))[i]
      {
        assert before[i] == Overlay(was, pristine, PageSet(pages[..k]))[i];
        assert i / PAGE == pages[k] <==> start <= i < start + PAGE;
      }
    }
    assert pages[..|pages|] == pages;
  }

  // ---- diff layers ----

  /** `p as usize * page`: a 64-bit product, which wraps in a release build. */
  function PageOffset(p: nat): nat { (p * PAGE) % TWO64 }

  predicate InBounds(ram: Image, p: nat) { PageOffset(p) + PAGE <= |ram| }

  predicate AllInBounds(ram: Image, pages: seq<nat>)
  {
    forall i :: 0 <= i < |pages| ==> InBounds(ram, pages[i])
  }

  /** The pages packed back to back, as `write_diff_pages` lays them out in `memory.bin`. */
  function Pack(ram: Image, pages: seq<nat>): (r: seq<uint8>)
    requires AllInBounds(ram, pages)
    ensures |r| == |pages| * PAGE
  {
    if pages == [] then []
    else var o := PageOffset(pages[0]); ram[o..o + PAGE] + Pack(ram, pages[1..])
  }

  /** What `apply_diff` makes of `target`, or None where it stops with an error. */
  function ApplyPages(target: Image, idx: seq<nat>, packed: seq<uint8>): (r: Option<Image>)
    requires |packed| == |idx| * PAGE
    ensures r.Some? ==> |r.value| == |target|
    decreases |idx|
  {
    if idx == [] then Some(target)
    else if !InBounds(target, idx[0]) then None
    else ApplyPages(Splice(target, PageOffset(idx[0]), packed[..PAGE]), idx[1..], packed[PAGE..])
  }

  /** Whatever the result, the first `done` pages have been applied and nothing else. */
  method ApplyDiff(target: array<uint8>, idx: seq<nat>, packed: seq<uint8>) returns (ok: bool, ghost done: nat)
    modifies target
    ensures ok <==> |packed| == |idx| * PAGE && ApplyPages(old(target[..]), idx, packed).Some?
    ensures ok ==> target[..] == ApplyPages(old(target[..]), idx, packed).value
    ensures done <= |idx| && done * PAGE <= |packed| && (ok ==> done == |idx|)
    ensures |packed| != |idx| * PAGE ==> done == 0
    ensures ApplyPages(old(target[..]), idx[..done], packed[..done * PAGE]) == Some(target[..])
  {
    done := 0;
    assert idx[..0] == [];
    if |packed| != |idx| * PAGE { return false, 0; }
    ghost var was, goal := target[..], ApplyPages(target[..], idx, packed);
    for i := 0 to |idx|
      invariant done == i && goal == ApplyPages(target[..], idx[i..], packed[i * PAGE..])
      invariant ApplyPages(was, idx[..i], packed[..i * PAGE]) == Some(target[..])
    {
      var o := PageOffset(idx[i]);
      if o + PAGE > target.Length { return false, i; }
      ghost var before, page := target[..], packed[i * PAGE..(i + 1) * PAGE];
      forall j | o <= j < o + PAGE { target[j] := packed[i * PAGE + (j - o)]; }
      IsSplice(before, o, page, target[..]);
      assert packed[i * PAGE..][..PAGE] == page;
      assert idx[i..][1..] == idx[i + 1..];
      assert packed[i * PAGE..][PAGE..] == packed[(i + 1) * PAGE..];
      ApplySnoc(was, idx[..i], packed[..i * PAGE], idx[i], page);
      assert idx[..i] + [idx[i]] == idx[..i + 1] && packed[..i * PAGE] + page == packed[..(i + 1) * PAGE];
      done := i + 1;
    }
    assert idx[..|idx|] == idx && packed[..|packed|] == packed;
    ok := true;
  }

  /** Whether a diff applies depends only on the target's size. */
  lemma {:induction false} AppliesIff(target: Image, idx: seq<nat>, packed: seq<uint8>)
    requires |packed| == |idx| * PAGE
    ensures ApplyPages(target, idx, packed).Some? <==>
            forall k :: 0 <= k < |idx| ==> PageOffset(idx[k]) + PAGE <= |target|
    decreases |idx|
  {
    if idx != [] {
      if InBounds(target, idx[0]) {
        AppliesIff(Splice(target, PageOffset(idx[0]), packed[..PAGE]), idx[1..], packed[PAGE..]);
        assert forall k :: 0 < k < |idx| ==> idx[k] == idx[1..][k - 1];
      }
    }
  }

  /** Byte `i` as the last listed page that holds it has it, if one does. */
  ghost function ListedByte(idx: seq<nat>, packed: seq<uint8>, i: nat): Option<uint8>
    requires |packed| == |idx| * PAGE
    decreases |idx|
  {
    if idx == [] then None else
    var m, o := |idx| - 1, PageOffset(idx[|idx| - 1]);
    if o <= i < o + PAGE then Some(packed[m * PAGE + (i - o)]) else ListedByte(idx[..m], packed[..m * PAGE], i)
  }

  /** A byte of an applied diff comes from the last listed page that holds it. */
  lemma {:induction false} AppliedByte(target: Image, idx: seq<nat>, packed: seq<uint8>, i: nat)
    requires |packed| == |idx| * PAGE && ApplyPages(target, idx, packed).Some? && i < |target|
    ensures var b := ListedByte(idx, packed, i);
            ApplyPages(target, idx, packed).value[i] == if b.Some? then b.value else target[i]
    decreases |idx|
  {
    if idx != [] {
      var m := |idx| - 1;
      var init, first, p, page := idx[..m], packed[..m * PAGE], idx[m], packed[m * PAGE..];
      AppliesIff(target, idx, packed);
      AppliesIff(target, init, first);
      assert InBounds(target, p);
      ApplySnoc(target, init, first, p, page);
      assert init + [p] == idx && first + page == packed;
      AppliedByte(target, init, first, i);
    }
  }

  lemma {:induction false} ApplySnoc(target: Image, idx: seq<nat>, packed: seq<uint8>, p: nat, page: seq<uint8>)
    requires |packed| == |idx| * PAGE && |page| == PAGE && InBounds(target, p)
    requires ApplyPages(target, idx, packed).Some?
    ensures ApplyPages(target, idx + [p], packed + page) ==
            Some(Splice(ApplyPages(target, idx, packed).value, PageOffset(p), page))
    decreases |idx|
  {
    if idx == [] {
      assert [] + [p] == [p] && packed + page == page && page[..PAGE] == page;
      assert page[PAGE..] == [] && [p][1..] == [];
    } else {
      var once := Splice(target, PageOffset(idx[0]), packed[..PAGE]);
      ApplySnoc(once, idx[1..], packed[PAGE..], p, page);
      assert (idx + [p])[1..] == idx[1..] + [p] && (packed + page)[..PAGE] == packed[..PAGE];
      assert (packed + page)[PAGE..] == packed[PAGE..] + page;
    }
  }

  /** Applying the pages packed from `ram` copies exactly those pages, in any order. */
  lemma {:induction false} ApplyOfPack(target: Image, ram: Image, pages: seq<nat>)
    requires |target| == |ram|
    requires forall i :: 0 <= i < |pages| ==> pages[i] * PAGE + PAGE <= |ram|
    requires |ram| < TWO64
    ensures AllInBounds(ram, pages)
    ensures ApplyPages(target, pages, Pack(ram, pages)) == Some(Overlay(target, ram, PageSet(pages)))
    decreases |pages|
  {
    assert AllInBounds(ram, pages);
    if pages == [] {
      assert Overlay(target, ram, PageSet([])) == target;
    } else {
      var p, rest := pages[0], pages[1..];
      var o, packed := PageOffset(p), Pack(ram, pages);
      assert packed[..PAGE] == ram[o..o + PAGE] && packed[PAGE..] == Pack(ram, rest);
      var once := Splice(target, o, ram[o..o + PAGE]);
      ApplyOfPack(once, ram, rest);
      OverlayOneMore(target, ram, pages);
    }
  }

  lemma OverlayOneMore(target: Image, ram: Image, pages: seq<nat>)
    requires |target| == |ram| && pages != [] && pages[0] * PAGE + PAGE <= |ram|
    ensures var o := pages[0] * PAGE;
            Overlay(Splice(target, o, ram[o..o + PAGE]), ram, PageSet(pages[1..])) ==
            Overlay(target, ram, PageSet(pages))
  {
    var p, rest := pages[0], pages[1..];
    var o := p * PAGE;
    assert PageSet(pages) == {p} + PageSet(rest) by { assert pages == [p] + rest; }
    var once := Splice(target, o, ram[o..o + PAGE]);
    forall i | 0 <= i < |ram|
      ensures Overlay(once, ram, PageSet(rest))[i] == Overlay(target, ram, PageSet(pages))[i]
    {
      assert i / PAGE == p <==> o <= i < o + PAGE;
    }
  }

  predicate AllFit(pages: seq<nat>) { forall i :: 0 <= i < |pages| ==> pages[i] < TWO64 }

  /** `dirty.idx`: each page index as eight little-endian bytes. */
  function EncodeIndex(pages: seq<nat>): (raw: seq<uint8>)
    requires AllFit(pages)
    ensures |raw| == 8 * |pages|
  {
    if pages == [] then [] else Le64(pages[0]) + EncodeIndex(pages[1..])
  }

  /** `chunks_exact(8)`: a short tail is dropped. */
  function DecodeIndex(raw: seq<uint8>): (pages: seq<nat>)
    ensures |pages| == |raw| / 8
  {
    if |raw| < 8 then [] else [ReadLe64(raw, 0)] + DecodeIndex(raw[8..])
  }

  lemma {:induction false} IndexRoundTrip(pages: seq<nat>)
    requires AllFit(pages)
    ensures DecodeIndex(EncodeIndex(pages)) == pages
  {
    if pages != [] {
      IndexRoundTrip(pages[1..]);
      var raw := EncodeIndex(pages);
      assert raw[0..8] == Le64(pages[0])[0..8];
      assert raw[8..] == EncodeIndex(pages[1..]);
    }
  }

  /** Page `i`'s index is the eight bytes from `8 * i` on, least significant first. */
  lemma {:induction false} IndexEntry(pages: seq<nat>, i: nat)
    requires AllFit(pages) && i < |pages|
    ensures ReadLe64(EncodeIndex(pages), 8 * i) == pages[i]
    decreases |pages|
  {
    var raw := EncodeIndex(pages);
    if i == 0 {
      assert raw[0..8] == Le64(pages[0])[0..8];
    } else {
      IndexEntry(pages[1..], i - 1);
      assert raw[8 * i..8 * i + 8] == EncodeIndex(pages[1..])[8 * (i - 1)..8 * (i - 1) + 8];
    }
  }

  /** Page `i`'s bytes start at byte `i * PAGE`. */
  lemma {:induction false} PackedByte(ram: Image, pages: seq<nat>, i: nat, j: nat)
    requires AllInBounds(ram, pages) && i < |pages| && j < PAGE
    ensures i * PAGE + j < |Pack(ram, pages)|
    ensures PageOffset(pages[i]) + j < |ram| && Pack(ram, pages)[i * PAGE + j] == ram[PageOffset(pages[i]) + j]
    decreases |pages|
  {
    assert InBounds(ram, pages[i]);
    if i > 0 {
      PackedByte(ram, pages[1..], i - 1, j);
      assert Pack(ram, pages)[i * PAGE + j] == Pack(ram, pages[1..])[(i - 1) * PAGE + j];
    }
  }

  lemma {:induction false} IndexSnoc(pages: seq<nat>, p: nat)
    requires p < TWO64 && AllFit(pages)
    ensures AllFit(pages + [p])
    ensures EncodeIndex(pages + [p]) == EncodeIndex(pages) + Le64(p)
  {
    var longer, last := pages + [p], Le64(p);
    if pages == [] {
      assert longer[1..] == [] && EncodeIndex(longer) == last + [];
    } else {
      var first := Le64(pages[0]);
      IndexSnoc(pages[1..], p);
      assert longer[0] == pages[0] && longer[1..] == pages[1..] + [p];
      assert EncodeIndex(longer) == first + (EncodeIndex(pages[1..]) + last);
    }
  }
}
