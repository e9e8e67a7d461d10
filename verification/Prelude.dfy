/** Fixed-width integers, little-endian encoding and the small sequence helpers every
    other module uses. Widths are subset types of `int`: where the program saturates,
    checks or wraps, the model writes that out. */
module Prelude {
  const TWO32: int := 0x1_0000_0000
  const TWO64: int := 0x1_0000_0000_0000_0000
  const U64_MAX: int := 0xFFFF_FFFF_FFFF_FFFF

  type uint8 = x: int | 0 <= x < 0x100
  type uint32 = x: int | 0 <= x < 0x1_0000_0000
  type uint64 = x: int | 0 <= x < 0x1_0000_0000_0000_0000

  datatype Option<+T> = None | Some(value: T)

  function Min(a: int, b: int): int { if a <= b then a else b }

  function Max(a: int, b: int): int { if a <= b then b else a }

  /** `u64::saturating_add`. */
  function SaturatingAdd64(a: nat, b: nat): (r: uint64)
    requires a < TWO64
  {
    Min(a + b, U64_MAX)
  }

  /** `s` with `data` written over the positions from `off` on. */
  function Splice(s: seq<uint8>, off: nat, data: seq<uint8>): (r: seq<uint8>)
    requires off + |data| <= |s|
    ensures |r| == |s|
    ensures forall i {:trigger r[i]} :: 0 <= i < |s| ==>
              r[i] == if off <= i < off + |data| then data[i - off] else s[i]
  {
    seq(|s|, i requires 0 <= i < |s| => if off <= i < off + |data| then data[i - off] else s[i])
  }

  /** A sequence with the bytes of a splice is the splice. */
  lemma IsSplice(s: seq<uint8>, off: nat, data: seq<uint8>, r: seq<uint8>)
    requires off + |data| <= |s| == |r|
    requires forall i :: 0 <= i < |s| ==> r[i] == if off <= i < off + |data| then data[i - off] else s[i]
    ensures r == Splice(s, off, data)
  {
  }

  lemma SpliceAll(s: seq<uint8>, data: seq<uint8>)
    requires |data| == |s|
    ensures Splice(s, 0, data) == data
  {
  }

  function Zeros(n: nat): (r: seq<uint8>)
    ensures |r| == n
    ensures forall i :: 0 <= i < n ==> r[i] == 0
  {
    seq(n, i => 0)
  }

  // ---- little-endian integers ----

  function LeBytes(x: nat, n: nat): (bytes: seq<uint8>)
    ensures |bytes| == n
    decreases n, x
  {
    if n == 0 then [] else [x % 256] + LeBytes(x / 256, n - 1)
  }

  function LeNat(bytes: seq<uint8>): (x: nat)
  {
    if bytes == [] then 0 else bytes[0] + 256 * LeNat(bytes[1..])
  }

  function Pow256(n: nat): (r: nat)
    ensures r > 0
  {
    if n == 0 then 1 else 256 * Pow256(n - 1)
  }

  lemma {:induction false} LeRoundTrip(x: nat, n: nat)
    requires x < Pow256(n)
    ensures LeNat(LeBytes(x, n)) == x
    decreases n
  {
    if n > 0 {
      LeRoundTrip(x / 256, n - 1);
      assert LeBytes(x, n)[1..] == LeBytes(x / 256, n - 1);
    }
  }

  lemma {:induction false} LeBound(bytes: seq<uint8>)
    ensures LeNat(bytes) < Pow256(|bytes|)
  {
    if bytes != [] { LeBound(bytes[1..]); }
  }

  lemma Pow256Values()
    ensures Pow256(4) == TWO32 && Pow256(8) == TWO64
  {
    assert Pow256(2) == 0x1_0000;
    assert Pow256(4) == 0x1_0000 * 0x1_0000;
    assert Pow256(6) == 0x1_0000 * Pow256(4);
    assert Pow256(8) == 0x1_0000 * Pow256(6);
  }

  /** `u64::to_le_bytes`. */
  function Le64(x: uint64): (bytes: seq<uint8>)
    ensures |bytes| == 8
    ensures ReadLe64(bytes, 0) == x
  {
    Pow256Values(); LeRoundTrip(x, 8);
    assert LeBytes(x, 8)[0..8] == LeBytes(x, 8);
    LeBytes(x, 8)
  }

  function ReadLe32(bytes: seq<uint8>, off: nat): (x: uint32)
    requires off + 4 <= |bytes|
  {
    Pow256Values(); LeBound(bytes[off..off + 4]);
    LeNat(bytes[off..off + 4])
  }

  function ReadLe64(bytes: seq<uint8>, off: nat): (x: uint64)
    requires off + 8 <= |bytes|
  {
    Pow256Values(); LeBound(bytes[off..off + 8]);
    LeNat(bytes[off..off + 8])
  }

  /** Four bytes, least significant first. */
  lemma ReadLe32Is(bytes: seq<uint8>, off: nat)
    requires off + 4 <= |bytes|
    ensures var a: int, b: int, c: int, d: int := bytes[off], bytes[off + 1], bytes[off + 2], bytes[off + 3];
            ReadLe32(bytes, off) == a + 0x100 * b + 0x1_0000 * c + 0x100_0000 * d
  {
    var b := bytes[off..off + 4];
    assert LeNat(b[3..]) == b[3] by { assert b[3..][1..] == []; }
    assert LeNat(b[2..]) == b[2] + 256 * LeNat(b[3..]) by { assert b[2..][1..] == b[3..]; }
    assert LeNat(b[1..]) == b[1] + 256 * LeNat(b[2..]) by { assert b[1..][1..] == b[2..]; }
  }

  /** Eight bytes: the low half first. */
  lemma ReadLe64Is(bytes: seq<uint8>, off: nat)
    requires off + 8 <= |bytes|
    ensures ReadLe64(bytes, off) == ReadLe32(bytes, off) + TWO32 * ReadLe32(bytes, off + 4)
  {
    var b := bytes[off..off + 8];
    LeSplit(b, 4);
    Pow256Values();
    assert b[..4] == bytes[off..off + 4] && b[4..] == bytes[off + 4..off + 8];
  }

  lemma {:induction false} LeSplit(bytes: seq<uint8>, k: nat)
    requires k <= |bytes|
    ensures LeNat(bytes) == LeNat(bytes[..k]) + Pow256(k) * LeNat(bytes[k..])
    decreases k
  {
    if k == 0 {
      assert bytes[0..] == bytes;
    } else {
      LeSplit(bytes[1..], k - 1);
      assert bytes[..k][1..] == bytes[1..][..k - 1] && bytes[1..][k - 1..] == bytes[k..];
      Scale256(Pow256(k - 1), LeNat(bytes[k..]));
    }
  }

  lemma Scale256(p: nat, x: nat)
    ensures 256 * (p * x) == (256 * p) * x
  {
  }
}
