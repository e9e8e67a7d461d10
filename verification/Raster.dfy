/** Rows of a pixel buffer: the geometry of a TRANSFER, whatever the rows are read from
    (transfer_2d in crates/devices/src/virtio/gpu.rs). */
module Raster {
  import opened Prelude

  /** Re-reads a run of bytes from a logical offset on; keeps its length. */
  type Reader = (nat, seq<uint8>) -> seq<uint8>

  ghost predicate KeepsLength(read: Reader)
  {
    forall at: nat, run: seq<uint8> :: |read(at, run)| == |run|
  }

  /** Byte offset of pixel (x, y) in a buffer of width `w`: `(y * w + x) * 4`, row by row. */
  function RowAt(w: nat, x: nat, y: nat): nat
  {
    if y == 0 then x * 4 else w * 4 + RowAt(w, x, y - 1)
  }

  lemma {:induction false} RowAtIsProduct(w: nat, x: nat, y: nat)
    ensures RowAt(w, x, y) == (y * w + x) * 4
  {
    if y > 0 {
      RowAtIsProduct(w, x, y - 1);
      assert y * w == w + (y - 1) * w;
    }
  }

  lemma {:induction false} RowAtColumn(w: nat, x: nat, y: nat)
    ensures RowAt(w, x, y) == RowAt(w, 0, y) + x * 4
  {
    if y > 0 { RowAtColumn(w, x, y - 1); }
  }

  lemma {:induction false} RowsAreApart(w: nat, x: nat, y: nat, y': nat)
    requires y < y'
    ensures RowAt(w, x, y) + w * 4 <= RowAt(w, x, y')
    decreases y'
  {
    if y < y' - 1 { RowsAreApart(w, x, y, y' - 1); }
  }

  /** A run of `n` pixels inside a row of a `w` by `h` buffer lies inside the buffer. */
  lemma RowFits(w: nat, h: nat, x: nat, n: nat, y: nat)
    requires y < h && x + n <= w
    ensures RowAt(w, x, y) + n * 4 <= RowAt(w, 0, h)
  {
    RowAtColumn(w, x, y);
    RowsAreApart(w, 0, y, h);
  }

  /** A rectangle of rows inside a buffer of `w` by `h` pixels: `n` pixels from column `x`. */
  datatype Rows = Rows(w: nat, h: nat, x: nat, n: nat) {
    predicate Fits(px: seq<uint8>) { x + n <= w && |px| == RowAt(w, 0, h) }

    function At(y: nat): nat { RowAt(w, x, y) }
  }

  /** Byte `i` of the buffer belongs to row `y` of the rectangle. */
  predicate InRow(g: Rows, y: nat, i: nat) { g.At(y) <= i < g.At(y) + g.n * 4 }

  ghost function RowOf(g: Rows, px: seq<uint8>, y: nat): seq<uint8>
    requires g.Fits(px) && y < g.h
  {
    RowFits(g.w, g.h, g.x, g.n, y);
    px[g.At(y)..g.At(y) + g.n * 4]
  }

  /** One row read at `offset` plus its own byte offset. */
  function OneRow(g: Rows, px: seq<uint8>, read: Reader, offset: nat, y: nat): (r: seq<uint8>)
    requires g.Fits(px) && KeepsLength(read) && y < g.h
    ensures |r| == |px|
  {
    RowFits(g.w, g.h, g.x, g.n, y);
    var at := g.At(y);
    Splice(px, at, read(offset + at, px[at..at + g.n * 4]))
  }

  /** One row, given its offset and what the read of it returned. */
  lemma OneRowIs(g: Rows, px: seq<uint8>, read: Reader, offset: nat, y: nat, at: nat, row: seq<uint8>)
    requires g.Fits(px) && KeepsLength(read) && y < g.h && at == g.At(y) && at + g.n * 4 <= |px|
    requires row == read(offset + at, px[at..at + g.n * 4])
    ensures |row| == g.n * 4 && OneRow(g, px, read, offset, y) == Splice(px, at, row)
  {
  }

  /** Rows `y..yEnd`, one after another. */
  function Transfer(g: Rows, px: seq<uint8>, read: Reader, offset: nat, y: nat, yEnd: nat): (r: seq<uint8>)
    requires g.Fits(px) && KeepsLength(read) && yEnd <= g.h
    ensures |r| == |px|
    decreases yEnd - y
  {
    if y >= yEnd then px else Transfer(g, OneRow(g, px, read, offset, y), read, offset, y + 1, yEnd)
  }

  lemma RowRead(g: Rows, px: seq<uint8>, read: Reader, offset: nat, y: nat)
    requires g.Fits(px) && KeepsLength(read) && y < g.h
    ensures RowOf(g, OneRow(g, px, read, offset, y), y) == read(offset + g.At(y), RowOf(g, px, y))
  {
    RowFits(g.w, g.h, g.x, g.n, y);
  }

  lemma OtherRowKept(g: Rows, px: seq<uint8>, read: Reader, offset: nat, y: nat, py: nat)
    requires g.Fits(px) && KeepsLength(read) && y < g.h && py < g.h && y != py
    ensures RowOf(g, OneRow(g, px, read, offset, y), py) == RowOf(g, px, py)
  {
    RowFits(g.w, g.h, g.x, g.n, y);
    RowFits(g.w, g.h, g.x, g.n, py);
    if y < py { RowsAreApart(g.w, g.x, y, py); } else { RowsAreApart(g.w, g.x, py, y); }
  }

  lemma {:induction false} LaterRowsKeep(g: Rows, px: seq<uint8>, read: Reader, offset: nat, y: nat, yEnd: nat, py: nat)
    requires g.Fits(px) && KeepsLength(read) && yEnd <= g.h && py < y && py < g.h
    ensures RowOf(g, Transfer(g, px, read, offset, y, yEnd), py) == RowOf(g, px, py)
    decreases yEnd - y
  {
    if y < yEnd {
      OtherRowKept(g, px, read, offset, y, py);
      LaterRowsKeep(g, OneRow(g, px, read, offset, y), read, offset, y + 1, yEnd, py);
    }
  }

  /** Every row of the range is read exactly once, from its own place. */
  lemma {:induction false} RowsInside(g: Rows, px: seq<uint8>, read: Reader, offset: nat, y: nat, yEnd: nat, py: nat)
    requires g.Fits(px) && KeepsLength(read) && yEnd <= g.h && y <= py < yEnd
    ensures RowOf(g, Transfer(g, px, read, offset, y, yEnd), py) == read(offset + g.At(py), RowOf(g, px, py))
    decreases yEnd - y
  {
    var next := OneRow(g, px, read, offset, y);
    if y == py {
      RowRead(g, px, read, offset, y);
      LaterRowsKeep(g, next, read, offset, y + 1, yEnd, py);
    } else {
      OtherRowKept(g, px, read, offset, y, py);
      RowsInside(g, next, read, offset, y + 1, yEnd, py);
    }
  }

  /** A byte of none of these rows is untouched. */
  lemma {:induction false} RowsOutside(g: Rows, px: seq<uint8>, read: Reader, offset: nat, y: nat, yEnd: nat, i: nat)
    requires g.Fits(px) && KeepsLength(read) && yEnd <= g.h && i < |px|
    requires forall row: nat :: y <= row < yEnd ==> !InRow(g, row, i)
    ensures Transfer(g, px, read, offset, y, yEnd)[i] == px[i]
    decreases yEnd - y
  {
    if y < yEnd {
      RowFits(g.w, g.h, g.x, g.n, y);
      assert !InRow(g, y, i);
      RowsOutside(g, OneRow(g, px, read, offset, y), read, offset, y + 1, yEnd, i);
    }
  }

  /** Byte `c` of pixel (px, py), at index `i`, is in a row of the rectangle exactly when the
      pixel is. */
  lemma PixelInRow(g: Rows, y: nat, px: nat, py: nat, c: nat, i: nat)
    requires g.x + g.n <= g.w && px < g.w && c < 4 && i == RowAt(g.w, px, py) + c
    ensures InRow(g, y, i) <==> py == y && g.x <= px < g.x + g.n
  {
    RowAtColumn(g.w, g.x, y);
    RowAtColumn(g.w, px, py);
    if py < y { RowsAreApart(g.w, 0, py, y); }
    if py > y { RowsAreApart(g.w, 0, y, py); }
  }

  lemma RowsMiss(g: Rows, y: nat, yEnd: nat, px: nat, py: nat, c: nat, i: nat)
    requires g.x + g.n <= g.w && px < g.w && c < 4 && i == RowAt(g.w, px, py) + c
    requires !(g.x <= px < g.x + g.n && y <= py < yEnd)
    ensures forall row: nat :: y <= row < yEnd ==> !InRow(g, row, i)
  {
    forall row: nat | y <= row < yEnd ensures !InRow(g, row, i) { PixelInRow(g, row, px, py, c, i); }
  }
}
