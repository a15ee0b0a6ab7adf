/** The display flush callback: copies the dirty rectangle the GUI library
    has just rendered into the 800x480 ARGB framebuffer, one packed 32-bit
    word per pixel, row by row. */
module Flush {
  import opened Pixel

  /** Display resolution; the framebuffer holds HorRes * VerRes words. */
  const HorRes: nat := 800
  const VerRes: nat := 480
  /** The render buffer holds four bytes per pixel. */
  const BytesPerPixel: nat := 4
  /** Number of values of a uint32_t. */
  const U32: int := 0x1_0000_0000

  /** A rectangle with inclusive corners (x1, y1) and (x2, y2). */
  datatype Area = Area(x1: int, y1: int, x2: int, y2: int)

  /** The rectangle lies on the display and is not empty. The callback does
      not check this: it relies on the GUI library to pass such areas. */
  predicate OnScreen(a: Area)
  {
    0 <= a.x1 <= a.x2 < HorRes && 0 <= a.y1 <= a.y2 < VerRes
  }

  /** The width as the callback computes it, stored in a uint32_t. */
  function Width(a: Area): (w: nat)
    ensures w < U32
    ensures OnScreen(a) ==> 1 <= w <= HorRes && a.x1 + w - 1 == a.x2
  {
    (a.x2 - a.x1 + 1) % U32
  }

  /** The height as the callback computes it, stored in a uint32_t. */
  function Height(a: Area): (h: nat)
    ensures h < U32
    ensures OnScreen(a) ==> 1 <= h <= VerRes && a.y1 + h - 1 == a.y2
  {
    (a.y2 - a.y1 + 1) % U32
  }

  /** Framebuffer index `i` lies inside the rectangle. */
  predicate InArea(a: Area, i: int)
  {
    0 <= i && a.x1 <= i % HorRes <= a.x2 && a.y1 <= i / HorRes <= a.y2
  }

  /** The framebuffer index written for the pixel at offset (xx, yy) inside
      the rectangle. It is in bounds, and its column and row are the
      absolute coordinates of that pixel. */
  function DestIndex(a: Area, xx: nat, yy: nat): (i: nat)
    requires OnScreen(a) && xx < Width(a) && yy < Height(a)
    ensures i < HorRes * VerRes
    ensures i % HorRes == a.x1 + xx && i / HorRes == a.y1 + yy
    ensures InArea(a, i)
  {
    (a.y1 + yy) * HorRes + a.x1 + xx
  }

  /** The byte offset in the render buffer of the pixel at offset (xx, yy):
      pixel number yy * w + xx, four bytes each. All four bytes lie within
      the first w * h * 4 bytes of the buffer. */
  function SrcOffset(a: Area, xx: nat, yy: nat): (o: nat)
    requires OnScreen(a) && xx < Width(a) && yy < Height(a)
    ensures o % BytesPerPixel == 0
    ensures o + BytesPerPixel <= Width(a) * Height(a) * BytesPerPixel
  {
    RowMajorBound(Width(a), Height(a), xx, yy);
    (yy * Width(a) + xx) * BytesPerPixel
  }

  lemma RowMajorBound(w: nat, h: nat, xx: nat, yy: nat)
    requires xx < w && yy < h
    ensures yy * w + xx + 1 <= w * h
  {
    assert yy * w + xx + 1 <= yy * w + w == (yy + 1) * w;
    assert (yy + 1) * w <= h * w;
  }

  /** The render buffer covers the whole rectangle. */
  predicate CoversArea(a: Area, pxMap: seq<bv8>)
  {
    OnScreen(a) && Width(a) * Height(a) * BytesPerPixel <= |pxMap|
  }

  /** The colour read from the four bytes at offset `o`. */
  function SourceColor(pxMap: seq<bv8>, o: nat, fromBuf: ColorReader): Color32
    requires o + BytesPerPixel <= |pxMap|
  {
    fromBuf(pxMap[o], pxMap[o + 1], pxMap[o + 2], pxMap[o + 3])
  }

  /** The word the callback stores for the pixel at offset (xx, yy). */
  function Rendered(a: Area, pxMap: seq<bv8>, fromBuf: ColorReader, xx: nat, yy: nat): bv32
    requires CoversArea(a, pxMap) && xx < Width(a) && yy < Height(a)
  {
    Pack(SourceColor(pxMap, SrcOffset(a, xx, yy), fromBuf))
  }

  /** With the loops at row `y`, column `x`, framebuffer index `i` has been
      written: it lies in the area, in an earlier row, or in row `y` before
      column `x`. */
  predicate Written(a: Area, y: nat, x: nat, i: int)
  {
    InArea(a, i) && (i / HorRes - a.y1 < y || (i / HorRes - a.y1 == y && i % HorRes - a.x1 < x))
  }

  /** The framebuffer `cur` after the inner loop has stored the first `x`
      pixels of row `y`. */
  function CopyRow(a: Area, pxMap: seq<bv8>, fromBuf: ColorReader, cur: seq<bv32>, y: nat, x: nat): (r: seq<bv32>)
    requires CoversArea(a, pxMap) && |cur| == HorRes * VerRes
    requires y < Height(a) && x <= Width(a)
    ensures |r| == |cur|
  {
    if x == 0 then cur
    else CopyRow(a, pxMap, fromBuf, cur, y, x - 1)[DestIndex(a, x - 1, y) := Rendered(a, pxMap, fromBuf, x - 1, y)]
  }

  /** The framebuffer `orig` after the outer loop has copied its first `y` rows. */
  function CopyRows(a: Area, pxMap: seq<bv8>, fromBuf: ColorReader, orig: seq<bv32>, y: nat): (r: seq<bv32>)
    requires CoversArea(a, pxMap) && |orig| == HorRes * VerRes
    requires y <= Height(a)
    ensures |r| == |orig|
  {
    if y == 0 then orig
    else CopyRow(a, pxMap, fromBuf, CopyRows(a, pxMap, fromBuf, orig, y - 1), y - 1, Width(a))
  }

  /** What one word holds after part of a row is copied: the rendered pixel
      if it is in row `y` before column `x`, its earlier value otherwise. */
  lemma {:induction false} CopyRowAt(a: Area, pxMap: seq<bv8>, fromBuf: ColorReader, cur: seq<bv32>,
                                     y: nat, x: nat, i: int)
    requires CoversArea(a, pxMap) && |cur| == HorRes * VerRes
    requires y < Height(a) && x <= Width(a) && 0 <= i < |cur|
    ensures CopyRow(a, pxMap, fromBuf, cur, y, x)[i] ==
      if InArea(a, i) && i / HorRes == a.y1 + y && i % HorRes - a.x1 < x
      then Rendered(a, pxMap, fromBuf, i % HorRes - a.x1, y)
      else cur[i]
  {
    if x > 0 {
      CopyRowAt(a, pxMap, fromBuf, cur, y, x - 1, i);
    }
  }

  /** What one word holds after some rows are copied: the rendered pixel if
      it is written by then, its original value otherwise. */
  lemma {:induction false} CopyRowsAt(a: Area, pxMap: seq<bv8>, fromBuf: ColorReader, orig: seq<bv32>,
                                      y: nat, i: int)
    requires CoversArea(a, pxMap) && |orig| == HorRes * VerRes
    requires y <= Height(a) && 0 <= i < |orig|
    ensures CopyRows(a, pxMap, fromBuf, orig, y)[i] ==
      if Written(a, y, 0, i)
      then Rendered(a, pxMap, fromBuf, i % HorRes - a.x1, i / HorRes - a.y1)
      else orig[i]
  {
    if y > 0 {
      CopyRowsAt(a, pxMap, fromBuf, orig, y - 1, i);
      CopyRowAt(a, pxMap, fromBuf, CopyRows(a, pxMap, fromBuf, orig, y - 1), y - 1, Width(a), i);
    }
  }

  /** After the whole copy, the word at each pixel of the area is the packed
      colour read for that pixel, and every word outside the area keeps its
      original value. */
  lemma CopyComplete(a: Area, pxMap: seq<bv8>, fromBuf: ColorReader, orig: seq<bv32>)
    requires CoversArea(a, pxMap) && |orig| == HorRes * VerRes
    ensures forall yy, xx :: 0 <= yy < Height(a) && 0 <= xx < Width(a) ==>
      CopyRows(a, pxMap, fromBuf, orig, Height(a))[DestIndex(a, xx, yy)] == Rendered(a, pxMap, fromBuf, xx, yy)
    ensures forall i :: 0 <= i < |orig| && !InArea(a, i) ==> CopyRows(a, pxMap, fromBuf, orig, Height(a))[i] == orig[i]
  {
    forall yy, xx | 0 <= yy < Height(a) && 0 <= xx < Width(a)
      ensures CopyRows(a, pxMap, fromBuf, orig, Height(a))[DestIndex(a, xx, yy)] == Rendered(a, pxMap, fromBuf, xx, yy)
    {
      CopyRowsAt(a, pxMap, fromBuf, orig, Height(a), DestIndex(a, xx, yy));
    }
    forall i | 0 <= i < |orig| && !InArea(a, i)
      ensures CopyRows(a, pxMap, fromBuf, orig, Height(a))[i] == orig[i]
    {
      CopyRowsAt(a, pxMap, fromBuf, orig, Height(a), i);
    }
  }

  /** The framebuffer indices of row `yy` of the rectangle, left to right. */
  function Row(a: Area, yy: nat): (r: seq<nat>)
    requires OnScreen(a) && yy < Height(a)
  {
    seq(Width(a), xx requires 0 <= xx < Width(a) => DestIndex(a, xx, yy))
  }

  /** The framebuffer indices written by the first `rows` rows of the copy,
      in the order the loops write them. */
  function WriteOrder(a: Area, rows: nat): (s: seq<nat>)
    requires OnScreen(a) && rows <= Height(a)
  {
    if rows == 0 then [] else WriteOrder(a, rows - 1) + Row(a, rows - 1)
  }

  /** No index occurs twice in `s`. */
  predicate NoDuplicates(s: seq<nat>)
  {
    forall p, q :: 0 <= p < q < |s| ==> s[p] != s[q]
  }

  /** The first `rows` rows make `rows * w` writes. */
  lemma {:induction false} WriteOrderLength(a: Area, rows: nat)
    requires OnScreen(a) && rows <= Height(a)
    ensures |WriteOrder(a, rows)| == rows * Width(a)
  {
    if rows > 0 {
      WriteOrderLength(a, rows - 1);
    }
  }

  /** An index is written by one of the first `rows` rows exactly when it
      lies in the rectangle, above row y1 + rows. */
  lemma {:induction false} WriteOrderMembers(a: Area, rows: nat, i: int)
    requires OnScreen(a) && rows <= Height(a)
    ensures i in WriteOrder(a, rows) <==> InArea(a, i) && i / HorRes < a.y1 + rows
  {
    if rows > 0 {
      WriteOrderMembers(a, rows - 1, i);
      var r := Row(a, rows - 1);
      if InArea(a, i) && i / HorRes == a.y1 + rows - 1 {
        var xx := i % HorRes - a.x1;
        assert r[xx] == i;
      }
    }
  }

  /** The first `rows` rows never write the same index twice. */
  lemma {:induction false} WriteOrderDistinct(a: Area, rows: nat)
    requires OnScreen(a) && rows <= Height(a)
    ensures NoDuplicates(WriteOrder(a, rows))
  {
    if rows > 0 {
      WriteOrderDistinct(a, rows - 1);
      var prefix, r := WriteOrder(a, rows - 1), Row(a, rows - 1);
      forall p | 0 <= p < |prefix|
        ensures prefix[p] / HorRes < a.y1 + rows - 1
      {
        WriteOrderMembers(a, rows - 1, prefix[p]);
      }
      assert forall q :: 0 <= q < |r| ==> r[q] / HorRes == a.y1 + rows - 1;
      assert NoDuplicates(r);
    }
  }

  /** The copy writes each index of the rectangle exactly once and nothing
      else: w * h distinct writes, all inside the 800x480 framebuffer. */
  lemma FlushWrites(a: Area)
    requires OnScreen(a)
    ensures |WriteOrder(a, Height(a))| == Width(a) * Height(a)
    ensures NoDuplicates(WriteOrder(a, Height(a)))
    ensures forall i :: i in WriteOrder(a, Height(a)) <==> 0 <= i < HorRes * VerRes && InArea(a, i)
  {
    WriteOrderLength(a, Height(a));
    WriteOrderDistinct(a, Height(a));
    forall i ensures i in WriteOrder(a, Height(a)) <==> 0 <= i < HorRes * VerRes && InArea(a, i) {
      WriteOrderMembers(a, Height(a), i);
    }
  }

  /** A one-pixel area makes a single write, at (x1, y1). */
  lemma OnePixelWrite(a: Area)
    requires OnScreen(a) && a.x1 == a.x2 && a.y1 == a.y2
    ensures WriteOrder(a, Height(a)) == [a.y1 * HorRes + a.x1]
  {
    assert WriteOrder(a, 0) == [];
  }

  /** The inner loop of flush_cb: stores row `y` of the area, left to right.
      `writes` records the destination index of each store in order. */
  method CopyRowLoop(pixels: array<bv32>, area: Area, pxMap: seq<bv8>, fromBuf: ColorReader, y: nat)
    returns (ghost writes: seq<nat>)
    requires pixels.Length == HorRes * VerRes
    requires CoversArea(area, pxMap) && y < Height(area)
    modifies pixels
    ensures pixels[..] == CopyRow(area, pxMap, fromBuf, old(pixels[..]), y, Width(area))
    ensures writes == Row(area, y)
  {
    ghost var rowStart := pixels[..];
    var w := Width(area);
    writes := [];
    var x: nat := 0;
    while x < w
      invariant x <= w
      invariant pixels[..] == CopyRow(area, pxMap, fromBuf, rowStart, y, x)
      invariant writes == Row(area, y)[..x]
    {
      // byte offset (y * w + x) * 4 and index (y1 + y) * HorRes + x1 + x
      var src := SrcOffset(area, x, y);
      var dst := DestIndex(area, x, y);
      var color := fromBuf(pxMap[src], pxMap[src + 1], pxMap[src + 2], pxMap[src + 3]);
      pixels[dst] := Pack(color);
      writes := writes + [dst];
      x := x + 1;
    }
  }

  /** flush_cb's copy loop. Writes, for every pixel of the area, the packed
      colour read from the render buffer, and leaves every other framebuffer
      word as it was. `writes` records the destination index of each store
      in order. */
  method FlushCb(pixels: array<bv32>, area: Area, pxMap: seq<bv8>, fromBuf: ColorReader)
    returns (ghost writes: seq<nat>)
    requires pixels.Length == HorRes * VerRes
    requires CoversArea(area, pxMap)
    modifies pixels
    ensures pixels[..] == CopyRows(area, pxMap, fromBuf, old(pixels[..]), Height(area))
    ensures forall yy, xx :: 0 <= yy < Height(area) && 0 <= xx < Width(area) ==>
      pixels[DestIndex(area, xx, yy)] == Rendered(area, pxMap, fromBuf, xx, yy)
    ensures forall i :: 0 <= i < pixels.Length && !InArea(area, i) ==> pixels[i] == old(pixels[i])
    ensures writes == WriteOrder(area, Height(area))
  {
    ghost var orig := pixels[..];
    var h := Height(area);
    writes := [];
    var y: nat := 0;
    while y < h
      invariant y <= h
      invariant pixels[..] == CopyRows(area, pxMap, fromBuf, orig, y)
      invariant writes == WriteOrder(area, y)
    {
      ghost var rowWrites := CopyRowLoop(pixels, area, pxMap, fromBuf, y);
      writes := writes + rowWrites;
      y := y + 1;
    }
    CopyComplete(area, pxMap, fromBuf, orig);
  }
}
