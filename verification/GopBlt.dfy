/**
  Block transfers of the virtio GPU's graphics output protocol: rectangles in
  flat row-major arrays, and the host-side copy of the guest's backing store.
*/
module GopBlt {
  import opened Efi

  type Pixel = p: int | 0 <= p < 0x1_0000_0000

  /** Index of the pixel in column x of row y, for rows of `stride` pixels. */
  function At(x: nat, y: nat, stride: nat): nat {
    if y == 0 then x else At(x, y - 1, stride) + stride
  }

  lemma {:induction false} AtIsProduct(x: nat, y: nat, stride: nat)
    ensures At(x, y, stride) == y * stride + x
    decreases y
  {
    if y > 0 {
      AtIsProduct(x, y - 1, stride);
    }
  }

  lemma {:induction false} AtShift(x: nat, c: nat, y: nat, stride: nat)
    ensures At(x + c, y, stride) == At(x, y, stride) + c
    decreases y
  {
    if y > 0 {
      AtShift(x, c, y - 1, stride);
    }
  }

  lemma {:induction false} AtMonotone(x: nat, y: nat, y': nat, stride: nat)
    requires y <= y'
    ensures At(x, y, stride) <= At(x, y', stride)
    decreases y'
  {
    if y < y' {
      AtMonotone(x, y, y' - 1, stride);
    }
  }

  lemma AtOrdered(x: nat, y: nat, x': nat, y': nat, stride: nat)
    requires x < stride && y < y'
    ensures At(x, y, stride) < At(x', y', stride)
  {
    AtShift(0, x, y, stride);
    AtShift(0, x', y', stride);
    AtMonotone(0, y + 1, y', stride);
  }

  /** An index in a row segment is a column of that row, and the other way round. */
  lemma AtInRow(x: nat, y: nat, x0: nat, row: nat, w: nat, stride: nat)
    requires x < stride && x0 + w <= stride
    ensures At(x0, row, stride) <= At(x, y, stride) < At(x0, row, stride) + w <==> y == row && x0 <= x < x0 + w
    ensures y == row && x0 <= x ==> At(x, y, stride) == At(x0, row, stride) + (x - x0)
  {
    if y < row {
      AtOrdered(x, y, x0, row, stride);
    } else if row < y && w > 0 {
      AtOrdered(x0 + w - 1, row, x, y, stride);
      AtShift(x0, w - 1, row, stride);
    } else if y == row {
      AtShift(0, x, y, stride);
      AtShift(0, x0, y, stride);
    }
  }

  datatype Rect = Rect(x: nat, y: nat, w: nat, h: nat) {
    predicate Has(px: nat, py: nat) {
      x <= px < x + w && y <= py < y + h
    }

    /** The rectangle fits a bitmap of rows of `stride` pixels, `size` pixels in all. */
    predicate Fits(stride: nat, size: nat) {
      w > 0 && h > 0 ==> x + w <= stride && At(x + w, y + h - 1, stride) <= size
    }
  }

  lemma RowInBounds(r: Rect, stride: nat, size: nat, row: nat)
    requires r.Fits(stride, size) && r.w > 0 && r.y <= row < r.y + r.h
    ensures At(r.x, row, stride) + r.w <= size
  {
    AtMonotone(r.x + r.w, row, r.y + r.h - 1, stride);
    AtShift(r.x, r.w, row, stride);
  }

  predicate Inside(x: nat, y: nat, stride: nat, size: nat) {
    x < stride && At(x, y, stride) < size
  }

  /** The pixel at (x, y) of a bitmap; every rectangle that Fits has real pixels only. */
  function Pix(s: seq<Pixel>, stride: nat, x: nat, y: nat): Pixel {
    if Inside(x, y, stride, |s|) then s[At(x, y, stride)] else 0
  }

  /** Inside `r`, pixels come from `src` at (sx, sy); all others are as they were. */
  ghost predicate Copied(now: seq<Pixel>, was: seq<Pixel>, stride: nat, r: Rect,
                         src: seq<Pixel>, srcStride: nat, sx: nat, sy: nat)
  {
    && |now| == |was| && (stride == 0 ==> now == was)
    && forall x: nat, y: nat :: Inside(x, y, stride, |now|) ==>
         Pix(now, stride, x, y) ==
           if r.Has(x, y) then Pix(src, srcStride, x - r.x + sx, y - r.y + sy) else Pix(was, stride, x, y)
  }

  /** CopyMem() of one row: overlapping source and destination are fine. */
  method CopyRow(dst: array<Pixel>, to: nat, src: array<Pixel>, from: nat, n: nat)
    requires n > 0 ==> to + n <= dst.Length && from + n <= src.Length
    modifies dst
    ensures forall i :: 0 <= i < dst.Length ==>
              dst[i] == if to <= i < to + n then old(src[i - to + from]) else old(dst[i])
  {
    forall k | 0 <= k < n {
      dst[to + k] := src[from + k];
    }
  }

  /** One row of a rectangle copy, by indices that stand for coordinates. */
  method CopyRowAt(dst: array<Pixel>, to: nat, src: array<Pixel>, from: nat, w: nat,
                   ghost stride: nat, ghost x0: nat, ghost row: nat, ghost srcStride: nat, ghost sx: nat, ghost srcRow: nat)
    requires Rect(x0, row, w, 1).Fits(stride, dst.Length) && Rect(sx, srcRow, w, 1).Fits(srcStride, src.Length)
    requires to == At(x0, row, stride) && from == At(sx, srcRow, srcStride)
    modifies dst
    ensures Copied(dst[..], old(dst[..]), stride, Rect(x0, row, w, 1), old(src[..]), srcStride, sx, srcRow)
  {
    ghost var was, original := dst[..], src[..];
    AtShift(x0, w, row, stride);
    AtShift(sx, w, srcRow, srcStride);
    CopyRow(dst, to, src, from, w);
    RowCopied(dst[..], was, stride, Rect(x0, row, w, 1), original, srcStride, sx, srcRow);
  }

  method CopyRectRow(dst: array<Pixel>, stride: nat, x0: nat, row: nat, w: nat,
                     src: array<Pixel>, srcStride: nat, sx: nat, srcRow: nat)
    requires Rect(x0, row, w, 1).Fits(stride, dst.Length) && Rect(sx, srcRow, w, 1).Fits(srcStride, src.Length)
    modifies dst
    ensures Copied(dst[..], old(dst[..]), stride, Rect(x0, row, w, 1), old(src[..]), srcStride, sx, srcRow)
  {
    AtIsProduct(x0, row, stride);
    AtIsProduct(sx, srcRow, srcStride);
    CopyRowAt(dst, row * stride + x0, src, srcRow * srcStride + sx, w, stride, x0, row, srcStride, sx, srcRow);
  }

  /** Two copies into adjacent row ranges are one copy, if the second still sees the original source. */
  lemma RowsJoin(now: seq<Pixel>, mid: seq<Pixel>, was: seq<Pixel>, stride: nat, done: Rect, row: nat,
                 from: seq<Pixel>, srcMid: seq<Pixel>, srcStride: nat, sx: nat, doneSy: nat, srcRow: nat)
    requires Copied(mid, was, stride, done, from, srcStride, sx, doneSy)
    requires Copied(now, mid, stride, Rect(done.x, row, done.w, 1), srcMid, srcStride, sx, srcRow)
    requires forall x: nat :: Pix(srcMid, srcStride, x, srcRow) == Pix(from, srcStride, x, srcRow)
    ensures row == done.y + done.h && srcRow == doneSy + done.h ==>
              Copied(now, was, stride, done.(h := done.h + 1), from, srcStride, sx, doneSy)
    ensures row + 1 == done.y && srcRow + 1 == doneSy ==>
              Copied(now, was, stride, Rect(done.x, row, done.w, done.h + 1), from, srcStride, sx, srcRow)
  {
  }

  lemma PartFits(r: Rect, stride: nat, size: nat, row: nat)
    requires r.Fits(stride, size) && r.y <= row < r.y + r.h
    ensures Rect(r.x, row, r.w, 1).Fits(stride, size)
  {
    AtMonotone(r.x + r.w, row, r.y + r.h - 1, stride);
  }

  /** A row that no finished row has touched is the original one. */
  lemma SourceRowIntact(mid: seq<Pixel>, was: seq<Pixel>, stride: nat, done: Rect, sx: nat, doneSy: nat, srcRow: nat)
    requires Copied(mid, was, stride, done, was, stride, sx, doneSy)
    requires srcRow < done.y || done.y + done.h <= srcRow
    ensures forall x: nat :: Pix(mid, stride, x, srcRow) == Pix(was, stride, x, srcRow)
  {
  }

  /** One more row of a copy within one bitmap, above or below the rows that are done. */
  method CopyNextRow(bitmap: array<Pixel>, stride: nat, ghost done: Rect, x0: nat, row: nat, w: nat, sx: nat, srcRow: nat,
                     ghost doneSy: nat, ghost was: seq<Pixel>)
    requires Rect(x0, row, w, 1).Fits(stride, bitmap.Length) && Rect(sx, srcRow, w, 1).Fits(stride, bitmap.Length)
    requires done.x == x0 && done.w == w && Copied(bitmap[..], was, stride, done, was, stride, sx, doneSy)
    requires srcRow < done.y || done.y + done.h <= srcRow
    modifies bitmap
    ensures row == done.y + done.h && srcRow == doneSy + done.h ==>
              Copied(bitmap[..], was, stride, done.(h := done.h + 1), was, stride, sx, doneSy)
    ensures row + 1 == done.y && srcRow + 1 == doneSy ==>
              Copied(bitmap[..], was, stride, Rect(x0, row, w, done.h + 1), was, stride, sx, srcRow)
  {
    ghost var mid := bitmap[..];
    SourceRowIntact(mid, was, stride, done, sx, doneSy, srcRow);
    CopyRectRow(bitmap, stride, x0, row, w, bitmap, stride, sx, srcRow);
    RowsJoin(bitmap[..], mid, was, stride, done, row, was, mid, stride, sx, doneSy, srcRow);
  }

  /** Rows top to bottom, for moving up or sideways within one bitmap. */
  method CopyRowsDownward(bitmap: array<Pixel>, stride: nat, r: Rect, sx: nat, sy: nat)
    requires r.Fits(stride, bitmap.Length) && Rect(sx, sy, r.w, r.h).Fits(stride, bitmap.Length)
    requires r.y <= sy
    modifies bitmap
    ensures Copied(bitmap[..], old(bitmap[..]), stride, r, old(bitmap[..]), stride, sx, sy)
  {
    ghost var was := bitmap[..];
    ghost var done := r.(h := 0);
    var y := 0;
    while y < r.h
      invariant 0 <= y <= r.h
      invariant done == r.(h := y)
      invariant Copied(bitmap[..], was, stride, done, was, stride, sx, sy)
    {
      var row, srcRow := r.y + y, sy + y;
      PartFits(r, stride, bitmap.Length, row);
      PartFits(Rect(sx, sy, r.w, r.h), stride, bitmap.Length, srcRow);
      CopyNextRow(bitmap, stride, done, r.x, row, r.w, sx, srcRow, sy, was);
      done := done.(h := done.h + 1);
      y := y + 1;
    }
    assert done == r;
  }

  /** Rows bottom to top, for moving down within one bitmap. */
  method CopyRowsUpward(bitmap: array<Pixel>, stride: nat, r: Rect, sx: nat, sy: nat)
    requires r.Fits(stride, bitmap.Length) && Rect(sx, sy, r.w, r.h).Fits(stride, bitmap.Length)
    requires sy < r.y
    modifies bitmap
    ensures Copied(bitmap[..], old(bitmap[..]), stride, r, old(bitmap[..]), stride, sx, sy)
  {
    ghost var was := bitmap[..];
    ghost var done := Rect(r.x, r.y + r.h, r.w, 0);
    var y := r.h;
    while y > 0
      invariant 0 <= y <= r.h
      invariant done == Rect(r.x, r.y + y, r.w, r.h - y)
      invariant Copied(bitmap[..], was, stride, done, was, stride, sx, sy + y)
    {
      y := y - 1;
      var row, srcRow := r.y + y, sy + y;
      PartFits(r, stride, bitmap.Length, row);
      PartFits(Rect(sx, sy, r.w, r.h), stride, bitmap.Length, srcRow);
      CopyNextRow(bitmap, stride, done, r.x, row, r.w, sx, srcRow, srcRow + 1, was);
      done := Rect(r.x, row, r.w, done.h + 1);
    }
    assert done == r;
  }

  // ----- the caller's buffer: bytes, with rows at any distance -----

  /** The pixel at a byte offset. */
  function PixelAt(bytes: seq<Byte>, at: nat): Pixel {
    if at + 4 <= |bytes| then Word32(bytes[at], bytes[at + 1], bytes[at + 2], bytes[at + 3]) else 0
  }

  /** The bytes of that pixel are the bytes of the buffer, in order. */
  lemma PixelBytes(bytes: seq<Byte>, at: nat, k: nat)
    requires at + 4 <= |bytes| && k < 4
    ensures ByteOf(PixelAt(bytes, at), k) == bytes[at + k]
  {
    BytesOf32(bytes[at], bytes[at + 1], bytes[at + 2], bytes[at + 3]);
  }

  /** Rows `y` to `y + h` of `w` pixels, from pixel column `x` on, lie in a buffer of `size` bytes. */
  predicate RowsInBuffer(x: nat, y: nat, w: nat, h: nat, delta: nat, size: nat) {
    w > 0 && h > 0 ==> At(4 * (x + w), y + h - 1, delta) <= size
  }

  /** Inside `r`, pixels come from the buffer; all others are as they were. */
  ghost predicate Loaded(now: seq<Pixel>, was: seq<Pixel>, stride: nat, r: Rect, bytes: seq<Byte>, delta: nat, sx: nat, sy: nat) {
    && |now| == |was| && (stride == 0 ==> now == was)
    && forall x: nat, y: nat :: Inside(x, y, stride, |now|) ==>
         Pix(now, stride, x, y) ==
           if r.Has(x, y) then PixelAt(bytes, At(4 * (x - r.x + sx), y - r.y + sy, delta)) else Pix(was, stride, x, y)
  }

  /** CopyMem() of one row of pixels from bytes. */
  method LoadRow(dst: array<Pixel>, to: nat, src: array<Byte>, from: nat, n: nat)
    requires n > 0 ==> to + n <= dst.Length && from + 4 * n <= src.Length
    modifies dst
    ensures forall i :: 0 <= i < dst.Length ==>
              dst[i] == if to <= i < to + n then PixelAt(src[..], from + 4 * (i - to)) else old(dst[i])
  {
    forall k | 0 <= k < n {
      dst[to + k] := Word32(src[from + 4 * k], src[from + 4 * k + 1], src[from + 4 * k + 2], src[from + 4 * k + 3]);
    }
  }

  ghost predicate LoadedByIndex(now: seq<Pixel>, was: seq<Pixel>, from: nat, w: nat, bytes: seq<Byte>, at: nat) {
    && |now| == |was|
    && forall i :: 0 <= i < |now| ==> now[i] == if from <= i < from + w then PixelAt(bytes, at + 4 * (i - from)) else was[i]
  }

  lemma RowLoaded(now: seq<Pixel>, was: seq<Pixel>, stride: nat, r: Rect, bytes: seq<Byte>, delta: nat, sx: nat, sy: nat)
    requires r.h == 1 && r.Fits(stride, |now|)
    requires LoadedByIndex(now, was, At(r.x, r.y, stride), r.w, bytes, At(4 * sx, sy, delta))
    ensures Loaded(now, was, stride, r, bytes, delta, sx, sy)
  {
    assert stride == 0 ==> r.w == 0;
    forall x: nat, y: nat | Inside(x, y, stride, |now|)
      ensures Pix(now, stride, x, y) ==
                if r.Has(x, y) then PixelAt(bytes, At(4 * (x - r.x + sx), y - r.y + sy, delta)) else Pix(was, stride, x, y)
    {
      RowLoadedAt(now, was, stride, r, bytes, delta, sx, sy, x, y);
    }
  }

  lemma RowLoadedAt(now: seq<Pixel>, was: seq<Pixel>, stride: nat, r: Rect, bytes: seq<Byte>, delta: nat, sx: nat, sy: nat, x: nat, y: nat)
    requires r.h == 1 && r.Fits(stride, |now|) && Inside(x, y, stride, |now|)
    requires LoadedByIndex(now, was, At(r.x, r.y, stride), r.w, bytes, At(4 * sx, sy, delta))
    ensures Pix(now, stride, x, y) ==
              if r.Has(x, y) then PixelAt(bytes, At(4 * (x - r.x + sx), y - r.y + sy, delta)) else Pix(was, stride, x, y)
  {
    LoadedPixel(r, stride, delta, sx, sy, x, y);
    if r.Has(x, y) {
      PixelIs(now, At(x, y, stride), stride, x, y, PixelAt(bytes, At(4 * (x - r.x + sx), sy, delta)));
    } else {
      PixelIs(now, At(x, y, stride), stride, x, y, was[At(x, y, stride)]);
    }
  }

  lemma PixelIs(now: seq<Pixel>, i: nat, stride: nat, x: nat, y: nat, pixel: Pixel)
    requires i == At(x, y, stride) < |now| && x < stride && now[i] == pixel
    ensures Pix(now, stride, x, y) == pixel
  {
  }

  /** A pixel of a row, by index and by coordinates. */
  lemma LoadedPixel(r: Rect, stride: nat, delta: nat, sx: nat, sy: nat, x: nat, y: nat)
    requires r.h == 1 && (r.w > 0 ==> r.x + r.w <= stride) && x < stride
    ensures At(r.x, r.y, stride) <= At(x, y, stride) < At(r.x, r.y, stride) + r.w <==> r.Has(x, y)
    ensures r.Has(x, y) ==>
              At(4 * (x - r.x + sx), sy, delta) == At(4 * sx, sy, delta) + 4 * (At(x, y, stride) - At(r.x, r.y, stride))
  {
    if r.w > 0 {
      AtInRow(x, y, r.x, r.y, r.w, stride);
    }
    if r.x <= x {
      AtShift(4 * sx, 4 * (x - r.x), sy, delta);
    }
  }

  lemma LoadsJoin(now: seq<Pixel>, mid: seq<Pixel>, was: seq<Pixel>, stride: nat, r: Rect, bytes: seq<Byte>, delta: nat, sx: nat, sy: nat, y: nat)
    requires Loaded(mid, was, stride, r.(h := y), bytes, delta, sx, sy)
    requires Loaded(now, mid, stride, Rect(r.x, r.y + y, r.w, 1), bytes, delta, sx, sy + y)
    ensures Loaded(now, was, stride, r.(h := y + 1), bytes, delta, sx, sy)
  {
  }

  method LoadNextRow(dst: array<Pixel>, stride: nat, r: Rect, src: array<Byte>, delta: nat, sx: nat, sy: nat, y: nat, ghost was: seq<Pixel>)
    requires y < r.h && r.Fits(stride, dst.Length) && RowsInBuffer(sx, sy, r.w, r.h, delta, src.Length)
    requires Loaded(dst[..], was, stride, r.(h := y), src[..], delta, sx, sy)
    modifies dst
    ensures Loaded(dst[..], was, stride, r.(h := y + 1), src[..], delta, sx, sy)
  {
    ghost var mid, bytes := dst[..], src[..];
    PartFits(r, stride, dst.Length, r.y + y);
    AtIsProduct(r.x, r.y + y, stride);
    AtIsProduct(4 * sx, sy + y, delta);
    RowStartsFit(r, stride, dst.Length, y);
    BufferRowFits(sx, sy, r.w, r.h, delta, src.Length, y);
    LoadRow(dst, (r.y + y) * stride + r.x, src, (sy + y) * delta + sx * 4, r.w);
    RowLoaded(dst[..], mid, stride, Rect(r.x, r.y + y, r.w, 1), bytes, delta, sx, sy + y);
    LoadsJoin(dst[..], mid, was, stride, r, bytes, delta, sx, sy, y);
  }

  lemma RowStartsFit(r: Rect, stride: nat, size: nat, y: nat)
    requires y < r.h && r.Fits(stride, size)
    ensures r.w > 0 ==> At(r.x, r.y + y, stride) + r.w <= size
  {
    if r.w > 0 {
      RowInBounds(r, stride, size, r.y + y);
    }
  }

  lemma BufferRowFits(x: nat, y: nat, w: nat, h: nat, delta: nat, size: nat, k: nat)
    requires k < h && RowsInBuffer(x, y, w, h, delta, size)
    ensures w > 0 ==> At(4 * x, y + k, delta) + 4 * w <= size
  {
    AtShift(4 * x, 4 * w, y + k, delta);
    AtMonotone(4 * (x + w), y + k, y + h - 1, delta);
  }

  /** EfiBltBufferToVideo: rows of the caller's buffer into a rectangle. */
  method LoadRows(dst: array<Pixel>, stride: nat, r: Rect, src: array<Byte>, delta: nat, sx: nat, sy: nat)
    requires r.Fits(stride, dst.Length) && RowsInBuffer(sx, sy, r.w, r.h, delta, src.Length)
    modifies dst
    ensures Loaded(dst[..], old(dst[..]), stride, r, src[..], delta, sx, sy)
  {
    ghost var was := dst[..];
    var y := 0;
    while y < r.h
      invariant 0 <= y <= r.h
      invariant Loaded(dst[..], was, stride, r.(h := y), src[..], delta, sx, sy)
    {
      LoadNextRow(dst, stride, r, src, delta, sx, sy, y, was);
      y := y + 1;
    }
  }

  /** Byte b of the buffer belongs to row y of a rectangle at (dx, dy). */
  predicate Covers(dx: nat, dy: nat, w: nat, delta: nat, y: nat, b: nat) {
    At(4 * dx, dy + y, delta) <= b < At(4 * dx, dy + y, delta) + 4 * w
  }

  /** The last of the first h rows that covers byte b: with a small Delta, rows overlap. */
  function LastRow(dx: nat, dy: nat, w: nat, h: nat, delta: nat, b: nat): Option<nat> {
    if h == 0 then None
    else if Covers(dx, dy, w, delta, h - 1, b) then Some(h - 1)
    else LastRow(dx, dy, w, h - 1, delta, b)
  }

  /** The byte that row y puts at byte b of the buffer. */
  function RowByte(video: seq<Pixel>, stride: nat, sx: nat, sy: nat, dx: nat, dy: nat, delta: nat, y: nat, b: nat): Byte {
    var start := At(4 * dx, dy + y, delta);
    if b < start then 0 else ByteOf(Pix(video, stride, sx + (b - start) / 4, sy + y), (b - start) % 4)
  }

  /** Every byte that some row covers comes from the last such row; all others are as they were. */
  ghost predicate Stored(now: seq<Byte>, was: seq<Byte>, video: seq<Pixel>, stride: nat, sx: nat, sy: nat,
                         dx: nat, dy: nat, w: nat, h: nat, delta: nat)
  {
    && |now| == |was|
    && forall b :: 0 <= b < |now| ==>
         now[b] == match LastRow(dx, dy, w, h, delta, b)
                   case Some(y) => RowByte(video, stride, sx, sy, dx, dy, delta, y, b)
                   case None => was[b]
  }

  /** With rows that do not overlap, each row arrives whole. */
  lemma {:induction false} RowsApart(dx: nat, dy: nat, w: nat, h: nat, delta: nat, y: nat, b: nat)
    requires 4 * w <= delta && y < h && Covers(dx, dy, w, delta, y, b)
    ensures LastRow(dx, dy, w, h, delta, b) == Some(y)
    decreases h
  {
    if y < h - 1 {
      AtMonotone(4 * dx, dy + y + 1, dy + h - 1, delta);
      RowsApart(dx, dy, w, h - 1, delta, y, b);
    }
  }

  /** Column x of the rectangle and byte k of the pixel: both ends of a copy, byte by byte. */
  lemma LoadedByte(video: seq<Pixel>, was: seq<Pixel>, stride: nat, r: Rect, bytes: seq<Byte>, delta: nat, sx: nat, sy: nat, x: nat, y: nat, k: nat)
    requires Loaded(video, was, stride, r, bytes, delta, sx, sy) && r.Fits(stride, |video|)
    requires x < r.w && y < r.h && k < 4 && RowsInBuffer(sx, sy, r.w, r.h, delta, |bytes|)
    ensures At(4 * sx, sy + y, delta) + 4 * x + k < |bytes|
    ensures ByteOf(Pix(video, stride, r.x + x, r.y + y), k) == bytes[At(4 * sx, sy + y, delta) + 4 * x + k]
  {
    BufferRowFits(sx, sy, r.w, r.h, delta, |bytes|, y);
    InRectangle(r, stride, |video|, x, y);
    assert Pix(video, stride, r.x + x, r.y + y) == PixelAt(bytes, At(4 * (x + sx), sy + y, delta));
    AtShift(4 * sx, 4 * x, sy + y, delta);
    PixelBytes(bytes, At(4 * sx, sy + y, delta) + 4 * x, k);
  }

  lemma InRectangle(r: Rect, stride: nat, size: nat, x: nat, y: nat)
    requires r.Fits(stride, size) && x < r.w && y < r.h
    ensures Inside(r.x + x, r.y + y, stride, size) && r.Has(r.x + x, r.y + y)
  {
    RowInBounds(r, stride, size, r.y + y);
    AtShift(r.x, x, r.y + y, stride);
  }

  lemma StoredByte(now: seq<Byte>, was: seq<Byte>, video: seq<Pixel>, stride: nat, sx: nat, sy: nat,
                   dx: nat, dy: nat, w: nat, h: nat, delta: nat, x: nat, y: nat, k: nat)
    requires Stored(now, was, video, stride, sx, sy, dx, dy, w, h, delta) && 4 * w <= delta
    requires x < w && y < h && k < 4 && RowsInBuffer(dx, dy, w, h, delta, |now|)
    ensures At(4 * dx, dy + y, delta) + 4 * x + k < |now|
    ensures now[At(4 * dx, dy + y, delta) + 4 * x + k] == ByteOf(Pix(video, stride, sx + x, sy + y), k)
  {
    var b := At(4 * dx, dy + y, delta) + 4 * x + k;
    BufferRowFits(dx, dy, w, h, delta, |now|, y);
    RowsApart(dx, dy, w, h, delta, y, b);
    assert (4 * x + k) / 4 == x && (4 * x + k) % 4 == k;
  }

  /** What was loaded into a rectangle and stored from it again is the same, byte by byte. */
  lemma ReadBack(video: seq<Pixel>, was: seq<Pixel>, stride: nat, r: Rect, bytes: seq<Byte>, d: nat, sx: nat, sy: nat,
                 target: seq<Byte>, targetWas: seq<Byte>, d': nat, tx: nat, ty: nat)
    requires Loaded(video, was, stride, r, bytes, d, sx, sy) && r.Fits(stride, |video|)
    requires Stored(target, targetWas, video, stride, r.x, r.y, tx, ty, r.w, r.h, d') && 4 * r.w <= d'
    requires RowsInBuffer(sx, sy, r.w, r.h, d, |bytes|) && RowsInBuffer(tx, ty, r.w, r.h, d', |target|)
    ensures forall x: nat, y: nat, k: nat :: x < r.w && y < r.h && k < 4 ==> SameByte(target, tx, ty, d', bytes, sx, sy, d, x, y, k)
  {
    forall x: nat, y: nat, k: nat | x < r.w && y < r.h && k < 4 ensures SameByte(target, tx, ty, d', bytes, sx, sy, d, x, y, k) {
      LoadedByte(video, was, stride, r, bytes, d, sx, sy, x, y, k);
      StoredByte(target, targetWas, video, stride, r.x, r.y, tx, ty, r.w, r.h, d', x, y, k);
    }
  }

  method StoreNextRow(dst: array<Byte>, delta: nat, dx: nat, dy: nat, w: nat, h: nat, src: array<Pixel>, stride: nat, sx: nat, sy: nat,
                      y: nat, ghost was: seq<Byte>)
    requires y < h && Rect(sx, sy, w, h).Fits(stride, src.Length) && RowsInBuffer(dx, dy, w, h, delta, dst.Length)
    requires Stored(dst[..], was, src[..], stride, sx, sy, dx, dy, w, y, delta)
    modifies dst
    ensures Stored(dst[..], was, src[..], stride, sx, sy, dx, dy, w, y + 1, delta)
  {
    ghost var mid, video := dst[..], src[..];
    AtIsProduct(sx, sy + y, stride);
    AtIsProduct(4 * dx, dy + y, delta);
    RowStartsFit(Rect(sx, sy, w, h), stride, src.Length, y);
    BufferRowFits(dx, dy, w, h, delta, dst.Length, y);
    StoreRow(dst, (dy + y) * delta + dx * 4, src, (sy + y) * stride + sx, w);
    RowStored(dst[..], mid, was, video, stride, sx, sy, dx, dy, w, y, delta);
  }

  /** CopyMem() of one row of pixels to bytes. */
  method StoreRow(dst: array<Byte>, to: nat, src: array<Pixel>, from: nat, n: nat)
    requires n > 0 ==> to + 4 * n <= dst.Length && from + n <= src.Length
    modifies dst
    ensures forall b :: 0 <= b < dst.Length ==>
              dst[b] == if to <= b < to + 4 * n then ByteOf(src[from + (b - to) / 4], (b - to) % 4) else old(dst[b])
  {
    forall k | 0 <= k < 4 * n {
      dst[to + k] := ByteOf(src[from + k / 4], k % 4);
    }
  }

  lemma RowStored(now: seq<Byte>, mid: seq<Byte>, was: seq<Byte>, video: seq<Pixel>, stride: nat, sx: nat, sy: nat,
                  dx: nat, dy: nat, w: nat, y: nat, delta: nat)
    requires |now| == |mid| && Stored(mid, was, video, stride, sx, sy, dx, dy, w, y, delta)
    requires w > 0 ==> sx + w <= stride && At(sx, sy + y, stride) + w <= |video|
    requires forall b :: 0 <= b < |now| ==>
               now[b] == if Covers(dx, dy, w, delta, y, b)
                         then ByteOf(video[At(sx, sy + y, stride) + (b - At(4 * dx, dy + y, delta)) / 4], (b - At(4 * dx, dy + y, delta)) % 4)
                         else mid[b]
    ensures Stored(now, was, video, stride, sx, sy, dx, dy, w, y + 1, delta)
  {
    forall b | 0 <= b < |now| && Covers(dx, dy, w, delta, y, b)
      ensures now[b] == RowByte(video, stride, sx, sy, dx, dy, delta, y, b)
    {
      AtShift(sx, (b - At(4 * dx, dy + y, delta)) / 4, sy + y, stride);
    }
  }

  /** EfiBltVideoToBltBuffer: a rectangle into rows of the caller's buffer. */
  method StoreRows(dst: array<Byte>, delta: nat, dx: nat, dy: nat, w: nat, h: nat, src: array<Pixel>, stride: nat, sx: nat, sy: nat)
    requires Rect(sx, sy, w, h).Fits(stride, src.Length) && RowsInBuffer(dx, dy, w, h, delta, dst.Length)
    modifies dst
    ensures Stored(dst[..], old(dst[..]), src[..], stride, sx, sy, dx, dy, w, h, delta)
  {
    ghost var was := dst[..];
    var y := 0;
    while y < h
      invariant 0 <= y <= h
      invariant Stored(dst[..], was, src[..], stride, sx, sy, dx, dy, w, y, delta)
    {
      StoreNextRow(dst, delta, dx, dy, w, h, src, stride, sx, sy, y, was);
      y := y + 1;
    }
  }

  ghost predicate Filled(now: seq<Pixel>, was: seq<Pixel>, stride: nat, r: Rect, pixel: Pixel) {
    && |now| == |was| && (stride == 0 ==> now == was)
    && forall x: nat, y: nat :: Inside(x, y, stride, |now|) ==>
         Pix(now, stride, x, y) == if r.Has(x, y) then pixel else Pix(was, stride, x, y)
  }

  method FillRows(dst: array<Pixel>, stride: nat, r: Rect, pixel: Pixel)
    requires r.Fits(stride, dst.Length)
    modifies dst
    ensures Filled(dst[..], old(dst[..]), stride, r, pixel)
  {
    ghost var was := dst[..];
    var y := 0;
    while y < r.h
      invariant 0 <= y <= r.h
      invariant Filled(dst[..], was, stride, r.(h := y), pixel)
    {
      ghost var mid := dst[..];
      PartFits(r, stride, dst.Length, r.y + y);
      FillRectRow(dst, stride, r.x, r.y + y, r.w, pixel);
      assert Filled(dst[..], mid, stride, Rect(r.x, r.y + y, r.w, 1), pixel);
      y := y + 1;
    }
  }

  /** SetMem32() of one row, in coordinates. */
  method FillRectRow(dst: array<Pixel>, stride: nat, x0: nat, row: nat, w: nat, pixel: Pixel)
    requires Rect(x0, row, w, 1).Fits(stride, dst.Length)
    modifies dst
    ensures Filled(dst[..], old(dst[..]), stride, Rect(x0, row, w, 1), pixel)
  {
    ghost var was := dst[..];
    AtIsProduct(x0, row, stride);
    AtShift(x0, w, row, stride);
    forall k | 0 <= k < w {
      dst[row * stride + x0 + k] := pixel;
    }
    forall x: nat, y: nat | Inside(x, y, stride, dst.Length)
      ensures Pix(dst[..], stride, x, y) == if Rect(x0, row, w, 1).Has(x, y) then pixel else Pix(was, stride, x, y)
    {
      if w > 0 {
        AtInRow(x, y, x0, row, w, stride);
      }
    }
  }

  datatype BltOperation = VideoFill | VideoToBltBuffer | BufferToVideo | VideoToVideo | OtherOperation
  {
    ghost predicate WritesVideo() {
      VideoFill? || BufferToVideo? || VideoToVideo?
    }

    ghost predicate ReadsVideo() {
      VideoToBltBuffer? || VideoToVideo?
    }
  }

  class Screen {
    const horizontal: nat
    const vertical: nat
    const backingStore: array<Pixel>  // guest pixels
    const resource: array<Pixel>      // the host's copy
    ghost var failures: nat           // transfers that the host refused
    ghost var flushFailures: nat      // flushes that it refused
    ghost var shown: seq<Rect>        // what it was asked to show

    ghost predicate Valid() {
      && backingStore != resource
      && backingStore.Length == At(0, vertical, horizontal)
      && resource.Length == At(0, vertical, horizontal)
    }

    constructor (horizontal: nat, vertical: nat, backingStore: array<Pixel>, resource: array<Pixel>)
      requires backingStore != resource
      requires backingStore.Length == resource.Length == vertical * horizontal
      ensures Valid()
    {
      this.horizontal := horizontal;
      this.vertical := vertical;
      this.backingStore := backingStore;
      this.resource := resource;
      failures, flushFailures, shown := 0, 0, [];
      AtIsProduct(0, vertical, horizontal);
    }

    /** The driver's bounds check, written so that it cannot overflow. */
    predicate OnScreen(x: nat, y: nat, w: nat, h: nat) {
      !(x > horizontal || w > horizontal - x || y > vertical || h > vertical - y)
    }

    lemma OnScreenFits(x: nat, y: nat, w: nat, h: nat)
      requires Valid()
      ensures OnScreen(x, y, w, h) <==> x + w <= horizontal && y + h <= vertical
      ensures OnScreen(x, y, w, h) ==> Rect(x, y, w, h).Fits(horizontal, backingStore.Length)
    {
      if OnScreen(x, y, w, h) && h > 0 {
        AtShift(0, x + w, y + h - 1, horizontal);
        AtMonotone(0, y + h, vertical, horizontal);
      }
    }

    ghost predicate InSync(x: nat, y: nat)
      reads backingStore, resource
    {
      Pix(resource[..], horizontal, x, y) == Pix(backingStore[..], horizontal, x, y)
    }

    /**
      TRANSFER_TO_HOST_2D: row k of the host rectangle comes from guest memory at
      `offset` plus k rows. A command that fails has no effect.
    */
    method TransferToHost2d(r: Rect, offset: nat, ghost ox: nat, ghost oy: nat) returns (status: Status)
      requires Valid()
      requires r.Fits(horizontal, resource.Length)
      requires offset == At(ox, oy, horizontal) && Rect(ox, oy, r.w, r.h).Fits(horizontal, backingStore.Length)
      modifies resource, this`failures
      ensures failures == old(failures) + if status.IsError() then 1 else 0
      ensures status.IsError() ==> resource[..] == old(resource[..])
      ensures !status.IsError() ==>
                Copied(resource[..], old(resource[..]), horizontal, r, backingStore[..], horizontal, ox, oy)
    {
      status := *;
      failures := failures + if status.IsError() then 1 else 0;
      if status.IsError() {
        return;
      }
      ghost var was := resource[..];
      var y := 0;
      var start := offset;
      while y < r.h
        modifies resource
        invariant 0 <= y <= r.h
        invariant start == At(ox, oy + y, horizontal)
        invariant Copied(resource[..], was, horizontal, r.(h := y), backingStore[..], horizontal, ox, oy)
      {
        TransferRow(r, y, start, ox, oy, was);
        y := y + 1;
        start := start + horizontal;
      }
    }

    method TransferRow(r: Rect, y: nat, start: nat, ghost ox: nat, ghost oy: nat, ghost was: seq<Pixel>)
      requires Valid() && y < r.h && r.Fits(horizontal, resource.Length)
      requires Rect(ox, oy, r.w, r.h).Fits(horizontal, backingStore.Length) && start == At(ox, oy + y, horizontal)
      requires Copied(resource[..], was, horizontal, r.(h := y), backingStore[..], horizontal, ox, oy)
      modifies resource
      ensures Copied(resource[..], was, horizontal, r.(h := y + 1), backingStore[..], horizontal, ox, oy)
    {
      ghost var mid, video := resource[..], backingStore[..];
      PartFits(r, horizontal, resource.Length, r.y + y);
      PartFits(Rect(ox, oy, r.w, r.h), horizontal, backingStore.Length, oy + y);
      CopyRowAt(resource, At(r.x, r.y + y, horizontal), backingStore, start, r.w,
                horizontal, r.x, r.y + y, horizontal, ox, oy + y);
      RowsJoin(resource[..], mid, was, horizontal, r.(h := y), r.y + y, video, video, horizontal, ox, oy, oy + y);
    }

    /** RESOURCE_FLUSH shows the resource; it changes no pixel. */
    method ResourceFlush(r: Rect) returns (status: Status)
      modifies this`flushFailures, this`shown
      ensures flushFailures == old(flushFailures) + if status.IsError() then 1 else 0
      ensures shown == old(shown) + [r]
    {
      status := *;
      shown := shown + [r];
      flushFailures := flushFailures + if status.IsError() then 1 else 0;
    }

    /** Distance in bytes between rows of the caller's buffer: 0 stands for rows of exactly `w` pixels. */
    static ghost function Delta(delta: nat, w: nat): nat {
      if delta == 0 then 4 * w else delta
    }

    /** What the caller promises about BltBuffer. */
    ghost predicate BufferSuffices(op: BltOperation, bltBuffer: array<Byte>, sx: nat, sy: nat, dx: nat, dy: nat,
                                   w: nat, h: nat, delta: nat)
    {
      match op
      case VideoFill => bltBuffer.Length >= 4
      case VideoToBltBuffer => RowsInBuffer(dx, dy, w, h, Delta(delta, w), bltBuffer.Length)
      case BufferToVideo => RowsInBuffer(sx, sy, w, h, Delta(delta, w), bltBuffer.Length)
      case _ => true
    }

    ghost predicate Accepts(op: BltOperation, sx: nat, sy: nat, dx: nat, dy: nat, w: nat, h: nat) {
      && op != OtherOperation
      && (op.WritesVideo() ==> OnScreen(dx, dy, w, h))
      && (op.ReadsVideo() ==> OnScreen(sx, sy, w, h))
    }

    /** What an accepted request does to guest memory and to the caller's buffer. */
    ghost predicate Rendered(op: BltOperation, sx: nat, sy: nat, r: Rect, delta: nat,
                             video: seq<Pixel>, videoWas: seq<Pixel>, buffer: seq<Byte>, bufferWas: seq<Byte>)
    {
      match op
      case VideoFill =>
        buffer == bufferWas && Filled(video, videoWas, horizontal, r, PixelAt(bufferWas, 0))
      case VideoToBltBuffer =>
        video == videoWas && Stored(buffer, bufferWas, videoWas, horizontal, sx, sy, r.x, r.y, r.w, r.h, Delta(delta, r.w))
      case BufferToVideo =>
        buffer == bufferWas && Loaded(video, videoWas, horizontal, r, bufferWas, Delta(delta, r.w), sx, sy)
      case VideoToVideo =>
        buffer == bufferWas && Copied(video, videoWas, horizontal, r, videoWas, horizontal, sx, sy)
      case OtherOperation => false
    }

    /** `stride` is the distance in bytes between rows of the caller's buffer. */
    method Render(op: BltOperation, bltBuffer: array<Byte>, sx: nat, sy: nat, dx: nat, dy: nat,
                  w: nat, h: nat, stride: nat, ghost delta: nat)
      requires Valid() && BufferSuffices(op, bltBuffer, sx, sy, dx, dy, w, h, delta)
      requires Accepts(op, sx, sy, dx, dy, w, h)
      requires op == VideoToBltBuffer || op == BufferToVideo ==> stride == Delta(delta, w)
      modifies backingStore, bltBuffer
      ensures Rendered(op, sx, sy, Rect(dx, dy, w, h), delta,
                       backingStore[..], old(backingStore[..]), bltBuffer[..], old(bltBuffer[..]))
    {
      var r := Rect(dx, dy, w, h);
      OnScreenFits(dx, dy, w, h);
      OnScreenFits(sx, sy, w, h);
      match op {
        case VideoFill =>
          FillRows(backingStore, horizontal, r, Word32(bltBuffer[0], bltBuffer[1], bltBuffer[2], bltBuffer[3]));
        case VideoToBltBuffer =>
          StoreRows(bltBuffer, stride, dx, dy, w, h, backingStore, horizontal, sx, sy);
        case BufferToVideo =>
          LoadRows(backingStore, horizontal, r, bltBuffer, stride, sx, sy);
        case VideoToVideo =>
          if sy < dy {
            CopyRowsUpward(backingStore, horizontal, r, sx, sy);
          } else {
            CopyRowsDownward(backingStore, horizontal, r, sx, sy);
          }
      }
    }

    /** Hand the rectangle to the host and show it. */
    method Present(r: Rect) returns (status: Status)
      requires Valid() && OnScreen(r.x, r.y, r.w, r.h)
      modifies resource, this`failures, this`flushFailures, this`shown
      ensures shown == if failures > old(failures) then old(shown) else old(shown) + [r]
      ensures failures >= old(failures) && flushFailures >= old(flushFailures)
      ensures status.IsError() <==> failures > old(failures) || flushFailures > old(flushFailures)
      ensures failures > old(failures) ==> resource[..] == old(resource[..])
      ensures failures == old(failures) ==>
                Copied(resource[..], old(resource[..]), horizontal, r, backingStore[..], horizontal, r.x, r.y)
    {
      OnScreenFits(r.x, r.y, r.w, r.h);
      AtIsProduct(r.x, r.y, horizontal);
      status := TransferToHost2d(r, r.y * horizontal + r.x, r.x, r.y);
      if status.IsError() {
        return;
      }
      status := ResourceFlush(r);
    }

    /**
      GopBlt(). Unless the host refuses the transfer, a pixel that was in sync stays
      in sync, and every pixel that was written becomes so.
    */
    method Blt(op: BltOperation, bltBuffer: array<Byte>, sx: nat, sy: nat, dx: nat, dy: nat,
               w: nat, h: nat, delta: nat)
      returns (status: Status)
      requires Valid() && BufferSuffices(op, bltBuffer, sx, sy, dx, dy, w, h, delta)
      modifies backingStore, resource, bltBuffer, this`failures, this`flushFailures, this`shown
      ensures !Accepts(op, sx, sy, dx, dy, w, h) ==>
                && status == InvalidParameter
                && backingStore[..] == old(backingStore[..]) && bltBuffer[..] == old(bltBuffer[..])
      ensures Accepts(op, sx, sy, dx, dy, w, h) ==>
                && Rendered(op, sx, sy, Rect(dx, dy, w, h), delta,
                            backingStore[..], old(backingStore[..]), bltBuffer[..], old(bltBuffer[..]))
                && (!op.WritesVideo() ==> status == Success)
      ensures failures >= old(failures) && flushFailures >= old(flushFailures)
      ensures Accepts(op, sx, sy, dx, dy, w, h) ==>
                (status.IsError() <==> failures > old(failures) || flushFailures > old(flushFailures))
      ensures if failures > old(failures) || !Accepts(op, sx, sy, dx, dy, w, h) || !op.WritesVideo() then
                resource[..] == old(resource[..]) && shown == old(shown)
              else shown == old(shown) + [Rect(dx, dy, w, h)]
      ensures failures == old(failures) ==>
                forall x: nat, y: nat :: Inside(x, y, horizontal, resource.Length) ==>
                  (old(InSync(x, y)) || (Accepts(op, sx, sy, dx, dy, w, h) && op.WritesVideo() && Rect(dx, dy, w, h).Has(x, y)) ==>
                     InSync(x, y))
    {
      var stride := delta;
      if op == VideoToBltBuffer || op == BufferToVideo {
        if delta == 0 {
          stride := w * 4;
        }
      }
      if op == VideoFill || op == BufferToVideo || op == VideoToVideo {
        if !OnScreen(dx, dy, w, h) {
          return InvalidParameter;
        }
      }
      if op == VideoToBltBuffer || op == VideoToVideo {
        if !OnScreen(sx, sy, w, h) {
          return InvalidParameter;
        }
      }
      if op == OtherOperation {
        return InvalidParameter;
      }
      var r := Rect(dx, dy, w, h);
      Render(op, bltBuffer, sx, sy, dx, dy, w, h, stride, delta);
      if op == VideoToBltBuffer {
        return Success;
      }
      status := Present(r);
      if failures == old(failures) {
        WrittenIsInSync(resource[..], old(resource[..]), backingStore[..], old(backingStore[..]), horizontal, r);
      }
    }

    /**
      Draw a rectangle from one buffer and read it back into another: byte for byte the same,
      for every place on the screen and every layout in which rows do not overlap. A distance
      of zero between rows stands for rows without a gap.
    */
    method DrawAndReadBack(source: array<Byte>, sx: nat, sy: nat, delta: nat, target: array<Byte>, tx: nat, ty: nat, delta': nat,
                           r: Rect)
      requires Valid() && source != target && OnScreen(r.x, r.y, r.w, r.h)
      requires BufferSuffices(BufferToVideo, source, sx, sy, r.x, r.y, r.w, r.h, delta)
      requires BufferSuffices(VideoToBltBuffer, target, r.x, r.y, tx, ty, r.w, r.h, delta')
      requires delta' == 0 || delta' >= 4 * r.w
      modifies backingStore, resource, source, target, this`failures, this`flushFailures, this`shown
      ensures var d, d' := if delta == 0 then 4 * r.w else delta, if delta' == 0 then 4 * r.w else delta';
              forall x: nat, y: nat, k: nat :: x < r.w && y < r.h && k < 4 ==>
                SameByte(target[..], tx, ty, d', old(source[..]), sx, sy, d, x, y, k)
    {
      ghost var d, d' := if delta == 0 then 4 * r.w else delta, if delta' == 0 then 4 * r.w else delta';
      ghost var bytes, video0, target0 := source[..], backingStore[..], target[..];
      OnScreenFits(r.x, r.y, r.w, r.h);
      var _ := Blt(BufferToVideo, source, sx, sy, r.x, r.y, r.w, r.h, delta);
      ghost var video := backingStore[..];
      var _ := Blt(VideoToBltBuffer, target, r.x, r.y, tx, ty, r.w, r.h, delta');
      ReadBack(video, video0, horizontal, r, bytes, d, sx, sy, target[..], target0, d', tx, ty);
    }

    /** The host shows what the guest has drawn. */
    ghost predicate Synced()
      reads backingStore, resource
    {
      forall x: nat, y: nat :: Inside(x, y, horizontal, resource.Length) ==> InSync(x, y)
    }

    /** Any sequence of requests, good ones and bad ones: the host keeps up with the guest unless it refuses a transfer. */
    method BltAll(requests: seq<BltRequest>)
      requires Valid()
      requires forall i :: 0 <= i < |requests| ==>
                 var q := requests[i]; BufferSuffices(q.op, q.bltBuffer, q.sx, q.sy, q.dx, q.dy, q.w, q.h, q.delta)
      modifies backingStore, resource, this`failures, this`flushFailures, this`shown, set q | q in requests :: q.bltBuffer
      ensures failures >= old(failures)
      ensures failures == old(failures) && old(Synced()) ==> Synced()
    {
      for n := 0 to |requests|
        invariant failures >= old(failures)
        invariant failures == old(failures) && old(Synced()) ==> Synced()
      {
        var q := requests[n];
        var _ := Blt(q.op, q.bltBuffer, q.sx, q.sy, q.dx, q.dy, q.w, q.h, q.delta);
      }
    }
  }

  /** Byte k of pixel (x, y), counted from (ax, ay) in one buffer and from (bx, by') in the other. */
  ghost predicate SameByte(a: seq<Byte>, ax: nat, ay: nat, da: nat, b: seq<Byte>, bx: nat, by': nat, db: nat, x: nat, y: nat, k: nat) {
    var i, j := At(4 * ax, ay + y, da) + 4 * x + k, At(4 * bx, by' + y, db) + 4 * x + k;
    i < |a| && j < |b| && a[i] == b[j]
  }

  /** The arguments of one call of GopBlt(). */
  datatype BltRequest = BltRequest(op: BltOperation, bltBuffer: array<Byte>, sx: nat, sy: nat, dx: nat, dy: nat,
                                   w: nat, h: nat, delta: nat)

  /** Guest and host both changed only inside `r`, and the host took `r` from the guest. */
  lemma WrittenIsInSync(host: seq<Pixel>, hostWas: seq<Pixel>, video: seq<Pixel>, videoWas: seq<Pixel>, stride: nat, r: Rect)
    requires |host| == |video| == |videoWas|
    requires Copied(host, hostWas, stride, r, video, stride, r.x, r.y)
    requires forall x: nat, y: nat :: Inside(x, y, stride, |video|) && !r.Has(x, y) ==>
               Pix(video, stride, x, y) == Pix(videoWas, stride, x, y)
    ensures forall x: nat, y: nat :: Inside(x, y, stride, |host|) ==>
              (Pix(hostWas, stride, x, y) == Pix(videoWas, stride, x, y) || r.Has(x, y) ==>
                 Pix(host, stride, x, y) == Pix(video, stride, x, y))
  {
  }

  /** One row, by index: `w` pixels from `from` on come from `src`, the others stay. */
  ghost predicate RowByIndex(now: seq<Pixel>, was: seq<Pixel>, from: nat, w: nat, src: seq<Pixel>, srcFrom: nat) {
    && |now| == |was| && (w > 0 ==> from + w <= |now| && srcFrom + w <= |src|)
    && forall i :: 0 <= i < |now| ==> now[i] == if from <= i < from + w then src[i - from + srcFrom] else was[i]
  }

  /** A row copied by index is a row copied by coordinates. */
  lemma RowCopied(now: seq<Pixel>, was: seq<Pixel>, stride: nat, r: Rect, src: seq<Pixel>, srcStride: nat, sx: nat, sy: nat)
    requires r.h == 1 && r.Fits(stride, |now|) && Rect(sx, sy, r.w, 1).Fits(srcStride, |src|)
    requires RowByIndex(now, was, At(r.x, r.y, stride), r.w, src, At(sx, sy, srcStride))
    ensures Copied(now, was, stride, r, src, srcStride, sx, sy)
  {
    assert stride == 0 ==> r.w == 0;
    forall x: nat, y: nat | Inside(x, y, stride, |now|)
      ensures Pix(now, stride, x, y) ==
                if r.Has(x, y) then Pix(src, srcStride, x - r.x + sx, y - r.y + sy) else Pix(was, stride, x, y)
    {
      RowCopiedAt(now, was, stride, r, src, srcStride, sx, sy, x, y);
    }
  }

  lemma RowCopiedAt(now: seq<Pixel>, was: seq<Pixel>, stride: nat, r: Rect, src: seq<Pixel>, srcStride: nat, sx: nat, sy: nat,
                    x: nat, y: nat)
    requires r.h == 1 && r.Fits(stride, |now|) && Rect(sx, sy, r.w, 1).Fits(srcStride, |src|)
    requires RowByIndex(now, was, At(r.x, r.y, stride), r.w, src, At(sx, sy, srcStride))
    requires Inside(x, y, stride, |now|)
    ensures Pix(now, stride, x, y) ==
              if r.Has(x, y) then Pix(src, srcStride, x - r.x + sx, y - r.y + sy) else Pix(was, stride, x, y)
  {
    CopiedPixel(r, stride, srcStride, sx, sy, x, y);
    if r.Has(x, y) {
      SamePixel(now, At(x, y, stride), stride, x, y, src, srcStride, x - r.x + sx, sy);
    }
  }

  lemma SamePixel(now: seq<Pixel>, i: nat, stride: nat, x: nat, y: nat, src: seq<Pixel>, srcStride: nat, sx: nat, sy: nat)
    requires i == At(x, y, stride) < |now| && x < stride && sx < srcStride && At(sx, sy, srcStride) < |src|
    requires now[i] == src[At(sx, sy, srcStride)]
    ensures Pix(now, stride, x, y) == Pix(src, srcStride, sx, sy)
  {
  }

  /** A pixel of a row, by index and by coordinates, on both sides of a copy. */
  lemma CopiedPixel(r: Rect, stride: nat, srcStride: nat, sx: nat, sy: nat, x: nat, y: nat)
    requires r.h == 1 && (r.w > 0 ==> r.x + r.w <= stride) && x < stride
    ensures At(r.x, r.y, stride) <= At(x, y, stride) < At(r.x, r.y, stride) + r.w <==> r.Has(x, y)
    ensures r.Has(x, y) ==>
              At(x - r.x + sx, sy, srcStride) == At(sx, sy, srcStride) + (At(x, y, stride) - At(r.x, r.y, stride))
  {
    if r.w > 0 {
      AtInRow(x, y, r.x, r.y, r.w, stride);
    }
    if r.x <= x {
      AtShift(sx, x - r.x, sy, srcStride);
    }
  }
}
