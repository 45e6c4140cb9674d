/*
 * The ZMBV encoder object of src/video/ZMBVEncoder.cc: its frame, work and
 * output buffers, the block-offset table, the motion-vector search, and
 * the writing of delta frames and key frames into the work buffer.
 *
 * Frame buffers hold pixels of the encoder's pixel type (two or four
 * bytes); the work and output buffers hold bytes, and a pixel stored into
 * the work buffer occupies its little-endian bytes.
 */
module ZmbvEncoder {
  import opened ZmbvFormat

  /** `createVectorTable` up to the final sort: the centre, eight vectors
      per magnitude on the axes and diagonals, then four sign variants of
      every off-diagonal pair of magnitudes up to 8. */
  method CreateVectorTable(table: array<CodecVector>)
    requires table.Length == VectorTabSize
    modifies table
    ensures table[..] == VectorTable()
  {
    var p := 0;
    table[p] := CodecVector(0, 0);
    p := p + 1;
    for i := 1 to MaxVector + 1
      invariant p == AxisIndex(i, 0)
      invariant table[..p] == VectorTable()[..p]
    {
      WriteAxisEntries(table, i, p);
      AxisSlice(i);
      PrefixGrows(table[..], VectorTable(), p, 8);
      p := p + 8;
    }
    for y := 1 to MaxVector / 2 + 1
      invariant p == RestIndex(1, y, 0)
      invariant table[..p] == VectorTable()[..p]
    {
      for x := 1 to MaxVector / 2 + 1
        invariant p == RestIndex(x, y, 0)
        invariant table[..p] == VectorTable()[..p]
      {
        if x == y {
          continue; // the diagonal is already in the table
        }
        WriteRestEntries(table, x, y, p);
        RestSlice(x, y);
        PrefixGrows(table[..], VectorTable(), p, 4);
        p := p + 4;
      }
    }
    assert p == VectorTabSize;
    assert table[..] == table[..p];
  }

  /** A common prefix extended by a common slice. */
  lemma PrefixGrows<T>(a: seq<T>, b: seq<T>, p: nat, n: nat)
    requires p + n <= |a| && p + n <= |b|
    requires a[..p] == b[..p] && a[p .. p + n] == b[p .. p + n]
    ensures a[..p + n] == b[..p + n]
  {
    assert a[..p + n] == a[..p] + a[p .. p + n];
    assert b[..p + n] == b[..p] + b[p .. p + n];
  }

  /** The eight vectors of magnitude i on the axes and diagonals. */
  method WriteAxisEntries(table: array<CodecVector>, i: int, p: nat)
    requires p + 8 <= table.Length
    modifies table
    ensures table[..p] == old(table[..p])
    ensures table[p .. p + 8] == AxisEntries(i)
  {
    table[p + 0] := CodecVector(i, 0);
    table[p + 1] := CodecVector(-i, 0);
    table[p + 2] := CodecVector(0, i);
    table[p + 3] := CodecVector(0, -i);
    table[p + 4] := CodecVector(i, i);
    table[p + 5] := CodecVector(-i, i);
    table[p + 6] := CodecVector(i, -i);
    table[p + 7] := CodecVector(-i, -i);
  }

  /** The four sign variants of the pair (x, y). */
  method WriteRestEntries(table: array<CodecVector>, x: int, y: int, p: nat)
    requires p + 4 <= table.Length
    modifies table
    ensures table[..p] == old(table[..p])
    ensures table[p .. p + 4] == RestEntries(x, y)
  {
    table[p + 0] := CodecVector(x, y);
    table[p + 1] := CodecVector(-x, y);
    table[p + 2] := CodecVector(x, -y);
    table[p + 3] := CodecVector(-x, -y);
  }

  /** `blockOffsets`: one entry per block, row by row, each the offset of the
      block's first pixel in a frame buffer. */
  predicate BlockLayout(offsets: seq<nat>, xblocks: nat, yblocks: nat, pitch: nat)
  {
    |offsets| == xblocks * yblocks &&
    forall y, x :: 0 <= y < yblocks && 0 <= x < xblocks ==>
      BlockIndex(xblocks, y, x) < |offsets| && offsets[BlockIndex(xblocks, y, x)] == BlockOffset(pitch, y, x)
  }

  /** The geometry `setupBuffers` sets up: a picture of whole blocks, a
      border of `MaxVector` pixels on each side, room for a delta frame in
      the work buffer and one in-bounds offset per block. */
  predicate Geometry(width: nat, height: nat, pixelSize: nat, pitch: nat, offsets: seq<nat>)
  {
    IsPixelSize(pixelSize) &&
    width % BlockWidth == 0 && height % BlockHeight == 0 &&
    pitch == width + 2 * MaxVector &&
    DeltaRoom(width, height, pixelSize) &&
    BlockLayout(offsets, width / BlockWidth, height / BlockHeight, pitch) &&
    forall b :: 0 <= b < |offsets| ==> MovableInside(FrameLength(width, height, pixelSize), pitch, offsets[b])
  }

  /** The geometry gives the encoding loops their room. */
  lemma GeometryRoom(width: nat, height: nat, size: nat, offsets: seq<nat>)
    requires Geometry(width, height, size, width + 2 * MaxVector, offsets)
    ensures var pitch, len := width + 2 * MaxVector, FrameLength(width, height, size);
            AlignedWorkUsed(0, |offsets|) + RoomFor(|offsets|, size) <= len * size &&
            (height == 0 || PictureBase(pitch) + (height - 1) * pitch + width <= len) &&
            height * width * size <= len * size
  {
    RoomForIs(|offsets|, size);
    if height > 0 {
      RowInFrame(width, height, size, height - 1);
    }
    PictureInFrame(width, height, size);
  }

  /** The block loop at the end of `setupBuffers`. */
  method BuildBlockOffsets(width: nat, height: nat, pixelSize: nat) returns (offsets: seq<nat>)
    requires IsPixelSize(pixelSize)
    ensures BlockLayout(offsets, width / BlockWidth, height / BlockHeight, width + 2 * MaxVector)
    ensures forall b :: 0 <= b < |offsets| ==>
              MovableInside(FrameLength(width, height, pixelSize), width + 2 * MaxVector, offsets[b])
  {
    var pitch := width + 2 * MaxVector;
    var xblocks, yblocks := width / BlockWidth, height / BlockHeight;
    offsets := [];
    for y := 0 to yblocks
      invariant |offsets| == y * xblocks
      invariant forall y', x' :: 0 <= y' < y && 0 <= x' < xblocks ==>
                  BlockIndex(xblocks, y', x') < |offsets| && offsets[BlockIndex(xblocks, y', x')] == BlockOffset(pitch, y', x')
      invariant forall b :: 0 <= b < |offsets| ==> MovableInside(FrameLength(width, height, pixelSize), pitch, offsets[b])
    {
      for x := 0 to xblocks
        invariant |offsets| == y * xblocks + x
        invariant forall y', x' :: 0 <= y' <= y && 0 <= x' < xblocks && (y' < y || x' < x) ==>
                    BlockIndex(xblocks, y', x') < |offsets| && offsets[BlockIndex(xblocks, y', x')] == BlockOffset(pitch, y', x')
        invariant forall b :: 0 <= b < |offsets| ==> MovableInside(FrameLength(width, height, pixelSize), pitch, offsets[b])
      {
        OffsetMovable(width, height, pixelSize, y, x);
        offsets := offsets + [BlockOffset(pitch, y, x)];
      }
      assert (y + 1) * xblocks == y * xblocks + xblocks;
    }
  }

  /** The pixel loops of `compareBlock` and `possibleBlock`: the number of
      differing pixels between the new block at `offset` and the old block
      moved by (vx, vy), over `rows` rows `stride` apart and `cols` pixels
      `step` apart in each. */
  method CountBlock(oldframe: array<bv32>, newframe: array<bv32>, offset: int, vx: int, vy: int, pitch: nat,
                    stride: int, rows: nat, cols: nat, step: nat) returns (r: nat)
    requires CellsInside(oldframe.Length, offset + vy * pitch + vx, stride, rows, cols, step)
    requires CellsInside(newframe.Length, offset, stride, rows, cols, step)
    ensures r == BlockDiff(oldframe[..], newframe[..], offset + vy * pitch + vx, offset, stride, rows, cols, step)
  {
    ghost var o, n := oldframe[..], newframe[..];
    var po0 := offset + vy * pitch + vx;
    r := 0;
    for y := 0 to rows
      invariant r == BlockDiff(o, n, po0, offset, stride, y, cols, step)
    {
      BlockDiffSnoc(o, n, po0, offset, stride, y, cols, step);
      ghost var done := r;
      ghost var po, pn := po0 + y * stride, offset + y * stride;
      for x := 0 to cols
        invariant r == done + RowDiff(o, n, po, pn, x, step)
      {
        RowDiffSnoc(o, n, po, pn, x, step);
        assert Cell(po0, stride, step, y, x) == po + x * step;
        assert Cell(offset, stride, step, y, x) == pn + x * step;
        if oldframe[Cell(po0, stride, step, y, x)] != newframe[Cell(offset, stride, step, y, x)] {
          r := r + 1;
        }
      }
    }
  }

  /** The store `*reinterpret_cast<P*>(&work[at]) = pixel` of a pixel of
      `size` bytes on a little-endian host. */
  method StorePixel(work: array<bv8>, at: nat, pixel: bv32, size: nat)
    requires IsPixelSize(size) && at + size <= work.Length
    modifies work
    ensures work[..] == old(work[..])[..at] + EncodeLE(pixel, size) + old(work[..])[at + size..]
  {
    var bytes := EncodeLE(pixel, size);
    ghost var w := work[..];
    for i := 0 to size
      invariant work[..] == w[..at] + bytes[..i] + w[at + i..]
    {
      WriteStep(w, work[..], at, bytes, i);
      work[at + i] := bytes[i];
    }
  }

  /** Writing byte i of `bytes` at `at + i` extends the written prefix. */
  lemma WriteStep(w: seq<bv8>, cur: seq<bv8>, at: nat, bytes: seq<bv8>, i: nat)
    requires i < |bytes| && at + |bytes| <= |w|
    requires cur == w[..at] + bytes[..i] + w[at + i..]
    ensures cur[at + i := bytes[i]] == w[..at] + bytes[..i + 1] + w[at + i + 1..]
  {
    var lhs := cur[at + i := bytes[i]];
    var rhs := w[..at] + bytes[..i + 1] + w[at + i + 1..];
    assert |lhs| == |rhs|;
    forall k | 0 <= k < |lhs|
      ensures lhs[k] == rhs[k]
    {
      if k < at {
      } else if k < at + i {
      } else if k == at + i {
      } else {
      }
    }
  }

  /** One more pixel of the run `pixels` stored after those before it. */
  method AppendPixel(work: array<bv8>, ghost w: seq<bv8>, at: nat, next: nat,
                     ghost pixels: seq<bv32>, ghost k: nat, pixel: bv32, size: nat)
    requires IsPixelSize(size) && k < |pixels| && pixel == pixels[k] && |w| == work.Length
    requires next == at + |EncodeAll(pixels[..k], size)| && next + size <= work.Length
    requires work[..] == w[..at] + EncodeAll(pixels[..k], size) + w[next..]
    modifies work
    ensures work[..] == w[..at] + EncodeAll(pixels[..k + 1], size) + w[next + size..]
  {
    EncodeAllSnoc(pixels, size, k);
    ghost var mid := work[..];
    StorePixel(work, next, pixel, size);
    WriteAfter(w, at, EncodeAll(pixels[..k], size), mid, EncodeLE(pixels[k], size), work[..], EncodeAll(pixels[..k + 1], size));
  }

  /** The inner loop of `addXorBlock`: row y of the delta block stored
      after the rows before it. (Rows are written as `16` pixels rather than
      `BlockWidth` here, which keeps the verifier's arithmetic linear.) */
  method StoreXorRow(work: array<bv8>, ghost w: seq<bv8>, at: nat, start: nat,
                     oldframe: array<bv32>, newframe: array<bv32>, po: int, pn: int, pitch: nat, size: nat, y: nat)
    returns (next: nat)
    requires IsPixelSize(size) && y < BlockHeight && |w| == work.Length
    requires at + 256 * size <= work.Length
    requires BlockInside(oldframe.Length, pitch, po) && BlockInside(newframe.Length, pitch, pn)
    requires var done := EncodeAll(BlockDelta(oldframe[..], newframe[..], po, pn, pitch)[..y * 16], size);
             start == at + |done| && start <= |w| && work[..] == w[..at] + done + w[start..]
    modifies work
    ensures var done := EncodeAll(BlockDelta(oldframe[..], newframe[..], po, pn, pitch)[..(y + 1) * 16], size);
            next == at + |done| && next <= |w| && work[..] == w[..at] + done + w[next..]
  {
    ghost var o, n := oldframe[..], newframe[..];
    ghost var delta := BlockDelta(o, n, po, pn, pitch);
    next := start;
    for x := 0 to BlockWidth
      invariant next == at + |EncodeAll(delta[..y * 16 + x], size)| && next <= |w|
      invariant work[..] == w[..at] + EncodeAll(delta[..y * 16 + x], size) + w[next..]
    {
      next := StoreXorPixel(work, w, at, next, oldframe, newframe, po, pn, pitch, size, y, x);
    }
  }

  /** Pixel x of row y of the delta block: the XOR of the two frames'
      pixels, stored after the pixels before it. */
  method StoreXorPixel(work: array<bv8>, ghost w: seq<bv8>, at: nat, next: nat,
                       oldframe: array<bv32>, newframe: array<bv32>, po: int, pn: int, pitch: nat, size: nat,
                       y: nat, x: nat)
    returns (next': nat)
    requires IsPixelSize(size) && y < BlockHeight && x < BlockWidth && |w| == work.Length
    requires at + 256 * size <= work.Length
    requires BlockInside(oldframe.Length, pitch, po) && BlockInside(newframe.Length, pitch, pn)
    requires var done := EncodeAll(BlockDelta(oldframe[..], newframe[..], po, pn, pitch)[..y * 16 + x], size);
             next == at + |done| && next <= |w| && work[..] == w[..at] + done + w[next..]
    modifies work
    ensures var done := EncodeAll(BlockDelta(oldframe[..], newframe[..], po, pn, pitch)[..y * 16 + x + 1], size);
            next' == at + |done| && next' <= |w| && work[..] == w[..at] + done + w[next'..]
  {
    ghost var o, n := oldframe[..], newframe[..];
    ghost var delta := BlockDelta(o, n, po, pn, pitch);
    XorPixelReady(o, n, po, pn, pitch, size, y, x, at, next, work.Length);
    var pxor := newframe[pn + y * pitch + x] ^ oldframe[po + y * pitch + x];
    AppendPixel(work, w, at, next, delta, y * 16 + x, pxor, size);
    next' := next + size;
    EncodeAllLength(delta[..y * 16 + x + 1], size);
  }

  /** The loops of `addXorBlock`: the XOR of the block of `newframe` at
      `pn` with the block of `oldframe` at `po`, stored pixel by pixel
      from `at` on; `next` is the new fill level. */
  method StoreXorBlock(work: array<bv8>, at: nat, oldframe: array<bv32>, newframe: array<bv32>,
                       po: int, pn: int, pitch: nat, size: nat) returns (next: nat)
    requires IsPixelSize(size) && at + 256 * size <= work.Length
    requires BlockInside(oldframe.Length, pitch, po) && BlockInside(newframe.Length, pitch, pn)
    modifies work
    ensures next == at + 256 * size
    ensures work[..] == old(work[..])[..at] + EncodeAll(BlockDelta(old(oldframe[..]), old(newframe[..]), po, pn, pitch), size)
                        + old(work[..])[next..]
  {
    ghost var w := work[..];
    ghost var delta := BlockDelta(oldframe[..], newframe[..], po, pn, pitch);
    next := at;
    for y := 0 to BlockHeight
      invariant next == at + |EncodeAll(delta[..y * 16], size)| && next <= |w|
      invariant work[..] == w[..at] + EncodeAll(delta[..y * 16], size) + w[next..]
    {
      next := StoreXorRow(work, w, at, next, oldframe, newframe, po, pn, pitch, size, y);
    }
    assert delta[..16 * 16] == delta;
    EncodeAllLength(delta, size);
  }

  /** `vectors[b * 2 + 0] = bestvx << 1; vectors[b * 2 + 1] = bestvy << 1`
      and, for a changed block, `vectors[b * 2 + 0] |= 1`: the next two
      vector bytes of a delta frame. */
  method WriteBlockVector(work: array<bv8>, b: nat, start: nat, c: Choice)
    requires InVectorFamily(c.v)
    requires start + 2 * b + 2 <= work.Length
    modifies work
    ensures -64 <= c.v.x < 64 && -64 <= c.v.y < 64
    ensures work[..] == old(work[..])[start + 2 * b := VectorByte(c.v.x, c.change != 0)][start + 2 * b + 1 := VectorByte(c.v.y, false)]
  {
    FamilyBounds(c.v);
    ghost var w := work[..];
    var p := start + 2 * b;
    var xb, yb := VectorByte(c.v.x, false), VectorByte(c.v.y, false);
    work[p] := xb;
    work[p + 1] := yb;
    assert work[..] == w[p := xb][p + 1 := yb];
    if c.change != 0 {
      SetLowBit(c.v.x);
      work[p] := xb | 1;
      assert work[..] == w[p := xb | 1][p + 1 := yb];
    }
  }


  /** The two vector bytes of block b written into the delta layout. */
  method PutBlockVector(work: array<bv8>, b: nat, start: nat, ghost aligned: nat, ghost w: seq<bv8>,
                        ghost vectors: seq<bv8>, ghost data: seq<bv8>, c: Choice)
    requires InVectorFamily(c.v) && |vectors| == 2 * b && start + 2 * b + 2 <= aligned
    requires aligned + |data| <= |w| == work.Length && work[..] == DeltaLayout(w, start, aligned, vectors, data)
    modifies work
    ensures -64 <= c.v.x < 64 && -64 <= c.v.y < 64
    ensures work[..] == DeltaLayout(w, start, aligned, vectors + [VectorByte(c.v.x, c.change != 0), VectorByte(c.v.y, false)], data)
  {
    WriteBlockVector(work, b, start, c);
    DeltaLayoutVector(w, start, aligned, vectors, data, VectorByte(c.v.x, c.change != 0), VectorByte(c.v.y, false));
  }
  /** The XOR block of a block that changed, stored at the fill level
      `at` of the delta layout; `next` is the new fill level. */
  method AppendXorBlock(work: array<bv8>, at: nat, oldframe: array<bv32>, newframe: array<bv32>,
                        offset: nat, pitch: nat, size: nat, c: Choice,
                        ghost w: seq<bv8>, ghost start: nat, ghost aligned: nat, ghost vectors: seq<bv8>, ghost data: seq<bv8>)
    returns (next: nat)
    requires IsPixelSize(size) && MovableInside(oldframe.Length, pitch, offset) && newframe.Length == oldframe.Length
    requires InVectorFamily(c.v) && c.change != 0
    requires start + |vectors| <= aligned && aligned + |data| + 256 * size <= |w| == work.Length
    requires at == aligned + |data| && work[..] == DeltaLayout(w, start, aligned, vectors, data)
    modifies work
    ensures var data' := data + BlockData(old(oldframe[..]), old(newframe[..]), pitch, size, offset, c);
            next == aligned + |data'| && work[..] == DeltaLayout(w, start, aligned, vectors, data')
  {
    var po := offset + c.v.y * pitch + c.v.x;
    assert BlockInside(oldframe.Length, pitch, po) && BlockInside(newframe.Length, pitch, offset) by {
      MovedInside(oldframe.Length, pitch, offset, c.v);
      MovedInside(oldframe.Length, pitch, offset, CodecVector(0, 0));
    }
    ghost var o, n := oldframe[..], newframe[..];
    ghost var e := BlockData(o, n, pitch, size, offset, c);
    assert e == EncodeAll(BlockDelta(o, n, po, offset, pitch), size) && |e| == 256 * size by {
      BlockDataChanged(o, n, pitch, size, offset, c, c.v.x, c.v.y);
    }
    ghost var before := work[..];
    next := StoreXorBlock(work, at, oldframe, newframe, po, offset, pitch, size);
    DeltaLayoutStored(w, start, aligned, vectors, data, e, before, work[..], at, next);
  }

  /** One line of `addFullFrame`: pixels d .. d + width of the run
      `pixels`, which are the `width` pixels of `frame` from `row` on,
      stored after the pixels before them. */
  method StoreFullRow(work: array<bv8>, ghost w: seq<bv8>, at: nat, start: nat, frame: array<bv32>, ghost s: seq<bv32>,
                      row: nat, width: nat, size: nat, ghost pixels: seq<bv32>, ghost d: nat)
    returns (next: nat)
    requires IsPixelSize(size) && |w| == work.Length && d + width == |pixels|
    requires frame[..] == s && row + width <= |s|
    requires forall k :: d <= k < |pixels| ==> pixels[k] == s[row + (k - d)]
    requires at + |EncodeAll(pixels, size)| <= work.Length
    requires start == at + |EncodeAll(pixels[..d], size)| && start <= |w|
    requires work[..] == w[..at] + EncodeAll(pixels[..d], size) + w[start..]
    modifies work
    ensures next == at + |EncodeAll(pixels, size)| && work[..] == w[..at] + EncodeAll(pixels, size) + w[next..]
  {
    next := start;
    for x := 0 to width
      invariant next == at + |EncodeAll(pixels[..d + x], size)| && next <= |w|
      invariant work[..] == w[..at] + EncodeAll(pixels[..d + x], size) + w[next..]
    {
      next := StoreRowPixel(work, w, at, next, frame, row + x, size, pixels, d + x);
    }
    assert pixels[..d + width] == pixels;
  }

  /** Pixel k of the run `pixels`, read from `frame` at `from`, stored
      after the pixels before it. */
  method StoreRowPixel(work: array<bv8>, ghost w: seq<bv8>, at: nat, next: nat, frame: array<bv32>, from: nat,
                       size: nat, ghost pixels: seq<bv32>, ghost k: nat)
    returns (next': nat)
    requires IsPixelSize(size) && |w| == work.Length && k < |pixels|
    requires from < frame.Length && frame[from] == pixels[k]
    requires at + |EncodeAll(pixels, size)| <= work.Length
    requires next == at + |EncodeAll(pixels[..k], size)| && next <= |w|
    requires work[..] == w[..at] + EncodeAll(pixels[..k], size) + w[next..]
    modifies work
    ensures next' == at + |EncodeAll(pixels[..k + 1], size)| && next' <= |w|
    ensures work[..] == w[..at] + EncodeAll(pixels[..k + 1], size) + w[next'..]
  {
    EncodeRoom(pixels, k, size, at, work.Length);
    AppendPixel(work, w, at, next, pixels, k, frame[from], size);
    next' := next + size;
    EncodeAllSnoc(pixels, size, k);
  }

  /** The lines of `addFullFrame`: the picture of `frame` whose first
      pixel is `base`, stored line by line from `at` on. */
  method StorePicture(work: array<bv8>, at: nat, frame: array<bv32>, base: nat, pitch: nat, width: nat, height: nat, size: nat)
    returns (next: nat)
    requires IsPixelSize(size) && (height == 0 || base + (height - 1) * pitch + width <= frame.Length)
    requires at + height * width * size <= work.Length
    modifies work
    ensures next == at + height * width * size
    ensures work[..] == old(work[..])[..at] + EncodeAll(Picture(frame[..], base, pitch, width, height), size) + old(work[..])[next..]
  {
    ghost var w := work[..];
    ghost var s := frame[..];
    var row := base;
    next := at;
    for i := 0 to height
      invariant row == base + i * pitch
      invariant next == at + |EncodeAll(Picture(s, base, pitch, width, i), size)| && next <= |w|
      invariant work[..] == w[..at] + EncodeAll(Picture(s, base, pitch, width, i), size) + w[next..]
    {
      next, row := StorePictureRow(work, w, at, next, frame, s, base, pitch, width, height, size, i, row);
    }
    assert |EncodeAll(Picture(s, base, pitch, width, height), size)| == height * width * size by {
      PictureLength(s, base, pitch, width, height);
      EncodeAllLength(Picture(s, base, pitch, width, height), size);
    }
  }

  /** One pass of the line loop of `addFullFrame`: picture row i, which
      starts at `row` in `frame`, stored after the rows before it; `row'`
      is the start of the next row. */
  method StorePictureRow(work: array<bv8>, ghost w: seq<bv8>, at: nat, start: nat, frame: array<bv32>, ghost s: seq<bv32>,
                         base: nat, pitch: nat, width: nat, height: nat, size: nat, i: nat, row: nat)
    returns (next: nat, row': nat)
    requires IsPixelSize(size) && i < height && base + (height - 1) * pitch + width <= |s| && frame[..] == s
    requires row == base + i * pitch && at + height * width * size <= |w| == work.Length
    requires start == at + |EncodeAll(Picture(s, base, pitch, width, i), size)| && start <= |w|
    requires work[..] == w[..at] + EncodeAll(Picture(s, base, pitch, width, i), size) + w[start..]
    modifies work
    ensures next == at + |EncodeAll(Picture(s, base, pitch, width, i + 1), size)| && next <= |w|
    ensures work[..] == w[..at] + EncodeAll(Picture(s, base, pitch, width, i + 1), size) + w[next..]
    ensures row' == base + (i + 1) * pitch
  {
    ghost var d := |Picture(s, base, pitch, width, i)|;
    PictureRowReady(s, base, pitch, width, height, size, i, row, d, at, work.Length);
    next := StoreFullRow(work, w, at, start, frame, s, row, width, size, Picture(s, base, pitch, width, i + 1), d);
    row' := row + pitch;
    assert row' == base + (i + 1) * pitch by {
      Distrib(i, 1, pitch);
    }
  }

  /** One `memcpy` of a line into a frame buffer. */
  method CopyLine(frame: array<bv32>, at: nat, line: seq<bv32>)
    requires at + |line| <= frame.Length
    modifies frame
    ensures frame[..] == Splice(old(frame[..]), at, line)
  {
    ghost var s := frame[..];
    for x := 0 to |line|
      invariant frame[..] == s[..at] + line[..x] + s[at + x..]
    {
      frame[at + x] := line[x];
      assert line[..x + 1] == line[..x] + [line[x]];
    }
    assert line[..|line|] == line;
  }

  /** The lines copied into `frame`, line i from `base + i * pitch` on. */
  method PasteLines(frame: array<bv32>, base: nat, pitch: nat, lines: seq<seq<bv32>>)
    requires LinesFit(frame.Length, base, pitch, lines)
    modifies frame
    ensures frame[..] == Paste(old(frame[..]), base, pitch, lines)
  {
    ghost var s := frame[..];
    for i := 0 to |lines|
      invariant frame[..] == Paste(s, base, pitch, lines[..i])
    {
      assert lines[..i + 1][..i] == lines[..i];
      CopyLine(frame, base + i * pitch, lines[i]);
    }
    assert lines[..|lines|] == lines;
  }

  /** A cleared frame buffer of `len` pixels. */
  method NewFrame(len: nat, size: nat) returns (a: array<bv32>)
    requires IsPixelSize(size)
    ensures fresh(a) && a.Length == len
    ensures forall i :: 0 <= i < len ==> a[i] == 0
    ensures AllFit(a[..], size)
  {
    a := new bv32[len](_ => 0);
  }

  /** The block offsets of `setupBuffers` for a picture of the given size,
      with the room they leave in frame and work buffers. */
  method NewGeometry(width: nat, height: nat, size: nat) returns (offsets: seq<nat>)
    requires IsPixelSize(size) && width % BlockWidth == 0 && height % BlockHeight == 0
    requires DeltaRoom(width, height, size)
    ensures Geometry(width, height, size, width + 2 * MaxVector, offsets)
    ensures var pitch, len := width + 2 * MaxVector, FrameLength(width, height, size);
            (forall b :: 0 <= b < |offsets| ==> MovableInside(len, pitch, offsets[b])) &&
            AlignedWorkUsed(0, |offsets|) + RoomFor(|offsets|, size) <= len * size &&
            (height == 0 || PictureBase(pitch) + (height - 1) * pitch + width <= len) &&
            height * width * size <= len * size
  {
    offsets := BuildBlockOffsets(width, height, size);
    GeometryRoom(width, height, size, offsets);
  }

  /** The vector table `createVectorTable` fills, as a value. */
  method NewVectorTable() returns (t: seq<CodecVector>)
    ensures t == VectorTable() && |t| == VectorTabSize
    ensures forall i :: 0 <= i < |t| ==> InVectorFamily(t[i])
  {
    var table := new CodecVector[VectorTabSize];
    CreateVectorTable(table);
    VectorTableInFamily();
    t := table[..];
  }

  /** The work buffer is none of the encoder's other arrays (writing it
      leaves them as they are). */
  ghost predicate Apart(work: array<bv8>, oldframe: array<bv32>, newframe: array<bv32>)
  {
    var w: object := work;
    w != oldframe && w != newframe
  }

  /** The encoder: picture size, pixel format, the two frame buffers that
      are swapped every frame, the work buffer with its fill level, the
      output buffer, the block offsets and the vector table. */
  class Encoder {
    const width: nat
    const height: nat
    const format: Format
    const pixelSize: nat
    const pitch: nat
    const blockOffsets: seq<nat>
    /** The file-level `vectorTable`, filled once per encoder and only
        read afterwards. */
    const vectorTable: seq<CodecVector>
    const work: array<bv8>
    const outputSize: nat
    /** The pixels in each frame buffer. */
    const frameLength: nat
    const output: array<bv8>
    var oldframe: array<bv32>
    var newframe: array<bv32>
    var workUsed: nat

    ghost predicate Valid()
      reads this`oldframe, this`newframe, oldframe, newframe
    {
      IsPixelSize(pixelSize) && pixelSize == PixelSizeOf(format) &&
      pitch == width + 2 * MaxVector &&
      oldframe.Length == frameLength && newframe.Length == frameLength &&
      oldframe != newframe && work != output &&
      Apart(work, oldframe, newframe) &&
      output.Length == outputSize && outputSize >= 1 + 6 &&
      |vectorTable| == VectorTabSize &&
      multiset(vectorTable) == multiset(VectorTable()) &&
      (forall i :: 0 <= i < |vectorTable| ==> InVectorFamily(vectorTable[i])) &&
      AllFit(oldframe[..], pixelSize) && AllFit(newframe[..], pixelSize) &&
      Room()
    }

    /** What the geometry guarantees the encoding loops: every block can
        be moved by any vector, the picture rows lie inside a frame buffer,
        and the work buffer has room for a delta frame in which every block
        changed and for a full frame. */
    ghost predicate Room()
    {
      (forall b :: 0 <= b < |blockOffsets| ==> MovableInside(frameLength, pitch, blockOffsets[b])) &&
      AlignedWorkUsed(0, |blockOffsets|) + RoomFor(|blockOffsets|, pixelSize) <= work.Length &&
      (height == 0 || PictureBase(pitch) + (height - 1) * pitch + width <= frameLength) &&
      height * width * pixelSize <= work.Length
    }

    /** The constructor with `setupBuffers` and `createVectorTable`: both
        frames cleared, one offset per block, the output buffer sized by
        `neededSize`. The buffer sizes are computed in 32 bits, so they
        must not wrap. */
    constructor (width: nat, height: nat, bpp: nat)
      requires IsBpp(bpp) && width % BlockWidth == 0 && height % BlockHeight == 0
      requires FrameLength(width, height, PixelSizeOf(FormatOf(bpp))) * PixelSizeOf(FormatOf(bpp)) < U32
      requires NeededSizeExact(PixelSizeOf(FormatOf(bpp)), width, height) < U32
      requires DeltaRoom(width, height, PixelSizeOf(FormatOf(bpp)))
      ensures Valid()
      ensures fresh(work) && fresh(output) && fresh(oldframe) && fresh(newframe)
      ensures this.width == width && this.height == height && format == FormatOf(bpp)
      ensures pixelSize == (if bpp == 32 then 4 else 2) && pitch == width + 2 * MaxVector
      ensures Geometry(width, height, pixelSize, pitch, blockOffsets)
      ensures frameLength == FrameLength(width, height, pixelSize) && work.Length == frameLength * pixelSize
      ensures forall i :: 0 <= i < frameLength ==> oldframe[i] == 0 && newframe[i] == 0
      ensures vectorTable == VectorTable()
      ensures outputSize == NeededSize(pixelSize, width, height)
      ensures workUsed == 0
    {
      var f := FormatOf(bpp);
      var size := PixelSizeOf(f);
      var len := FrameLength(width, height, size);
      var o := NewFrame(len, size);
      var n := NewFrame(len, size);
      var w := new bv8[len * size];
      assert NeededSize(size, width, height) >= 1 + 6 by {
        NeededSizeCovers(size, width, height);
        MulLeft(0, size, width);
        MulLeft(0, size * width, height);
      }
      var out := new bv8[NeededSize(size, width, height)];
      var offsets := NewGeometry(width, height, size);
      var table := NewVectorTable();
      this.width := width;
      this.height := height;
      format := f;
      pixelSize := size;
      pitch := width + 2 * MaxVector;
      frameLength := len;
      oldframe := o;
      newframe := n;
      work := w;
      outputSize := NeededSize(size, width, height);
      output := out;
      blockOffsets := offsets;
      vectorTable := table;
      workUsed := 0;
    }

    /** `compareBlock`: the number of pixels of the new block at `offset`
        that differ from the old block moved by (vx, vy). */
    method CompareBlock(vx: int, vy: int, offset: nat) returns (r: nat)
      requires Valid()
      requires BlockInside(oldframe.Length, pitch, offset + vy * pitch + vx)
      requires BlockInside(newframe.Length, pitch, offset)
      ensures r == CompareDiff(oldframe[..], newframe[..], offset, vx, vy, pitch)
    {
      CellsInBlock(oldframe.Length, pitch, offset + vy * pitch + vx);
      CellsInBlock(newframe.Length, pitch, offset);
      r := CountBlock(oldframe, newframe, offset, vx, vy, pitch, pitch, BlockHeight, BlockWidth, 1);
    }

    /** `possibleBlock`: the same count over every fourth row and column. */
    method PossibleBlock(vx: int, vy: int, offset: nat) returns (r: nat)
      requires Valid()
      requires BlockInside(oldframe.Length, pitch, offset + vy * pitch + vx)
      requires BlockInside(newframe.Length, pitch, offset)
      ensures r == SampleDiff(oldframe[..], newframe[..], offset, vx, vy, pitch)
    {
      CellsInBlock(oldframe.Length, pitch, offset + vy * pitch + vx);
      CellsInBlock(newframe.Length, pitch, offset);
      r := CountBlock(oldframe, newframe, offset, vx, vy, pitch, 4 * pitch, BlockHeight / 4, BlockWidth / 4, 4);
    }

    /** The search of `addXorFrame` for one block: first the vector of the
        previous block, then, while that one differs in 4 pixels or more,
        the table vectors that pass `possibleBlock`, at most 64 of them,
        stopping early at one that differs in fewer than 4 pixels. */
    method ChooseVector(offset: nat, prev: CodecVector) returns (c: Choice)
      requires Valid() && MovableInside(oldframe.Length, pitch, offset) && InVectorFamily(prev)
      ensures GoodChoice(oldframe[..], newframe[..], pitch, offset, prev, c, vectorTable)
    {
      MovedInside(oldframe.Length, pitch, offset, prev);
      MovedInside(oldframe.Length, pitch, offset, CodecVector(0, 0));
      ghost var o, n := oldframe[..], newframe[..];
      var bestvx, bestvy := prev.x, prev.y;
      var bestchange := CompareBlock(prev.x, prev.y, offset);
      ghost var first := bestchange;
      if bestchange >= 4 {
        var possibles := 64;
        for v := 0 to VectorTabSize
          invariant InVectorFamily(CodecVector(bestvx, bestvy))
          invariant bestchange == CompareDiff(o, n, offset, bestvx, bestvy, pitch) && bestchange <= first
          invariant CodecVector(bestvx, bestvy) != prev ==>
                      CodecVector(bestvx, bestvy) in vectorTable &&
                      SampleDiff(o, n, offset, bestvx, bestvy, pitch) < 4 && bestchange < first
        {
          var vx, vy := vectorTable[v].x, vectorTable[v].y;
          assert vectorTable[v] == CodecVector(vx, vy);
          MovedInside(oldframe.Length, pitch, offset, CodecVector(vx, vy));
          var sample := PossibleBlock(vx, vy, offset);
          if sample < 4 {
            var testchange := CompareBlock(vx, vy, offset);
            if testchange < bestchange {
              bestchange := testchange;
              bestvx, bestvy := vx, vy;
              if bestchange < 4 {
                break;
              }
            }
            possibles := possibles - 1;
            if possibles == 0 {
              break;
            }
          }
        }
      }
      c := Choice(CodecVector(bestvx, bestvy), bestchange);
    }

    /** `addXorBlock`: the 256 pixels new XOR old-moved-by-(vx, vy) of the
        block at `offset`, row by row, appended to the work buffer. */
    method AddXorBlock(vx: int, vy: int, offset: nat)
      requires Valid()
      requires BlockInside(oldframe.Length, pitch, offset + vy * pitch + vx)
      requires BlockInside(newframe.Length, pitch, offset)
      requires workUsed + 256 * pixelSize <= work.Length
      modifies work, this`workUsed
      ensures workUsed == old(workUsed) + 256 * pixelSize
      ensures work[..] == old(work[..])[..old(workUsed)]
                          + EncodeAll(BlockDelta(old(oldframe[..]), old(newframe[..]), offset + vy * pitch + vx, offset, pitch), pixelSize)
                          + old(work[..])[workUsed..]
    {
      workUsed := StoreXorBlock(work, workUsed, oldframe, newframe, offset + vy * pitch + vx, offset, pitch, pixelSize);
    }

    /** One pass of the block loop of `addXorFrame`: the vector search for
        block b, its two vector bytes at `start + 2 * b` and, when the block
        changed, the flag bit and its XOR block. */
    method AddBlockDelta(b: nat, start: nat, aligned: nat, ghost w: seq<bv8>, ghost vectors: seq<bv8>, ghost data: seq<bv8>,
                         bestvx: int, bestvy: int) returns (c: Choice)
      requires Valid()
      requires b < |blockOffsets| && |vectors| == 2 * b && aligned == AlignedWorkUsed(start, |blockOffsets|)
      requires InVectorFamily(CodecVector(bestvx, bestvy))
      requires aligned + |data| + 256 * pixelSize <= |w| == work.Length && workUsed == aligned + |data|
      requires work[..] == DeltaLayout(w, start, aligned, vectors, data)
      modifies work, this`workUsed
      ensures GoodChoice(old(oldframe[..]), old(newframe[..]), pitch, blockOffsets[b], CodecVector(bestvx, bestvy), c, vectorTable)
      ensures -64 <= c.v.x < 64 && -64 <= c.v.y < 64
      ensures var data' := data + BlockData(old(oldframe[..]), old(newframe[..]), pitch, pixelSize, blockOffsets[b], c);
              workUsed == aligned + |data'| &&
              work[..] == DeltaLayout(w, start, aligned, vectors + [VectorByte(c.v.x, c.change != 0), VectorByte(c.v.y, false)], data')
    {
      var offset := blockOffsets[b];
      c := ChooseVector(offset, CodecVector(bestvx, bestvy));
      ghost var o, n, table := oldframe[..], newframe[..], vectorTable;
      PutBlockVector(work, b, start, aligned, w, vectors, data, c);
      if c.change != 0 {
        workUsed := AppendXorBlock(work, workUsed, oldframe, newframe, offset, pitch, pixelSize, c,
                                   w, start, aligned, vectors + [VectorByte(c.v.x, true), VectorByte(c.v.y, false)], data);
      } else {
        assert data + BlockData(o, n, pitch, pixelSize, offset, c) == data;
      }
    }

    /** `addXorFrame`: the block vectors from `workUsed` on, then, from the
        next 4-byte boundary on, the XOR blocks of the blocks that changed.
        The bytes between the vectors and the boundary are left as they were. */
    method AddXorFrame() returns (ghost choices: seq<Choice>)
      requires Valid()
      requires AlignedWorkUsed(workUsed, |blockOffsets|) + RoomFor(|blockOffsets|, pixelSize) <= work.Length
      modifies work, this`workUsed
      ensures |choices| == |blockOffsets| && AllInFamily(choices)
      ensures GoodChoices(oldframe[..], newframe[..], pitch, blockOffsets, choices, vectorTable)
      ensures workUsed <= work.Length
      ensures var data := XorFrameData(oldframe[..], newframe[..], pitch, pixelSize, blockOffsets, choices);
              var aligned := AlignedWorkUsed(old(workUsed), |blockOffsets|);
              workUsed == aligned + |data| &&
              work[..] == DeltaLayout(old(work[..]), old(workUsed), aligned, VectorBytes(choices), data)
    {
      var start := workUsed;
      var blockcount := |blockOffsets|;
      ghost var w := work[..];
      ghost var o, n, table := oldframe[..], newframe[..], vectorTable;
      ghost var blockBytes := 256 * pixelSize;
      workUsed := AlignedWorkUsed(start, blockcount);
      var aligned := workUsed;
      DeltaProgressStart(o, n, pitch, pixelSize, blockOffsets, table, w, start, aligned);
      var bestvx, bestvy := 0, 0;
      choices := [];
      for b := 0 to blockcount
        invariant |choices| == b && CodecVector(bestvx, bestvy) == Previous(choices, b)
        invariant DeltaProgress(o, n, pitch, pixelSize, blockOffsets, table, w, start, aligned, choices, workUsed, work[..])
        invariant |w| == work.Length
        invariant oldframe[..] == o && newframe[..] == n
      {
        ghost var data := XorFrameData(o, n, pitch, pixelSize, blockOffsets[..b], choices);
        ghost var used := workUsed;
        ghost var before := work[..];
        assert RoomFor(blockcount - b, pixelSize) == RoomFor(blockcount - b - 1, pixelSize) + 256 * pixelSize;
        var c := AddBlockDelta(b, start, aligned, w, VectorBytes(choices), data, bestvx, bestvy);
        DeltaProgressStep(o, n, pitch, pixelSize, blockOffsets, table, w, start, aligned, choices, used, before, c, workUsed, work[..]);
        choices := choices + [c];
        bestvx, bestvy := c.v.x, c.v.y;
      }
      assert blockOffsets[..blockcount] == blockOffsets;
    }

    /** `addFullFrame`: the picture of the new frame, line by line, stored
        into the work buffer from `workUsed` on. */
    method AddFullFrame()
      requires IsPixelSize(pixelSize)
      requires height == 0 || PictureBase(pitch) + (height - 1) * pitch + width <= newframe.Length
      requires workUsed + height * width * pixelSize <= work.Length
      modifies work, this`workUsed
      ensures workUsed == old(workUsed) + height * width * pixelSize
      ensures work[..] == old(work[..])[..old(workUsed)]
                          + EncodeAll(Picture(newframe[..], PictureBase(pitch), pitch, width, height), pixelSize)
                          + old(work[..])[workUsed..]
    {
      workUsed := StorePicture(work, workUsed, newframe, PictureBase(pitch), pitch, width, height, pixelSize);
    }

    /** The copy loop of `compressFrame`: line i of the picture into the new
        frame from `PictureBase(pitch) + i * pitch` on. */
    method CopyLines(lines: seq<seq<bv32>>)
      requires Valid() && |lines| == height && LinesOf(lines, width, pixelSize)
      modifies newframe
      ensures Valid()
      ensures LinesFit(newframe.Length, PictureBase(pitch), pitch, lines)
      ensures newframe[..] == Paste(old(newframe[..]), PictureBase(pitch), pitch, lines)
    {
      LinesBelow(PictureBase(pitch), pitch, width, height, newframe.Length, lines);
      PasteLines(newframe, PictureBase(pitch), pitch, lines);
      PasteFits(old(newframe[..]), PictureBase(pitch), pitch, lines, pixelSize);
    }

    /** `compressFrame` up to the deflate call: the frames swap, the flag
        byte and, for a keyframe, the 6-byte header go into the output
        buffer, the new picture is copied in, and the work buffer receives
        the full frame or the delta frame. `writeDone` is where the
        compressed data would start. */
    method CompressFrame(keyFrame: bool, lines: seq<seq<bv32>>) returns (writeDone: nat, ghost choices: seq<Choice>)
      requires Valid() && |lines| == height && LinesOf(lines, width, pixelSize)
      modifies this`oldframe, this`newframe, this`workUsed, oldframe, work, output
      ensures Valid()
      ensures oldframe == old(newframe) && newframe == old(oldframe)
      ensures LinesFit(newframe.Length, PictureBase(pitch), pitch, lines)
      ensures newframe[..] == Paste(old(oldframe[..]), PictureBase(pitch), pitch, lines)
      ensures Picture(newframe[..], PictureBase(pitch), pitch, width, height) == Flatten(lines)
      ensures output[0] == if keyFrame then FlagKeyframe else 0
      ensures writeDone == if keyFrame then 7 else 1
      ensures keyFrame ==> output[1..7] == KeyframeHeader(format)
      ensures keyFrame ==> workUsed == height * width * pixelSize &&
                           work[..workUsed] == EncodeAll(Flatten(lines), pixelSize)
      ensures !keyFrame ==>
                |choices| == |blockOffsets| && AllInFamily(choices) &&
                GoodChoices(oldframe[..], newframe[..], pitch, blockOffsets, choices, vectorTable) &&
                var data := XorFrameData(oldframe[..], newframe[..], pitch, pixelSize, blockOffsets, choices);
                var aligned := AlignedWorkUsed(0, |blockOffsets|);
                workUsed == aligned + |data| && workUsed <= work.Length &&
                work[..] == DeltaLayout(old(work[..]), 0, aligned, VectorBytes(choices), data)
    {
      oldframe, newframe := newframe, oldframe;
      workUsed := 0;
      writeDone := WriteFrameHeader(keyFrame);
      CopyLines(lines);
      PictureOfPaste(old(oldframe[..]), PictureBase(pitch), pitch, width, lines);
      choices := FillWork(keyFrame);
    }

    /** The flag byte and, for a keyframe, the 6-byte header; returns the
        number of bytes written. */
    method WriteFrameHeader(keyFrame: bool) returns (writeDone: nat)
      requires output.Length >= 7
      modifies output
      ensures output[0] == if keyFrame then FlagKeyframe else 0
      ensures writeDone == if keyFrame then 7 else 1
      ensures keyFrame ==> output[1..7] == KeyframeHeader(format)
    {
      writeDone := 1;
      output[0] := 0;
      if keyFrame {
        output[0] := output[0] | FlagKeyframe;
        output[1] := VersionHigh;
        output[2] := VersionLow;
        output[3] := CompressionZlib;
        output[4] := FormatByte(format);
        output[5] := 16;
        output[6] := 16;
        writeDone := writeDone + 6;
        assert output[1..7] == KeyframeHeader(format);
      }
    }

    /** The work buffer of a frame, from its start: the full frame for a
        keyframe, the delta frame otherwise. */
    method FillWork(keyFrame: bool) returns (ghost choices: seq<Choice>)
      requires Valid() && workUsed == 0
      modifies work, this`workUsed
      ensures keyFrame ==> workUsed == height * width * pixelSize &&
                           work[..workUsed] == EncodeAll(Picture(newframe[..], PictureBase(pitch), pitch, width, height), pixelSize)
      ensures !keyFrame ==>
                |choices| == |blockOffsets| && AllInFamily(choices) &&
                GoodChoices(oldframe[..], newframe[..], pitch, blockOffsets, choices, vectorTable) &&
                var data := XorFrameData(oldframe[..], newframe[..], pitch, pixelSize, blockOffsets, choices);
                var aligned := AlignedWorkUsed(0, |blockOffsets|);
                workUsed == aligned + |data| && workUsed <= work.Length &&
                work[..] == DeltaLayout(old(work[..]), 0, aligned, VectorBytes(choices), data)
    {
      choices := [];
      if keyFrame {
        assert IsPixelSize(pixelSize) && Room();
        AddFullFrame();
        assert work[..workUsed] == EncodeAll(Picture(newframe[..], PictureBase(pitch), pitch, width, height), pixelSize);
      } else {
        choices := AddXorFrame();
      }
    }
  }
}
