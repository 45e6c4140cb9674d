/*
 * The value-level parts of the ZMBV (DOSBox capture codec) frame encoder
 * in src/video/ZMBVEncoder.cc: byte order of pixels, the motion-vector
 * table, the buffer-size arithmetic, the block-offset layout, the block
 * difference counts and the encoding of the work buffer.
 */
module ZmbvFormat {

  const MaxVector: nat := 16
  const BlockWidth: nat := MaxVector
  const BlockHeight: nat := MaxVector
  const FlagKeyframe: bv8 := 0x01
  const VersionHigh: bv8 := 0
  const VersionLow: bv8 := 1
  const CompressionZlib: bv8 := 1

  /** `VECTOR_TAB_SIZE`: the centre, 8 per magnitude on the axes and
      diagonals, and the off-diagonal vectors of magnitude up to 8. */
  const VectorTabSize: nat := 1 + 8 * MaxVector + MaxVector * MaxVector - 2 * MaxVector

  const U32: nat := 0x1_0000_0000

  /** The pixel formats the encoder accepts, as written into the keyframe
      header. */
  datatype Format = Format15 | Format16 | Format32

  /** The format code of the ZMBV stream format (15 bpp is 5, 16 bpp is 6,
      32 bpp is 8). */
  function FormatByte(f: Format): bv8
  {
    match f
    case Format15 => 5
    case Format16 => 6
    case Format32 => 8
  }

  /** The bits per pixel `setupBuffers` accepts; anything else is unreachable. */
  predicate IsBpp(bpp: nat)
  {
    bpp == 15 || bpp == 16 || bpp == 32
  }

  function FormatOf(bpp: nat): (f: Format)
    requires IsBpp(bpp)
    ensures bpp == 15 <==> f == Format15
    ensures bpp == 16 <==> f == Format16
    ensures bpp == 32 <==> f == Format32
  {
    if bpp == 15 then Format15 else if bpp == 16 then Format16 else Format32
  }

  /** Bytes per pixel: two for 15 and 16 bpp, four for 32 bpp. */
  function PixelSizeOf(f: Format): (size: nat)
    ensures size == 2 <==> f != Format32
    ensures size == 4 <==> f == Format32
  {
    if f == Format32 then 4 else 2
  }

  /** The six bytes of the keyframe header: version 0.1, zlib, the format
      code and the 16x16 block size. */
  function KeyframeHeader(f: Format): (h: seq<bv8>)
    ensures |h| == 6
    ensures h[0] == VersionHigh && h[1] == VersionLow && h[2] == CompressionZlib
    ensures h[3] == FormatByte(f) && h[4] as int == BlockWidth && h[5] as int == BlockHeight
  {
    [VersionHigh, VersionLow, CompressionZlib, FormatByte(f), 16, 16]
  }

  // ---------------------------------------------------------------------
  // Pixel byte order

  /** The 16-bit `pixelBEtoLE`. */
  function PixelBEtoLE16(pixel: bv16): (r: bv16)
    ensures r & 0xFF == pixel >> 8
    ensures r >> 8 == pixel & 0xFF
  {
    (pixel >> 8) | (pixel << 8)
  }

  /** The 32-bit `pixelBEtoLE`: the four bytes in reverse order. */
  function PixelBEtoLE32(pixel: bv32): (r: bv32)
    ensures r >> 24 == pixel & 0xFF
    ensures (r >> 16) & 0xFF == (pixel >> 8) & 0xFF
    ensures (r >> 8) & 0xFF == (pixel >> 16) & 0xFF
    ensures r & 0xFF == pixel >> 24
  {
    (pixel << 24) | ((pixel << 8) & 0x00FF_0000) | ((pixel >> 8) & 0x0000_FF00) | (pixel >> 24)
  }

  lemma PixelBEtoLE16Involution(pixel: bv16)
    ensures PixelBEtoLE16(PixelBEtoLE16(pixel)) == pixel
  {
  }

  lemma PixelBEtoLE32Involution(pixel: bv32)
    ensures PixelBEtoLE32(PixelBEtoLE32(pixel)) == pixel
  {
  }

  // ---------------------------------------------------------------------
  // Pixels in the work buffer (a little-endian host)

  predicate IsPixelSize(size: nat)
  {
    size == 2 || size == 4
  }

  /** A value of the pixel type of `size` bytes: `unsigned short` or `unsigned int`. */
  predicate Fits(pixel: bv32, size: nat)
  {
    size == 4 || pixel <= 0xFFFF
  }

  /** Every pixel of a frame buffer is a value of the pixel type. */
  predicate AllFit(s: seq<bv32>, size: nat)
  {
    forall i :: 0 <= i < |s| ==> Fits(s[i], size)
  }

  lemma FitsAt(s: seq<bv32>, size: nat, i: int)
    requires AllFit(s, size)
    ensures Fits(At(s, i), size)
  {
  }

  /** The bytes a `size`-byte pixel occupies in memory, lowest address first. */
  function EncodeLE(pixel: bv32, size: nat): (r: seq<bv8>)
    requires IsPixelSize(size)
    ensures |r| == size
  {
    if size == 2 then [(pixel & 0xFF) as bv8, ((pixel >> 8) & 0xFF) as bv8]
    else [(pixel & 0xFF) as bv8, ((pixel >> 8) & 0xFF) as bv8, ((pixel >> 16) & 0xFF) as bv8, (pixel >> 24) as bv8]
  }

  /** Reading a pixel back from its bytes. */
  function DecodeLE(bytes: seq<bv8>): (r: bv32)
    requires |bytes| == 2 || |bytes| == 4
  {
    if |bytes| == 2 then (bytes[0] as bv32) | ((bytes[1] as bv32) << 8)
    else (bytes[0] as bv32) | ((bytes[1] as bv32) << 8) | ((bytes[2] as bv32) << 16) | ((bytes[3] as bv32) << 24)
  }

  lemma DecodeEncode(pixel: bv32, size: nat)
    requires IsPixelSize(size) && Fits(pixel, size)
    ensures DecodeLE(EncodeLE(pixel, size)) == pixel
  {
    if size == 2 {
      DecodeEncodeShort(pixel);
    }
  }

  lemma DecodeEncodeShort(pixel: bv32)
    requires pixel <= 0xFFFF
    ensures DecodeLE(EncodeLE(pixel, 2)) == pixel
  {
    var b := EncodeLE(pixel, 2);
    assert b[0] as bv32 == pixel & 0xFF;
    assert b[1] as bv32 == (pixel >> 8) & 0xFF;
  }

  /** XOR of two pixels of one type is a pixel of that type, and XOR-ing
      the delta with the old pixel gives the new one back. */
  lemma XorRecovers(newPixel: bv32, oldPixel: bv32, size: nat)
    requires Fits(newPixel, size) && Fits(oldPixel, size)
    ensures Fits(newPixel ^ oldPixel, size)
    ensures (newPixel ^ oldPixel) ^ oldPixel == newPixel
  {
  }

  // ---------------------------------------------------------------------
  // Motion vectors

  datatype CodecVector = CodecVector(x: int, y: int)

  function Abs(n: int): nat
  {
    if n < 0 then -n else n
  }

  /** The vectors `createVectorTable` produces: the centre, the horizontal,
      vertical and diagonal vectors of magnitude 1..16, and the other
      vectors whose components have magnitude 1..8. */
  predicate InVectorFamily(v: CodecVector)
  {
    (v.x == 0 && v.y == 0) ||
    (v.y == 0 && 1 <= Abs(v.x) <= MaxVector) ||
    (v.x == 0 && 1 <= Abs(v.y) <= MaxVector) ||
    (Abs(v.x) == Abs(v.y) && 1 <= Abs(v.x) <= MaxVector) ||
    (1 <= Abs(v.x) <= MaxVector / 2 && 1 <= Abs(v.y) <= MaxVector / 2 && Abs(v.x) != Abs(v.y))
  }

  function AxisVector(i: int, k: nat): CodecVector
    requires k < 8
  {
    match k
    case 0 => CodecVector(i, 0)
    case 1 => CodecVector(-i, 0)
    case 2 => CodecVector(0, i)
    case 3 => CodecVector(0, -i)
    case 4 => CodecVector(i, i)
    case 5 => CodecVector(-i, i)
    case 6 => CodecVector(i, -i)
    case _ => CodecVector(-i, -i)
  }
  function SignVariant(x: int, y: int, k: nat): CodecVector
    requires k < 4
  {
    match k
    case 0 => CodecVector(x, y)
    case 1 => CodecVector(-x, y)
    case 2 => CodecVector(x, -y)
    case _ => CodecVector(-x, -y)
  }
  function AxisIndex(i: int, k: nat): int { 1 + 8 * (i - 1) + k }
  function PairRank(x: int, y: int): int { (y - 1) * 7 + (x - 1) - (if x > y then 1 else 0) }
  function RestIndex(x: int, y: int, k: nat): int { 1 + 8 * MaxVector + 4 * PairRank(x, y) + k }

  /** The magnitude and direction of table entry i on the axes and diagonals. */
  function AxisPart(i: nat): (r: (int, nat))
    requires 1 <= i <= 8 * MaxVector
    ensures 1 <= r.0 <= MaxVector && r.1 < 8 && AxisIndex(r.0, r.1) == i
  {
    ((i - 1) / 8 + 1, (i - 1) % 8)
  }
  function RestPart(i: nat): (r: (int, int, nat))
    requires 8 * MaxVector < i < VectorTabSize
    ensures 1 <= r.0 <= 8 && 1 <= r.1 <= 8 && r.0 != r.1 && r.2 < 4 && RestIndex(r.0, r.1, r.2) == i
  {
    var q := i - 1 - 8 * MaxVector;
    var pair := q / 4;
    var y := pair / 7 + 1;
    var c := pair % 7;
    (if c + 1 < y then c + 1 else c + 2, y, q % 4)
  }
  function VectorAt(i: nat): (v: CodecVector)
    requires i < VectorTabSize
  {
    if i == 0 then CodecVector(0, 0)
    else if i <= 8 * MaxVector then AxisVector(AxisPart(i).0, AxisPart(i).1)
    else SignVariant(RestPart(i).0, RestPart(i).1, RestPart(i).2)
  }
  lemma AxisInFamily(m: int, k: nat)
    requires 1 <= m <= MaxVector && k < 8
    ensures InVectorFamily(AxisVector(m, k))
  {}
  lemma RestInFamily(x: int, y: int, k: nat)
    requires 1 <= x <= 8 && 1 <= y <= 8 && x != y && k < 4
    ensures InVectorFamily(SignVariant(x, y, k))
  {}
  lemma VectorAtInFamily(i: nat)
    requires i < VectorTabSize
    ensures InVectorFamily(VectorAt(i))
  {
    if 0 < i <= 8 * MaxVector {
      AxisInFamily(AxisPart(i).0, AxisPart(i).1);
    } else if i > 8 * MaxVector {
      RestInFamily(RestPart(i).0, RestPart(i).1, RestPart(i).2);
    }
  }
  lemma AxisIndexUnique(m: int, k: nat, m': int, k': nat)
    requires k < 8 && k' < 8 && AxisIndex(m, k) == AxisIndex(m', k')
    ensures m == m' && k == k'
  {}
  lemma RestIndexUnique(x: int, y: int, k: nat, x': int, y': int, k': nat)
    requires 1 <= x <= 8 && 1 <= y <= 8 && x != y && k < 4
    requires 1 <= x' <= 8 && 1 <= y' <= 8 && x' != y' && k' < 4
    requires RestIndex(x, y, k) == RestIndex(x', y', k')
    ensures x == x' && y == y' && k == k'
  {}

  function IndexOf(v: CodecVector): (i: nat)
    requires InVectorFamily(v)
    ensures i < VectorTabSize
  {
    if v.x == 0 && v.y == 0 then 0
    else if v.y == 0 then AxisIndex(Abs(v.x), if v.x > 0 then 0 else 1)
    else if v.x == 0 then AxisIndex(Abs(v.y), if v.y > 0 then 2 else 3)
    else if Abs(v.x) == Abs(v.y) then
      AxisIndex(Abs(v.x), 4 + (if v.x > 0 then 0 else 1) + (if v.y > 0 then 0 else 2))
    else
      RestIndex(Abs(v.x), Abs(v.y), (if v.x > 0 then 0 else 1) + (if v.y > 0 then 0 else 2))
  }
  lemma IndexOfAxis(m: int, k: nat)
    requires 1 <= m <= MaxVector && k < 8
    ensures InVectorFamily(AxisVector(m, k)) && IndexOf(AxisVector(m, k)) == AxisIndex(m, k)
  {}
  lemma IndexOfRest(x: int, y: int, k: nat)
    requires 1 <= x <= 8 && 1 <= y <= 8 && x != y && k < 4
    ensures InVectorFamily(SignVariant(x, y, k)) && IndexOf(SignVariant(x, y, k)) == RestIndex(x, y, k)
  {}
  lemma VectorAtInjective(i: nat)
    requires i < VectorTabSize
    ensures InVectorFamily(VectorAt(i)) && IndexOf(VectorAt(i)) == i
  {
    if 0 < i <= 8 * MaxVector {
      IndexOfAxis(AxisPart(i).0, AxisPart(i).1);
    } else if i > 8 * MaxVector {
      IndexOfRest(RestPart(i).0, RestPart(i).1, RestPart(i).2);
    }
  }
  lemma IndexOfRoundTrip(v: CodecVector)
    requires InVectorFamily(v)
    ensures VectorAt(IndexOf(v)) == v
  {
    var i := IndexOf(v);
    if v.x == 0 && v.y == 0 {
    } else if v.y == 0 || v.x == 0 || Abs(v.x) == Abs(v.y) {
      var m := if v.x != 0 then Abs(v.x) else Abs(v.y);
      var k := if v.y == 0 then (if v.x > 0 then 0 else 1)
               else if v.x == 0 then (if v.y > 0 then 2 else 3)
               else 4 + (if v.x > 0 then 0 else 1) + (if v.y > 0 then 0 else 2);
      assert i == AxisIndex(m, k);
      AxisIndexUnique(m, k, AxisPart(i).0, AxisPart(i).1);
    } else {
      var k := (if v.x > 0 then 0 else 1) + (if v.y > 0 then 0 else 2);
      assert i == RestIndex(Abs(v.x), Abs(v.y), k);
      RestIndexUnique(Abs(v.x), Abs(v.y), k, RestPart(i).0, RestPart(i).1, RestPart(i).2);
    }
  }

  lemma VectorTableCount()
    ensures VectorTabSize == 353
  {
  }

  /** The table `createVectorTable` fills, in the order it fills it. */
  function VectorTable(): (t: seq<CodecVector>)
    ensures |t| == VectorTabSize
  {
    seq(VectorTabSize, i requires 0 <= i < VectorTabSize => VectorAt(i))
  }

  /** Every entry of the table is in the family. */
  lemma VectorTableInFamily()
    ensures forall i :: 0 <= i < |VectorTable()| ==> InVectorFamily(VectorTable()[i])
  {
    forall i | 0 <= i < |VectorTable()|
      ensures InVectorFamily(VectorTable()[i])
    {
      VectorAtInFamily(i);
    }
  }

  /** The table holds the family described above, every member of it, and
      each member once. */
  lemma VectorTableContents()
    ensures forall i :: 0 <= i < |VectorTable()| ==> InVectorFamily(VectorTable()[i])
    ensures forall v :: InVectorFamily(v) ==> v in VectorTable()
    ensures forall i, j :: 0 <= i < j < |VectorTable()| ==> VectorTable()[i] != VectorTable()[j]
  {
    var t := VectorTable();
    VectorTableInFamily();
    forall v | InVectorFamily(v)
      ensures v in t
    {
      IndexOfRoundTrip(v);
      assert t[IndexOf(v)] == v;
    }
    forall i, j | 0 <= i < j < |t|
      ensures t[i] != t[j]
    {
      VectorAtInjective(i);
      VectorAtInjective(j);
    }
  }

  /** The eight entries for magnitude i, in the order they are written. */
  function AxisEntries(i: int): (r: seq<CodecVector>)
    ensures |r| == 8
  {
    [CodecVector(i, 0), CodecVector(-i, 0), CodecVector(0, i), CodecVector(0, -i),
     CodecVector(i, i), CodecVector(-i, i), CodecVector(i, -i), CodecVector(-i, -i)]
  }

  /** The four entries for the pair (x, y), in the order they are written. */
  function RestEntries(x: int, y: int): (r: seq<CodecVector>)
    ensures |r| == 4
  {
    [CodecVector(x, y), CodecVector(-x, y), CodecVector(x, -y), CodecVector(-x, -y)]
  }

  lemma AxisSlice(i: int)
    requires 1 <= i <= MaxVector
    ensures AxisIndex(i, 0) + 8 <= VectorTabSize
    ensures VectorTable()[AxisIndex(i, 0) .. AxisIndex(i, 0) + 8] == AxisEntries(i)
  {
    var p := AxisIndex(i, 0);
    forall k | 0 <= k < 8
      ensures VectorTable()[p + k] == AxisEntries(i)[k]
    {
      assert p + k == AxisIndex(i, k);
      AxisEntry(i, k);
    }
  }

  lemma RestSlice(x: int, y: int)
    requires 1 <= x <= 8 && 1 <= y <= 8 && x != y
    ensures RestIndex(x, y, 0) + 4 <= VectorTabSize
    ensures VectorTable()[RestIndex(x, y, 0) .. RestIndex(x, y, 0) + 4] == RestEntries(x, y)
  {
    RestEntry(x, y, 0);
    RestEntry(x, y, 1);
    RestEntry(x, y, 2);
    RestEntry(x, y, 3);
    FourAt(VectorTable(), RestIndex(x, y, 0), RestEntries(x, y));
  }

  /** A slice of four equals the four elements it is built from. */
  lemma FourAt<T>(t: seq<T>, p: int, r: seq<T>)
    requires 0 <= p && p + 4 <= |t| && |r| == 4
    requires t[p] == r[0] && t[p + 1] == r[1] && t[p + 2] == r[2] && t[p + 3] == r[3]
    ensures t[p .. p + 4] == r
  {
  }


  lemma RestEntriesAt(x: int, y: int, k: nat)
    requires k < 4
    ensures RestEntries(x, y)[k] == SignVariant(x, y, k)
  {
  }

  lemma AxisEntriesAt(i: int, k: nat)
    requires k < 8
    ensures AxisEntries(i)[k] == AxisVector(i, k)
  {
  }

  /** Entry p + k written in the loop over magnitudes i. */
  lemma AxisEntry(m: int, k: nat)
    requires 1 <= m <= MaxVector && k < 8
    ensures 1 <= AxisIndex(m, k) <= 8 * MaxVector
    ensures VectorAt(AxisIndex(m, k)) == AxisVector(m, k)
    ensures VectorTable()[AxisIndex(m, k)] == AxisEntries(m)[k]
  {
    var i := AxisIndex(m, k);
    AxisIndexUnique(m, k, AxisPart(i).0, AxisPart(i).1);
    AxisEntriesAt(m, k);
  }

  /** Entry p + k written in the loop over the off-diagonal pairs. */
  lemma RestEntry(x: int, y: int, k: nat)
    requires 1 <= x <= 8 && 1 <= y <= 8 && x != y && k < 4
    ensures 8 * MaxVector < RestIndex(x, y, k) < VectorTabSize
    ensures VectorAt(RestIndex(x, y, k)) == SignVariant(x, y, k)
    ensures VectorTable()[RestIndex(x, y, k)] == RestEntries(x, y)[k]
  {
    var i := RestIndex(x, y, k);
    RestIndexUnique(x, y, k, RestPart(i).0, RestPart(i).1, RestPart(i).2);
    RestEntriesAt(x, y, k);
  }

  /** The signed char `component << 1`, with bit 0 set when `flag` holds
      (the shift leaves bit 0 clear, so setting it adds one). */
  function VectorByte(component: int, flag: bool): (b: bv8)
    requires -64 <= component < 64
    ensures var x := 2 * component + (if flag then 1 else 0);
            b as int == if x < 0 then x + 256 else x
  {
    var x := 2 * component + (if flag then 1 else 0);
    var v := if x < 0 then x + 256 else x;
    ToByteValue(v);
    ToByte(v)
  }

  /** The byte that holds the value v, counted up from zero. */
  function ToByte(v: nat): bv8
    requires v < 256
  {
    if v == 0 then 0 else ToByte(v - 1) + 1
  }

  lemma {:induction false} ToByteValue(v: nat)
    requires v < 256
    ensures ToByte(v) as int == v
  {
    if v > 0 {
      ToByteValue(v - 1);
      IncByte(ToByte(v - 1));
    }
  }

  /** Below 255, adding one to a byte adds one to its value. */
  lemma IncByte(b: bv8)
    requires b as int < 255
    ensures (b + 1) as int == b as int + 1
  {
  }

  /** The value of a byte read as a `signed char`. */
  function Signed(b: bv8): int
  {
    if b as int < 128 then b as int else b as int - 256
  }

  /** A decoder recovers the component with an arithmetic shift right, and
      bit 0 tells whether an XOR block follows. */
  lemma VectorByteRoundTrip(component: int, flag: bool)
    requires -64 <= component < 64
    ensures Signed(VectorByte(component, flag)) / 2 == component
    ensures VectorByte(component, flag) as int % 2 == 1 <==> flag
  {
    var n := 2 * component + (if flag then 1 else 0);
    assert n / 2 == component;
  }

  /** `vectors[b * 2] |= 1` on the shifted component gives the flagged byte. */
  lemma SetLowBit(component: int)
    requires -64 <= component < 64
    ensures VectorByte(component, false) | 1 == VectorByte(component, true)
  {
    var b := VectorByte(component, false);
    OrOne(b);
    SameValue(b | 1, VectorByte(component, true));
  }

  lemma OrOne(b: bv8)
    requires b as int % 2 == 0
    ensures (b | 1) as int == b as int + 1
  {
  }

  lemma SameValue(a: bv8, b: bv8)
    requires a as int == b as int
    ensures a == b
  {
  }

  // ---------------------------------------------------------------------
  // Buffer sizes and layout

  /** `neededSize()`, in 32-bit unsigned arithmetic. */
  function NeededSize(pixelSize: nat, width: nat, height: nat): nat
  {
    var f := (pixelSize * width * height + 2 * (1 + width / 8) * (1 + height / 8) + 1024) % U32;
    (f + f / 1000) % U32
  }

  /** `neededSize()` without the 32-bit wrap-around. */
  function NeededSizeExact(pixelSize: nat, width: nat, height: nat): nat
  {
    var f := pixelSize * width * height + 2 * (1 + width / 8) * (1 + height / 8) + 1024;
    f + f / 1000
  }

  /** Without wrap-around the output buffer holds the frame flag byte, the
      keyframe header and a whole frame of raw pixels. */
  lemma NeededSizeCovers(pixelSize: nat, width: nat, height: nat)
    requires NeededSizeExact(pixelSize, width, height) < U32
    ensures NeededSize(pixelSize, width, height) == NeededSizeExact(pixelSize, width, height)
    ensures NeededSize(pixelSize, width, height) >= 1 + 6 + pixelSize * width * height
  {
    var a := pixelSize * width * height;
    var f := a + 2 * (1 + width / 8) * (1 + height / 8) + 1024;
    assert f % U32 == f;
    assert (f + f / 1000) % U32 == f + f / 1000;
  }

  /** The pixels in one frame buffer: the picture plus a 16-pixel border on
      every side, plus the 2048 spare bytes of `bufsize`. */
  function FrameLength(width: nat, height: nat, pixelSize: nat): nat
    requires IsPixelSize(pixelSize)
  {
    (height + 2 * MaxVector) * (width + 2 * MaxVector) + 2048 / pixelSize
  }

  /** The position of pixel (x, y) counted from `base` in rows of `pitch`. */
  function Pix(base: int, pitch: nat, y: int, x: int): int
  {
    base + y * pitch + x
  }

  /** `blockOffsets` entry of the block in column x, row y. */
  function BlockOffset(pitch: nat, y: nat, x: nat): nat
  {
    (y * BlockHeight + MaxVector) * pitch + x * BlockWidth + MaxVector
  }

  /** The index of the block in column x, row y, in row-major order. */
  function BlockIndex(xblocks: nat, y: nat, x: nat): nat
  {
    y * xblocks + x
  }

  /** Every block, moved by any vector of the table, lies inside the frame
      buffer: the 16-pixel border absorbs the largest vectors. */
  lemma BlockInFrame(width: nat, height: nat, pixelSize: nat, y: nat, x: nat, v: CodecVector)
    requires IsPixelSize(pixelSize)
    requires y < height / BlockHeight && x < width / BlockWidth && InVectorFamily(v)
    ensures var pitch := width + 2 * MaxVector;
            BlockInside(FrameLength(width, height, pixelSize), pitch, BlockOffset(pitch, y, x) + v.y * pitch + v.x)
  {
    FamilyBounds(v);
    MovedBlockInFrame(width, height, pixelSize, y, x, v.x, v.y);
  }

  lemma {:induction false} MovedBlockInFrame(width: nat, height: nat, pixelSize: nat, y: nat, x: nat, vx: int, vy: int)
    requires IsPixelSize(pixelSize)
    requires y < height / BlockHeight && x < width / BlockWidth
    requires -16 <= vx <= MaxVector && -16 <= vy <= MaxVector
    ensures var pitch := width + 2 * MaxVector;
            BlockInside(FrameLength(width, height, pixelSize), pitch, BlockOffset(pitch, y, x) + vy * pitch + vx)
  {
    var pitch := width + 2 * MaxVector;
    assert y * 16 + 16 <= height by { BlockFits(y, height); }
    assert x * 16 + 16 <= width by { BlockFits(x, width); }
    var row: nat := y * 16 + 16 + vy;
    var col: nat := x * 16 + 16 + vx;
    var rowStart := row * pitch;
    var start := BlockOffset(pitch, y, x) + vy * pitch + vx;
    assert start == rowStart + col by { Distrib(y * 16 + 16, vy, pitch); }
    assert rowStart + 16 * pitch <= (height + 32) * pitch by {
      Distrib(row, 16, pitch);
      MulLeft(row + 16, height + 32, pitch);
    }
    assert (height + 32) * pitch <= FrameLength(width, height, pixelSize);
    assert col + 15 < pitch;
    assert 0 <= rowStart;
  }

  /** A 16x16 block whose first pixel is `start` lies inside a frame of
      `length` pixels with rows of `pitch`. */
  predicate BlockInside(length: nat, pitch: nat, start: int)
  {
    0 <= start && start + 15 * pitch + 15 < length
  }

  lemma BlockFits(i: nat, length: nat)
    requires i < length / 16
    ensures i * 16 + 16 <= length
  {
    MulLeft(i + 1, length / 16, 16);
  }

  lemma Distrib(a: int, b: int, c: int)
    ensures (a + b) * c == a * c + b * c
  {
  }

  lemma FamilyBounds(v: CodecVector)
    requires InVectorFamily(v)
    ensures -16 <= v.x <= 16 && -16 <= v.y <= 16
  {
  }

  lemma MulLeft(a: nat, b: nat, c: nat)
    requires a <= b
    ensures a * c <= b * c
  {
  }

  /** The number of 16x16 blocks of a picture. */
  function BlockCount(width: nat, height: nat): nat
  {
    (width / BlockWidth) * (height / BlockHeight)
  }

  /** The work buffer holds a delta frame in which every block changed:
      the vectors, the alignment and one XOR block per block. */
  predicate DeltaRoom(width: nat, height: nat, size: nat)
    requires IsPixelSize(size)
  {
    AlignedWorkUsed(0, BlockCount(width, height)) + BlockCount(width, height) * (256 * size)
      <= FrameLength(width, height, size) * size
  }

  /** The work buffer, `bufsize` bytes long, has that room for every
      picture up to 8192 pixels wide. */
  lemma DeltaRoomUpTo8192(width: nat, height: nat, size: nat)
    requires IsPixelSize(size) && width % BlockWidth == 0 && height % BlockHeight == 0
    requires width <= 8192
    ensures DeltaRoom(width, height, size)
  {
    var xb, yb := width / 16, height / 16;
    assert width == 16 * xb && height == 16 * yb;
    assert 2048 / size * size == 2048;
    var frame := (height + 32) * (width + 32);
    assert frame == 256 * xb * yb + 512 * yb + 512 * xb + 1024;
    assert frame * size == 256 * xb * yb * size + 512 * yb * size + 512 * xb * size + 1024 * size;
    MulLeft(xb, 512, yb);
    MulLeft(2, size, 512 * yb);
    assert BlockCount(width, height) * (256 * size) == 256 * xb * yb * size;
  }

  /** `(workUsed + blockcount * 2 + 3) & ~3`: the first 4-byte boundary after
      the motion vectors. */
  function AlignedWorkUsed(workUsed: nat, blockcount: nat): (r: nat)
    ensures r % 4 == 0
    ensures workUsed + 2 * blockcount <= r < workUsed + 2 * blockcount + 4
  {
    var s := workUsed + 2 * blockcount + 3;
    s - s % 4
  }

  /** Clearing the low two bits of an unsigned int rounds it down to a
      multiple of four. */
  lemma MaskRoundsDown(s: bv32)
    ensures s & !3 == s - s % 4
  {
  }

  // ---------------------------------------------------------------------
  // Block comparison

  /** Out-of-range reads are pinned to 0 so that the counting functions are
      total; the methods only read inside the buffers. */
  function At(s: seq<bv32>, i: int): bv32
  {
    if 0 <= i < |s| then s[i] else 0
  }

  /** The number of differing pixels among `cols` pixels `step` apart.
      (Naming `o` in the decreases clause keeps the verifier from unrolling
      calls whose count is a literal.) */
  function RowDiff(o: seq<bv32>, n: seq<bv32>, po: int, pn: int, cols: nat, step: nat): (r: nat)
    ensures r <= cols
    decreases cols, o
  {
    if cols == 0 then 0
    else (if At(o, po) != At(n, pn) then 1 else 0) + RowDiff(o, n, po + step, pn + step, cols - 1, step)
  }

  /** The number of differing pixels in `rows` such rows, `stride` apart. */
  function BlockDiff(o: seq<bv32>, n: seq<bv32>, po: int, pn: int, stride: int, rows: nat, cols: nat, step: nat): (r: nat)
    ensures r <= rows * cols
    decreases rows, o
  {
    if rows == 0 then 0
    else RowDiff(o, n, po, pn, cols, step) + BlockDiff(o, n, po + stride, pn + stride, stride, rows - 1, cols, step)
  }

  /** The pixel in row y, column x of a sampled block. */
  function Cell(base: int, stride: int, step: nat, y: int, x: int): int
  {
    base + y * stride + x * step
  }
  /** Every sampled pixel of a block lies inside a buffer of `length`. */
  predicate CellsInside(length: nat, base: int, stride: int, rows: nat, cols: nat, step: nat)
  {
    forall y, x :: 0 <= y < rows && 0 <= x < cols ==> 0 <= Cell(base, stride, step, y, x) < length
  }

  /** A block inside the buffer has all its pixels, and all its sampled
      pixels, inside. */
  lemma CellsInBlock(length: nat, pitch: nat, base: int)
    requires BlockInside(length, pitch, base)
    ensures CellsInside(length, base, pitch, BlockHeight, BlockWidth, 1)
    ensures CellsInside(length, base, 4 * pitch, BlockHeight / 4, BlockWidth / 4, 4)
  {
    forall y, x | 0 <= y < BlockHeight && 0 <= x < BlockWidth
      ensures 0 <= Cell(base, pitch, 1, y, x) < length
    {
      MulLeft(y, BlockHeight - 1, pitch);
    }
    forall y, x | 0 <= y < BlockHeight / 4 && 0 <= x < BlockWidth / 4
      ensures 0 <= Cell(base, 4 * pitch, 4, y, x) < length
    {
      assert y * (4 * pitch) == (4 * y) * pitch;
      MulLeft(4 * y, BlockHeight - 1, pitch);
    }
  }

  /** Pixel (x, y) of a block inside the buffer is inside. */
  lemma PixelInBlock(length: nat, pitch: nat, base: int, y: nat, x: nat)
    requires BlockInside(length, pitch, base) && y < BlockHeight && x < BlockWidth
    ensures 0 <= base + y * pitch + x < length
  {
    MulLeft(y, BlockHeight - 1, pitch);
  }

  /** Counting one more column at the end of a row. */
  lemma {:induction false} RowDiffSnoc(o: seq<bv32>, n: seq<bv32>, po: int, pn: int, cols: nat, step: nat)
    ensures RowDiff(o, n, po, pn, cols + 1, step)
            == RowDiff(o, n, po, pn, cols, step) + (if At(o, po + cols * step) != At(n, pn + cols * step) then 1 else 0)
    decreases cols
  {
    if cols > 0 {
      RowDiffSnoc(o, n, po + step, pn + step, cols - 1, step);
      assert po + step + (cols - 1) * step == po + cols * step;
      assert pn + step + (cols - 1) * step == pn + cols * step;
    }
  }

  /** Counting one more row at the bottom of a block. */
  lemma {:induction false} BlockDiffSnoc(o: seq<bv32>, n: seq<bv32>, po: int, pn: int, stride: int, rows: nat, cols: nat, step: nat)
    ensures BlockDiff(o, n, po, pn, stride, rows + 1, cols, step)
            == BlockDiff(o, n, po, pn, stride, rows, cols, step) + RowDiff(o, n, po + rows * stride, pn + rows * stride, cols, step)
    decreases rows
  {
    if rows > 0 {
      BlockDiffSnoc(o, n, po + stride, pn + stride, stride, rows - 1, cols, step);
      assert po + stride + (rows - 1) * stride == po + rows * stride;
      assert pn + stride + (rows - 1) * stride == pn + rows * stride;
    }
  }

  /** The sampled pixels of two rows agree. */
  predicate SameRow(o: seq<bv32>, n: seq<bv32>, po: int, pn: int, cols: nat, step: nat)
  {
    forall x :: 0 <= x < cols ==> At(o, Cell(po, 0, step, 0, x)) == At(n, Cell(pn, 0, step, 0, x))
  }
  lemma {:induction false} RowDiffZero(o: seq<bv32>, n: seq<bv32>, po: int, pn: int, cols: nat, step: nat)
    ensures RowDiff(o, n, po, pn, cols, step) == 0 <==> SameRow(o, n, po, pn, cols, step)
    decreases cols
  {
    if cols > 0 {
      RowDiffZero(o, n, po + step, pn + step, cols - 1, step);
      assert Cell(po, 0, step, 0, 0) == po && Cell(pn, 0, step, 0, 0) == pn;
      var qo, qn := po + step, pn + step;
      if SameRow(o, n, po, pn, cols, step) {
        forall x | 0 <= x < cols - 1
          ensures At(o, Cell(qo, 0, step, 0, x)) == At(n, Cell(qn, 0, step, 0, x))
        {
          assert Cell(qo, 0, step, 0, x) == Cell(po, 0, step, 0, x + 1);
          assert Cell(qn, 0, step, 0, x) == Cell(pn, 0, step, 0, x + 1);
        }
      }
      if RowDiff(o, n, po, pn, cols, step) == 0 {
        forall x | 0 <= x < cols
          ensures At(o, Cell(po, 0, step, 0, x)) == At(n, Cell(pn, 0, step, 0, x))
        {
          if x > 0 {
            assert Cell(qo, 0, step, 0, x - 1) == Cell(po, 0, step, 0, x);
            assert Cell(qn, 0, step, 0, x - 1) == Cell(pn, 0, step, 0, x);
          }
        }
      }
    }
  }

  /** The sampled pixels of two blocks agree. */
  predicate SameBlock(o: seq<bv32>, n: seq<bv32>, po: int, pn: int, stride: int, rows: nat, cols: nat, step: nat)
  {
    forall y, x :: 0 <= y < rows && 0 <= x < cols ==>
      At(o, Cell(po, stride, step, y, x)) == At(n, Cell(pn, stride, step, y, x))
  }
  /** A block count is zero exactly when the sampled pixels of the two
      blocks agree. */
  lemma {:induction false} BlockDiffZero(o: seq<bv32>, n: seq<bv32>, po: int, pn: int, stride: int, rows: nat, cols: nat, step: nat)
    ensures BlockDiff(o, n, po, pn, stride, rows, cols, step) == 0 <==> SameBlock(o, n, po, pn, stride, rows, cols, step)
    decreases rows
  {
    if rows > 0 {
      var qo, qn := po + stride, pn + stride;
      RowDiffZero(o, n, po, pn, cols, step);
      BlockDiffZero(o, n, qo, qn, stride, rows - 1, cols, step);
      forall y, x | 0 <= y < rows && 0 <= x < cols
        ensures y == 0 ==> Cell(po, stride, step, y, x) == Cell(po, 0, step, 0, x)
        ensures y == 0 ==> Cell(pn, stride, step, y, x) == Cell(pn, 0, step, 0, x)
        ensures y > 0 ==> Cell(po, stride, step, y, x) == Cell(qo, stride, step, y - 1, x)
        ensures y > 0 ==> Cell(pn, stride, step, y, x) == Cell(qn, stride, step, y - 1, x)
      {
      }
      if SameBlock(o, n, po, pn, stride, rows, cols, step) {
        forall x | 0 <= x < cols
          ensures At(o, Cell(po, 0, step, 0, x)) == At(n, Cell(pn, 0, step, 0, x))
        {
          assert At(o, Cell(po, stride, step, 0, x)) == At(n, Cell(pn, stride, step, 0, x));
        }
        forall y, x | 0 <= y < rows - 1 && 0 <= x < cols
          ensures At(o, Cell(qo, stride, step, y, x)) == At(n, Cell(qn, stride, step, y, x))
        {
          assert At(o, Cell(po, stride, step, y + 1, x)) == At(n, Cell(pn, stride, step, y + 1, x));
        }
      }
    }
  }

  // ---------------------------------------------------------------------
  // XOR blocks

  /** The k-th pixel of a 16x16 block read row by row from `base`. */
  function BlockPixel(s: seq<bv32>, base: int, pitch: nat, k: nat): bv32
  {
    At(s, Pix(base, pitch, k / BlockWidth, k % BlockWidth))
  }

  /** The 256 pixels of the delta block: new XOR old, row by row. */
  function BlockDelta(o: seq<bv32>, n: seq<bv32>, po: int, pn: int, pitch: nat): (r: seq<bv32>)
    ensures |r| == 256
  {
    seq(256, k requires 0 <= k => BlockPixel(n, pn, pitch, k) ^ BlockPixel(o, po, pitch, k))
  }

  /** Delta pixel (x, y) is new XOR old at that place of each block. */
  lemma BlockDeltaAt(o: seq<bv32>, n: seq<bv32>, po: int, pn: int, pitch: nat, y: nat, x: nat)
    requires y < BlockHeight && x < BlockWidth
    ensures y * 16 + x < 256
    ensures BlockDelta(o, n, po, pn, pitch)[y * 16 + x] == At(n, pn + y * pitch + x) ^ At(o, po + y * pitch + x)
  {
    RowMajor(y, x);
  }

  /** Pixel (x, y) of a delta block: where the two frames hold it, its
      delta value, and room for its bytes after the pixels before it. */
  lemma XorPixelReady(o: seq<bv32>, n: seq<bv32>, po: int, pn: int, pitch: nat, size: nat, y: nat, x: nat,
                      at: nat, next: nat, limit: nat)
    requires IsPixelSize(size) && y < BlockHeight && x < BlockWidth
    requires BlockInside(|o|, pitch, po) && BlockInside(|n|, pitch, pn)
    requires next == at + |EncodeAll(BlockDelta(o, n, po, pn, pitch)[..y * 16 + x], size)| && at + 256 * size <= limit
    ensures 0 <= pn + y * pitch + x < |n| && 0 <= po + y * pitch + x < |o|
    ensures y * 16 + x < 256 && BlockDelta(o, n, po, pn, pitch)[y * 16 + x] == n[pn + y * pitch + x] ^ o[po + y * pitch + x]
    ensures next + size <= limit
  {
    PixelInBlock(|o|, pitch, po, y, x);
    PixelInBlock(|n|, pitch, pn, y, x);
    BlockDeltaAt(o, n, po, pn, pitch, y, x);
    EncodeAllLength(BlockDelta(o, n, po, pn, pitch)[..y * 16 + x], size);
    MulLeft(y * 16 + x + 1, 256, size);
  }

  /** Bytes `e` written after the first `start` bytes of `w`, followed by
      bytes `b` written right after them, leave `w` with `e + b` there. */
  lemma WriteAfter(w: seq<bv8>, start: nat, e: seq<bv8>, mid: seq<bv8>, b: seq<bv8>, final: seq<bv8>, grown: seq<bv8>)
    requires start + |e| + |b| <= |w| && grown == e + b
    requires mid == w[..start] + e + w[start + |e|..]
    requires final == mid[..start + |e|] + b + mid[start + |e| + |b|..]
    ensures final == w[..start] + grown + w[start + |grown|..]
  {
    assert mid[..start + |e|] == w[..start] + e;
    assert mid[start + |e| + |b|..] == w[start + |e| + |b|..];
  }

  /** Pixels stored one after the other, each in its byte order. */
  function EncodeAll(pixels: seq<bv32>, size: nat): seq<bv8>
    requires IsPixelSize(size)
  {
    if pixels == [] then [] else EncodeAll(pixels[..|pixels| - 1], size) + EncodeLE(pixels[|pixels| - 1], size)
  }

  /** A run of pixels takes `size` bytes per pixel. */
  lemma {:induction false} EncodeAllLength(pixels: seq<bv32>, size: nat)
    requires IsPixelSize(size)
    ensures |EncodeAll(pixels, size)| == |pixels| * size
    decreases |pixels|
  {
    if pixels != [] {
      EncodeAllLength(pixels[..|pixels| - 1], size);
      Distrib(|pixels| - 1, 1, size);
    }
  }

  /** Room for the whole run leaves room for one more pixel after any
      proper prefix of it. */
  lemma EncodeRoom(pixels: seq<bv32>, k: nat, size: nat, at: nat, limit: nat)
    requires IsPixelSize(size) && k < |pixels| && at + |EncodeAll(pixels, size)| <= limit
    ensures at + |EncodeAll(pixels[..k], size)| + size <= limit
  {
    EncodeAllLength(pixels, size);
    EncodeAllLength(pixels[..k], size);
    Distrib(k, 1, size);
    MulLeft(k + 1, |pixels|, size);
  }

  /** Appending a pixel appends its bytes. */
  lemma EncodeAllAppend(pixels: seq<bv32>, pixel: bv32, size: nat)
    requires IsPixelSize(size)
    ensures EncodeAll(pixels + [pixel], size) == EncodeAll(pixels, size) + EncodeLE(pixel, size)
  {
    assert (pixels + [pixel])[..|pixels|] == pixels;
  }

  /** Encoding one more pixel of a run appends its bytes. */
  lemma EncodeAllSnoc(pixels: seq<bv32>, size: nat, k: nat)
    requires IsPixelSize(size) && k < |pixels|
    ensures EncodeAll(pixels[..k + 1], size) == EncodeAll(pixels[..k], size) + EncodeLE(pixels[k], size)
  {
    assert pixels[..k + 1] == pixels[..k] + [pixels[k]];
    EncodeAllAppend(pixels[..k], pixels[k], size);
  }

  /** The encoding of a prefix of a run is a prefix of the run's encoding. */
  lemma {:induction false} EncodeAllPrefix(pixels: seq<bv32>, size: nat, j: nat)
    requires IsPixelSize(size) && j <= |pixels|
    ensures EncodeAll(pixels[..j], size) <= EncodeAll(pixels, size)
    decreases |pixels| - j
  {
    if j < |pixels| {
      EncodeAllPrefix(pixels, size, j + 1);
      EncodeAllSnoc(pixels, size, j);
      var a, b, c := EncodeAll(pixels[..j], size), EncodeAll(pixels[..j + 1], size), EncodeAll(pixels, size);
      assert c[..|a|] == b[..|a|] == a;
    } else {
      assert pixels[..j] == pixels;
    }
  }

  /** The bytes of pixel k are at k * size. */
  lemma EncodeAllChunk(pixels: seq<bv32>, size: nat, k: nat)
    requires IsPixelSize(size) && k < |pixels|
    ensures |EncodeAll(pixels, size)| == |pixels| * size && k * size + size <= |pixels| * size
    ensures EncodeAll(pixels, size)[k * size .. k * size + size] == EncodeLE(pixels[k], size)
  {
    var pre, cur, all := EncodeAll(pixels[..k], size), EncodeAll(pixels[..k + 1], size), EncodeAll(pixels, size);
    var e := EncodeLE(pixels[k], size);
    assert cur == pre + e by { EncodeAllSnoc(pixels, size, k); }
    assert cur <= all by { EncodeAllPrefix(pixels, size, k + 1); }
    assert |pre| == k * size by { EncodeAllLength(pixels[..k], size); }
    assert |all| == |pixels| * size by { EncodeAllLength(pixels, size); }
    assert k * size + size <= |pixels| * size by { Distrib(k, 1, size); MulLeft(k + 1, |pixels|, size); }
    assert all[|pre| .. |pre| + size] == cur[|pre| .. |pre| + size] by {
      assert forall t :: |pre| <= t < |pre| + size ==> all[t] == cur[t];
    }
    ConcatSlice(pre, e, |pre|, |pre| + size);
  }

  /** A slice of a concatenation that lies wholly on one side of the seam. */
  lemma ConcatSlice<T>(a: seq<T>, b: seq<T>, i: nat, j: nat)
    requires i <= j <= |a| || |a| <= i <= j <= |a| + |b|
    ensures j <= |a| ==> (a + b)[i..j] == a[i..j]
    ensures |a| <= i ==> (a + b)[i..j] == b[i - |a|..j - |a|]
  {
    if j <= |a| {
      assert forall t :: 0 <= t < j - i ==> (a + b)[i..j][t] == a[i..j][t];
    }
    if |a| <= i {
      assert forall t :: 0 <= t < j - i ==> (a + b)[i..j][t] == b[i - |a|..j - |a|][t];
    }
  }

  /** Pixel k of block row y, column x. */
  lemma RowMajor(y: nat, x: nat)
    requires x < BlockWidth
    ensures (y * BlockWidth + x) / BlockWidth == y && (y * BlockWidth + x) % BlockWidth == x
  {
  }

  /** The bytes `addXorBlock` writes for a block decode, pixel by pixel,
      to deltas that turn the old block into the new one. */
  lemma XorBlockRecovers(o: seq<bv32>, n: seq<bv32>, po: int, pn: int, pitch: nat, size: nat, k: nat)
    requires IsPixelSize(size) && k < 256
    requires Fits(BlockPixel(o, po, pitch, k), size) && Fits(BlockPixel(n, pn, pitch, k), size)
    ensures |EncodeAll(BlockDelta(o, n, po, pn, pitch), size)| == 256 * size && k * size + size <= 256 * size
    ensures DecodeLE(EncodeAll(BlockDelta(o, n, po, pn, pitch), size)[k * size .. k * size + size]) ^ BlockPixel(o, po, pitch, k)
            == BlockPixel(n, pn, pitch, k)
  {
    var delta := BlockDelta(o, n, po, pn, pitch);
    var oldPixel, newPixel := BlockPixel(o, po, pitch, k), BlockPixel(n, pn, pitch, k);
    assert delta[k] == newPixel ^ oldPixel;
    XorRecovers(newPixel, oldPixel, size);
    PixelDecodes(delta, size, k, delta[k]);
    EncodeAllChunk(delta, size, k);
  }


  // ---------------------------------------------------------------------
  // Frames

  /** `compareBlock(vx, vy, offset)`: differing pixels between the new block
      at `offset` and the old block moved by v. */
  function CompareDiff(o: seq<bv32>, n: seq<bv32>, offset: int, vx: int, vy: int, pitch: nat): (r: nat)
    ensures r <= 256
  {
    BlockDiff(o, n, offset + vy * pitch + vx, offset, pitch, BlockHeight, BlockWidth, 1)
  }

  /** `possibleBlock(vx, vy, offset)`: the same count over every fourth row
      and column. */
  function SampleDiff(o: seq<bv32>, n: seq<bv32>, offset: int, vx: int, vy: int, pitch: nat): (r: nat)
    ensures r <= 16
  {
    BlockDiff(o, n, offset + vy * pitch + vx, offset, 4 * pitch, BlockHeight / 4, BlockWidth / 4, 4)
  }

  /** An offset whose block stays inside a frame of `length` pixels for
      every vector of at most 16 pixels in each direction. */
  predicate MovableInside(length: nat, pitch: nat, offset: int)
  {
    offset >= 16 * pitch + 16 && offset + 31 * pitch + 31 < length
  }

  lemma MovedInside(length: nat, pitch: nat, offset: int, v: CodecVector)
    requires MovableInside(length, pitch, offset) && InVectorFamily(v)
    ensures BlockInside(length, pitch, offset + v.y * pitch + v.x)
  {
    FamilyBounds(v);
    var shift := v.y * pitch;
    assert -16 * pitch <= shift <= 16 * pitch by {
      if v.y >= 0 {
        MulLeft(v.y, 16, pitch);
      } else {
        MulLeft(-v.y, 16, pitch);
      }
    }
    assert 0 <= offset + shift + v.x;
    assert offset + shift + v.x + 15 * pitch + 15 < length;
  }

  /** Every entry of the block-offset table can be moved by any vector. */
  lemma OffsetMovable(width: nat, height: nat, pixelSize: nat, y: nat, x: nat)
    requires IsPixelSize(pixelSize)
    requires y < height / BlockHeight && x < width / BlockWidth
    ensures MovableInside(FrameLength(width, height, pixelSize), width + 2 * MaxVector,
                          BlockOffset(width + 2 * MaxVector, y, x))
  {
    var pitch := width + 2 * MaxVector;
    MovedBlockInFrame(width, height, pixelSize, y, x, -16, -16);
    MovedBlockInFrame(width, height, pixelSize, y, x, 16, 16);
  }

  /** The block vector chosen for one block and its compareBlock count. */
  datatype Choice = Choice(v: CodecVector, change: nat)

  /** The vector tried first for block b: the choice for block b - 1, and
      (0, 0) for the first block. */
  function Previous(choices: seq<Choice>, b: nat): CodecVector
    requires b <= |choices|
  {
    if b == 0 then CodecVector(0, 0) else choices[b - 1].v
  }

  /** What the search in `addXorFrame` promises for the block at `offset`:
      the chosen vector moves the block inside the frame, `change` is its
      compareBlock count, no worse than the vector `prev` tried first and
      kept whenever that one was already good (fewer than 4 pixels differ);
      a vector other than `prev` comes from the table, passed the sampled
      pre-test and is strictly better. */
  predicate GoodChoice(o: seq<bv32>, n: seq<bv32>, pitch: nat, offset: int, prev: CodecVector, c: Choice, table: seq<CodecVector>)
  {
    var first := CompareDiff(o, n, offset, prev.x, prev.y, pitch);
    InVectorFamily(c.v) &&
    c.change == CompareDiff(o, n, offset, c.v.x, c.v.y, pitch) &&
    c.change <= first &&
    (first < 4 ==> c.v == prev) &&
    (c.v != prev ==> c.v in table && SampleDiff(o, n, offset, c.v.x, c.v.y, pitch) < 4 && c.change < first)
  }

  /** The choices for the first |choices| blocks at `offsets`, each one
      good with the previous block's vector tried first. */
  predicate GoodChoices(o: seq<bv32>, n: seq<bv32>, pitch: nat, offsets: seq<nat>, choices: seq<Choice>, table: seq<CodecVector>)
    requires |choices| <= |offsets|
  {
    forall b {:trigger Previous(choices, b)} :: 0 <= b < |choices| ==>
      GoodChoice(o, n, pitch, offsets[b], Previous(choices, b), choices[b], table)
  }

  /** One good choice more. */
  lemma GoodChoicesSnoc(o: seq<bv32>, n: seq<bv32>, pitch: nat, offsets: seq<nat>, choices: seq<Choice>, table: seq<CodecVector>,
                        c: Choice)
    requires |choices| < |offsets| && GoodChoices(o, n, pitch, offsets, choices, table)
    requires GoodChoice(o, n, pitch, offsets[|choices|], Previous(choices, |choices|), c, table)
    ensures GoodChoices(o, n, pitch, offsets, choices + [c], table)
  {
    var next := choices + [c];
    forall b | 0 <= b < |next|
      ensures GoodChoice(o, n, pitch, offsets[b], Previous(next, b), next[b], table)
    {
      if b < |choices| {
        assert Previous(next, b) == Previous(choices, b);
      }
    }
  }

  /** What follows the vectors for one block: its XOR block if it changed,
      nothing otherwise. */
  function BlockData(o: seq<bv32>, n: seq<bv32>, pitch: nat, size: nat, offset: nat, c: Choice): (r: seq<bv8>)
    requires IsPixelSize(size)
    ensures c.change == 0 <==> r == []
    ensures |r| == if c.change == 0 then 0 else 256 * size
  {
    if c.change == 0 then []
    else
      EncodeAllLength(BlockDelta(o, n, offset + c.v.y * pitch + c.v.x, offset, pitch), size);
      EncodeAll(BlockDelta(o, n, offset + c.v.y * pitch + c.v.x, offset, pitch), size)
  }

  /** A changed block's data is its XOR block. */
  lemma BlockDataChanged(o: seq<bv32>, n: seq<bv32>, pitch: nat, size: nat, offset: nat, c: Choice, vx: int, vy: int)
    requires IsPixelSize(size) && c.change != 0 && c.v == CodecVector(vx, vy)
    ensures BlockData(o, n, pitch, size, offset, c) == EncodeAll(BlockDelta(o, n, offset + vy * pitch + vx, offset, pitch), size)
  {
  }

  /** The XOR blocks of a delta frame, in block order. */
  function XorFrameData(o: seq<bv32>, n: seq<bv32>, pitch: nat, size: nat, offsets: seq<nat>, choices: seq<Choice>): seq<bv8>
    requires IsPixelSize(size) && |offsets| == |choices|
    decreases |choices|
  {
    if choices == [] then []
    else
      var m := |choices| - 1;
      XorFrameData(o, n, pitch, size, offsets[..m], choices[..m]) + BlockData(o, n, pitch, size, offsets[m], choices[m])
  }

  /** The data for the first b blocks is a prefix of the data for all. */
  lemma {:induction false} XorFramePrefix(o: seq<bv32>, n: seq<bv32>, pitch: nat, size: nat, offsets: seq<nat>, choices: seq<Choice>, b: nat)
    requires IsPixelSize(size) && |offsets| == |choices| && b <= |choices|
    ensures XorFrameData(o, n, pitch, size, offsets[..b], choices[..b]) <= XorFrameData(o, n, pitch, size, offsets, choices)
    decreases |choices| - b
  {
    if b < |choices| {
      XorFramePrefix(o, n, pitch, size, offsets, choices, b + 1);
      assert offsets[..b + 1][..b] == offsets[..b];
      assert choices[..b + 1][..b] == choices[..b];
    } else {
      assert offsets[..b] == offsets && choices[..b] == choices;
    }
  }

  /** A decoder that walks the vectors finds the XOR block of every changed
      block right after those of the changed blocks before it (its bytes
      decode as XorBlockRecovers states). */
  lemma XorFrameSplit(o: seq<bv32>, n: seq<bv32>, pitch: nat, size: nat, offsets: seq<nat>, choices: seq<Choice>, b: nat)
    requires IsPixelSize(size) && |offsets| == |choices| && b < |choices|
    ensures XorFrameData(o, n, pitch, size, offsets[..b], choices[..b]) + BlockData(o, n, pitch, size, offsets[b], choices[b])
            <= XorFrameData(o, n, pitch, size, offsets, choices)
  {
    XorFramePrefix(o, n, pitch, size, offsets, choices, b + 1);
    assert offsets[..b + 1][..b] == offsets[..b] && choices[..b + 1][..b] == choices[..b];
  }

  /** One block more: its data follows that of the blocks before it. */
  lemma XorFrameSnoc(o: seq<bv32>, n: seq<bv32>, pitch: nat, size: nat, offsets: seq<nat>, choices: seq<Choice>, c: Choice)
    requires IsPixelSize(size) && |choices| < |offsets|
    ensures XorFrameData(o, n, pitch, size, offsets[..|choices| + 1], choices + [c])
            == XorFrameData(o, n, pitch, size, offsets[..|choices|], choices) + BlockData(o, n, pitch, size, offsets[|choices|], c)
  {
    var b := |choices|;
    assert offsets[..b + 1][..b] == offsets[..b];
    assert (choices + [c])[..b] == choices;
  }

  /** The XOR data holds one 256-pixel block per changed block, so it is
      at most one block per block. */
  lemma {:induction false} XorFrameLength(o: seq<bv32>, n: seq<bv32>, pitch: nat, size: nat, offsets: seq<nat>, choices: seq<Choice>)
    requires IsPixelSize(size) && |offsets| == |choices|
    ensures |XorFrameData(o, n, pitch, size, offsets, choices)| == ChangedCount(choices) * (256 * size)
    ensures ChangedCount(choices) <= |choices|
    decreases |choices|
  {
    if choices != [] {
      var m := |choices| - 1;
      var blockBytes := 256 * size;
      var d := if choices[m].change != 0 then 1 else 0;
      XorFrameLength(o, n, pitch, size, offsets[..m], choices[..m]);
      var before := XorFrameData(o, n, pitch, size, offsets[..m], choices[..m]);
      var last := BlockData(o, n, pitch, size, offsets[m], choices[m]);
      assert |last| == d * blockBytes;
      assert |XorFrameData(o, n, pitch, size, offsets, choices)| == |before| + |last|;
      assert ChangedCount(choices) == ChangedCount(choices[..m]) + d;
      Distrib(ChangedCount(choices[..m]), d, blockBytes);
    }
  }

  /** The number of blocks that changed. */
  function ChangedCount(choices: seq<Choice>): nat
    decreases |choices|
  {
    if choices == [] then 0
    else ChangedCount(choices[..|choices| - 1]) + (if choices[|choices| - 1].change != 0 then 1 else 0)
  }

  /** Every chosen vector is one of the table's. */
  predicate AllInFamily(choices: seq<Choice>)
  {
    forall i :: 0 <= i < |choices| ==> InVectorFamily(choices[i].v)
  }

  /** The motion-vector bytes at the start of a delta frame: two per block,
      the x component's byte flagged when an XOR block follows. */
  function VectorBytes(choices: seq<Choice>): (r: seq<bv8>)
    requires AllInFamily(choices)
    ensures |r| == 2 * |choices|
    decreases |choices|
  {
    if choices == [] then []
    else
      var m := |choices| - 1;
      var c := choices[m];
      FamilyBounds(c.v);
      VectorBytes(choices[..m]) + [VectorByte(c.v.x, c.change != 0), VectorByte(c.v.y, false)]
  }

  /** One block more: its two bytes follow those of the blocks before it. */
  lemma VectorBytesSnoc(choices: seq<Choice>, c: Choice)
    requires AllInFamily(choices) && InVectorFamily(c.v)
    ensures AllInFamily(choices + [c]) && -64 <= c.v.x < 64 && -64 <= c.v.y < 64
    ensures VectorBytes(choices + [c]) == VectorBytes(choices) + [VectorByte(c.v.x, c.change != 0), VectorByte(c.v.y, false)]
  {
    FamilyBounds(c.v);
    assert (choices + [c])[..|choices|] == choices;
  }

  /** Bytes 2b and 2b + 1 hold block b's vector. */
  lemma {:induction false} VectorBytesAt(choices: seq<Choice>, b: nat)
    requires AllInFamily(choices) && b < |choices|
    ensures -64 <= choices[b].v.x < 64 && -64 <= choices[b].v.y < 64
    ensures VectorBytes(choices)[2 * b] == VectorByte(choices[b].v.x, choices[b].change != 0)
    ensures VectorBytes(choices)[2 * b + 1] == VectorByte(choices[b].v.y, false)
    decreases |choices|
  {
    var m := |choices| - 1;
    var c := choices[m];
    FamilyBounds(choices[b].v);
    FamilyBounds(c.v);
    assert AllInFamily(choices[..m]);
    var pre := VectorBytes(choices[..m]);
    assert VectorBytes(choices) == pre + [VectorByte(c.v.x, c.change != 0), VectorByte(c.v.y, false)];
    if b < m {
      assert choices[..m][b] == choices[b];
      VectorBytesAt(choices[..m], b);
    }
  }

  /** A decoder reads block b's vector back from bytes 2b and 2b + 1, and
      bit 0 of byte 2b says whether the block has an XOR block. */
  lemma VectorBytesDecode(choices: seq<Choice>, b: nat)
    requires AllInFamily(choices) && b < |choices|
    ensures Signed(VectorBytes(choices)[2 * b]) / 2 == choices[b].v.x
    ensures Signed(VectorBytes(choices)[2 * b + 1]) / 2 == choices[b].v.y
    ensures VectorBytes(choices)[2 * b] as int % 2 == 1 <==> choices[b].change != 0
  {
    var c := choices[b];
    VectorBytesAt(choices, b);
    VectorByteRoundTrip(c.v.x, c.change != 0);
    VectorByteRoundTrip(c.v.y, false);
  }

  /** The work buffer while `addXorFrame` runs, against its contents `w`
      before: untouched up to `start`, the vectors written so far, the
      untouched bytes up to the aligned `aligned`, the XOR data written so
      far, untouched after. */
  function DeltaLayout(w: seq<bv8>, start: nat, aligned: nat, vectors: seq<bv8>, data: seq<bv8>): (r: seq<bv8>)
    requires start + |vectors| <= aligned && aligned + |data| <= |w|
    ensures |r| == |w|
  {
    w[..start] + vectors + w[start + |vectors| .. aligned] + data + w[aligned + |data|..]
  }

  /** Where each part of the layout lies in the buffer. */
  lemma DeltaLayoutParts(w: seq<bv8>, start: nat, aligned: nat, vectors: seq<bv8>, data: seq<bv8>)
    requires start + |vectors| <= aligned && aligned + |data| <= |w|
    ensures var r := DeltaLayout(w, start, aligned, vectors, data);
            r[start .. start + |vectors|] == vectors && r[aligned .. aligned + |data|] == data &&
            r[..start] == w[..start] && r[start + |vectors| .. aligned] == w[start + |vectors| .. aligned] &&
            r[aligned + |data|..] == w[aligned + |data|..]
  {
  }

  /** Nothing written yet: the buffer as it was. */
  lemma DeltaLayoutEmpty(w: seq<bv8>, start: nat, aligned: nat)
    requires start <= aligned <= |w|
    ensures DeltaLayout(w, start, aligned, [], []) == w
  {
    assert w[..start] + w[start .. aligned] + w[aligned..] == w;
  }

  /** Writing the next two vector bytes keeps the layout. */
  lemma DeltaLayoutVector(w: seq<bv8>, start: nat, aligned: nat, vectors: seq<bv8>, data: seq<bv8>, x: bv8, y: bv8)
    requires start + |vectors| + 2 <= aligned && aligned + |data| <= |w|
    ensures DeltaLayout(w, start, aligned, vectors, data)[start + |vectors| := x][start + |vectors| + 1 := y]
            == DeltaLayout(w, start, aligned, vectors + [x, y], data)
  {
    var p := start + |vectors|;
    assert w[p .. aligned] == [w[p], w[p + 1]] + w[p + 2 .. aligned];
  }

  /** Appending XOR data after the data so far keeps the layout. */
  lemma DeltaLayoutData(w: seq<bv8>, start: nat, aligned: nat, vectors: seq<bv8>, data: seq<bv8>, e: seq<bv8>)
    requires start + |vectors| <= aligned && aligned + |data| + |e| <= |w|
    ensures var cur, used := DeltaLayout(w, start, aligned, vectors, data), aligned + |data|;
            cur[..used] + e + cur[used + |e|..] == DeltaLayout(w, start, aligned, vectors, data + e)
  {
    var used := aligned + |data|;
    assert w[used..] == w[used .. used + |e|] + w[used + |e|..];
  }

  /** The buffer after XOR data `e` is stored at the fill level `used`:
      the layout with `e` appended to the data. */
  lemma DeltaLayoutStored(w: seq<bv8>, start: nat, aligned: nat, vectors: seq<bv8>, data: seq<bv8>, e: seq<bv8>,
                          before: seq<bv8>, after: seq<bv8>, used: nat, next: nat)
    requires start + |vectors| <= aligned && aligned + |data| + |e| <= |w|
    requires before == DeltaLayout(w, start, aligned, vectors, data) && used == aligned + |data| && next == used + |e|
    requires after == before[..used] + e + before[next..]
    ensures after == DeltaLayout(w, start, aligned, vectors, data + e)
  {
    DeltaLayoutData(w, start, aligned, vectors, data, e);
  }

  /** `addXorFrame` after the blocks of `choices`: each choice good, the
      work buffer `cur` holding their vector bytes and XOR blocks in the
      delta layout over `w`, filled up to `used`, with room left for one
      XOR block per block still to come. */
  ghost predicate DeltaProgress(o: seq<bv32>, n: seq<bv32>, pitch: nat, size: nat, offsets: seq<nat>, table: seq<CodecVector>,
                                w: seq<bv8>, start: nat, aligned: nat, choices: seq<Choice>, used: nat, cur: seq<bv8>)
  {
    IsPixelSize(size) && |choices| <= |offsets| && start + 2 * |offsets| <= aligned &&
    AllInFamily(choices) && GoodChoices(o, n, pitch, offsets, choices, table) &&
    used == aligned + |XorFrameData(o, n, pitch, size, offsets[..|choices|], choices)| &&
    used + RoomFor(|offsets| - |choices|, size) <= |w| &&
    cur == DeltaLayout(w, start, aligned, VectorBytes(choices), XorFrameData(o, n, pitch, size, offsets[..|choices|], choices))
  }

  /** The bytes that `count` XOR blocks of `size`-byte pixels take at most. */
  function RoomFor(count: nat, size: nat): (r: nat)
  {
    if count == 0 then 0 else RoomFor(count - 1, size) + 256 * size
  }

  lemma {:induction false} RoomForIs(count: nat, size: nat)
    ensures RoomFor(count, size) == count * (256 * size)
  {
    if count > 0 {
      RoomForIs(count - 1, size);
      Distrib(count - 1, 1, 256 * size);
    }
  }

  /** Nothing done yet. */
  lemma DeltaProgressStart(o: seq<bv32>, n: seq<bv32>, pitch: nat, size: nat, offsets: seq<nat>, table: seq<CodecVector>,
                           w: seq<bv8>, start: nat, aligned: nat)
    requires IsPixelSize(size) && start + 2 * |offsets| <= aligned && aligned + RoomFor(|offsets|, size) <= |w|
    ensures DeltaProgress(o, n, pitch, size, offsets, table, w, start, aligned, [], aligned, w)
  {
    DeltaLayoutEmpty(w, start, aligned);
  }

  /** One block more: a good choice, its two vector bytes after those before
      and its XOR data, if any, after the data before. */
  lemma DeltaProgressStep(o: seq<bv32>, n: seq<bv32>, pitch: nat, size: nat, offsets: seq<nat>, table: seq<CodecVector>,
                          w: seq<bv8>, start: nat, aligned: nat, choices: seq<Choice>, used: nat, cur: seq<bv8>, c: Choice,
                          next: nat, after: seq<bv8>)
    requires DeltaProgress(o, n, pitch, size, offsets, table, w, start, aligned, choices, used, cur)
    requires |choices| < |offsets|
    requires GoodChoice(o, n, pitch, offsets[|choices|], Previous(choices, |choices|), c, table)
    requires var data := XorFrameData(o, n, pitch, size, offsets[..|choices|], choices);
             var e := BlockData(o, n, pitch, size, offsets[|choices|], c);
             -64 <= c.v.x < 64 && -64 <= c.v.y < 64 && next == used + |e| && next <= |w| &&
             after == DeltaLayout(w, start, aligned, VectorBytes(choices) + [VectorByte(c.v.x, c.change != 0), VectorByte(c.v.y, false)], data + e)
    ensures DeltaProgress(o, n, pitch, size, offsets, table, w, start, aligned, choices + [c], next, after)
  {
    var b := |choices|;
    var choices' := choices + [c];
    var blockBytes := 256 * size;
    var data := XorFrameData(o, n, pitch, size, offsets[..b], choices);
    var e := BlockData(o, n, pitch, size, offsets[b], c);
    GoodChoicesSnoc(o, n, pitch, offsets, choices, table, c);
    VectorBytesSnoc(choices, c);
    XorFrameSnoc(o, n, pitch, size, offsets, choices, c);
    assert |choices'| == b + 1;
    assert XorFrameData(o, n, pitch, size, offsets[..|choices'|], choices') == data + e;
    assert next == aligned + |data + e|;
    assert |e| <= blockBytes;
    assert RoomFor(|offsets| - b, size) == RoomFor(|offsets| - b - 1, size) + blockBytes;
  }

  /** `width` pixels of a frame from `start` on. */
  function Row(s: seq<bv32>, start: int, width: nat): seq<bv32>
  {
    seq(width, x requires 0 <= x < width => At(s, start + x))
  }

  /** The first `rows` rows of the picture whose first pixel is `base`. */
  function Picture(s: seq<bv32>, base: int, pitch: nat, width: nat, rows: nat): seq<bv32>
  {
    if rows == 0 then [] else Picture(s, base, pitch, width, rows - 1) + Row(s, base + (rows - 1) * pitch, width)
  }

  /** The picture has `width` pixels per row. */
  lemma {:induction false} PictureLength(s: seq<bv32>, base: int, pitch: nat, width: nat, rows: nat)
    ensures |Picture(s, base, pitch, width, rows)| == rows * width
  {
    if rows > 0 {
      PictureLength(s, base, pitch, width, rows - 1);
      Distrib(rows - 1, 1, width);
    }
  }

  /** Picture pixel (x, y) is at y * width + x. */
  lemma {:induction false} PictureAt(s: seq<bv32>, base: int, pitch: nat, width: nat, rows: nat, y: nat, x: nat)
    requires y < rows && x < width
    ensures y * width + x < |Picture(s, base, pitch, width, rows)|
    ensures Picture(s, base, pitch, width, rows)[y * width + x] == At(s, base + y * pitch + x)
    decreases rows
  {
    var before := Picture(s, base, pitch, width, rows - 1);
    PictureLength(s, base, pitch, width, rows);
    PictureLength(s, base, pitch, width, rows - 1);
    if y < rows - 1 {
      PictureAt(s, base, pitch, width, rows - 1, y, x);
      MulLeft(y + 1, rows - 1, width);
    } else {
      assert y * width + x == |before| + x;
    }
  }

  /** A keyframe decodes, pixel by pixel, to the picture it was made from. */
  lemma KeyframeRecovers(s: seq<bv32>, base: int, pitch: nat, width: nat, height: nat, size: nat, y: nat, x: nat)
    requires IsPixelSize(size) && y < height && x < width
    requires AllFit(s, size)
    ensures var data := EncodeAll(Picture(s, base, pitch, width, height), size);
            var pos := (y * width + x) * size;
            pos + size <= |data| && DecodeLE(data[pos .. pos + size]) == At(s, base + y * pitch + x)
  {
    PictureAt(s, base, pitch, width, height, y, x);
    FitsAt(s, size, base + y * pitch + x);
    PixelDecodes(Picture(s, base, pitch, width, height), size, y * width + x, At(s, base + y * pitch + x));
  }

  /** Pixel i of an encoded run decodes to the pixel. */
  lemma PixelDecodes(pixels: seq<bv32>, size: nat, i: nat, pixel: bv32)
    requires IsPixelSize(size) && i < |pixels| && pixels[i] == pixel && Fits(pixel, size)
    ensures var data := EncodeAll(pixels, size);
            var pos := i * size;
            pos + size <= |data| && DecodeLE(data[pos .. pos + size]) == pixel
  {
    EncodeAllChunk(pixels, size, i);
    DecodeEncode(pixel, size);
  }

  // ---------------------------------------------------------------------
  // Copying the picture into the frame buffer

  /** The first pixel of the picture inside a frame buffer: `MaxVector`
      rows and `MaxVector` columns of border come before it. */
  function PictureBase(pitch: nat): nat
  {
    16 * pitch + 16
  }

  /** Line i of `lines` fits in a buffer of `length` pixels from
      `base + i * pitch` on. */
  predicate LinesFit(length: nat, base: nat, pitch: nat, lines: seq<seq<bv32>>)
  {
    forall i :: 0 <= i < |lines| ==> base + i * pitch + |lines[i]| <= length
  }

  /** Every line has `width` pixels, each of which fits in `size` bytes. */
  predicate LinesOf(lines: seq<seq<bv32>>, width: nat, size: nat)
  {
    forall i :: 0 <= i < |lines| ==> |lines[i]| == width && AllFit(lines[i], size)
  }

  /** `line` copied over `s` from `at` on (one `memcpy`). */
  function Splice(s: seq<bv32>, at: nat, line: seq<bv32>): (r: seq<bv32>)
    requires at + |line| <= |s|
    ensures |r| == |s|
    ensures forall i :: 0 <= i < |line| ==> r[at + i] == line[i]
    ensures forall i :: 0 <= i < |s| && !(at <= i < at + |line|) ==> r[i] == s[i]
  {
    s[..at] + line + s[at + |line|..]
  }

  /** The copy loop of `compressFrame`: line i copied over `s` from
      `base + i * pitch` on, one line after the other. */
  function Paste(s: seq<bv32>, base: nat, pitch: nat, lines: seq<seq<bv32>>): (r: seq<bv32>)
    requires LinesFit(|s|, base, pitch, lines)
    ensures |r| == |s|
    decreases |lines|
  {
    if lines == [] then s
    else
      var m := |lines| - 1;
      Splice(Paste(s, base, pitch, lines[..m]), base + m * pitch, lines[m])
  }

  /** The lines one after the other. */
  function Flatten(lines: seq<seq<bv32>>): (r: seq<bv32>)
    decreases |lines|
  {
    if lines == [] then [] else Flatten(lines[..|lines| - 1]) + lines[|lines| - 1]
  }

  /** One row more: the picture so far, then row y. */
  lemma PictureLastRow(s: seq<bv32>, base: int, pitch: nat, width: nat, y: nat)
    ensures var p := Picture(s, base, pitch, width, y + 1);
            y * width + width == |p| && p[..y * width] == Picture(s, base, pitch, width, y) &&
            forall k :: y * width <= k < |p| ==> p[k] == At(s, base + y * pitch + (k - y * width))
  {
    PictureLength(s, base, pitch, width, y);
    PictureLength(s, base, pitch, width, y + 1);
  }

  /** Row y of the picture: where it lies, which pixels it holds, and that
      a run of the whole picture leaves room for the rows up to it. */
  lemma PictureRowReady(s: seq<bv32>, base: nat, pitch: nat, width: nat, height: nat, size: nat, y: nat,
                         row: nat, d: nat, at: nat, limit: nat)
    requires IsPixelSize(size) && y < height && base + (height - 1) * pitch + width <= |s|
    requires row == base + y * pitch && d == |Picture(s, base, pitch, width, y)|
    requires at + height * width * size <= limit
    ensures var p := Picture(s, base, pitch, width, y + 1);
            d + width == |p| && p[..d] == Picture(s, base, pitch, width, y) &&
            row + width <= |s| &&
            (forall k :: d <= k < |p| ==> p[k] == s[row + (k - d)]) &&
            at + |EncodeAll(p, size)| <= limit
  {
    var p := Picture(s, base, pitch, width, y + 1);
    assert row + width <= |s| by { RowBelow(base, pitch, width, height, |s|, y); }
    assert d + width == |p| && p[..d] == Picture(s, base, pitch, width, y) &&
           forall k :: d <= k < |p| ==> p[k] == At(s, row + (k - d)) by {
      PictureLength(s, base, pitch, width, y);
      PictureLastRow(s, base, pitch, width, y);
    }
    assert at + |EncodeAll(p, size)| <= limit by {
      PictureRoom(base, pitch, width, height, size, y, s, at, limit);
    }
  }

  /** Room for the whole picture is room for its first y + 1 rows. */
  lemma PictureRoom(base: int, pitch: nat, width: nat, height: nat, size: nat, y: nat, s: seq<bv32>, at: nat, limit: nat)
    requires IsPixelSize(size) && y < height && at + height * width * size <= limit
    ensures at + |EncodeAll(Picture(s, base, pitch, width, y + 1), size)| <= limit
  {
    PictureLength(s, base, pitch, width, y + 1);
    EncodeAllLength(Picture(s, base, pitch, width, y + 1), size);
    MulLeft(y + 1, height, width);
    MulLeft((y + 1) * width, height * width, size);
  }

  /** Two buffers that agree below `bound` have the same picture rows
      below `bound`. */
  lemma {:induction false} PictureSame(s: seq<bv32>, t: seq<bv32>, base: nat, pitch: nat, width: nat, rows: nat, bound: nat)
    requires |s| == |t| && bound <= |s|
    requires forall i :: 0 <= i < bound ==> s[i] == t[i]
    requires rows == 0 || base + (rows - 1) * pitch + width <= bound
    ensures Picture(s, base, pitch, width, rows) == Picture(t, base, pitch, width, rows)
    decreases rows
  {
    if rows > 0 {
      if rows > 1 {
        Distrib(rows - 2, 1, pitch);
      }
      PictureSame(s, t, base, pitch, width, rows - 1, bound);
      var start := base + (rows - 1) * pitch;
      assert Row(s, start, width) == Row(t, start, width) by {
        forall x | 0 <= x < width ensures Row(s, start, width)[x] == Row(t, start, width)[x] {
          assert s[start + x] == t[start + x];
          assert Row(s, start, width)[x] == At(s, start + x);
          assert Row(t, start, width)[x] == At(t, start + x);
        }
      }
    }
  }

  /** After the copy loop the picture of the frame buffer is the lines, in
      order: what `addFullFrame` then stores is exactly the source lines. */
  lemma {:induction false} PictureOfPaste(s: seq<bv32>, base: nat, pitch: nat, width: nat, lines: seq<seq<bv32>>)
    requires width <= pitch && LinesFit(|s|, base, pitch, lines)
    requires forall i :: 0 <= i < |lines| ==> |lines[i]| == width
    ensures Picture(Paste(s, base, pitch, lines), base, pitch, width, |lines|) == Flatten(lines)
    decreases |lines|
  {
    if lines != [] {
      var m := |lines| - 1;
      var at := base + m * pitch;
      var before := Paste(s, base, pitch, lines[..m]);
      var after := Paste(s, base, pitch, lines);
      assert after == Splice(before, at, lines[m]);
      PictureOfPaste(s, base, pitch, width, lines[..m]);
      PastedBefore(before, base, pitch, width, m, lines[m]);
      SplicedRow(before, at, lines[m]);
    }
  }

  /** Copying a line after the first `rows` picture rows leaves them as
      they were. */
  lemma PastedBefore(s: seq<bv32>, base: nat, pitch: nat, width: nat, rows: nat, line: seq<bv32>)
    requires width <= pitch && base + rows * pitch + |line| <= |s|
    ensures Picture(Splice(s, base + rows * pitch, line), base, pitch, width, rows) == Picture(s, base, pitch, width, rows)
  {
    if rows > 0 {
      Distrib(rows - 1, 1, pitch);
    }
    PictureSame(Splice(s, base + rows * pitch, line), s, base, pitch, width, rows, base + rows * pitch);
  }

  /** The row where a line was copied reads back as that line. */
  lemma SplicedRow(s: seq<bv32>, at: nat, line: seq<bv32>)
    requires at + |line| <= |s|
    ensures Row(Splice(s, at, line), at, |line|) == line
  {
    var r := Row(Splice(s, at, line), at, |line|);
    forall x | 0 <= x < |line|
      ensures r[x] == line[x]
    {
      assert r[x] == At(Splice(s, at, line), at + x);
    }
  }

  /** The copy leaves every pixel no line covers as it was. */
  lemma {:induction false} PasteKeeps(s: seq<bv32>, base: nat, pitch: nat, lines: seq<seq<bv32>>, p: nat)
    requires LinesFit(|s|, base, pitch, lines) && p < |s|
    requires forall i :: 0 <= i < |lines| ==> !(base + i * pitch <= p < base + i * pitch + |lines[i]|)
    ensures Paste(s, base, pitch, lines)[p] == s[p]
    decreases |lines|
  {
    if lines != [] {
      var m := |lines| - 1;
      PasteKeeps(s, base, pitch, lines[..m], p);
    }
  }

  /** Pixels that fit stay fitting when lines of fitting pixels are copied in. */
  lemma {:induction false} PasteFits(s: seq<bv32>, base: nat, pitch: nat, lines: seq<seq<bv32>>, size: nat)
    requires LinesFit(|s|, base, pitch, lines) && AllFit(s, size)
    requires forall i :: 0 <= i < |lines| ==> AllFit(lines[i], size)
    ensures AllFit(Paste(s, base, pitch, lines), size)
    decreases |lines|
  {
    if lines != [] {
      var m := |lines| - 1;
      var at := base + m * pitch;
      var before := Paste(s, base, pitch, lines[..m]);
      PasteFits(s, base, pitch, lines[..m], size);
      var after := Splice(before, at, lines[m]);
      forall i | 0 <= i < |after|
        ensures Fits(after[i], size)
      {
        if at <= i < at + |lines[m]| {
          assert after[at + (i - at)] == lines[m][i - at];
        }
      }
    }
  }

  /** Picture row i lies below and after the border of the frame buffer. */
  lemma RowInFrame(width: nat, height: nat, size: nat, i: nat)
    requires IsPixelSize(size) && i < height
    ensures PictureBase(width + 32) + i * (width + 32) + width <= FrameLength(width, height, size)
  {
    var pitch := width + 32;
    Distrib(16, i, pitch);
    MulLeft(17 + i, height + 32, pitch);
    Distrib(16 + i, 1, pitch);
  }

  /** Every row above the last one that fits fits too. */
  lemma RowBelow(base: nat, pitch: nat, width: nat, height: nat, length: nat, i: nat)
    requires i < height && base + (height - 1) * pitch + width <= length
    ensures base + i * pitch + width <= length
  {
    MulLeft(i, height - 1, pitch);
  }

  /** `height` lines of `width` pixels fit when the last row does. */
  lemma LinesBelow(base: nat, pitch: nat, width: nat, height: nat, length: nat, lines: seq<seq<bv32>>)
    requires |lines| == height && (height == 0 || base + (height - 1) * pitch + width <= length)
    requires forall i :: 0 <= i < |lines| ==> |lines[i]| == width
    ensures LinesFit(length, base, pitch, lines)
  {
    forall i | 0 <= i < |lines|
      ensures base + i * pitch + |lines[i]| <= length
    {
      RowBelow(base, pitch, width, height, length, i);
    }
  }

  /** The whole picture is no larger than the frame buffer. */
  lemma PictureInFrame(width: nat, height: nat, size: nat)
    requires IsPixelSize(size)
    ensures height * width * size <= FrameLength(width, height, size) * size
  {
    MulLeft(height, height + 32, width);
    MulLeft(width, width + 32, height + 32);
    MulLeft(height * width, FrameLength(width, height, size), size);
  }
}
