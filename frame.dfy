/**
 * The frame builder of the capture engine: validation of a YUV_420_888 image,
 * nearest-neighbour resampling to the output size, chroma sampling (planar or
 * interleaved), and the YUV to RGB transform, as a specification of the packed
 * RGBA buffer the image callback leaves behind.
 */
module Frame {
  import opened Native
  import opened Pixels

  /** The bytes of a plane; the NDK reports their length as an `int`. */
  type PlaneBytes = s: seq<byte> | |s| <= Int32Max

  /** One image plane; `Unavailable` when a plane query failed or returned no data. */
  datatype Plane =
    | Unavailable
    | Plane(data: PlaneBytes, rowStride: int32, pixelStride: int32)

  /**
   * An acquired image: its format, its size as reported, its three planes, and
   * whether planes 1 and 2 share one data pointer (interleaved chroma).
   */
  datatype Image = Image(format: int32, width: int32, height: int32,
                         y: Plane, u: Plane, v: Plane, chromaShared: bool)

  /** The result of converting one output pixel. */
  datatype Pixel = Skip | Rgb(r: byte, g: byte, b: byte)

  /**
   * The checks an image passes before anything is written: the format, the
   * three plane data pointers, positive row strides, non-zero pixel strides and
   * a non-zero output size. The image's own width and height are not checked.
   */
  predicate Accepted(img: Image, outW: uint32, outH: uint32)
  {
    img.format == ImageFormatYuv420888
    && img.y.Plane? && img.u.Plane? && img.v.Plane?
    && img.y.rowStride > 0 && img.u.rowStride > 0 && img.v.rowStride > 0
    && img.y.pixelStride != 0 && img.u.pixelStride != 0 && img.v.pixelStride != 0
    && outW != 0 && outH != 0
  }

  /** The source row (or column) of output row (or column) `i`: `i * src / out` in uint32 arithmetic. */
  function SourceCoord(i: nat, src: int32, out: uint32): uint32
    requires out > 0
  {
    U32(i * src) / out
  }

  /** The byte index of column `c` within a row: `c * pixelStride` in uint32, then cast to int. */
  function ByteIndex(c: uint32, pixelStride: int32): int32
  {
    I32(c * pixelStride)
  }

  /** C++'s float-to-int conversion, which truncates toward zero. */
  function Trunc(x: real): (n: int)
    ensures x >= 0.0 ==> n as real <= x < n as real + 1.0
    ensures x < 0.0 ==> n as real - 1.0 < x <= n as real
  {
    if x >= 0.0 then x.Floor else -((-x).Floor)
  }

  /**
   * The BT.601 full-range transform of one luma sample and one chroma pair,
   * each channel truncated and then clamped into a byte.
   */
  function Colour(luma: byte, chromaU: byte, chromaV: byte): (rgb: (byte, byte, byte))
    ensures chromaU == 128 && chromaV == 128 ==> rgb == (luma, luma, luma)
    ensures luma == 255 && chromaV == 255 ==> rgb.0 == 255
    ensures luma == 255 && chromaU == 255 ==> rgb.2 == 255
  {
    var y := luma as real;
    var u := chromaU as real - 128.0;
    var v := chromaV as real - 128.0;
    (ClampToByte(Trunc(y + 1.402 * v)),
     ClampToByte(Trunc(y - 0.344136 * u - 0.714136 * v)),
     ClampToByte(Trunc(y + 1.772 * u)))
  }

  /**
   * The chroma pair for one pixel: from the shared plane 1 at offset and
   * offset + 1 when interleaved (both neutral unless the second byte is in
   * range), otherwise from planes 1 and 2 separately, each neutral when out of
   * range.
   */
  function ChromaPair(img: Image, uOffset: nat, vOffset: nat, uIndex: nat, vIndex: nat): (uv: (byte, byte))
    requires img.u.Plane? && img.v.Plane?
  {
    if img.chromaShared then
      if uOffset + uIndex + 1 < |img.u.data| then (img.u.data[uOffset + uIndex], img.u.data[uOffset + uIndex + 1])
      else (128, 128)
    else
      (if uOffset + uIndex < |img.u.data| then img.u.data[uOffset + uIndex] else 128,
       if vOffset + vIndex < |img.v.data| then img.v.data[vOffset + vIndex] else 128)
  }

  /**
   * Where output pixel (x, y) samples the source: the source column and row,
   * and the byte indices within the luma and chroma rows.
   */
  datatype Sample = Sample(srcX: uint32, srcY: uint32, yIndex: int32, uIndex: int32, vIndex: int32)

  function SampleAt(img: Image, outW: uint32, outH: uint32, x: nat, y: nat): Sample
    requires Accepted(img, outW, outH)
  {
    var srcX := SourceCoord(x, img.width, outW);
    var srcY := SourceCoord(y, img.height, outH);
    Sample(srcX, srcY,
           ByteIndex(srcX, img.y.pixelStride),
           ByteIndex(srcX / 2, img.u.pixelStride),
           ByteIndex(srcX / 2, img.v.pixelStride))
  }

  /** Output pixel (x, y) of an accepted image. */
  function PixelAt(img: Image, outW: uint32, outH: uint32, x: nat, y: nat): Pixel
    requires Accepted(img, outW, outH)
  {
    var s := SampleAt(img, outW, outH, x, y);
    var yOffset := RowOffset(s.srcY, img.y.rowStride);
    var uOffset := RowOffset(s.srcY / 2, img.u.rowStride);
    var vOffset := RowOffset(s.srcY / 2, img.v.rowStride);
    if s.yIndex < 0 || s.uIndex < 0 || s.vIndex < 0 then Skip
    else if s.yIndex >= img.y.rowStride || s.uIndex >= img.u.rowStride || s.vIndex >= img.v.rowStride then Skip
    else if yOffset + s.yIndex >= |img.y.data| then Skip
    else
      var uv := ChromaPair(img, uOffset, vOffset, s.uIndex, s.vIndex);
      var rgb := Colour(img.y.data[yOffset + s.yIndex], uv.0, uv.1);
      Rgb(rgb.0, rgb.1, rgb.2)
  }

  /** The byte offset of a row as the bounds checks compute it, in 64-bit size_t where it cannot wrap. */
  function RowOffset(row: uint32, rowStride: int32): nat
    requires rowStride > 0
  {
    row * rowStride
  }

  /** Byte `c` of a converted pixel; a skipped pixel keeps the previous byte. */
  function PixelByte(p: Pixel, previous: byte, c: nat): byte
  {
    match p
    case Skip => previous
    case Rgb(r, g, b) => if c == 0 then r else if c == 1 then g else if c == 2 then b else 255
  }

  /** The four bytes of a pixel: its colour and an opaque alpha, or the previous bytes if skipped. */
  function PixelBytes(p: Pixel, previous: seq<byte>): (r: seq<byte>)
    requires |previous| == 4
    ensures |r| == 4
    ensures forall c :: 0 <= c < 4 ==> r[c] == PixelByte(p, previous[c], c)
  {
    match p
    case Skip => previous
    case Rgb(red, green, blue) => [red, green, blue, 255]
  }

  /** Byte `i` of the buffer after an accepted image: pixel `i / 4` at row-major position. */
  function ConvertedAt(prev: seq<byte>, img: Image, outW: uint32, outH: uint32, i: nat): byte
    requires Accepted(img, outW, outH) && i < |prev|
  {
    var p := i / 4;
    PixelByte(PixelAt(img, outW, outH, p % outW, p / outW), prev[i], i % 4)
  }

  /** The whole buffer after an accepted image has been converted over `prev`. */
  function Converted(prev: seq<byte>, img: Image, outW: uint32, outH: uint32): (r: seq<byte>)
    requires Accepted(img, outW, outH)
    ensures |r| == |prev|
  {
    seq(|prev|, i requires 0 <= i < |prev| => ConvertedAt(prev, img, outW, outH, i))
  }

  // ----- index arithmetic -----

  lemma ByteOfGroup(q: nat, c: nat)
    requires c < 4
    ensures (4 * q + c) / 4 == q && (4 * q + c) % 4 == c
  {
  }

  lemma RowMajor(x: nat, y: nat, w: nat)
    requires x < w
    ensures (y * w + x) / w == y && (y * w + x) % w == x
  {
    DivUnique(y * w + x, w, y, x);
  }

  /** Output pixel (x, y) occupies bytes o .. o + 3 of the buffer, o = (y * outW + x) * 4. */
  lemma ConvertedPixel(prev: seq<byte>, img: Image, outW: uint32, outH: uint32, x: nat, y: nat, o: nat)
    requires Accepted(img, outW, outH) && x < outW
    requires o == (y * outW + x) * 4 && o + 4 <= |prev|
    ensures forall i :: o <= i < o + 4 ==>
      Converted(prev, img, outW, outH)[i] == PixelByte(PixelAt(img, outW, outH, x, y), prev[i], i - o)
  {
    var q := y * outW + x;
    RowMajor(x, y, outW);
    forall i | o <= i < o + 4
      ensures Converted(prev, img, outW, outH)[i] == PixelByte(PixelAt(img, outW, outH, x, y), prev[i], i - o)
    {
      ConvertedByte(prev, img, outW, outH, q, i - o);
    }
  }

  lemma ConvertedByte(prev: seq<byte>, img: Image, outW: uint32, outH: uint32, q: nat, c: nat)
    requires Accepted(img, outW, outH) && c < 4 && 4 * q + c < |prev|
    ensures Converted(prev, img, outW, outH)[4 * q + c]
      == PixelByte(PixelAt(img, outW, outH, q % outW, q / outW), prev[4 * q + c], c)
  {
    ByteOfGroup(q, c);
  }

  // ----- properties of the conversion -----

  /**
   * Every converted pixel is opaque and every skipped pixel keeps its previous
   * four bytes, for a buffer of exactly outW * outH pixels.
   */
  lemma ConvertedPixels(prev: seq<byte>, img: Image, outW: uint32, outH: uint32)
    requires Accepted(img, outW, outH) && |prev| == outW * outH * 4
    ensures forall x: nat, y: nat :: x < outW && y < outH ==> PixelInBuffer(prev, img, outW, outH, x, y)
  {
    forall x: nat, y: nat | x < outW && y < outH
      ensures PixelInBuffer(prev, img, outW, outH, x, y)
    {
      InBuffer(x, y, outW, outH);
      ConvertedPixelBytes(prev, img, outW, outH, x, y);
    }
  }

  /**
   * Bytes (y * outW + x) * 4 .. + 3 of the converted buffer are the colour of
   * pixel (x, y) with alpha 255, or the previous bytes if the pixel is skipped.
   */
  ghost predicate PixelInBuffer(prev: seq<byte>, img: Image, outW: uint32, outH: uint32, x: nat, y: nat)
    requires Accepted(img, outW, outH)
  {
    var o := (y * outW + x) * 4;
    o + 4 <= |prev|
    && Converted(prev, img, outW, outH)[o..o + 4] == PixelBytes(PixelAt(img, outW, outH, x, y), prev[o..o + 4])
  }

  lemma ConvertedPixelBytes(prev: seq<byte>, img: Image, outW: uint32, outH: uint32, x: nat, y: nat)
    requires Accepted(img, outW, outH) && x < outW
    requires (y * outW + x) * 4 + 3 < |prev|
    ensures var o := (y * outW + x) * 4;
      Converted(prev, img, outW, outH)[o..o + 4] == PixelBytes(PixelAt(img, outW, outH, x, y), prev[o..o + 4])
  {
    var o := (y * outW + x) * 4;
    ConvertedPixel(prev, img, outW, outH, x, y, o);
    GroupBytes(Converted(prev, img, outW, outH), prev, o, PixelAt(img, outW, outH, x, y));
  }

  lemma GroupBytes(r: seq<byte>, prev: seq<byte>, o: nat, p: Pixel)
    requires o + 4 <= |r| && o + 4 <= |prev|
    requires forall i :: o <= i < o + 4 ==> r[i] == PixelByte(p, prev[i], i - o)
    ensures r[o..o + 4] == PixelBytes(p, prev[o..o + 4])
  {
    var group, bytes := r[o..o + 4], PixelBytes(p, prev[o..o + 4]);
    forall c | 0 <= c < 4 ensures group[c] == bytes[c] {
      assert r[o + c] == PixelByte(p, prev[o + c], c);
    }
  }

  lemma InBuffer(x: nat, y: nat, w: nat, h: nat)
    requires x < w && y < h
    ensures (y * w + x) * 4 + 3 < w * h * 4
  {
    MulMono(y + 1, h, w);
  }

  /**
   * Without uint32 wrap-around, output row or column `i` samples source row
   * or column `i * src / out` (integer division), which lies inside the source.
   */
  lemma SourceCoordExact(i: nat, src: int32, out: uint32)
    requires 0 < src && i < out && out * src <= Two32
    ensures SourceCoord(i, src, out) == i * src / out < src
  {
    MulMono(i + 1, out, src);
    DivLess(i * src, src, out);
  }

  /**
   * With the output size equal to the source size, for sizes up to 65536,
   * the resampling is the identity.
   */
  lemma SourceCoordIdentity(i: nat, n: int32)
    requires 0 <= i < n && n <= 0x1_0000
    ensures SourceCoord(i, n, n) == i
  {
    MulMono(n, 0x1_0000, n);
    MulMono(n, 0x1_0000, 0x1_0000);
    SourceCoordExact(i, n, n);
    DivUnique(i * n, n, i, 0);
  }

  /**
   * Beyond 65536 the uint32 product wraps and the identity breaks: at size
   * 65537, output column 65536 samples column 0.
   */
  lemma SourceCoordWraps()
    ensures SourceCoord(65536, 65537, 65537) == 0
    ensures forall n: int32 :: 0x1_0000 < n ==> SourceCoord(0x1_0000, n, n) != 0x1_0000
  {
    forall n: int32 | 0x1_0000 < n
      ensures SourceCoord(0x1_0000, n, n) != 0x1_0000
    {
      WrappedColumn(n);
    }
  }

  /** The wrapped product `65536 * n` keeps only `n mod 65536`, which is below `n`. */
  lemma WrappedColumn(n: int32)
    requires 0x1_0000 < n
    ensures SourceCoord(0x1_0000, n, n) < 0x1_0000
  {
    var k, r := n / 0x1_0000, n % 0x1_0000;
    assert 0x1_0000 * n == k * Two32 + 0x1_0000 * r by {
      assert n == k * 0x1_0000 + r;
    }
    MulMono(r, 0x1_0000 - 1, 0x1_0000);
    DivUnique(0x1_0000 * n, Two32, k, 0x1_0000 * r);
    MulMono(r, n, 0x1_0000);
    DivLess(0x1_0000 * r, 0x1_0000, n);
  }

  /**
   * The image callback reads through row pointers whose offset is a `uint32` product
   * (row times stride, modulo 2^32), while its bounds checks use the exact
   * 64-bit offset. Every byte a converted pixel reads passed such a check
   * against a plane length below 2^31, so there the wrapped offset is the
   * exact one that `PixelAt` uses.
   */
  lemma RowPointersExact(img: Image, outW: uint32, outH: uint32, x: nat, y: nat)
    requires Accepted(img, outW, outH) && PixelAt(img, outW, outH, x, y).Rgb?
    ensures var s := SampleAt(img, outW, outH, x, y);
      U32(s.srcY * img.y.rowStride) == RowOffset(s.srcY, img.y.rowStride)
    ensures var s := SampleAt(img, outW, outH, x, y); var uOffset := RowOffset(s.srcY / 2, img.u.rowStride);
      uOffset + s.uIndex < |img.u.data| ==> U32((s.srcY / 2) * img.u.rowStride) == uOffset
    ensures var s := SampleAt(img, outW, outH, x, y); var vOffset := RowOffset(s.srcY / 2, img.v.rowStride);
      vOffset + s.vIndex < |img.v.data| ==> U32((s.srcY / 2) * img.v.rowStride) == vOffset
  {
  }

  /** The data of plane 2 is never read when the chroma is interleaved. */
  lemma InterleavedIgnoresPlane2(img: Image, outW: uint32, outH: uint32, x: nat, y: nat, data2: PlaneBytes)
    requires Accepted(img, outW, outH) && img.chromaShared
    ensures Accepted(img.(v := img.v.(data := data2)), outW, outH)
    ensures PixelAt(img.(v := img.v.(data := data2)), outW, outH, x, y) == PixelAt(img, outW, outH, x, y)
  {
  }

  /**
   * A converted pixel's luma index is inside its row and inside the plane, so
   * no pixel reads outside the luma data.
   */
  lemma ConvertedWithinPlane(img: Image, outW: uint32, outH: uint32, x: nat, y: nat)
    requires Accepted(img, outW, outH) && PixelAt(img, outW, outH, x, y).Rgb?
    ensures var s := SampleAt(img, outW, outH, x, y);
      0 <= s.yIndex < img.y.rowStride && 0 <= s.uIndex < img.u.rowStride && 0 <= s.vIndex < img.v.rowStride
      && s.srcY * img.y.rowStride + s.yIndex < |img.y.data|
  {
  }

  /** An image whose planes hold one luma value and neutral chroma everywhere. */
  ghost predicate UniformGray(img: Image, luma: byte)
  {
    img.y.Plane? && img.u.Plane? && img.v.Plane?
    && (forall i :: 0 <= i < |img.y.data| ==> img.y.data[i] == luma)
    && (forall i :: 0 <= i < |img.u.data| ==> img.u.data[i] == 128)
    && (forall i :: 0 <= i < |img.v.data| ==> img.v.data[i] == 128)
  }

  /**
   * A tightly packed layout that no pixel check rejects: unit pixel strides,
   * luma rows of at least the image width and a luma plane covering every row,
   * chroma rows of at least half the width, and no uint32 wrap-around when
   * scaling coordinates.
   */
  ghost predicate Packed(img: Image, outW: uint32, outH: uint32)
  {
    Accepted(img, outW, outH) && img.width > 0 && img.height > 0
    && outW * img.width <= Two32 && outH * img.height <= Two32
    && img.y.pixelStride == 1 && img.u.pixelStride == 1 && img.v.pixelStride == 1
    && img.y.rowStride >= img.width && |img.y.data| >= img.y.rowStride * img.height
    && 2 * img.u.rowStride >= img.width && 2 * img.v.rowStride >= img.width
  }

  /** In a packed layout every output pixel samples inside the source rows and the luma plane. */
  lemma PackedSample(img: Image, outW: uint32, outH: uint32, x: nat, y: nat)
    requires Packed(img, outW, outH) && x < outW && y < outH
    ensures var s := SampleAt(img, outW, outH, x, y);
      s.yIndex == s.srcX < img.y.rowStride
      && s.uIndex == s.vIndex == s.srcX / 2
      && s.uIndex < img.u.rowStride && s.vIndex < img.v.rowStride
      && s.srcY * img.y.rowStride + s.yIndex < |img.y.data|
  {
    var s := SampleAt(img, outW, outH, x, y);
    SourceCoordExact(x, img.width, outW);
    SourceCoordExact(y, img.height, outH);
    UnitStride(s.srcX);
    UnitStride(s.srcX / 2);
    RowInPlane(s.srcY, img.height, img.y.rowStride, s.yIndex, |img.y.data|);
  }

  /** With a pixel stride of one the byte index is the column itself. */
  lemma UnitStride(c: uint32)
    requires c < 0x8000_0000
    ensures ByteIndex(c, 1) == c
  {
  }

  /** Byte `i` of row `r` lies inside a plane holding `h` rows of stride `rs`. */
  lemma RowInPlane(r: nat, h: nat, rs: nat, i: nat, length: nat)
    requires r < h && i < rs && rs * h <= length
    ensures r * rs + i < length
  {
    MulMono(r + 1, h, rs);
    assert r * rs + rs == (r + 1) * rs;
  }

  lemma PackedPixelIsGray(img: Image, outW: uint32, outH: uint32, luma: byte, x: nat, y: nat)
    requires Packed(img, outW, outH) && UniformGray(img, luma) && x < outW && y < outH
    ensures PixelAt(img, outW, outH, x, y) == Rgb(luma, luma, luma)
  {
    PackedSample(img, outW, outH, x, y);
  }

  /**
   * A uniform gray image in a packed layout converts to that gray, opaque, at
   * every output pixel, whatever the output and source sizes.
   */
  lemma UniformGrayFrame(prev: seq<byte>, img: Image, outW: uint32, outH: uint32, luma: byte)
    requires Packed(img, outW, outH) && UniformGray(img, luma) && |prev| == outW * outH * 4
    ensures forall i :: 0 <= i < |prev| ==> Converted(prev, img, outW, outH)[i] == if i % 4 == 3 then 255 else luma
  {
    forall i | 0 <= i < |prev|
      ensures Converted(prev, img, outW, outH)[i] == if i % 4 == 3 then 255 else luma
    {
      var p := i / 4;
      DivLess(i, outW * outH, 4);
      DivLess(p, outH, outW);
      PackedPixelIsGray(img, outW, outH, luma, p % outW, p / outW);
    }
  }
}
