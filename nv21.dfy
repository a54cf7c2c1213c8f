/**
 * The ARGB -> NV21 (YUV420SP) conversion that both the face authentication
 * screen and the frame analyser run before handing a bitmap to the face
 * detector.
 *
 * NV21 layout for a width x height image:
 *   bytes [0, width*height)            one luma (Y) byte per pixel, row-major;
 *   bytes [width*height, Nv21Length)   one interleaved V,U pair per 2x2 block,
 *                                      blocks row-major over a
 *                                      ceil(height/2) x ceil(width/2) grid,
 *                                      both taken from the block's top-left pixel.
 *
 * `Nv21Image` below is that layout written down directly; `EncodeYuv420Sp` is the
 * source's streaming loop, proved to produce exactly it.
 */
module Nv21 {
  import opened Arith

  /** A packed ARGB_8888 pixel: the 32 bits of a Kotlin Int. */
  type Pixel = bv32

  /** One byte of the output buffer, as the unsigned value of its bit pattern. */
  newtype byte = x: int | 0 <= x < 256

  /** An 8-bit colour channel. */
  type Channel = c: int | 0 <= c < 256

  // `p and 0xff0000 shr 16` etc. The mask clears bit 31, so Kotlin's
  // arithmetic `shr` and the bit-vector `>>` agree. Each channel is one byte
  // of the pixel: bits 16..23, 8..15 and 0..7.
  function Red(p: Pixel): (c: Channel)
    ensures c == ((p >> 16) & 0xFF) as int
  {
    ((p & 0xFF_0000) >> 16) as int
  }

  function Green(p: Pixel): (c: Channel)
    ensures c == ((p >> 8) & 0xFF) as int
  {
    ((p & 0xFF00) >> 8) as int
  }

  function Blue(p: Pixel): (c: Channel)
    ensures c == (p & 0xFF) as int
  {
    ((p & 0xFF) >> 0) as int
  }

  /** Kotlin's `shr 8` on an Int: arithmetic shift, that is, division by 256 rounded down. */
  function Shr8(x: int): (q: int)
    ensures 256 * q <= x < 256 * q + 256
  {
    x / 256
  }

  /** Integer BT.601 luma; for 8-bit channels it stays in the studio range 16..235. */
  function Luma(r: Channel, g: Channel, b: Channel): (y: int)
    ensures 16 <= y <= 235
  {
    Shr8(66 * r + 129 * g + 25 * b + 128) + 16
  }

  /** Integer BT.601 blue-difference chroma; for 8-bit channels it stays in 16..240. */
  function ChromaU(r: Channel, g: Channel, b: Channel): (u: int)
    ensures 16 <= u <= 240
  {
    Shr8(-38 * r - 74 * g + 112 * b + 128) + 128
  }

  /** Integer BT.601 red-difference chroma; for 8-bit channels it stays in 16..240. */
  function ChromaV(r: Channel, g: Channel, b: Channel): (v: int)
    ensures 16 <= v <= 240
  {
    Shr8(112 * r - 94 * g - 18 * b + 128) + 128
  }

  /** `if (x < 0) 0 else if (x > 255) 255 else x`, then `toByte()`. */
  function Clamp(x: int): (b: byte)
    ensures 0 <= x < 256 ==> b as int == x
    ensures x < 0 ==> b == 0
    ensures x > 255 ==> b == 255
  {
    if x < 0 then 0 else if x > 255 then 255 else x as byte
  }

  /** The stored luma byte of a pixel: the clamp never fires. */
  function YByte(p: Pixel): (y: byte)
    ensures y as int == Luma(Red(p), Green(p), Blue(p))
    ensures 16 <= y <= 235
  {
    Clamp(Luma(Red(p), Green(p), Blue(p)))
  }

  /** The stored U byte of a pixel: the clamp never fires. */
  function UByte(p: Pixel): (u: byte)
    ensures u as int == ChromaU(Red(p), Green(p), Blue(p))
    ensures 16 <= u <= 240
  {
    Clamp(ChromaU(Red(p), Green(p), Blue(p)))
  }

  /** The stored V byte of a pixel: the clamp never fires. */
  function VByte(p: Pixel): (v: byte)
    ensures v as int == ChromaV(Red(p), Green(p), Blue(p))
    ensures 16 <= v <= 240
  {
    Clamp(ChromaV(Red(p), Green(p), Blue(p)))
  }

  /** The colour bits of a pixel: all but the alpha byte. */
  function Rgb(p: Pixel): bv32 { p & 0xFF_FFFF }

  /** The alpha byte never reaches a channel. */
  lemma ChannelsIgnoreAlpha(p: Pixel, q: Pixel)
    requires Rgb(p) == Rgb(q)
    ensures Red(p) == Red(q) && Green(p) == Green(q) && Blue(p) == Blue(q)
  {
  }

  /** Kotlin's `ceil(x)` on a Double followed by `toInt()`. */
  function Ceil(x: real): (c: int)
    ensures x <= c as real < x + 1.0
  {
    -((-x).Floor)
  }

  /** Bytes of the interleaved chroma plane: one V,U pair per 2x2 block. */
  function ChromaSize(width: nat, height: nat): nat
  {
    2 * (HalfUp(height) * HalfUp(width))
  }

  function Nv21Length(width: nat, height: nat): nat
  {
    width * height + ChromaSize(width, height)
  }

  lemma CeilHalf(n: nat)
    ensures Ceil(n as real / 2.0) == HalfUp(n)
  {
  }

  /**
   * The allocation in bitmapToNV21, `h*w + 2*ceil(h/2.0)*ceil(w/2.0)` on
   * Doubles: exactly the NV21 length, the luma plane plus the chroma plane.
   */
  function BufferSize(width: nat, height: nat): (size: int)
    ensures size == Nv21Length(width, height)
  {
    CeilHalf(width);
    CeilHalf(height);
    height * width + 2 * Ceil(height as real / 2.0) * Ceil(width as real / 2.0)
  }

  /**
   * A block number below ceil(height/2) * cols either lies in the first block
   * row or, once that row is skipped, in the grid of an image two pixel rows
   * shorter.
   */
  lemma BlockRowStep(blk: nat, height: nat, cols: nat)
    requires blk < HalfUp(height) * cols
    ensures height >= 1
    ensures blk >= cols ==> height >= 3 && blk - cols < HalfUp(height - 2) * cols
  {
    if blk >= cols {
      if HalfUp(height) <= 1 {
        MulMonotone(HalfUp(height), 1, cols);
      }
      assert HalfUp(height - 2) * cols == HalfUp(height) * cols - cols;
    }
  }

  /**
   * Row-major index of the top-left pixel of chroma block `blk`. Blocks are
   * numbered row-major, ceil(width/2) to a block row, and each block row
   * covers two pixel rows.
   */
  function BlockPixel(width: nat, height: nat, blk: nat): (k: nat)
    requires blk < HalfUp(height) * HalfUp(width)
    ensures k < width * height
    decreases height
  {
    var cw := HalfUp(width);
    BlockRowStep(blk, height, cw);
    if blk < cw then
      MulMonotone(1, height, width);
      2 * blk
    else
      assert width * (height - 2) + 2 * width == width * height;
      2 * width + BlockPixel(width, height - 2, blk - cw)
  }

  /** Block (bj, bi) of the grid has number bj * ceil(width/2) + bi and top-left pixel (2*bj, 2*bi). */
  lemma {:induction false} BlockPixelAt(width: nat, height: nat, bj: nat, bi: nat)
    requires bj < HalfUp(height) && bi < HalfUp(width)
    ensures bj * HalfUp(width) + bi < HalfUp(height) * HalfUp(width)
    ensures BlockPixel(width, height, bj * HalfUp(width) + bi) == 2 * bj * width + 2 * bi
    decreases bj
  {
    var cw := HalfUp(width);
    var blk := bj * cw + bi;
    RowMajorInBounds(bj, bi, cw, HalfUp(height));
    if bj == 0 {
      assert blk == bi < cw;
    } else {
      assert HalfUp(height - 2) == HalfUp(height) - 1;
      MulAddDistrib(bj - 1, 1, cw);
      assert blk - cw == (bj - 1) * cw + bi && blk >= cw;
      BlockPixelAt(width, height - 2, bj - 1, bi);
      assert BlockPixel(width, height - 2, blk - cw) == 2 * (bj - 1) * width + 2 * bi;
      assert BlockPixel(width, height, blk) == 2 * width + BlockPixel(width, height - 2, blk - cw);
      assert 2 * bj * width == 2 * (bj - 1) * width + 2 * width by {
        MulAddDistrib(2 * (bj - 1), 2, width);
      }
    }
  }

  /** f applied to every pixel, in order. */
  function PerPixel(f: Pixel -> byte, argb: seq<Pixel>): (out: seq<byte>)
    ensures |out| == |argb|
    ensures forall k {:trigger argb[k]} :: 0 <= k < |argb| ==> out[k] == f(argb[k])
  {
    seq(|argb|, k requires 0 <= k < |argb| => f(argb[k]))
  }

  /** x0, y0, x1, y1, ...: two equally long sequences, element by element. */
  function Interleave<T>(xs: seq<T>, ys: seq<T>): (r: seq<T>)
    requires |xs| == |ys|
    ensures |r| == 2 * |xs|
  {
    if xs == [] then [] else [xs[0], ys[0]] + Interleave(xs[1..], ys[1..])
  }

  lemma {:induction false} InterleaveAt<T>(xs: seq<T>, ys: seq<T>, b: nat)
    requires |xs| == |ys| && b < |xs|
    ensures Interleave(xs, ys)[2 * b] == xs[b] && Interleave(xs, ys)[2 * b + 1] == ys[b]
  {
    if b > 0 {
      InterleaveAt(xs[1..], ys[1..], b - 1);
    }
  }

  /** One sample per 2x2 block, blocks row-major: the sample of the block's top-left pixel. */
  function BlockSamples<T>(s: seq<T>, width: nat, height: nat): (r: seq<T>)
    requires |s| == width * height
    ensures |r| == HalfUp(height) * HalfUp(width)
  {
    seq(HalfUp(height) * HalfUp(width), blk requires 0 <= blk < HalfUp(height) * HalfUp(width) =>
      s[BlockPixel(width, height, blk)])
  }

  /**
   * The interleaved V,U plane, given each pixel's V bytes vs and U bytes us:
   * per block, the V then the U byte of its top-left pixel.
   */
  function ChromaPlane<T>(vs: seq<T>, us: seq<T>, width: nat, height: nat): (vu: seq<T>)
    requires |vs| == |us| == width * height
    ensures |vu| == ChromaSize(width, height)
  {
    Interleave(BlockSamples(vs, width, height), BlockSamples(us, width, height))
  }

  /** Chroma pair number blk holds the V then the U sample of the block's top-left pixel. */
  lemma ChromaPlaneAt<T>(vs: seq<T>, us: seq<T>, width: nat, height: nat, blk: nat)
    requires |vs| == |us| == width * height
    requires blk < HalfUp(height) * HalfUp(width)
    ensures 2 * blk + 1 < ChromaSize(width, height)
    ensures ChromaPlane(vs, us, width, height)[2 * blk] == vs[BlockPixel(width, height, blk)]
    ensures ChromaPlane(vs, us, width, height)[2 * blk + 1] == us[BlockPixel(width, height, blk)]
  {
    InterleaveAt(BlockSamples(vs, width, height), BlockSamples(us, width, height), blk);
  }

  /**
   * On an even pixel row j, starting at rowStart, the pixel at even index k
   * has its V,U pair at chroma offset c + (k - rowStart), where c is the
   * offset of block row j/2.
   */
  lemma ChromaOfPixel<T>(vs: seq<T>, us: seq<T>, width: nat, height: nat, j: nat, rowStart: nat, c: nat, k: nat)
    requires |vs| == |us| == width * height && j < height && j % 2 == 0
    requires rowStart == width * j && rowStart % 2 == 0
    requires c == 2 * (HalfUp(j) * HalfUp(width))
    requires rowStart <= k < rowStart + width && k % 2 == 0
    ensures k < width * height && c + (k - rowStart) + 1 < ChromaSize(width, height)
    ensures var vu := ChromaPlane(vs, us, width, height);
            && vu[c + (k - rowStart)] == vs[k]
            && vu[c + (k - rowStart) + 1] == us[k]
  {
    var bj, bi := EvenPixelBlock(j, width, rowStart, k);
    assert bj < HalfUp(height);
    BlockPixelAt(width, height, bj, bi);
    ChromaPlaneAt(vs, us, width, height, bj * HalfUp(width) + bi);
  }

  /** The Y plane: the luma byte of each pixel, in pixel order. */
  function Lumas(argb: seq<Pixel>): (ys: seq<byte>)
    ensures |ys| == |argb|
  {
    PerPixel(YByte, argb)
  }

  /** The interleaved V,U plane of a width x height image. */
  function Chromas(argb: seq<Pixel>, width: nat, height: nat): (vu: seq<byte>)
    requires |argb| == width * height
    ensures |vu| == ChromaSize(width, height)
  {
    ChromaPlane(PerPixel(VByte, argb), PerPixel(UByte, argb), width, height)
  }

  /** The NV21 image of a row-major ARGB pixel array: the Y plane, then the V,U plane. */
  function Nv21Image(argb: seq<Pixel>, width: nat, height: nat): (out: seq<byte>)
    requires |argb| == width * height
    ensures |out| == Nv21Length(width, height)
  {
    Lumas(argb) + Chromas(argb, width, height)
  }

  /** Byte k of the Y plane is the luma of pixel k. */
  lemma Nv21LumaPlane(argb: seq<Pixel>, width: nat, height: nat, k: nat)
    requires |argb| == width * height
    requires k < width * height
    ensures Nv21Image(argb, width, height)[k] == YByte(argb[k])
  {
  }

  /** Byte m of the chroma plane sits at width*height + m. */
  lemma Nv21ChromaPlane(argb: seq<Pixel>, width: nat, height: nat, m: nat)
    requires |argb| == width * height
    requires m < ChromaSize(width, height)
    ensures Nv21Image(argb, width, height)[width * height + m] == Chromas(argb, width, height)[m]
  {
  }

  /**
   * Pair blk of the chroma plane holds V then U, both of the top-left pixel
   * of block blk; by BlockPixelAt, block bj*ceil(width/2) + bi is the one
   * at pixel (2*bj, 2*bi).
   */
  lemma ChromasBlock(argb: seq<Pixel>, width: nat, height: nat, blk: nat)
    requires |argb| == width * height
    requires blk < HalfUp(height) * HalfUp(width)
    ensures 2 * blk + 1 < ChromaSize(width, height)
    ensures Chromas(argb, width, height)[2 * blk] == VByte(argb[BlockPixel(width, height, blk)])
    ensures Chromas(argb, width, height)[2 * blk + 1] == UByte(argb[BlockPixel(width, height, blk)])
  {
    ChromaPlaneAt(PerPixel(VByte, argb), PerPixel(UByte, argb), width, height, blk);
  }

  /** Images whose pixels agree under f agree under PerPixel(f). */
  lemma PerPixelSame(f: Pixel -> byte, a: seq<Pixel>, b: seq<Pixel>)
    requires |a| == |b|
    requires forall k :: 0 <= k < |a| ==> f(a[k]) == f(b[k])
    ensures PerPixel(f, a) == PerPixel(f, b)
  {
  }

  /** Pixels that differ in alpha alone give the same three bytes. */
  lemma BytesIgnoreAlpha(p: Pixel, q: Pixel)
    requires Rgb(p) == Rgb(q)
    ensures YByte(p) == YByte(q) && UByte(p) == UByte(q) && VByte(p) == VByte(q)
  {
    ChannelsIgnoreAlpha(p, q);
  }

  /** Only bits 0..23 of each pixel matter: images that differ in alpha alone encode the same. */
  lemma Nv21IgnoresAlpha(a: seq<Pixel>, b: seq<Pixel>, width: nat, height: nat)
    requires |a| == |b| == width * height
    requires forall k :: 0 <= k < |a| ==> Rgb(a[k]) == Rgb(b[k])
    ensures Nv21Image(a, width, height) == Nv21Image(b, width, height)
  {
    forall k | 0 <= k < |a|
      ensures YByte(a[k]) == YByte(b[k]) && UByte(a[k]) == UByte(b[k]) && VByte(a[k]) == VByte(b[k])
    {
      BytesIgnoreAlpha(a[k], b[k]);
    }
    PerPixelSame(YByte, a, b);
    PerPixelSame(VByte, a, b);
    PerPixelSame(UByte, a, b);
  }

  /**
   * What the encoder needs to know about pixel row j, which starts at
   * rowStart, given each pixel's V samples vs and U samples us: when j is
   * even, the V,U pair of each even-indexed pixel sits in chromas at offset c
   * plus the pixel's offset in the row.
   */
  ghost predicate RowReady<T>(vs: seq<T>, us: seq<T>, width: nat, j: nat, rowStart: nat, c: nat, chromas: seq<T>)
  {
    && rowStart + width <= |vs| == |us|
    && (j % 2 == 0 ==> rowStart % 2 == 0 && c + 2 * HalfUp(width) <= |chromas|)
    && forall k {:trigger vs[k]} :: rowStart <= k < rowStart + width && j % 2 == 0 && k % 2 == 0 ==>
         && chromas[c + (k - rowStart)] == vs[k]
         && chromas[c + (k - rowStart) + 1] == us[k]
  }

  /** Every row of the image is ready for the encoder: the chroma plane holds its pairs. */
  lemma RowBytes<T>(vs: seq<T>, us: seq<T>, width: nat, height: nat, j: nat)
    requires |vs| == |us| == width * height && j < height
    ensures RowReady(vs, us, width, j, RowStart(width, j), ChromaStart(width, j), ChromaPlane(vs, us, width, height))
  {
    var rowStart, c := RowStart(width, j), ChromaStart(width, j);
    RowStartIsProduct(width, j);
    ChromaStartIsBlocks(width, j);
    RowCounters(width, height, j);
    if j % 2 == 0 {
      EvenRowParity(j, width);
      forall k | rowStart <= k < rowStart + width && k % 2 == 0 {
        ChromaOfPixel(vs, us, width, height, j, rowStart, c, k);
      }
    }
  }

  /** Chroma bytes encodeYUV420SP writes for the first i pixels of row j. */
  function Pairs(j: nat, i: nat): nat
  {
    if j % 2 == 0 then 2 * HalfUp(i) else 0
  }

  /**
   * Pixel i of row j, at row-major index rowStart + i, adds a V,U pair
   * exactly when the source's test `j % 2 == 0 && index % 2 == 0` holds,
   * and that pair lands at offset i of the row's chroma bytes.
   */
  lemma PairStep(j: nat, rowStart: nat, i: nat, width: nat)
    requires i < width && (j % 2 == 0 ==> rowStart % 2 == 0)
    ensures Pairs(j, i + 1) == Pairs(j, i) + (if j % 2 == 0 && (rowStart + i) % 2 == 0 then 2 else 0)
    ensures Pairs(j, i + 1) <= Pairs(j, width)
    ensures j % 2 == 0 && (rowStart + i) % 2 == 0 ==> Pairs(j, i) == i
  {
    HalfUpStep(i);
    HalfUpMonotone(i + 1, width);
    if j % 2 == 0 {
      ParityShift(rowStart, i);
    }
  }

  /** yIndex when encodeYUV420SP starts pixel row j: one luma byte per pixel of the rows before. */
  function RowStart(width: nat, j: nat): nat
  {
    if j == 0 then 0 else RowStart(width, j - 1) + width
  }

  /** uvIndex - frameSize when encodeYUV420SP starts pixel row j: the chroma bytes of the rows before. */
  function ChromaStart(width: nat, j: nat): nat
  {
    if j == 0 then 0 else ChromaStart(width, j - 1) + Pairs(j - 1, width)
  }

  lemma {:induction false} RowStartIsProduct(width: nat, j: nat)
    ensures RowStart(width, j) == width * j
  {
    if j > 0 {
      RowStartIsProduct(width, j - 1);
      NextRow(j - 1, width, j);
    }
  }

  /** Each even row before j has added one block row of ceil(width/2) V,U pairs. */
  lemma {:induction false} ChromaStartIsBlocks(width: nat, j: nat)
    ensures ChromaStart(width, j) == 2 * (HalfUp(j) * HalfUp(width))
  {
    if j > 0 {
      ChromaStartIsBlocks(width, j - 1);
      NextEvenRow(j - 1, HalfUp(width), j);
    }
  }

  /** Row j of the image and its chroma bytes fit in their planes. */
  lemma RowCounters(width: nat, height: nat, j: nat)
    requires j < height
    ensures RowStart(width, j) + width <= width * height
    ensures ChromaStart(width, j) + Pairs(j, width) <= ChromaSize(width, height)
  {
    RowStartIsProduct(width, j);
    NextRow(j, width, height);
    ChromaStartIsBlocks(width, j);
    NextEvenRow(j, HalfUp(width), height);
  }

  /**
   * What one call of encodeYUV420SP is to produce, fixed for the whole call:
   * the offset frameSize of the chroma plane, the Y plane `lumas`, each
   * pixel's V and U bytes `vs` and `us`, the interleaved V,U plane `chromas`,
   * and the buffer's contents `orig` before the call.
   */
  datatype Target = Target(frameSize: nat, lumas: seq<byte>, vs: seq<byte>, us: seq<byte>,
                           chromas: seq<byte>, orig: seq<byte>)

  /** The target of encoding the width x height image argb over a buffer that held orig. */
  ghost function Goal(argb: seq<Pixel>, width: nat, height: nat, orig: seq<byte>): Target
    requires |argb| == width * height
  {
    Target(width * height, Lumas(argb), PerPixel(VByte, argb), PerPixel(UByte, argb),
           Chromas(argb, width, height), orig)
  }

  /**
   * The buffer as encodeYUV420SP leaves it with its counters at yIndex and
   * uvIndex: the luma bytes below yIndex, the chroma bytes from frameSize up
   * to uvIndex, and what it held before everywhere else.
   */
  ghost predicate Encoded(buf: array<byte>, yIndex: nat, uvIndex: nat, t: Target)
    reads buf
  {
    && yIndex <= |t.lumas| && uvIndex <= t.frameSize + |t.chromas| && |t.orig| == buf.Length
    && forall k :: 0 <= k < buf.Length ==>
         buf[k] == if k < yIndex then t.lumas[k]
                   else if t.frameSize <= k < uvIndex then t.chromas[k - t.frameSize]
                   else t.orig[k]
  }

  /** Once both planes are complete the buffer starts with lumas + chromas and keeps the rest. */
  lemma PlanesFilled(buf: array<byte>, yIndex: nat, uvIndex: nat, t: Target)
    requires yIndex == t.frameSize == |t.lumas| && uvIndex == t.frameSize + |t.chromas| <= buf.Length
    requires Encoded(buf, yIndex, uvIndex, t)
    ensures buf[..|t.lumas| + |t.chromas|] == t.lumas + t.chromas
    ensures forall k :: |t.lumas| + |t.chromas| <= k < buf.Length ==> buf[k] == t.orig[k]
  {
  }

  /** `yuv420sp[yIndex++] = …`: the luma byte of pixel yIndex. */
  method StoreLuma(yuv420sp: array<byte>, yIndex: nat, ghost uvIndex: nat, y: byte, ghost t: Target)
    requires yIndex < |t.lumas| && yIndex < yuv420sp.Length && y == t.lumas[yIndex]
    requires yIndex < t.frameSize
    requires Encoded(yuv420sp, yIndex, uvIndex, t)
    modifies yuv420sp
    ensures Encoded(yuv420sp, yIndex + 1, uvIndex, t)
  {
    yuv420sp[yIndex] := y;
  }

  /** `yuv420sp[uvIndex++] = …` twice: the V,U pair that starts at chroma byte m. */
  method StorePair(yuv420sp: array<byte>, ghost yIndex: nat, uvIndex: nat, v: byte, u: byte,
                   ghost m: nat, ghost t: Target)
    requires uvIndex == t.frameSize + m && m + 2 <= |t.chromas| && uvIndex + 2 <= yuv420sp.Length
    requires v == t.chromas[m] && u == t.chromas[m + 1] && yIndex <= t.frameSize
    requires Encoded(yuv420sp, yIndex, uvIndex, t)
    modifies yuv420sp
    ensures Encoded(yuv420sp, yIndex, uvIndex + 2, t)
  {
    yuv420sp[uvIndex] := v;
    yuv420sp[uvIndex + 1] := u;
  }

  /** The V,U pair RowReady places for an even pixel k of an even row, as the pixel's channels give it. */
  lemma PairBytes(argb: seq<Pixel>, vs: seq<byte>, us: seq<byte>, width: nat, j: nat,
                  rowStart: nat, c: nat, chromas: seq<byte>, k: nat)
    requires vs == PerPixel(VByte, argb) && us == PerPixel(UByte, argb)
    requires RowReady(vs, us, width, j, rowStart, c, chromas)
    requires rowStart <= k < rowStart + width && j % 2 == 0 && k % 2 == 0
    requires c + (k - rowStart) + 1 < |chromas|
    ensures chromas[c + (k - rowStart)] == Clamp(ChromaV(Red(argb[k]), Green(argb[k]), Blue(argb[k])))
    ensures chromas[c + (k - rowStart) + 1] == Clamp(ChromaU(Red(argb[k]), Green(argb[k]), Blue(argb[k])))
  {
    assert vs[k] == VByte(argb[k]) && us[k] == UByte(argb[k]);
  }

  /**
   * What holds throughout the inner loop of encodeYUV420SP over row j, which
   * starts with the counters at yIndex0 and uvIndex0 in a buffer of length
   * len: the row and its chroma bytes fit, the row's chroma bytes start at
   * offset c of the chroma plane, and that plane holds the row's V,U pairs
   * where RowReady says.
   */
  ghost predicate RowFrame(len: nat, argb: seq<Pixel>, width: nat, j: nat, yIndex0: nat, uvIndex0: nat,
                           c: nat, t: Target)
  {
    && yIndex0 + width <= t.frameSize == |argb| <= uvIndex0 == t.frameSize + c
    && uvIndex0 + Pairs(j, width) <= len
    && uvIndex0 + Pairs(j, width) <= t.frameSize + |t.chromas|
    && t.lumas == PerPixel(YByte, argb) && t.vs == PerPixel(VByte, argb) && t.us == PerPixel(UByte, argb)
    && RowReady(t.vs, t.us, width, j, yIndex0, c, t.chromas)
  }

  /**
   * The body of the inner loop of encodeYUV420SP, for pixel i of row j: the
   * pixel's luma byte at yIndex and, when j and index are even, its V,U pair
   * at uvIndex; the counters step past what was written.
   */
  method EncodePixel(yuv420sp: array<byte>, argb: seq<Pixel>, width: nat, j: nat,
                     ghost yIndex0: nat, ghost uvIndex0: nat, ghost c: nat, ghost i: nat,
                     yIndex: nat, uvIndex: nat, index: nat, ghost t: Target)
    returns (yIndex': nat, uvIndex': nat, index': nat)
    requires i < width
    requires yIndex == index == yIndex0 + i && uvIndex == uvIndex0 + Pairs(j, i)
    requires RowFrame(yuv420sp.Length, argb, width, j, yIndex0, uvIndex0, c, t)
    requires Encoded(yuv420sp, yIndex, uvIndex, t)
    modifies yuv420sp
    ensures yIndex' == index' == yIndex0 + i + 1 && uvIndex' == uvIndex0 + Pairs(j, i + 1)
    ensures Encoded(yuv420sp, yIndex', uvIndex', t)
  {
    var p := argb[index];
    var r, g, b := Red(p), Green(p), Blue(p);
    var y := Luma(r, g, b);
    var u := ChromaU(r, g, b);
    var v := ChromaV(r, g, b);
    StoreLuma(yuv420sp, yIndex, uvIndex, Clamp(y), t);
    yIndex', uvIndex' := yIndex + 1, uvIndex;
    PairStep(j, yIndex0, i, width);
    if j % 2 == 0 && index % 2 == 0 {
      PairBytes(argb, t.vs, t.us, width, j, yIndex0, c, t.chromas, index);
      StorePair(yuv420sp, yIndex', uvIndex', Clamp(v), Clamp(u), c + (index - yIndex0), t);
      uvIndex' := uvIndex' + 2;
    }
    index' := index + 1;
  }

  /**
   * The inner loop of encodeYUV420SP over the pixel row j starting at
   * yIndex0: the luma counter and the pixel index advance by the width, and
   * the chroma counter by the number of V,U bytes the row contributes. The
   * three counters are the source's locals, carried in and out.
   */
  method EncodeRow(yuv420sp: array<byte>, argb: seq<Pixel>, width: nat, j: nat,
                   yIndex0: nat, uvIndex0: nat, index0: nat, ghost c: nat, ghost t: Target)
    returns (yIndex: nat, uvIndex: nat, index: nat)
    requires yIndex0 == index0
    requires RowFrame(yuv420sp.Length, argb, width, j, yIndex0, uvIndex0, c, t)
    requires Encoded(yuv420sp, yIndex0, uvIndex0, t)
    modifies yuv420sp
    ensures yIndex == index == yIndex0 + width
    ensures uvIndex == uvIndex0 + Pairs(j, width)
    ensures Encoded(yuv420sp, yIndex, uvIndex, t)
  {
    yIndex, uvIndex, index := yIndex0, uvIndex0, index0;
    for i := 0 to width
      invariant yIndex == index == yIndex0 + i
      invariant uvIndex == uvIndex0 + Pairs(j, i)
      invariant Encoded(yuv420sp, yIndex, uvIndex, t)
    {
      yIndex, uvIndex, index := EncodePixel(yuv420sp, argb, width, j, yIndex0, uvIndex0, c, i,
                                            yIndex, uvIndex, index, t);
    }
  }

  /**
   * The state of encodeYUV420SP between two passes of its outer loop: the
   * counters sit at the start of row j, and the buffer is Encoded up to them.
   */
  ghost predicate RowsDone(buf: array<byte>, argb: seq<Pixel>, width: nat, height: nat, j: nat,
                           yIndex: nat, uvIndex: nat, index: nat, orig: seq<byte>)
    reads buf
  {
    && |argb| == width * height
    && yIndex == index == RowStart(width, j)
    && uvIndex == width * height + ChromaStart(width, j)
    && Encoded(buf, yIndex, uvIndex, Goal(argb, width, height, orig))
  }

  /** Before the first row nothing is written: the buffer is all orig. */
  lemma RowsDoneStart(buf: array<byte>, argb: seq<Pixel>, width: nat, height: nat, orig: seq<byte>)
    requires |argb| == width * height && orig == buf[..]
    ensures RowsDone(buf, argb, width, height, 0, 0, width * height, 0, orig)
  {
  }

  /** After the last row the buffer starts with the NV21 image and keeps the rest. */
  lemma RowsDoneAll(buf: array<byte>, argb: seq<Pixel>, width: nat, height: nat,
                    yIndex: nat, uvIndex: nat, index: nat, orig: seq<byte>)
    requires buf.Length >= Nv21Length(width, height)
    requires RowsDone(buf, argb, width, height, height, yIndex, uvIndex, index, orig)
    ensures buf[..Nv21Length(width, height)] == Nv21Image(argb, width, height)
    ensures forall k :: Nv21Length(width, height) <= k < buf.Length ==> buf[k] == orig[k]
  {
    RowStartIsProduct(width, height);
    ChromaStartIsBlocks(width, height);
    PlanesFilled(buf, yIndex, uvIndex, Goal(argb, width, height, orig));
  }

  /**
   * Row j of the outer loop of encodeYUV420SP: the counters go from the start
   * of row j to the start of row j + 1, and the buffer stays as Encoded says.
   */
  method EncodeRowAt(yuv420sp: array<byte>, argb: seq<Pixel>, width: nat, height: nat, j: nat,
                     yIndex0: nat, uvIndex0: nat, index0: nat, ghost orig: seq<byte>)
    returns (yIndex: nat, uvIndex: nat, index: nat)
    requires j < height
    requires yuv420sp.Length >= Nv21Length(width, height)
    requires RowsDone(yuv420sp, argb, width, height, j, yIndex0, uvIndex0, index0, orig)
    modifies yuv420sp
    ensures RowsDone(yuv420sp, argb, width, height, j + 1, yIndex, uvIndex, index, orig)
  {
    ghost var t := Goal(argb, width, height, orig);
    assert t.chromas == ChromaPlane(t.vs, t.us, width, height);
    RowCounters(width, height, j);
    RowBytes(t.vs, t.us, width, height, j);
    yIndex, uvIndex, index := EncodeRow(yuv420sp, argb, width, j, yIndex0, uvIndex0, index0,
                                        ChromaStart(width, j), t);
  }

  /**
   * encodeYUV420SP: walks the pixels row by row, writing each luma byte at
   * yIndex and, on even rows and even pixel indices, a V,U pair at uvIndex.
   */
  method EncodeYuv420Sp(yuv420sp: array<byte>, argb: seq<Pixel>, width: nat, height: nat)
    requires |argb| == width * height
    requires yuv420sp.Length >= Nv21Length(width, height)
    modifies yuv420sp
    ensures yuv420sp[..Nv21Length(width, height)] == Nv21Image(argb, width, height)
    ensures forall k :: Nv21Length(width, height) <= k < yuv420sp.Length ==> yuv420sp[k] == old(yuv420sp[k])
  {
    var frameSize := width * height;
    var yIndex: nat := 0;
    var uvIndex: nat := frameSize;
    var index: nat := 0;
    ghost var orig := yuv420sp[..];
    RowsDoneStart(yuv420sp, argb, width, height, orig);
    for j := 0 to height
      invariant RowsDone(yuv420sp, argb, width, height, j, yIndex, uvIndex, index, orig)
    {
      yIndex, uvIndex, index := EncodeRowAt(yuv420sp, argb, width, height, j, yIndex, uvIndex, index, orig);
    }
    RowsDoneAll(yuv420sp, argb, width, height, yIndex, uvIndex, index, orig);
  }

  /**
   * bitmapToNV21: the bitmap's pixels, as getPixels copies them row-major
   * into an IntArray, encoded into a fresh buffer of the source's size.
   */
  method BitmapToNv21(pixels: seq<Pixel>, width: nat, height: nat) returns (yuv: array<byte>)
    requires |pixels| == width * height
    ensures fresh(yuv)
    ensures yuv.Length == BufferSize(width, height)
    ensures yuv[..] == Nv21Image(pixels, width, height)
  {
    yuv := new byte[BufferSize(width, height)];
    EncodeYuv420Sp(yuv, pixels, width, height);
    assert yuv[..] == yuv[..Nv21Length(width, height)];
  }
}
