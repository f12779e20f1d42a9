/**
 * The pixel-buffer value object lzx::Frame (app/src/Frame.h): a geometry
 * (width, height, channels, bit depth), a sequence number and a byte buffer.
 */
module Frames {
  import opened Common

  /** Values of C++'s size_t. */
  type Size = n: int | 0 <= n < 0x1_0000_0000_0000_0000

  /** Bytes per sample: two above 8 bits per sample, otherwise one. */
  function BytesPerSample(bitDepth: int): (n: nat)
    ensures n == 1 || n == 2
    ensures n == 2 <==> bitDepth > 8
  {
    if bitDepth > 8 then 2 else 1
  }

  /** The buffer length a geometry calls for. */
  function BufferLength(width: nat, height: nat, channels: nat, bitDepth: int): (n: nat)
    ensures bitDepth <= 8 ==> n == width * height * channels
    ensures bitDepth > 8 ==> n == 2 * (width * height * channels)
  {
    width * height * channels * BytesPerSample(bitDepth)
  }

  /** `original` with its first `count` bytes overwritten by repetitions of
      `color`, the rest untouched. */
  function Painted(original: seq<Byte>, color: seq<Byte>, count: nat): (r: seq<Byte>)
    requires count <= |original| && (count > 0 ==> |color| > 0)
    ensures |r| == |original|
  {
    seq(|original|, k requires 0 <= k < |original| =>
      if k < count then color[k % |color|] else original[k])
  }

  lemma MulLeft(a: nat, b: nat, c: nat)
    requires a <= b
    ensures a * c <= b * c
  {
  }

  /** Pixel `i` of `n`, each `stride` bytes long, ends inside a buffer that holds all `n`. */
  lemma StrideStep(i: nat, n: nat, stride: nat, len: nat)
    requires i < n && n * stride <= len
    ensures 0 <= i * stride && (i + 1) * stride == i * stride + stride
    ensures i * stride + stride <= len
  {
    MulLeft(i + 1, n, stride);
  }

  lemma MulAssoc(a: int, b: int, c: int)
    ensures a * b * c == a * (b * c)
  {
  }

  /** The only multiple of n strictly between -n and n is 0. */
  lemma SmallMultiple(d: int, n: int)
    requires n >= 0 && -n < d * n < n
    ensures d == 0
  {
    if d >= 1 {
      MulLeft(1, d, n);
    }
  }

  /** Byte r of pixel i sits at offset r within that pixel. */
  lemma ModOfOffset(i: nat, n: nat, r: nat)
    requires r < n
    ensures (i * n + r) % n == r && (i * n + r) / n == i
  {
    var x := i * n + r;
    var q, m := x / n, x % n;
    assert x == q * n + m && 0 <= m < n;
    assert (i - q) * n == m - r;
    SmallMultiple(i - q, n);
  }

  /** Painting one more byte extends the painted prefix by one. */
  lemma PaintOne(original: seq<Byte>, color: seq<Byte>, count: nat)
    requires count < |original| && |color| > 0
    ensures Painted(original, color, count)[count := color[count % |color|]]
         == Painted(original, color, count + 1)
  {
  }

  /** The write of the fill loop for byte `b` of channel `j` of pixel `i`
      extends the painted prefix by exactly that byte. */
  lemma PaintByte(original: seq<Byte>, color: seq<Byte>, i: nat, channels: nat, bpc: nat, j: nat, b: nat,
                  base: nat, done: nat)
    requires |color| == channels * bpc && base == i * |color| && base + |color| <= |original|
    requires done == base + j * bpc && j * bpc + bpc <= |color| && b < bpc
    ensures i * channels * bpc + j * bpc + b == done + b < |original|
    ensures j * bpc + b < |color|
    ensures Painted(original, color, done + b)[done + b := color[j * bpc + b]]
         == Painted(original, color, done + b + 1)
  {
    MulAssoc(i, channels, bpc);
    ModOfOffset(i, |color|, j * bpc + b);
    PaintOne(original, color, done + b);
  }

  /** In a painted buffer, byte `b` of channel `j` of pixel `i` is byte `b`
      of channel `j` of the colour, for every pixel below the count. */
  lemma PaintedPixel(original: seq<Byte>, color: seq<Byte>, pixels: nat, channels: nat, bps: nat,
                     i: nat, j: nat, b: nat)
    requires |color| == channels * bps && pixels * |color| <= |original|
    requires i < pixels && j < channels && b < bps
    ensures j * bps + b < |color| && i * |color| + j * bps + b < pixels * |color|
    ensures Painted(original, color, pixels * |color|)[i * |color| + j * bps + b] == color[j * bps + b]
  {
    var stride := |color|;
    var offset := j * bps + b;
    assert offset < stride by {
      MulLeft(j + 1, channels, bps);
      assert (j + 1) * bps == j * bps + bps;
    }
    assert i * stride + offset < pixels * stride by {
      MulLeft(i + 1, pixels, stride);
      assert (i + 1) * stride == i * stride + stride;
    }
    ModOfOffset(i, stride, offset);
  }

  class Frame {
    var width: int
    var height: int
    var channels: int
    var bitDepth: int
    var data: seq<Byte>
    var sequenceNumber: Size

    /** The model keeps the geometry non-negative; the source throws only
        when the computed buffer length is negative. */
    ghost predicate Valid()
      reads this
    {
      width >= 0 && height >= 0 && channels >= 0
    }

    function PixelCount(): (n: nat)
      reads this
      requires Valid()
    {
      width * height
    }

    /** Bytes per pixel. */
    function Stride(): (n: nat)
      reads this
      requires Valid()
    {
      channels * BytesPerSample(bitDepth)
    }

    /** The buffer is exactly as long as the geometry calls for. */
    ghost predicate GeometryMatches()
      reads this
    {
      Valid() && |data| == BufferLength(width, height, channels, bitDepth)
    }

    /** Default constructor: an empty 8-bit frame. */
    constructor ()
      ensures Valid() && GeometryMatches()
      ensures width == 0 && height == 0 && channels == 0 && bitDepth == 8
      ensures data == [] && sequenceNumber == 0
    {
      width, height, channels, bitDepth := 0, 0, 0, 8;
      data := [];
      sequenceNumber := 0;
    }

    /** Sized constructor: a zero-filled buffer of the geometry's length. */
    constructor Sized(width: int, height: int, channels: int, bitDepth: int := 8)
      requires width >= 0 && height >= 0 && channels >= 0
      ensures Valid() && GeometryMatches()
      ensures this.width == width && this.height == height
      ensures this.channels == channels && this.bitDepth == bitDepth
      ensures |data| == width * height * channels * BytesPerSample(bitDepth)
      ensures forall k :: 0 <= k < |data| ==> data[k] == 0
      ensures sequenceNumber == 0
    {
      this.width, this.height, this.channels, this.bitDepth := width, height, channels, bitDepth;
      data := seq(width * height * channels * BytesPerSample(bitDepth), _ => 0);
      sequenceNumber := 0;
    }

    /** Data constructor: the bytes are kept as given, whatever their length. */
    constructor WithData(width: int, height: int, channels: int, data: seq<Byte>, bitDepth: int := 8)
      requires width >= 0 && height >= 0 && channels >= 0
      ensures Valid()
      ensures this.width == width && this.height == height
      ensures this.channels == channels && this.bitDepth == bitDepth
      ensures this.data == data && sequenceNumber == 0
    {
      this.width, this.height, this.channels, this.bitDepth := width, height, channels, bitDepth;
      this.data := data;
      sequenceNumber := 0;
    }

    method SetSequenceNumber(sn: Size)
      modifies this`sequenceNumber
      ensures sequenceNumber == sn
      ensures Valid() == old(Valid()) && GeometryMatches() == old(GeometryMatches())
    {
      sequenceNumber := sn;
    }

    /** `bufferSize()`: the length of the bytes `data()`/`buffer()` expose. */
    function BufferSize(): (n: nat)
      reads this
      ensures n == |data|
      ensures GeometryMatches() ==> n == width * height * channels * BytesPerSample(bitDepth)
    {
      |data|
    }

    /** `fill(color)`: a colour of one pixel's size is written into every
        pixel; a colour of any other size leaves the buffer alone. The loop
        writes `PixelCount() * Stride()` bytes, which the buffer must hold. */
    method FillColor(color: seq<Byte>)
      requires Valid()
      requires |color| == Stride() ==> PixelCount() * Stride() <= |data|
      modifies this`data
      ensures |color| != Stride() ==> data == old(data)
      ensures |color| == Stride() ==> data == Painted(old(data), color, PixelCount() * Stride())
      ensures |data| == |old(data)|
      ensures Valid() && GeometryMatches() == old(GeometryMatches())
    {
      var bpc := BytesPerSample(bitDepth);
      if |color| != channels * bpc {
        return;
      }
      ghost var original := data;
      ghost var stride := |color|;
      ghost var painted: nat := 0;
      var i := 0;
      while i < width * height
        invariant 0 <= i <= width * height
        invariant painted == i * stride
        invariant data == Painted(original, color, painted)
      {
        StrideStep(i, width * height, stride, |original|);
        ghost var base: nat := painted;
        var j := 0;
        while j < channels
          invariant 0 <= j <= channels
          invariant painted == base + j * bpc
          invariant data == Painted(original, color, painted)
        {
          StrideStep(j, channels, bpc, stride);
          var b := 0;
          while b < bpc
            invariant 0 <= b <= bpc
            invariant data == Painted(original, color, painted + b)
          {
            var k := i * channels * bpc + j * bpc + b;
            PaintByte(original, color, i, channels, bpc, j, b, base, painted);
            data := data[k := color[j * bpc + b]];
            b := b + 1;
          }
          painted := painted + bpc;
          j := j + 1;
        }
        i := i + 1;
      }
    }

    /** `fill(const unsigned char*)`: copy the first `PixelCount() * Stride()`
        bytes of the source over the start of the buffer (a memcpy, which
        needs both to be at least that long). */
    method FillBytes(source: seq<Byte>)
      requires Valid()
      requires PixelCount() * Stride() <= |source| && PixelCount() * Stride() <= |data|
      modifies this`data
      ensures |data| == |old(data)|
      ensures data[..PixelCount() * Stride()] == source[..PixelCount() * Stride()]
      ensures data[PixelCount() * Stride()..] == old(data)[PixelCount() * Stride()..]
      ensures Valid() && GeometryMatches() == old(GeometryMatches())
    {
      var n := width * height * (channels * BytesPerSample(bitDepth));
      data := source[..n] + data[n..];
    }
  }
}
