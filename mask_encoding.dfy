/**
 * The encoding fragment shader of the mask window
 * (MaskOpenGLWidget::initializeGL, app/src/MaskWindow.hpp): every pixel of
 * the 3072 x 2720 projector canvas packs eight threshold bits of one
 * eight-pixel group of the 1024 x 768 intensity image into its red, green
 * and blue bytes, one of 85 pictures per 32-row band.
 */
module MaskEncoding {
  const SourceWidth := 1024
  const SourceHeight := 768
  const CanvasWidth := 3072
  const CanvasHeight := 2720
  const BandHeight := 32
  const PictureCount := 85
  /** Number of eight-pixel groups in one source row. */
  const GroupsPerRow := 128

  /** The intensity image as 8-bit levels, `image[row][column]`, where row is
      the texture's row (texture coordinate row / 768). */
  predicate IsSourceImage(image: seq<seq<int>>) {
    && |image| == SourceHeight
    && forall r :: 0 <= r < |image| ==>
         |image[r]| == SourceWidth && forall c :: 0 <= c < |image[r]| ==> 0 <= image[r][c] < 256
  }

  /** A fragment of the canvas (gl_FragCoord truncated to integers). */
  predicate OnCanvas(x: int, y: int) {
    0 <= x < CanvasWidth && 0 <= y < CanvasHeight
  }

  /** The picture a canvas row belongs to, counted from the flipped top. */
  function PictureIndex(y: int): (k: int)
    requires 0 <= y < CanvasHeight
    ensures 1 <= k <= PictureCount
    ensures (k - 1) * BandHeight <= 2719 - y < k * BandHeight
  {
    (2719 - y) / 32 + 1
  }

  /** The row within the 32-row band. */
  function BandRow(y: int): (q: int)
    requires 0 <= y < CanvasHeight
    ensures 0 <= q < BandHeight
    ensures 2719 - y == (PictureIndex(y) - 1) * BandHeight + q
  {
    (2719 - y) % 32
  }

  /** `pixelIndexCompressed`: the position of the fragment among the band's
      3072 * 32 fragments. */
  function CompressedIndex(x: int, y: int): (c: int)
    requires OnCanvas(x, y)
    ensures 0 <= c < CanvasWidth * BandHeight
  {
    3072 * BandRow(y) + x
  }

  /** The source row of the fragment's group (flipped). */
  function PixelRow(x: int, y: int): (r: int)
    requires OnCanvas(x, y)
    ensures 0 <= r < SourceHeight
  {
    767 - (CompressedIndex(x, y) * 8) / 1024
  }

  /** The first source column of the fragment's group. */
  function PixelCol(x: int, y: int): (c: int)
    requires OnCanvas(x, y)
    ensures 0 <= c <= SourceWidth - 8 && c % 8 == 0
  {
    (CompressedIndex(x, y) * 8) % 1024
  }

  /** The column sampled for bit `i`: bit order is reversed within the group. */
  function SampleColumn(x: int, y: int, i: int): (c: int)
    requires OnCanvas(x, y) && 0 <= i < 8
    ensures 0 <= c < SourceWidth
    ensures PixelCol(x, y) <= c < PixelCol(x, y) + 8
  {
    PixelCol(x, y) + 7 - i
  }

  /** The shader's test `level / 255 * 255 + 0.1 > threshold` on an 8-bit
      level, in tenths; for integers it is exactly `level >= threshold`. */
  predicate Exceeds(level: int, threshold: int)
    ensures Exceeds(level, threshold) <==> level >= threshold
  {
    10 * level + 1 > 10 * threshold
  }

  /** The eight bits of one channel: bit i is set when the level of column
      `SampleColumn(x, y, i)` of the group's row exceeds the threshold. */
  function ChannelBits(image: seq<seq<int>>, x: int, y: int, threshold: int): (bits: seq<bool>)
    requires IsSourceImage(image) && OnCanvas(x, y)
    ensures |bits| == 8
  {
    seq(8, i requires 0 <= i < 8 => Exceeds(image[PixelRow(x, y)][SampleColumn(x, y, i)], threshold))
  }

  /** Bit i of a byte. */
  predicate Bit(b: bv8, i: nat)
    requires i < 8
  {
    (b >> i) & 1 == 1
  }

  /** The byte whose bit i is `bits[i]`, built by OR-ing bit after bit. */
  function Pack(bits: seq<bool>): (b: bv8)
    requires |bits| <= 8
  {
    if bits == [] then 0
    else Pack(bits[..|bits| - 1]) | (if bits[|bits| - 1] then 1 << (|bits| - 1) else 0)
  }

  /** Packing one more bit ORs it in at its position. */
  lemma PackStep(bits: seq<bool>, i: nat)
    requires i < |bits| <= 8
    ensures Pack(bits[..i + 1]) == Pack(bits[..i]) | (if bits[i] then 1 << i else 0)
  {
    assert bits[..i + 1][..i] == bits[..i];
  }

  /** One iteration of the shader's loop on one accumulator: OR-ing bit i in
      exactly when `bits[i]` holds packs one more bit. */
  lemma OrInBit(bits: seq<bool>, i: nat, before: bv8, after: bv8, isSet: bool)
    requires i < |bits| <= 8 && before == Pack(bits[..i]) && isSet == bits[i]
    requires after == if isSet then before | (1 << i) else before
    ensures after == Pack(bits[..i + 1])
  {
    PackStep(bits, i);
  }

  /** Packing sets no bit at or above the number of bits packed. */
  lemma {:induction false} PackHigh(bits: seq<bool>)
    requires |bits| <= 8
    ensures |bits| < 8 ==> Pack(bits) >> |bits| == 0
  {
    if bits != [] {
      PackHigh(bits[..|bits| - 1]);
    }
  }

  /** OR-ing bit n into a byte with no bit at or above n set: bit n becomes
      the new bit and the bits below n stay. */
  lemma OrBit(p: bv8, n: nat, isSet: bool, i: nat)
    requires i <= n < 8 && p >> n == 0
    ensures Bit(p | (if isSet then 1 << n else 0), i) <==> (if i == n then isSet else Bit(p, i))
  {
  }

  /** Bit i of the packed byte is `bits[i]`. */
  lemma {:induction false} PackBits(bits: seq<bool>)
    requires |bits| <= 8
    ensures forall i :: 0 <= i < |bits| ==> (Bit(Pack(bits), i) <==> bits[i])
  {
    if bits != [] {
      var n := |bits| - 1;
      var front := bits[..n];
      PackBits(front);
      PackHigh(front);
      forall i | 0 <= i < |bits|
        ensures Bit(Pack(bits), i) <==> bits[i]
      {
        OrBit(Pack(front), n, bits[n], i);
        if i < n {
          assert bits[i] == front[i];
        }
      }
    }
  }

  /** A byte with all eight bits set is 255, one with none set is 0. */
  lemma ByteFromBits(b: bv8)
    ensures (forall i :: 0 <= i < 8 ==> Bit(b, i)) ==> b == 255
    ensures (forall i :: 0 <= i < 8 ==> !Bit(b, i)) ==> b == 0
  {
    if forall i :: 0 <= i < 8 ==> Bit(b, i) {
      assert Bit(b, 0) && Bit(b, 1) && Bit(b, 2) && Bit(b, 3);
      assert Bit(b, 4) && Bit(b, 5) && Bit(b, 6) && Bit(b, 7);
    }
    if forall i :: 0 <= i < 8 ==> !Bit(b, i) {
      assert !Bit(b, 0) && !Bit(b, 1) && !Bit(b, 2) && !Bit(b, 3);
      assert !Bit(b, 4) && !Bit(b, 5) && !Bit(b, 6) && !Bit(b, 7);
    }
  }

  /** The output colour of one fragment, as bytes (the shader divides each by
      255 and the 8-bit target stores them back as these bytes). */
  datatype Rgb = Rgb(red: bv8, green: bv8, blue: bv8)

  /** The encoded colour of fragment (x, y): bit i of red, green and blue
      says whether the level sampled for bit i reaches the picture index,
      the picture index + 85 and the picture index + 170 respectively. */
  function Encode(image: seq<seq<int>>, x: int, y: int): (p: Rgb)
    requires IsSourceImage(image) && OnCanvas(x, y)
    ensures forall i :: 0 <= i < 8 ==>
      var level := image[PixelRow(x, y)][SampleColumn(x, y, i)];
      && (Bit(p.red, i) <==> level >= PictureIndex(y))
      && (Bit(p.green, i) <==> level >= PictureIndex(y) + 85)
      && (Bit(p.blue, i) <==> level >= PictureIndex(y) + 170)
  {
    var k := PictureIndex(y);
    var red := ChannelBits(image, x, y, k);
    var green := ChannelBits(image, x, y, k + 85);
    var blue := ChannelBits(image, x, y, k + 2 * 85);
    PackBits(red);
    PackBits(green);
    PackBits(blue);
    Rgb(Pack(red), Pack(green), Pack(blue))
  }

  /** The shader's loop over the group: OR bit i into each accumulator when
      the sampled level exceeds that channel's threshold. The index mapping
      is taken from the functions above. */
  method EncodeFragment(image: seq<seq<int>>, x: int, y: int) returns (red: bv8, green: bv8, blue: bv8)
    requires IsSourceImage(image) && OnCanvas(x, y)
    ensures Rgb(red, green, blue) == Encode(image, x, y)
  {
    var picIndex := PictureIndex(y);
    var pixelRow := PixelRow(x, y);
    var pixelCol := PixelCol(x, y);
    ghost var redBits := ChannelBits(image, x, y, picIndex);
    ghost var greenBits := ChannelBits(image, x, y, picIndex + 85);
    ghost var blueBits := ChannelBits(image, x, y, picIndex + 2 * 85);
    red, green, blue := 0, 0, 0;
    for i := 0 to 8
      invariant red == Pack(redBits[..i])
      invariant green == Pack(greenBits[..i])
      invariant blue == Pack(blueBits[..i])
    {
      var level := image[pixelRow][pixelCol + 7 - i];
      assert level == image[PixelRow(x, y)][SampleColumn(x, y, i)];
      ghost var red0, green0, blue0 := red, green, blue;
      if 10 * level + 1 > 10 * picIndex {
        red := red | (1 << i);
      }
      if 10 * level + 1 > 10 * (picIndex + 85) {
        green := green | (1 << i);
      }
      if 10 * level + 1 > 10 * (picIndex + 2 * 85) {
        blue := blue | (1 << i);
      }
      OrInBit(redBits, i, red0, red, redBits[i]);
      OrInBit(greenBits, i, green0, green, greenBits[i]);
      OrInBit(blueBits, i, blue0, blue, blueBits[i]);
    }
    assert redBits[..8] == redBits && greenBits[..8] == greenBits && blueBits[..8] == blueBits;
  }

  /** Thresholds are nested: a set blue bit implies the green bit, and a set
      green bit implies the red bit. */
  lemma NestedPlanes(image: seq<seq<int>>, x: int, y: int)
    requires IsSourceImage(image) && OnCanvas(x, y)
    ensures var p := Encode(image, x, y);
      p.blue & p.green == p.blue && p.green & p.red == p.green
  {
    var p := Encode(image, x, y);
    var k := PictureIndex(y);
    forall i | 0 <= i < 8
      ensures (Bit(p.blue, i) ==> Bit(p.green, i)) && (Bit(p.green, i) ==> Bit(p.red, i))
    {
    }
    SubsetOfBits(p.blue, p.green);
    SubsetOfBits(p.green, p.red);
  }

  /** If every bit set in a is set in b, then a & b == a. */
  lemma SubsetOfBits(a: bv8, b: bv8)
    requires forall i :: 0 <= i < 8 ==> Bit(a, i) ==> Bit(b, i)
    ensures a & b == a
  {
    assert Bit(a, 0) ==> Bit(b, 0);
    assert Bit(a, 1) ==> Bit(b, 1);
    assert Bit(a, 2) ==> Bit(b, 2);
    assert Bit(a, 3) ==> Bit(b, 3);
    assert Bit(a, 4) ==> Bit(b, 4);
    assert Bit(a, 5) ==> Bit(b, 5);
    assert Bit(a, 6) ==> Bit(b, 6);
    assert Bit(a, 7) ==> Bit(b, 7);
  }

  /** On an image of one level everywhere, each channel byte is all ones or
      all zeros, as the level reaches its threshold or not. */
  lemma UniformImage(image: seq<seq<int>>, level: int, x: int, y: int)
    requires IsSourceImage(image) && OnCanvas(x, y)
    requires forall r, c :: 0 <= r < |image| && 0 <= c < |image[r]| ==> image[r][c] == level
    ensures var p := Encode(image, x, y);
      && p.red == (if level >= PictureIndex(y) then 255 else 0)
      && p.green == (if level >= PictureIndex(y) + 85 then 255 else 0)
      && p.blue == (if level >= PictureIndex(y) + 170 then 255 else 0)
  {
    var p := Encode(image, x, y);
    ByteFromBits(p.red);
    ByteFromBits(p.green);
    ByteFromBits(p.blue);
  }

  /** An image of level 170 everywhere: red and green are all ones in every
      picture (170 reaches picture index + 85 even in picture 85, thanks to
      the +0.1 in the test) and blue is all zeros. */
  lemma UniformLevel170(image: seq<seq<int>>, x: int, y: int)
    requires IsSourceImage(image) && OnCanvas(x, y)
    requires forall r, c :: 0 <= r < |image| && 0 <= c < |image[r]| ==> image[r][c] == 170
    ensures Encode(image, x, y) == Rgb(255, 255, 0)
  {
    UniformImage(image, 170, x, y);
  }

  /** The group a band position (column x, band row q) reads:
      (source row, group number within the row). */
  function SourceGroup(x: int, q: int): (g: (int, int))
    requires 0 <= x < CanvasWidth && 0 <= q < BandHeight
    ensures 0 <= g.0 < SourceHeight && 0 <= g.1 < GroupsPerRow
  {
    var pixelIndex := (3072 * q + x) * 8;
    (767 - pixelIndex / 1024, (pixelIndex % 1024) / 8)
  }

  /** The band position that reads a given group: the inverse of SourceGroup. */
  function BandPosition(row: int, group: int): (p: (int, int))
    requires 0 <= row < SourceHeight && 0 <= group < GroupsPerRow
    ensures 0 <= p.0 < CanvasWidth && 0 <= p.1 < BandHeight
  {
    var compressed := (767 - row) * 128 + group;
    (compressed % 3072, compressed / 3072)
  }

  /** The shader's own row and column come from SourceGroup. */
  lemma FragmentReadsSourceGroup(x: int, y: int)
    requires OnCanvas(x, y)
    ensures SourceGroup(x, BandRow(y)) == (PixelRow(x, y), PixelCol(x, y) / 8)
  {
  }

  /** Scaling a compressed index by 8 and splitting it by 1024 splits the
      index by 128. */
  lemma SplitScaled(c: int)
    requires c >= 0
    ensures (c * 8) / 1024 == c / 128
    ensures (c * 8) % 1024 == 8 * (c % 128)
  {
    var a, b := c / 128, c % 128;
    assert c * 8 == 1024 * a + 8 * b && 0 <= 8 * b < 1024;
  }

  /** Within one band, the fragments map one-to-one onto the 768 * 128
      groups of the source image: SourceGroup and BandPosition are inverse. */
  lemma BandCoversSourceOnce(x: int, q: int, row: int, group: int)
    requires 0 <= x < CanvasWidth && 0 <= q < BandHeight
    requires 0 <= row < SourceHeight && 0 <= group < GroupsPerRow
    ensures BandPosition(SourceGroup(x, q).0, SourceGroup(x, q).1) == (x, q)
    ensures SourceGroup(BandPosition(row, group).0, BandPosition(row, group).1) == (row, group)
  {
    var c := 3072 * q + x;
    SplitScaled(c);
    assert (767 - (767 - c / 128)) * 128 + c % 128 == c;
    assert c % 3072 == x && c / 3072 == q;
    var d := (767 - row) * 128 + group;
    assert d / 128 == 767 - row && d % 128 == group;
    var p := BandPosition(row, group);
    assert 3072 * p.1 + p.0 == d;
    SplitScaled(d);
  }
}
