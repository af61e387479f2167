/** Pixel values, channel scaling and packing (section 7.4 of RFC 6143). */
module PixelFormats {
  import opened Machine

  // A packed pixel 0xAABBGGRR: red is the lowest byte in memory.
  type Rgba = U32
  // The wire form of one pixel.
  type Pixel = seq<Byte>

  datatype PixelFormat = PixelFormat(
    bitsPerPixel: I32, bigEndian: bool, trueColor: bool,
    rMax: I32, gMax: I32, bMax: I32,
    rShift: I32, gShift: I32, bShift: I32)
  {
    /** Channel maxima are 16-bit on the wire, and a pixel has at most 32 bits. */
    predicate Valid() {
      bitsPerPixel < 40 && rMax < 0x1_0000 && gMax < 0x1_0000 && bMax < 0x1_0000
    }

    function Bpp(): int {
      if bitsPerPixel / 8 <= 0 then 1 else bitsPerPixel / 8
    }
  }

  /** Division of the host language, which drops the fraction. */
  function TruncDiv(a: int, b: int): int
    requires b > 0
  {
    if a >= 0 then a / b else -((-a) / b)
  }

  function ScaleChannel(value: int, max: int): Byte {
    if max <= 0 then 0
    else if max == 255 then value % 256
    else
      var scaled := TruncDiv(value * 255 + max / 2, max);
      if scaled < 0 then 0 else if scaled > 255 then 255 else scaled
  }

  /** Rounded division of a channel value stays in range. */
  lemma RoundedInRange(value: int, max: int)
    requires 0 <= value <= max && max > 0
    ensures var q := (value * 255 + max / 2) / max;
            0 <= q <= 255 && -max <= 2 * (255 * value - max * q) <= max
  {
    var n := value * 255 + max / 2;
    DivMod(n, max);
    DivMono(n, max * 255 + max / 2, max);
    ModUnique(max * 255 + max / 2, max, 255, max / 2);
    DivMono(0, n, max);
  }

  /** On a channel value the result is the nearest of the 256 levels: neither clamp fires. */
  lemma ScaleChannelNearest(value: int, max: int)
    requires 0 <= value <= max && max > 0
    ensures ScaleChannel(value, max) == (value * 255 + max / 2) / max
    ensures -max <= 2 * (255 * value - max * ScaleChannel(value, max)) <= max
  {
    RoundedInRange(value, max);
    if max == 255 {
      ModUnique(value * 255 + 127, 255, value, 127);
      ModUnique(value, 256, 0, value);
    }
  }

  lemma ScaleChannelEnds(max: int)
    requires max > 0
    ensures ScaleChannel(0, max) == 0 && ScaleChannel(max, max) == 255
  {
    ModUnique(max / 2, max, 0, max / 2);
    ModUnique(max * 255 + max / 2, max, 255, max / 2);
  }

  lemma ScaleChannelMonotone(v: int, w: int, max: int)
    requires 0 <= v <= w <= max && max > 0
    ensures ScaleChannel(v, max) <= ScaleChannel(w, max)
  {
    ScaleChannelNearest(v, max);
    ScaleChannelNearest(w, max);
    DivMono(v * 255 + max / 2, w * 255 + max / 2, max);
  }

  function ReadPixelValue(src: seq<Byte>, offset: nat, bpp: int, big: bool): U32
    requires 1 <= bpp <= 4 && offset + bpp <= |src|
  {
    if bpp == 1 then src[offset]
    else if bpp == 2 then
      if big then OrWords(Shl(src[offset], 8), src[offset + 1]) else OrWords(src[offset], Shl(src[offset + 1], 8))
    else if bpp == 3 then
      if big then OrWords(OrWords(Shl(src[offset], 16), Shl(src[offset + 1], 8)), src[offset + 2])
      else OrWords(OrWords(src[offset], Shl(src[offset + 1], 8)), Shl(src[offset + 2], 16))
    else if big then
      OrWords(OrWords(OrWords(Shl(src[offset], 24), Shl(src[offset + 1], 16)), Shl(src[offset + 2], 8)),
          src[offset + 3])
    else
      OrWords(OrWords(OrWords(src[offset], Shl(src[offset + 1], 8)), Shl(src[offset + 2], 16)),
          Shl(src[offset + 3], 24))
  }

  /** Base-256 value, most significant byte first. */
  function BigEndian(bytes: seq<Byte>): nat {
    if bytes == [] then 0 else BigEndian(bytes[..|bytes| - 1]) * 0x100 + bytes[|bytes| - 1]
  }

  function Reverse(bytes: seq<Byte>): seq<Byte> {
    if bytes == [] then [] else Reverse(bytes[1..]) + [bytes[0]]
  }

  /** The four hand-unrolled widths are all the same positional value: the shifted bytes never overlap. */
  lemma ReadPixelValueIsPositional(src: seq<Byte>, offset: nat, bpp: int, big: bool)
    requires 1 <= bpp <= 4 && offset + bpp <= |src|
    ensures var p := src[offset..offset + bpp];
            ReadPixelValue(src, offset, bpp, big) == BigEndian(if big then p else Reverse(p))
  {
    var p := src[offset..offset + bpp];
    assert Reverse(p) == seq(bpp, i requires 0 <= i < bpp => p[bpp - 1 - i]) by {
      ReverseAt(p);
    }
    var q := if big then p else Reverse(p);
    BigEndianUnrolled(q);
    var a, b := p[0], if bpp > 1 then p[1] else 0;
    var c, d := if bpp > 2 then p[2] else 0, if bpp > 3 then p[3] else 0;
    hide OrWords, Shl, BigEndian, Reverse;
    if big {
      OrDownwards(a, b, c, d);
    } else {
      OrUpwards(a, b, c, d);
    }
  }

  lemma {:induction false} ReverseAt(p: seq<Byte>)
    ensures |Reverse(p)| == |p| && forall i :: 0 <= i < |p| ==> Reverse(p)[i] == p[|p| - 1 - i]
  {
    if p != [] {
      ReverseAt(p[1..]);
    }
  }

  lemma BigEndianUnrolled(q: seq<Byte>)
    requires 1 <= |q| <= 4
    ensures |q| == 1 ==> BigEndian(q) == q[0]
    ensures |q| == 2 ==> BigEndian(q) == q[0] as int * 0x100 + q[1]
    ensures |q| == 3 ==> BigEndian(q) == q[0] as int * 0x1_0000 + q[1] as int * 0x100 + q[2]
    ensures |q| == 4 ==> BigEndian(q) == q[0] as int * 0x100_0000 + q[1] as int * 0x1_0000 + q[2] as int * 0x100 + q[3]
  {
    if |q| > 1 {
      BigEndianUnrolled(q[..|q| - 1]);
    }
  }

  /** Shift right, then mask; a shift count is taken modulo 32. */
  function Channel(v: U32, shift: I32, max: I32): nat {
    And(Shr(v, shift % 32), ToU32(max))
  }

  function Pack(r: Byte, g: Byte, b: Byte): Rgba {
    OrWords(OrWords(OrWords(r, Shl(g, 8)), Shl(b, 16)), 0xff00_0000)
  }

  /** Packing puts each channel in a byte of its own. */
  lemma PackIs(r: Byte, g: Byte, b: Byte)
    ensures Pack(r, g, b) == r + g as int * 0x100 + b as int * 0x1_0000 + 0xff00_0000
  {
    OrUpwards(r, g, b, 0xff);
    ShlByte(0xff);
    hide OrWords, Shl;
  }

  function PixelColour(v: U32, fmt: PixelFormat): Rgba {
    Pack(ScaleChannel(Channel(v, fmt.rShift, fmt.rMax), fmt.rMax),
         ScaleChannel(Channel(v, fmt.gShift, fmt.gMax), fmt.gMax),
         ScaleChannel(Channel(v, fmt.bShift, fmt.bMax), fmt.bMax))
  }

  function DecodePixel(src: seq<Byte>, offset: nat, fmt: PixelFormat): Rgba
    requires fmt.Valid() && offset + fmt.Bpp() <= |src|
  {
    PixelColour(ReadPixelValue(src, offset, fmt.Bpp(), fmt.bigEndian), fmt)
  }

  /** The colour of one wire pixel. */
  function Colour(p: Pixel, fmt: PixelFormat): Rgba
    requires fmt.Valid() && |p| == fmt.Bpp()
  {
    DecodePixel(p, 0, fmt)
  }

  lemma DecodePixelAt(src: seq<Byte>, offset: nat, fmt: PixelFormat)
    requires fmt.Valid() && offset + fmt.Bpp() <= |src|
    ensures DecodePixel(src, offset, fmt) == Colour(src[offset..offset + fmt.Bpp()], fmt)
  {
    hide PixelColour;
    var p := src[offset..offset + fmt.Bpp()];
    assert forall i :: 0 <= i < |p| ==> p[i] == src[offset + i];
  }

  /** A channel value never exceeds its maximum, so no product in ScaleChannel leaves 32 bits. */
  lemma ChannelFits(v: U32, shift: I32, max: I32)
    requires 0 < max < 0x1_0000
    ensures 0 <= Channel(v, shift, max) <= max
    ensures Channel(v, shift, max) * 255 + max / 2 < 0x8000_0000
  {
  }

  lemma PixelOffset(i: int, n: int, bpp: int)
    requires 0 <= i < n && 1 <= bpp
    ensures 0 <= i * bpp && i * bpp + bpp <= n * bpp
  {
    MulMono(i, bpp, n - 1, bpp);
  }

  /** n packed wire pixels, decoded in order. */
  function RawPixels(src: seq<Byte>, n: nat, fmt: PixelFormat): (r: seq<Rgba>)
    requires fmt.Valid() && n * fmt.Bpp() <= |src|
    ensures |r| == n
  {
    seq(n, i requires 0 <= i < n => PixelOffset(i, n, fmt.Bpp()); DecodePixel(src, i * fmt.Bpp(), fmt))
  }

  lemma RawPixelsAt(src: seq<Byte>, n: nat, fmt: PixelFormat, i: int)
    requires fmt.Valid() && n * fmt.Bpp() <= |src| && 0 <= i < n
    ensures |RawPixels(src, n, fmt)| == n && 0 <= i * fmt.Bpp() && i * fmt.Bpp() + fmt.Bpp() <= |src|
    ensures (i + 1) * fmt.Bpp() == i * fmt.Bpp() + fmt.Bpp()
    ensures RawPixels(src, n, fmt)[i] == DecodePixel(src, i * fmt.Bpp(), fmt)
  {
    hide DecodePixel;
    PixelOffset(i, n, fmt.Bpp());
  }

  /** A run of wire pixels read in place. */
  lemma RawPixelsWithin(src: seq<Byte>, start: nat, n: nat, fmt: PixelFormat, i: int)
    requires fmt.Valid() && 0 <= i < n && 0 <= n * fmt.Bpp() && start + n * fmt.Bpp() <= |src|
    ensures var at := start + i * fmt.Bpp(); start <= at && at + fmt.Bpp() <= start + n * fmt.Bpp()
    ensures RawPixels(src[start..start + n * fmt.Bpp()], n, fmt)[i] == DecodePixel(src, start + i * fmt.Bpp(), fmt)
    ensures (i + 1) * fmt.Bpp() == i * fmt.Bpp() + fmt.Bpp()
  {
    hide DecodePixel, Colour;
    var bpp, data := fmt.Bpp(), src[start..start + n * fmt.Bpp()];
    RawPixelsAt(data, n, fmt, i);
    DecodePixelAt(data, i * bpp, fmt);
    DecodePixelAt(src, start + i * bpp, fmt);
    SliceOfSlice(src, start, n * bpp, i * bpp, bpp);
  }

  /** Bytes past the last pixel do not matter. */
  lemma RawPixelsPrefix(src: seq<Byte>, n: nat, fmt: PixelFormat)
    requires fmt.Valid() && 0 <= n * fmt.Bpp() <= |src|
    ensures RawPixels(src[..n * fmt.Bpp()], n, fmt) == RawPixels(src, n, fmt)
  {
    hide DecodePixel;
    var a, b := RawPixels(src[..n * fmt.Bpp()], n, fmt), RawPixels(src, n, fmt);
    forall i | 0 <= i < n
      ensures a[i] == b[i]
    {
      RawPixelsWithin(src, 0, n, fmt, i);
      RawPixelsAt(src, n, fmt, i);
      assert src[0..0 + n * fmt.Bpp()] == src[..n * fmt.Bpp()];
    }
  }
}
