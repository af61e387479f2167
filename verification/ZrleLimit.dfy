/**
 How long a string of bytes 255 the ZRLE decoder can stand: exactly below 8421504 of them in a row is
 every payload drawn completely or not at all.
 */
module ZrleLimit {
  import opened Machine
  import opened PixelFormats
  import opened Canvas
  import opened Tiling
  import opened Zrle
  import opened ZrleScan
  import opened ZrlePaint

  /** The length of the shortest string of bytes 255 that can break the law. */
  const LIMIT: nat := 0x80_8080

  /** No n bytes 255 stand in a row. */
  ghost predicate Without(src: seq<Byte>, n: nat) {
    forall c: nat :: !Full(src, c, n)
  }

  /**
   The decoder draws the parsed tiles or nothing: what the validating pass lets through parses, or else
   the painting pass gives up before it has painted anything.
   */
  ghost predicate AllOrNothing(src: seq<Byte>, fmt: PixelFormat, x: int, y: int, w: nat, h: nat)
    requires fmt.Valid()
  {
    var (ops, end) := PaintedPayload(src, fmt, x, y, w, h);
    Scan(src, fmt.Bpp(), w, h) ==> if end then Parse(src, fmt.Bpp(), w, h).Some? else ops == []
  }

  /** A payload, and a rectangle it is sent for, within what the protocol and the buffer allow. */
  predicate Sendable(src: seq<Byte>, w: nat, h: nat) {
    |src| < MAX_BUFFER && w < 0x1_0000 && h < 0x1_0000
  }

  ghost predicate LawWithout(fmt: PixelFormat, n: nat)
    requires fmt.Valid()
  {
    forall src, x, y, w: nat, h: nat :: Sendable(src, w, h) && Without(src, n) ==> AllOrNothing(src, fmt, x, y, w, h)
  }

  lemma ShortIsLawful(src: seq<Byte>, fmt: PixelFormat, x: int, y: int, w: nat, h: nat)
    requires fmt.Valid() && Without(src, LIMIT)
    ensures AllOrNothing(src, fmt, x, y, w, h)
  {
    hide Scan, Parse, PaintedPayload, NoLongRun, Full;
    ShortStringsSuffice(src);
    ScanIsParse(src, fmt.Bpp(), w, h);
    if Parse(src, fmt.Bpp(), w, h).Some? {
      PaintsAsParsed(src, fmt, x, y, w, h);
    }
  }

  // ----- a payload that is half painted

  /**
   Two tiles of a rectangle of 65 by 1. The first is solid. The second has one pixel and two plain runs whose
   true lengths are 2147483650 and 2147483647: in 32 bits the first is -2147483646, so that the validating
   pass finds exactly 2147483647 pixels to go and ends at 1, while the painting pass still has 1.
   */
  function Overlong(p: Pixel): (src: seq<Byte>)
    ensures |src| == 2 * LIMIT + 4 + 3 * |p|
  {
    [1] + p + [128] + p + Repeat(LIMIT) + [129] + p + Repeat(LIMIT) + [126]
  }

  /** What stands where in that payload. */
  lemma OverlongAt(p: Pixel)
    ensures var src, b := Overlong(p), |p|;
      && src[0] == 1 && src[1..1 + b] == p && src[1 + b] == 128 && src[2 + b..2 + 2 * b] == p
      && Full(src, 2 + 2 * b, LIMIT) && src[2 + 2 * b + LIMIT] == 129
      && src[3 + 2 * b + LIMIT..3 + 3 * b + LIMIT] == p
      && Full(src, 3 + 3 * b + LIMIT, LIMIT) && src[3 + 3 * b + 2 * LIMIT] == 126
  {
    hide Repeat;
  }

  lemma OverlongRuns(p: Pixel)
    ensures var src, b := Overlong(p), |p|;
      && ParseExtra(src, 2 + 2 * b) == Some((2147483649, 3 + 2 * b + LIMIT))
      && WrappedRunLength(src, 2 + 2 * b, 1) == Some((-2147483646, 3 + 2 * b + LIMIT))
      && WrappedRunLength(src, 3 + 3 * b + LIMIT, 1) == Some((2147483647, |src|))
  {
    hide ParseExtra, WrappedRunLength, Overlong;
    var src, b := Overlong(p), |p|;
    OverlongAt(p);
    StringRead(src, 2 + 2 * b, LIMIT);
    WrappedRunLengthIs(src, 2 + 2 * b, 1);
    StringRead(src, 3 + 3 * b + LIMIT, LIMIT);
    WrappedRunLengthIs(src, 3 + 3 * b + LIMIT, 1);
  }

  lemma TwoBoxes()
    ensures Boxes(65, 1) == [Box(0, 0, 64, 1), Box(64, 0, 1, 1)]
  {
    assert BoxesFrom(65, 1, SIZE, 0, 64) == [];
    assert BoxesFrom(65, 1, SIZE, 128, 0) == [];
    assert BoxesFrom(65, 1, SIZE, 64, 0) == [Box(64, 0, 1, 1)];
  }

  /**
   All or nothing fails on it: it does not parse, the validating pass lets it through, and the painting
   pass gives up behind the first tile.
   */
  lemma HalfPaints(p: Pixel, fmt: PixelFormat, x: int, y: int)
    requires fmt.Valid() && |p| == fmt.Bpp()
    ensures Parse(Overlong(p), fmt.Bpp(), 65, 1).None? && Scan(Overlong(p), fmt.Bpp(), 65, 1)
    ensures !NoLongRun(Overlong(p))
    ensures PaintedPayload(Overlong(p), fmt, x, y, 65, 1) == ([Fill(x, y, 64, 1, Colour(p, fmt))], false)
  {
    hide Overlong, Parse, Scan, PaintedPayload, ParseTile, ScanTile, PaintedTile, ParseTiles, ScanTiles, PaintedTiles,
         ParseExtra, WrappedRunLength, Colour, Boxes;
    var src := Overlong(p);
    var a, b := Box(0, 0, 64, 1), Box(64, 0, 1, 1);
    OverlongAt(p);
    OverlongRuns(p);
    TwoBoxes();
    FirstTile(src, p, a, x, y, fmt);
    SecondParsed(src, 1 + |p|, b, fmt.Bpp());
    SecondScanned(src, 1 + |p|, b, fmt.Bpp());
    SecondPainted(src, 1 + |p|, b, x, y, fmt);
    hide *;
    TwoTiles(src, 1 + |p|, a, b, Solid(p), [Fill(x, y, 64, 1, Colour(p, fmt))], x, y, fmt);
    WholeIsTiles(src, fmt, x, y, 65, 1, [a, b]);
    ScanIsParse(src, fmt.Bpp(), 65, 1);
  }

  /** A first tile that parses and a second that only the validating pass lets through. */
  lemma TwoTiles(src: seq<Byte>, c: nat, a: Box, b: Box, t: Tile, ops: seq<Op>, x: int, y: int, fmt: PixelFormat)
    requires Sensible(a) && Sensible(b) && fmt.Valid()
    requires ScanTile(src, 0, fmt.Bpp(), a) == Some(c) && ScanTile(src, c, fmt.Bpp(), b) == Some(|src|)
    requires ParseTile(src, 0, fmt.Bpp(), a) == Some((t, c)) && ParseTile(src, c, fmt.Bpp(), b) == None
    requires PaintedTile(src, 0, a, x, y, fmt) == (ops, Some(c)) && PaintedTile(src, c, b, x, y, fmt) == ([], None)
    ensures ScanTiles(src, 0, fmt.Bpp(), [a, b]) && ParseTiles(src, 0, fmt.Bpp(), [a, b]).None?
    ensures PaintedTiles(src, 0, [a, b], x, y, fmt) == (ops, false)
  {
    hide ParseTile, ScanTile, PaintedTile, PaintedTiles, ParseTiles;
    assert [a, b][1..] == [b] && [b][1..] == [];
    assert ScanTiles(src, c, fmt.Bpp(), [b]);
    TilesUnfold(src, c, fmt.Bpp(), [b]);
    TilesUnfold(src, 0, fmt.Bpp(), [a, b]);
    TilesStep(src, c, [b], x, y, fmt);
    TilesStep(src, 0, [a, b], x, y, fmt);
    assert ops + [] == ops;
  }

  lemma TilesStep(src: seq<Byte>, c: nat, boxes: seq<Box>, x: int, y: int, fmt: PixelFormat)
    requires fmt.Valid() && (forall b :: b in boxes ==> Sensible(b)) && boxes != []
    ensures var (ops, end) := PaintedTile(src, c, boxes[0], x, y, fmt);
      PaintedTiles(src, c, boxes, x, y, fmt) ==
        if end.None? then (ops, false)
        else var rest := PaintedTiles(src, end.value, boxes[1..], x, y, fmt); (ops + rest.0, rest.1)
  {
    hide PaintedTile;
  }

  lemma WholeIsTiles(src: seq<Byte>, fmt: PixelFormat, x: int, y: int, w: nat, h: nat, boxes: seq<Box>)
    requires fmt.Valid() && boxes == Boxes(w, h)
    ensures Parse(src, fmt.Bpp(), w, h) == ParseTiles(src, 0, fmt.Bpp(), boxes)
    ensures Scan(src, fmt.Bpp(), w, h) == ScanTiles(src, 0, fmt.Bpp(), boxes)
    ensures PaintedPayload(src, fmt, x, y, w, h) == PaintedTiles(src, 0, boxes, x, y, fmt)
  {
    hide ParseTiles, ScanTiles, PaintedTiles;
  }

  lemma SolidTile(src: seq<Byte>, p: Pixel, b: Box)
    requires Sensible(b) && |src| >= 1 + |p| && src[0] == 1 && src[1..1 + |p|] == p
    ensures ParseTile(src, 0, |p|, b) == Some((Solid(p), 1 + |p|))
  {
    hide ParsePacked, ParseRuns, ParseIndexRuns, RawBytes;
    AreaFits(b, |p|);
  }

  lemma FirstTile(src: seq<Byte>, p: Pixel, b: Box, x: int, y: int, fmt: PixelFormat)
    requires fmt.Valid() && fmt.Bpp() == |p| && Sensible(b) && b.x == b.y == 0
    requires |src| >= 1 + |p| && src[0] == 1 && src[1..1 + |p|] == p
    ensures ScanTile(src, 0, |p|, b) == Some(1 + |p|) && ParseTile(src, 0, |p|, b) == Some((Solid(p), 1 + |p|))
    ensures PaintedTile(src, 0, b, x, y, fmt) == ([Fill(x, y, b.w, b.h, Colour(p, fmt))], Some(1 + |p|))
  {
    SolidTile(src, p, b);
    hide ParseTile, ScanTile, PaintedTile, Colour;
    TileScanned(src, 0, |p|, b);
    TilePainted(src, 0, b, x, y, fmt);
  }

  /** A tile of one pixel whose first run wraps to a negative length that the second makes up for. */
  lemma SecondParsed(src: seq<Byte>, at: nat, b: Box, bpp: nat)
    requires Sensible(b) && b.w == b.h == 1 && at < |src| && src[at] == 128
    requires ParseExtra(src, at + 1 + bpp) == Some((2147483649, at + 1 + bpp + LIMIT + 1))
    ensures ParseTile(src, at, bpp, b) == None
  {
    hide ParseExtra, ParsePacked, ParseRuns, ParseIndexRuns, RawBytes;
    AreaFits(b, bpp);
    assert Area(b) == 1;
    RunsUnfold(src, at + 1, 1, bpp);
  }

  lemma SecondScanned(src: seq<Byte>, at: nat, b: Box, bpp: nat)
    requires Sensible(b) && b.w == b.h == 1 && at < |src| && src[at] == 128
    requires WrappedRunLength(src, at + 1 + bpp, 1) == Some((-2147483646, at + 1 + bpp + LIMIT + 1))
    requires WrappedRunLength(src, at + 1 + bpp + LIMIT + 1 + bpp, 1) == Some((2147483647, |src|))
    ensures ScanTile(src, at, bpp, b) == Some(|src|)
  {
    hide WrappedRunLength, ParsePacked, ScanRuns, ScanIndexRuns, RawBytes;
    AreaFits(b, bpp);
    assert Area(b) == 1;
    TwoRunsScanned(src, at + 1, bpp);
  }

  lemma SecondPainted(src: seq<Byte>, at: nat, b: Box, x: int, y: int, fmt: PixelFormat)
    requires fmt.Valid() && Sensible(b) && b.w == b.h == 1 && at < |src| && src[at] == 128
    requires var e := at + 1 + fmt.Bpp();
      && WrappedRunLength(src, e, 1) == Some((-2147483646, e + LIMIT + 1))
      && WrappedRunLength(src, e + LIMIT + 1 + fmt.Bpp(), 1) == Some((2147483647, |src|))
    ensures PaintedTile(src, at, b, x, y, fmt) == ([], None)
  {
    hide WrappedRunLength, DecodePixel, RawPixels, PaintedPacked, PaintedRuns, PaintedPaletteRle, RawBytes, OpsOf;
    AreaFits(b, fmt.Bpp());
    assert Area(b) == 1;
    RunsStep(src, at + 1, 1, fmt);
    RunsStep(src, at + 1 + fmt.Bpp() + LIMIT + 1, 1, fmt);
    NothingPainted(b, x, y);
  }

  lemma TwoRunsScanned(src: seq<Byte>, c: nat, bpp: nat)
    requires WrappedRunLength(src, c + bpp, 1) == Some((-2147483646, c + bpp + LIMIT + 1))
    requires WrappedRunLength(src, c + bpp + LIMIT + 1 + bpp, 1) == Some((2147483647, |src|))
    ensures ScanRuns(src, c, 0, 1, bpp) == Some(|src|)
  {
    hide WrappedRunLength;
    var d := c + bpp + LIMIT + 1;
    assert ScanRuns(src, |src|, 1, 1, bpp) == Some(|src|);
    assert ScanRuns(src, d, -2147483646, 1, bpp) == ScanRuns(src, |src|, 1, 1, bpp);
  }

  lemma NothingPainted(b: Box, x: int, y: int)
    requires Sensible(b)
    ensures 0 <= Area(b) && OpsOf(STOPPED, b, x, y) == []
  {
    AreaFits(b, 1);
  }

  // ----- the limit is exact

  /** With a pixel of zeros the payload has just LIMIT bytes 255 in a row. */
  lemma OverlongShort(p: Pixel, n: nat)
    requires n > LIMIT && forall i :: 0 <= i < |p| ==> p[i] == 0
    ensures Without(Overlong(p), n)
  {
    var src, b := Overlong(p), |p|;
    OverlongAt(p);
    hide Overlong;
    assert forall i :: 1 <= i < 1 + b ==> src[i] == src[1..1 + b][i - 1];
    assert forall i :: 2 + b <= i < 2 + 2 * b ==> src[i] == src[2 + b..2 + 2 * b][i - (2 + b)];
    assert forall i :: 3 + 2 * b + LIMIT <= i < 3 + 3 * b + LIMIT ==>
      src[i] == src[3 + 2 * b + LIMIT..3 + 3 * b + LIMIT][i - (3 + 2 * b + LIMIT)];
    forall c: nat
      ensures !Full(src, c, n)
    {
      if c + n <= |src| {
        var i := if 2 + 2 * b <= c <= 2 + 2 * b + LIMIT then 2 + 2 * b + LIMIT
                 else if c >= 3 + 3 * b + LIMIT then 3 + 3 * b + 2 * LIMIT else c;
        assert c <= i < c + n && src[i] != 255;
      }
    }
  }

  /**
   For every pixel format: all payloads without n bytes 255 in a row are drawn completely or not at all if
   and only if n is at most 8421504.
   */
  lemma LimitIsExact(fmt: PixelFormat, n: nat)
    requires fmt.Valid()
    ensures LawWithout(fmt, n) <==> n <= LIMIT
  {
    if n <= LIMIT {
      hide AllOrNothing, Sendable;
      forall src, x, y, w: nat, h: nat | Without(src, n)
        ensures AllOrNothing(src, fmt, x, y, w, h)
      {
        LongerStrings(src, n);
        ShortIsLawful(src, fmt, x, y, w, h);
      }
    } else {
      var p: Pixel := seq(fmt.Bpp(), _ => 0);
      HalfPaints(p, fmt, 0, 0);
      OverlongShort(p, n);
      hide Overlong, Without, PaintedPayload, Scan, Parse;
      assert Sendable(Overlong(p), 65, 1) && !AllOrNothing(Overlong(p), fmt, 0, 0, 65, 1);
    }
  }

  lemma LongerStrings(src: seq<Byte>, n: nat)
    requires n <= LIMIT && Without(src, n)
    ensures Without(src, LIMIT)
  {
    forall c: nat
      ensures !Full(src, c, LIMIT)
    {
      assert !Full(src, c, n);
    }
  }
}
