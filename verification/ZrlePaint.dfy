/**
 What the painting pass over ZRLE tile data draws, on any payload: a list of drawing operations and
 whether it reaches the end. On a payload that parses these are the tiles' operations. On others it
 may stop inside a tile, and then what it had painted stays.
 */
module ZrlePaint {
  import opened Machine
  import opened PixelFormats
  import opened Canvas
  import opened Tiling
  import opened Zrle
  import opened ZrleScan

  /** The pixels of a tile painted in row-major order, and the cursor behind the tile, or None if the pass gives up. */
  datatype Painted = Painted(pixels: seq<Rgba>, end: Option<nat>)

  const STOPPED: Painted := Painted([], None)

  function Before(first: seq<Rgba>, p: Painted): Painted {
    Painted(first + p.pixels, p.end)
  }

  /** A run whose length wrapped to a number below one paints nothing. */
  function Count(runLen: I32): nat {
    if runLen > 0 then runLen else 0
  }

  /** The plain run-length loop with `remaining` pixels of the tile to go. */
  function PaintedRuns(src: seq<Byte>, c: nat, remaining: nat, fmt: PixelFormat): (p: Painted)
    requires fmt.Valid()
    ensures |p.pixels| <= remaining && (p.end.Some? ==> |p.pixels| == remaining)
    decreases |src| - c
  {
    if remaining == 0 then Painted([], Some(c))
    else if |src| < c + fmt.Bpp() then STOPPED
    else
      match WrappedRunLength(src, c + fmt.Bpp(), 1)
      case None => STOPPED
      case Some((runLen, end)) =>
        if runLen > remaining then STOPPED
        else Before(RunPixels(DecodePixel(src, c, fmt), Count(runLen)),
            PaintedRuns(src, end, remaining - Count(runLen), fmt))
  }

  function PaintedIndexRuns(src: seq<Byte>, c: nat, remaining: nat, colours: seq<Rgba>): (p: Painted)
    ensures |p.pixels| <= remaining && (p.end.Some? ==> |p.pixels| == remaining)
    decreases |src| - c
  {
    if remaining == 0 then Painted([], Some(c))
    else
      match ScanIndexRun(src, c)
      case None => STOPPED
      case Some((palIdx, runLen, end)) =>
        if palIdx >= |colours| || runLen > remaining then STOPPED
        else Before(RunPixels(colours[palIdx], Count(runLen)),
            PaintedIndexRuns(src, end, remaining - Count(runLen), colours))
  }

  /** The palette index of the k-th pixel of a packed tile. */
  function IndexAt(data: seq<Byte>, b: Box, size: nat, k: nat): nat
    requires Sensible(b) && |data| == PackedBytes(b.w, b.h, size) && k < Area(b)
  {
    PointInArea(b, k);
    PackedIndex(data, b.w, b.h, BitsPerIndex(size), k % b.w, k / b.w)
  }

  /** The pixels of a packed tile from the k-th on, up to the first index outside the palette. */
  function PackedFrom(data: seq<Byte>, b: Box, size: nat, colours: seq<Rgba>, k: nat): (p: seq<Rgba>)
    requires Sensible(b) && |data| == PackedBytes(b.w, b.h, size) && |colours| == size && k <= Area(b)
    ensures |p| <= Area(b) - k
    decreases Area(b) - k
  {
    if k == Area(b) || IndexAt(data, b, size, k) >= size then []
    else [colours[IndexAt(data, b, size, k)]] + PackedFrom(data, b, size, colours, k + 1)
  }

  function PaintedPacked(src: seq<Byte>, c: nat, size: nat, b: Box, fmt: PixelFormat): (p: Painted)
    requires Sensible(b) && fmt.Valid()
    ensures 0 <= Area(b) && |p.pixels| <= Area(b) && (p.end.Some? ==> |p.pixels| == Area(b))
  {
    AreaFits(b, fmt.Bpp());
    PackedFits(b, size);
    var start := c + PaletteBytes(size, fmt.Bpp());
    var end := start + PackedBytes(b.w, b.h, size);
    if |src| < end then STOPPED
    else
      var p := PackedFrom(src[start..end], b, size, PaletteColours(src[c..start], size, fmt), 0);
      Painted(p, if |p| == Area(b) then Some(end) else None)
  }

  function PaintedPaletteRle(src: seq<Byte>, c: nat, size: nat, b: Box, fmt: PixelFormat): (p: Painted)
    requires Sensible(b) && fmt.Valid()
    ensures 0 <= Area(b) && |p.pixels| <= Area(b) && (p.end.Some? ==> |p.pixels| == Area(b))
  {
    AreaFits(b, fmt.Bpp());
    var start := c + PaletteBytes(size, fmt.Bpp());
    if |src| < start then STOPPED
    else PaintedIndexRuns(src, start, Area(b), PaletteColours(src[c..start], size, fmt))
  }

  // ----- drawing operations

  /** The block of a tile, filled up behind what was painted. */
  function BoxOp(pixels: seq<Rgba>, b: Box, x: int, y: int): Op
    requires Sensible(b) && |pixels| <= Area(b)
  {
    Blit(x + b.x, y + b.y, b.w, b.h, pixels + RunPixels(0, Area(b) - |pixels|))
  }

  lemma BoxOpValid(pixels: seq<Rgba>, b: Box, x: int, y: int)
    requires Sensible(b) && |pixels| <= Area(b)
    ensures BoxOp(pixels, b, x, y).Valid() && |BoxOp(pixels, b, x, y).pixels| == Area(b)
  {
  }

  /** A finished tile is one block; an unfinished one is its first pixels. */
  ghost function OpsOf(p: Painted, b: Box, x: int, y: int): (ops: seq<Op>)
    requires Sensible(b) && |p.pixels| <= Area(b)
    ensures AllValid(ops)
  {
    BoxOpValid(p.pixels, b, x, y);
    if p.end.Some? then [BoxOp(p.pixels, b, x, y)] else Dots(BoxOp(p.pixels, b, x, y), |p.pixels|)
  }

  /** What is drawn for the tile at c, and where it ends. */
  ghost function PaintedTile(src: seq<Byte>, c: nat, b: Box, x: int, y: int,
                             fmt: PixelFormat): (r: (seq<Op>, Option<nat>))
    requires Sensible(b) && fmt.Valid()
    ensures AllValid(r.0)
  {
    AreaFits(b, fmt.Bpp());
    var bpp := fmt.Bpp();
    if |src| < c + 1 then ([], None)
    else
      var size, rle, at := src[c] % 128, src[c] >= 128, c + 1;
      if !rle && size == 0 then
        if |src| < at + RawBytes(b, bpp) then ([], None)
        else
          var p := Painted(RawPixels(src[at..at + RawBytes(b, bpp)], Area(b), fmt), Some(at + RawBytes(b, bpp)));
          (OpsOf(p, b, x, y), p.end)
      else if !rle && size == 1 then
        if |src| < at + bpp then ([], None)
        else ([Fill(x + b.x, y + b.y, b.w, b.h, DecodePixel(src, at, fmt))], Some(at + bpp))
      else if !rle && size <= 16 then
        var p := PaintedPacked(src, at, size, b, fmt);
        (OpsOf(p, b, x, y), p.end)
      else if rle && size == 0 then
        var p := PaintedRuns(src, at, Area(b), fmt);
        (OpsOf(p, b, x, y), p.end)
      else if rle && size >= 2 then
        var p := PaintedPaletteRle(src, at, size, b, fmt);
        (OpsOf(p, b, x, y), p.end)
      else ([], None)
  }

  /** The tile walk of the painting pass from cursor c: all it draws, and whether it ends at the payload's end. */
  ghost function PaintedTiles(src: seq<Byte>, c: nat, boxes: seq<Box>, x: int, y: int,
                              fmt: PixelFormat): (r: (seq<Op>, bool))
    requires fmt.Valid() && forall b :: b in boxes ==> Sensible(b)
    ensures AllValid(r.0)
    decreases |boxes|
  {
    if boxes == [] then ([], c == |src|)
    else
      match PaintedTile(src, c, boxes[0], x, y, fmt)
      case (ops, None) => (ops, false)
      case (ops, Some(end)) =>
        var rest := PaintedTiles(src, end, boxes[1..], x, y, fmt);
        (ops + rest.0, rest.1)
  }

  ghost function PaintedPayload(src: seq<Byte>, fmt: PixelFormat, x: int, y: int, w: nat, h: nat): (r: (seq<Op>, bool))
    requires fmt.Valid()
    ensures AllValid(r.0)
  {
    PaintedTiles(src, 0, Boxes(w, h), x, y, fmt)
  }

  // ----- the loops, step by step

  lemma BoxStarts(g: Grid, pixels: seq<Rgba>, b: Box, x: int, y: int, w: int, h: int)
    requires Sensible(b) && |pixels| <= Area(b) && LocalRectInside(w, h, x + b.x, y + b.y, b.w, b.h) && HasSize(g, w, h)
    ensures var op := BoxOp(pixels, b, x, y);
      && Begun(g, op, 0, g, w, h) && op.x == x + b.x && op.y == y + b.y && op.w == b.w && op.h == b.h
      && |op.pixels| == Area(b) == b.w * b.h == Index(b.w, 0, b.h) && Index(b.w, 0, 0) == 0
      && forall k :: 0 <= k < |pixels| ==> op.pixels[k] == pixels[k]
  {
    BoxOpValid(pixels, b, x, y);
    BegunFirst(g, BoxOp(pixels, b, x, y), w, h);
  }

  /** When all that the pass paints of a tile is in place, the tile's operations are drawn. */
  lemma BegunIsOps(g0: Grid, p: Painted, b: Box, x: int, y: int, g: Grid, w: int, h: int)
    requires Sensible(b) && |p.pixels| <= Area(b) && (p.end.Some? ==> |p.pixels| == Area(b))
    requires Begun(g0, BoxOp(p.pixels, b, x, y), |p.pixels|, g, w, h)
    ensures Drawn(g0, OpsOf(p, b, x, y), g, w, h)
  {
    hide Begun, Drawn, Dots;
    var op := BoxOp(p.pixels, b, x, y);
    BoxOpValid(p.pixels, b, x, y);
    if p.end.Some? {
      BegunDone(g0, op, |p.pixels|, g, w, h);
    } else {
      BegunIsDots(g0, op, |p.pixels|, g, w, h);
    }
  }

  /** k pixels of a tile are painted; `rest` is what the pass still does of p. */
  ghost predicate Left(p: Painted, k: nat, rest: Painted) {
    k <= |p.pixels| && p.pixels[k..] == rest.pixels && p.end == rest.end
  }

  lemma LeftAll(p: Painted)
    ensures Left(p, 0, p)
  {
    assert p.pixels[0..] == p.pixels;
  }

  /** After n pixels of colour c, which p holds next. */
  lemma LeftNext(p: Painted, k: nat, c: Rgba, n: nat, rest: Painted)
    requires Left(p, k, Before(RunPixels(c, n), rest))
    ensures Left(p, k + n, rest) && k + n <= |p.pixels| && forall j :: k <= j < k + n ==> p.pixels[j] == c
  {
    var tail := p.pixels[k..];
    assert tail[n..] == rest.pixels && p.pixels[k + n..] == tail[n..];
    forall j | k <= j < k + n
      ensures p.pixels[j] == c
    {
      assert p.pixels[j] == tail[j - k];
    }
  }

  /** When nothing is left to paint of p, its operations are drawn. */
  lemma Finished(g0: Grid, p: Painted, k: nat, rest: Painted, b: Box, x: int, y: int, g: Grid, w: int, h: int)
    requires Sensible(b) && |p.pixels| <= Area(b) && (p.end.Some? ==> |p.pixels| == Area(b))
    requires Left(p, k, rest) && rest.pixels == [] && Begun(g0, BoxOp(p.pixels, b, x, y), k, g, w, h)
    ensures p.end == rest.end && Drawn(g0, OpsOf(p, b, x, y), g, w, h)
  {
    hide Begun, Drawn, BoxOp, OpsOf;
    assert |p.pixels[k..]| == 0;
    BegunIsOps(g0, p, b, x, y, g, w, h);
  }

  lemma FirstLeft(pixels: seq<Rgba>, k: nat, c: Rgba, rest: seq<Rgba>)
    requires k <= |pixels| && pixels[k..] == [c] + rest
    ensures k < |pixels| && pixels[k] == c && pixels[k + 1..] == rest
  {
    assert |pixels[k..]| > 0;
    assert pixels[k + 1..] == pixels[k..][1..];
  }

  lemma RunsDone(src: seq<Byte>, c: nat, fmt: PixelFormat)
    requires fmt.Valid()
    ensures PaintedRuns(src, c, 0, fmt) == Painted([], Some(c))
  {
  }

  lemma IndexRunsDone(src: seq<Byte>, c: nat, colours: seq<Rgba>)
    ensures PaintedIndexRuns(src, c, 0, colours) == Painted([], Some(c))
  {
  }

  lemma RunsStep(src: seq<Byte>, c: nat, remaining: nat, fmt: PixelFormat)
    requires fmt.Valid() && remaining > 0
    ensures var p, run := PaintedRuns(src, c, remaining, fmt), WrappedRunLength(src, c + fmt.Bpp(), 1);
      if |src| < c + fmt.Bpp() || run.None? || run.value.0 > remaining then p == STOPPED
      else p == Before(RunPixels(DecodePixel(src, c, fmt), Count(run.value.0)),
                       PaintedRuns(src, run.value.1, remaining - Count(run.value.0), fmt))
  {
    hide WrappedRunLength, DecodePixel;
  }

  lemma IndexRunsStep(src: seq<Byte>, c: nat, remaining: nat, colours: seq<Rgba>)
    requires remaining > 0
    ensures var p, run := PaintedIndexRuns(src, c, remaining, colours), ScanIndexRun(src, c);
      if run.None? || run.value.0 >= |colours| || run.value.1 > remaining then p == STOPPED
      else p == Before(RunPixels(colours[run.value.0], Count(run.value.1)),
                       PaintedIndexRuns(src, run.value.2, remaining - Count(run.value.1), colours))
  {
    hide ScanIndexRun;
  }

  /** The next index of a packed tile, as the loop computes it. */
  lemma PackedStep(src: seq<Byte>, start: nat, b: Box, size: nat, colours: seq<Rgba>, k: nat, col: int, row: int)
    requires Sensible(b) && 0 <= PackedBytes(b.w, b.h, size) && start + PackedBytes(b.w, b.h, size) <= |src|
    requires |colours| == size
    requires 0 <= col < b.w && 0 <= row < b.h && k == Index(b.w, col, row)
    ensures 0 <= k < Area(b)
    ensures var bits, data := BitsPerIndex(size), src[start..start + PackedBytes(b.w, b.h, size)];
      var at := start + PackedByte(b.w, bits, col, row);
      && start <= at < start + PackedBytes(b.w, b.h, size) && 0 <= PackedShift(bits, col)
      && var i := And(Shr(src[at], PackedShift(bits, col)), Pow2(bits) - 1);
      && PackedFrom(data, b, size, colours, k) ==
         if i >= size then [] else [colours[i]] + PackedFrom(data, b, size, colours, k + 1)
  {
    hide PackedIndex, PackedByte, PackedShift, And, Shr, Pow2, PackedBytes, RowBytes, BitsPerIndex;
    IndexBounds(b.w, b.h, col, row);
    ModUnique(k, b.w, row, col);
    PackedIndexAt(src, start, b.w, b.h, size, col, row);
  }

  /** k pixels of a packed tile are painted, and the others are still to come. */
  ghost predicate PackedLeft(pixels: seq<Rgba>, k: nat, data: seq<Byte>, b: Box, size: nat, colours: seq<Rgba>)
    requires Sensible(b) && |data| == PackedBytes(b.w, b.h, size) && |colours| == size
  {
    k <= |pixels| && k <= Area(b) && pixels[k..] == PackedFrom(data, b, size, colours, k)
  }

  lemma PackedLeftAll(data: seq<Byte>, b: Box, size: nat, colours: seq<Rgba>)
    requires Sensible(b) && |data| == PackedBytes(b.w, b.h, size) && |colours| == size
    ensures 0 <= Area(b) && PackedLeft(PackedFrom(data, b, size, colours, 0), 0, data, b, size, colours)
  {
    AreaFits(b, 1);
    var p := PackedFrom(data, b, size, colours, 0);
    assert p[0..] == p;
  }

  /** The next pixel of a packed tile: the palette entry of its index, or no further pixel. */
  lemma PackedLeftNext(src: seq<Byte>, start: nat, pixels: seq<Rgba>, b: Box, size: nat, colours: seq<Rgba>, k: nat,
                       col: int, row: int)
    requires Sensible(b) && 0 <= PackedBytes(b.w, b.h, size) && start + PackedBytes(b.w, b.h, size) <= |src|
    requires |colours| == size
    requires PackedLeft(pixels, k, src[start..start + PackedBytes(b.w, b.h, size)], b, size, colours)
    requires 0 <= col < b.w && 0 <= row < b.h && k == Index(b.w, col, row)
    ensures var bits, data := BitsPerIndex(size), src[start..start + PackedBytes(b.w, b.h, size)];
      var at := start + PackedByte(b.w, bits, col, row);
      && start <= at < start + PackedBytes(b.w, b.h, size) && 0 <= PackedShift(bits, col)
      && var i := And(Shr(src[at], PackedShift(bits, col)), Pow2(bits) - 1);
      if i >= size then |pixels| == k
      else k < |pixels| && pixels[k] == colours[i] && PackedLeft(pixels, k + 1, data, b, size, colours)
  {
    hide PackedByte, PackedShift, And, Shr, Pow2, PackedBytes, RowBytes, BitsPerIndex, PackedFrom;
    PackedStep(src, start, b, size, colours, k, col, row);
    var bits, data := BitsPerIndex(size), src[start..start + PackedBytes(b.w, b.h, size)];
    var i := And(Shr(src[start + PackedByte(b.w, bits, col, row)], PackedShift(bits, col)), Pow2(bits) - 1);
    if i >= size {
      assert |pixels[k..]| == 0;
    } else {
      FirstLeft(pixels, k, colours[i], PackedFrom(data, b, size, colours, k + 1));
    }
  }

  lemma PackedLeftNone(pixels: seq<Rgba>, data: seq<Byte>, b: Box, size: nat, colours: seq<Rgba>, k: nat)
    requires Sensible(b) && |data| == PackedBytes(b.w, b.h, size) && |colours| == size
    requires k == b.w * b.h && PackedLeft(pixels, k, data, b, size, colours)
    ensures |pixels| == k
  {
    assert |pixels[k..]| == 0;
  }

  // ----- payloads that parse

  lemma {:induction false} RunsPainted(src: seq<Byte>, c: nat, remaining: nat, fmt: PixelFormat)
    requires fmt.Valid() && remaining <= 4096 && ParseRuns(src, c, remaining, fmt.Bpp()).Some?
    ensures var (l, end) := ParseRuns(src, c, remaining, fmt.Bpp()).value;
      RunsFit(l, fmt) && PaintedRuns(src, c, remaining, fmt) == Painted(Expand(l, fmt), Some(end))
    decreases remaining
  {
    hide ParseExtra, WrappedRunLength, ParseRuns, ToI32, DecodePixel, Colour;
    var bpp := fmt.Bpp();
    RunsUnfold(src, c, remaining, bpp);
    if remaining > 0 {
      WrappedRunLengthIs(src, c + bpp, 1);
      DecodePixelAt(src, c, fmt);
      var (n, end) := ParseExtra(src, c + bpp).value;
      Fits31(1 + n);
      RunsPainted(src, end, remaining - (1 + n), fmt);
      var l, rest := ParseRuns(src, c, remaining, bpp).value.0, ParseRuns(src, end, remaining - (1 + n), bpp).value.0;
      assert l == [Run(src[c..c + bpp], 1 + n)] + rest && l[1..] == rest;
    }
  }

  lemma {:induction false} IndexRunsPainted(src: seq<Byte>, c: nat, remaining: nat, colours: seq<Rgba>)
    requires remaining <= 4096 && ParseIndexRuns(src, c, remaining, |colours|).Some?
    ensures var (l, end) := ParseIndexRuns(src, c, remaining, |colours|).value;
      IndexRunsFit(l, |colours|)
          && PaintedIndexRuns(src, c, remaining, colours) == Painted(ExpandIndexed(l, colours), Some(end))
    decreases remaining
  {
    hide ParseIndexRun, ScanIndexRun, ParseIndexRuns, ToI32;
    IndexRunsUnfold(src, c, remaining, |colours|);
    if remaining > 0 {
      IndexRunScanned(src, c);
      IndexRunGood(src, c, |colours|);
      var (r, end) := ParseIndexRun(src, c).value;
      Fits31(r.length);
      IndexRunsPainted(src, end, remaining - r.length, colours);
      var l, rest := ParseIndexRuns(src, c, remaining, |colours|).value.0,
          ParseIndexRuns(src, end, remaining - r.length, |colours|).value.0;
      assert l == [r] + rest && l[1..] == rest;
    }
  }

  lemma IndexRunGood(src: seq<Byte>, c: nat, size: nat)
    requires ParseIndexRun(src, c).Some? && ParseIndexRun(src, c).value.0.index < size
    ensures GoodIndexRun(ParseIndexRun(src, c).value.0, size)
  {
    hide ParseExtra;
  }

  lemma {:induction false} PackedAllPainted(data: seq<Byte>, b: Box, size: nat, colours: seq<Rgba>, k: nat)
    requires Sensible(b) && IndicesInPalette(data, b.w, b.h, size) && |colours| == size && k <= Area(b)
    ensures PackedFrom(data, b, size, colours, k) == PackedPixels(data, b, size, colours)[k..]
    decreases Area(b) - k
  {
    hide PackedIndex, PackedBytes;
    if k < Area(b) {
      PointInArea(b, k);
      PackedAllPainted(data, b, size, colours, k + 1);
    }
  }

  lemma PackedPainted(src: seq<Byte>, c: nat, size: nat, b: Box, fmt: PixelFormat)
    requires Sensible(b) && fmt.Valid() && ParsePacked(src, c, fmt.Bpp(), size, b).Some?
    ensures var (t, end) := ParsePacked(src, c, fmt.Bpp(), size, b).value;
      Fits(t, b, fmt) ==> PaintedPacked(src, c, size, b, fmt) == Painted(Pixels(t, b, fmt), Some(end))
  {
    hide PackedFrom, PackedPixels, PaletteColours, PaletteBytes, PackedBytes;
    AreaFits(b, fmt.Bpp());
    PackedFits(b, size);
    var (t, end) := ParsePacked(src, c, fmt.Bpp(), size, b).value;
    if Fits(t, b, fmt) {
      var colours := PaletteColours(t.palette, size, fmt);
      PackedAllPainted(t.data, b, size, colours, 0);
      assert PackedPixels(t.data, b, size, colours)[0..] == PackedPixels(t.data, b, size, colours);
    }
  }

  lemma PaletteRlePainted(src: seq<Byte>, c: nat, size: nat, b: Box, fmt: PixelFormat)
    requires Sensible(b) && fmt.Valid() && ParsePaletteRle(src, c, fmt.Bpp(), size, b).Some?
    ensures var (t, end) := ParsePaletteRle(src, c, fmt.Bpp(), size, b).value;
      Fits(t, b, fmt) ==> PaintedPaletteRle(src, c, size, b, fmt) == Painted(Pixels(t, b, fmt), Some(end))
  {
    hide PaletteColours, PaletteBytes, ParseIndexRuns, ExpandIndexed, Area;
    AreaFits(b, fmt.Bpp());
    var start := c + PaletteBytes(size, fmt.Bpp());
    IndexRunsPainted(src, start, Area(b), PaletteColours(src[c..start], size, fmt));
  }

  lemma FinishedOp(pixels: seq<Rgba>, end: nat, b: Box, x: int, y: int)
    requires Sensible(b) && |pixels| == Area(b)
    ensures OpsOf(Painted(pixels, Some(end)), b, x, y) == [Blit(x + b.x, y + b.y, b.w, b.h, pixels)]
  {
    assert pixels + RunPixels(0, 0) == pixels;
  }

  ghost predicate TileInStep(src: seq<Byte>, c: nat, b: Box, x: int, y: int, fmt: PixelFormat)
    requires Sensible(b) && fmt.Valid() && ParseTile(src, c, fmt.Bpp(), b).Some?
  {
    var (t, end) := ParseTile(src, c, fmt.Bpp(), b).value;
    Fits(t, b, fmt) && PaintedTile(src, c, b, x, y, fmt) == ([TileOp(t, b, x, y, fmt)], Some(end))
  }

  lemma RawTilePainted(src: seq<Byte>, c: nat, b: Box, x: int, y: int, fmt: PixelFormat)
    requires Sensible(b) && fmt.Valid() && ParseTile(src, c, fmt.Bpp(), b).Some? && src[c] < 2
    requires var (t, _) := ParseTile(src, c, fmt.Bpp(), b).value; Fits(t, b, fmt)
    ensures TileInStep(src, c, b, x, y, fmt)
  {
    hide OpsOf, RawBytes, WellFormed, DecodePixel, Colour, RawPixels, ParsePacked, PaintedPacked;
    var (t, end) := ParseTile(src, c, fmt.Bpp(), b).value;
    AreaFits(b, fmt.Bpp());
    if src[c] == 0 {
      FinishedOp(Pixels(t, b, fmt), end, b, x, y);
    } else {
      DecodePixelAt(src, c + 1, fmt);
    }
  }

  lemma PackedTilePainted(src: seq<Byte>, c: nat, b: Box, x: int, y: int, fmt: PixelFormat)
    requires Sensible(b) && fmt.Valid() && ParseTile(src, c, fmt.Bpp(), b).Some? && 2 <= src[c] < 128
    requires var (t, _) := ParseTile(src, c, fmt.Bpp(), b).value; Fits(t, b, fmt)
    ensures TileInStep(src, c, b, x, y, fmt)
  {
    hide ParsePacked, PaintedPacked, OpsOf, WellFormed, Area, Pixels;
    var (t, end) := ParseTile(src, c, fmt.Bpp(), b).value;
    PackedShape(src, c + 1, fmt.Bpp(), src[c], b);
    PackedPainted(src, c + 1, src[c], b, fmt);
    FinishedOp(Pixels(t, b, fmt), end, b, x, y);
  }

  lemma PackedShape(src: seq<Byte>, c: nat, bpp: nat, size: nat, b: Box)
    requires Sensible(b) && ParsePacked(src, c, bpp, size, b).Some?
    ensures ParsePacked(src, c, bpp, size, b).value.0.Packed?
  {
    hide PackedBytes, PaletteBytes, IndicesInPalette;
  }

  lemma RunTilePainted(src: seq<Byte>, c: nat, b: Box, x: int, y: int, fmt: PixelFormat)
    requires Sensible(b) && fmt.Valid() && ParseTile(src, c, fmt.Bpp(), b).Some? && src[c] >= 128
    requires var (t, _) := ParseTile(src, c, fmt.Bpp(), b).value; Fits(t, b, fmt)
    ensures TileInStep(src, c, b, x, y, fmt)
  {
    hide PaintedRuns, PaintedPaletteRle, ParseRuns, ParseIndexRuns, OpsOf, WellFormed, Area, Expand, ExpandIndexed,
         PaletteColours, PaletteBytes;
    var (t, end) := ParseTile(src, c, fmt.Bpp(), b).value;
    AreaFits(b, fmt.Bpp());
    FinishedOp(Pixels(t, b, fmt), end, b, x, y);
    if src[c] == 128 {
      RunsPainted(src, c + 1, Area(b), fmt);
    } else {
      PaletteRlePainted(src, c + 1, src[c] % 128, b, fmt);
    }
  }

  /**
   In step with the parse: on a tile that parses the painting pass draws that tile and stops where the
   parse stops.
   */
  lemma TilePainted(src: seq<Byte>, c: nat, b: Box, x: int, y: int, fmt: PixelFormat)
    requires Sensible(b) && fmt.Valid() && ParseTile(src, c, fmt.Bpp(), b).Some?
    ensures var (t, end) := ParseTile(src, c, fmt.Bpp(), b).value;
      Fits(t, b, fmt) && PaintedTile(src, c, b, x, y, fmt) == ([TileOp(t, b, x, y, fmt)], Some(end))
  {
    var (t, end) := ParseTile(src, c, fmt.Bpp(), b).value;
    TileStarts(src, c, fmt.Bpp(), b);
    TileEncodes(src, c, fmt.Bpp(), b, t, end);
    hide ParseTile, PaintedTile, TileOp, WellFormed;
    if src[c] < 2 {
      RawTilePainted(src, c, b, x, y, fmt);
    } else if src[c] < 128 {
      PackedTilePainted(src, c, b, x, y, fmt);
    } else {
      RunTilePainted(src, c, b, x, y, fmt);
    }
  }

  lemma TileStarts(src: seq<Byte>, c: nat, bpp: nat, b: Box)
    requires Sensible(b) && ParseTile(src, c, bpp, b).Some?
    ensures c < |src|
  {
    hide ParsePacked, ParsePlain, ParsePaletteRle;
  }

  lemma {:induction false} FlattenFirst(g: seq<Op>, gs: seq<seq<Op>>)
    ensures Flatten([g] + gs) == g + Flatten(gs)
  {
    var all := [g] + gs;
    if gs == [] {
      assert all[..0] == [];
      assert [] + g == g && g + [] == g;
    } else {
      var n := |gs| - 1;
      assert all[..n + 1] == [g] + gs[..n];
      FlattenFirst(g, gs[..n]);
      Assoc(g, Flatten(gs[..n]), gs[n]);
    }
  }

  /** The painting pass over tiles that parse draws each of them and reaches the end. */
  lemma {:induction false} TilesPainted(src: seq<Byte>, c: nat, boxes: seq<Box>, x: int, y: int, fmt: PixelFormat)
    requires fmt.Valid() && (forall b :: b in boxes ==> Sensible(b)) && ParseTiles(src, c, fmt.Bpp(), boxes).Some?
    ensures var tiles := ParseTiles(src, c, fmt.Bpp(), boxes).value;
      AllFit(tiles, boxes, fmt)
          && PaintedTiles(src, c, boxes, x, y, fmt) == (Flatten(Groups(tiles, boxes, x, y, fmt)), true)
    decreases |boxes|
  {
    hide ParseTile, PaintedTile, TileOp, Flatten, WellFormed;
    var bpp := fmt.Bpp();
    if boxes == [] {
      NothingFlattened();
    } else {
      TilePainted(src, c, boxes[0], x, y, fmt);
      var (t, end) := ParseTile(src, c, bpp, boxes[0]).value;
      TilesPainted(src, end, boxes[1..], x, y, fmt);
      var rest := ParseTiles(src, end, bpp, boxes[1..]).value;
      var tiles := [t] + rest;
      assert tiles[1..] == rest;
      forall k | 0 <= k < |tiles|
        ensures Fits(tiles[k], boxes[k], fmt)
      {
        assert k > 0 ==> tiles[k] == rest[k - 1] && boxes[k] == boxes[1..][k - 1];
      }
      var g := [TileOp(t, boxes[0], x, y, fmt)];
      assert Groups(tiles, boxes, x, y, fmt) == [g] + Groups(rest, boxes[1..], x, y, fmt);
      FlattenFirst(g, Groups(rest, boxes[1..], x, y, fmt));
    }
  }

  lemma NothingFlattened()
    ensures Flatten([]) == []
  {
  }

  /** On a payload that parses the painting pass draws the parsed tiles, all of them, and accepts. */
  lemma PaintsAsParsed(src: seq<Byte>, fmt: PixelFormat, x: int, y: int, w: nat, h: nat)
    requires fmt.Valid() && Parse(src, fmt.Bpp(), w, h).Some?
    ensures PaintedPayload(src, fmt, x, y, w, h) == (PayloadOps(src, fmt, x, y, w, h), true)
  {
    hide ParseTiles, PaintedTiles, Boxes, Groups;
    ParsedFit(src, fmt, w, h);
    TilesPainted(src, 0, Boxes(w, h), x, y, fmt);
  }

  // ----- any payload

  lemma TileWithin(src: seq<Byte>, c: nat, b: Box, x: int, y: int, fmt: PixelFormat)
    requires Sensible(b) && fmt.Valid()
    ensures Within(PaintedTile(src, c, b, x, y, fmt).0, x + b.x, y + b.y, b.w, b.h)
  {
    hide PaintedPacked, PaintedPaletteRle, PaintedRuns, OpsOf, RawBytes, DecodePixel, RawPixels;
    AreaFits(b, fmt.Bpp());
    forall p: Painted | |p.pixels| <= Area(b)
      ensures Within(OpsOf(p, b, x, y), x + b.x, y + b.y, b.w, b.h)
    {
      OpsWithin(p, b, x, y);
    }
  }

  lemma OpsWithin(p: Painted, b: Box, x: int, y: int)
    requires Sensible(b) && |p.pixels| <= Area(b)
    ensures Within(OpsOf(p, b, x, y), x + b.x, y + b.y, b.w, b.h)
  {
    BoxOpValid(p.pixels, b, x, y);
    DotsWithin(BoxOp(p.pixels, b, x, y), |p.pixels|, x + b.x, y + b.y, b.w, b.h);
    hide Dots;
  }

  lemma {:induction false} TilesWithin(src: seq<Byte>, c: nat, boxes: seq<Box>, x: int, y: int, fmt: PixelFormat,
                                       w: int, h: int)
    requires fmt.Valid() && forall b :: b in boxes ==> Sensible(b) && LocalRectInside(w, h, b.x, b.y, b.w, b.h)
    ensures Within(PaintedTiles(src, c, boxes, x, y, fmt).0, x, y, w, h)
    decreases |boxes|
  {
    hide PaintedTile, Sensible;
    if boxes != [] {
      var b := boxes[0];
      assert b in boxes;
      TileWithin(src, c, b, x, y, fmt);
      var (ops, end) := PaintedTile(src, c, b, x, y, fmt);
      if end.Some? {
        TilesWithin(src, end.value, boxes[1..], x, y, fmt, w, h);
      }
    }
  }

  /** Whatever the payload, nothing is drawn outside the rectangle. */
  lemma PaintsWithin(src: seq<Byte>, fmt: PixelFormat, x: int, y: int, w: nat, h: nat)
    requires fmt.Valid()
    ensures Within(PaintedPayload(src, fmt, x, y, w, h).0, x, y, w, h)
  {
    hide PaintedTiles;
    BoxesInside(w, h, SIZE, 0, 0);
    TilesWithin(src, 0, Boxes(w, h), x, y, fmt, w, h);
  }
}
