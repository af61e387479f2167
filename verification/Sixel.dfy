/** The sixel emitter: palette building, six-row bit planes and run-length coding. */
module Sixel {
  import opened Machine
  import opened Canvas
  import opened SixelTerminal
  import opened Sorting

  const ALPHA_THRESHOLD: int := 128

  // ----- run-length coding

  function SixelRun(c: char, count: int): string {
    if count <= 0 then ""
    else if count == 1 then [c]
    else if count == 2 then [c, c]
    else "!" + Dec(count) + [c]
  }

  lemma DrawsRun(c: char, n: nat, t: Term)
    requires Data(c)
    ensures Draws(SixelRun(c, n), t, PaintRun(t, Bits(c), n)) && Clean(SixelRun(c, n))
  {
    hide Draws, Paint;
    if n == 0 {
      DrawsNothing(t);
    } else if n == 1 {
      DrawsSixel(c, t);
    } else if n == 2 {
      DrawsSixel(c, t);
      DrawsSixel(c, Paint(t, Bits(c)));
      DrawsThen([c], [c], t, Paint(t, Bits(c)), Paint(Paint(t, Bits(c)), Bits(c)));
      assert [c] + [c] == [c, c];
      assert PaintRun(t, Bits(c), 2) == PaintRun(Paint(t, Bits(c)), Bits(c), 1);
    } else {
      DrawsRepeat(c, n, t);
    }
  }

  predicate AllData(chars: seq<char>) {
    forall i :: 0 <= i < |chars| ==> Data(chars[i])
  }

  /** Painting the characters one column after another. */
  ghost function PaintAll(t: Term, chars: seq<char>): Term
    requires AllData(chars)
  {
    if chars == [] then t else Paint(PaintAll(t, chars[..|chars| - 1]), Bits(chars[|chars| - 1]))
  }

  lemma {:induction false} PaintRunLast(t: Term, bits: nat, n: nat)
    requires n > 0
    ensures PaintRun(t, bits, n) == Paint(PaintRun(t, bits, n - 1), bits)
    decreases n
  {
    hide Paint;
    if n > 1 {
      PaintRunLast(Paint(t, bits), bits, n - 1);
    }
  }

  /** A run at the end of the characters. */
  lemma {:induction false} PaintAllRun(t: Term, chars: seq<char>, n: nat, c: char)
    requires AllData(chars) && n <= |chars| && Data(c) && forall i :: |chars| - n <= i < |chars| ==> chars[i] == c
    ensures PaintAll(t, chars) == PaintRun(PaintAll(t, chars[..|chars| - n]), Bits(c), n)
    decreases n
  {
    hide Paint;
    if n == 0 {
      assert chars[..|chars|] == chars;
    } else {
      var front := chars[..|chars| - 1];
      PaintAllRun(t, front, n - 1, c);
      assert front[..|front| - (n - 1)] == chars[..|chars| - n];
      PaintRunLast(PaintAll(t, chars[..|chars| - n]), Bits(c), n);
    }
  }

  /** Run-length codes the characters; executing the result paints them all. */
  method SixelEncodeRuns(chars: seq<char>, ghost t: Term) returns (result: string)
    requires AllData(chars)
    ensures Draws(result, t, PaintAll(t, chars)) && Clean(result)
  {
    hide Draws, PaintAll, Paint, PaintRun, SixelRun;
    if |chars| == 0 {
      DrawsNothing(t);
      PaintAllNothing(t);
      return "";
    }
    result := "";
    var previous := chars[0];
    var count := 1;
    DrawsNothing(t);
    PaintAllNothing(t);
    assert chars[..0] == [];
    for i := 1 to |chars|
      invariant 1 <= count <= i && Clean(result) && Data(previous)
      invariant Draws(result, t, PaintAll(t, chars[..i - count]))
      invariant forall j :: i - count <= j < i ==> chars[j] == previous
    {
      if chars[i] == previous {
        count := count + 1;
      } else {
        assert chars[..i][..i - count] == chars[..i - count] && chars[..i + 1 - 1] == chars[..i];
        Flush(chars[..i], count, previous, result, t);
        result := result + SixelRun(previous, count);
        previous := chars[i];
        count := 1;
      }
    }
    assert chars[..|chars|] == chars;
    Flush(chars, count, previous, result, t);
    result := result + SixelRun(previous, count);
  }

  lemma PaintAllNothing(t: Term)
    ensures PaintAll(t, []) == t
  {
  }

  /** Writing out the pending run. */
  lemma Flush(chars: seq<char>, count: nat, c: char, result: string, t: Term)
    requires AllData(chars) && count <= |chars| && Data(c)
    requires forall i :: |chars| - count <= i < |chars| ==> chars[i] == c
    requires Draws(result, t, PaintAll(t, chars[..|chars| - count])) && Clean(result)
    ensures Draws(result + SixelRun(c, count), t, PaintAll(t, chars)) && Clean(result + SixelRun(c, count))
  {
    hide Draws, PaintAll, Paint, PaintRun;
    var mid := PaintAll(t, chars[..|chars| - count]);
    DrawsRun(c, count, mid);
    PaintAllRun(t, chars, count, c);
    DrawsThen(result, SixelRun(c, count), t, mid, PaintRun(mid, Bits(c), count));
    CleanConcat(result, SixelRun(c, count));
  }

  // ----- what a row of sixels shows

  /** The points painted by the characters, from column t.x on. */
  ghost predicate Painted(chars: seq<char>, x: int, band: int, px: int, py: int)
    requires AllData(chars)
  {
    && 0 <= px - x < |chars| && 6 * band <= py < 6 * band + 6
    && Bit(Bits(chars[px - x]), py - 6 * band)
  }

  lemma PaintPoint(t: Term, bits: nat, px: int, py: int)
    ensures var here := px == t.x && 6 * t.band <= py < 6 * t.band + 6 && Bit(bits, py - 6 * t.band);
      && ((px, py) in Paint(t, bits).grid <==> here || (px, py) in t.grid)
      && (here ==> Paint(t, bits).grid[(px, py)] == t.colour)
      && (!here && (px, py) in t.grid ==> Paint(t, bits).grid[(px, py)] == t.grid[(px, py)])
  {
    hide Bit;
    var here := px == t.x && 6 * t.band <= py < 6 * t.band + 6 && Bit(bits, py - 6 * t.band);
    assert here <==> (px, py) in Column(t.x, t.band, bits) by {
      if here {
        var dy := py - 6 * t.band;
        assert (px, py) == (t.x, 6 * t.band + dy);
      }
    }
  }

  lemma {:induction false} PaintAllPoint(t: Term, chars: seq<char>, px: int, py: int)
    requires AllData(chars)
    ensures var u := PaintAll(t, chars);
      && u.x == t.x + |chars| && u.band == t.band && u.colour == t.colour && u.raster == t.raster
      && u.palette == t.palette
      && ((px, py) in u.grid <==> Painted(chars, t.x, t.band, px, py) || (px, py) in t.grid)
      && (Painted(chars, t.x, t.band, px, py) ==> u.grid[(px, py)] == t.colour)
      && (!Painted(chars, t.x, t.band, px, py) && (px, py) in t.grid ==> u.grid[(px, py)] == t.grid[(px, py)])
  {
    hide Bit;
    if chars != [] {
      var n := |chars| - 1;
      PaintAllPoint(t, chars[..n], px, py);
      PaintPoint(PaintAll(t, chars[..n]), Bits(chars[n]), px, py);
    }
  }

  // ----- the indexed raster

  /** The palette number of a pixel; -1 when it is transparent. */
  function At(pixels: seq<int>, w: int, h: int, px: int, py: int): int
    requires |pixels| == w * h && InRect(px, py, 0, 0, w, h)
  {
    IndexBounds(w, h, px, py);
    pixels[Index(w, px, py)]
  }

  /** All earlier bands are drawn, and of this band the pixels whose colour is done. */
  ghost predicate Shown(grid: map<(int, int), nat>, pixels: seq<int>, w: int, h: int, band: int, done: set<nat>) {
    && |pixels| == w * h
    && forall px, py {:trigger (px, py) in grid} ::
         ((px, py) in grid <==>
           InRect(px, py, 0, 0, w, h) && At(pixels, w, h, px, py) > 0
           && (py < 6 * band || (py < 6 * band + 6 && At(pixels, w, h, px, py) in done)))
         && ((px, py) in grid ==> grid[(px, py)] == At(pixels, w, h, px, py))
  }

  /** The characters are the bit plane of one colour in one band. */
  ghost predicate Plane(chars: seq<char>, pixels: seq<int>, w: int, h: int, band: int, colour: int) {
    && |pixels| == w * h && |chars| <= w && AllData(chars)
    && forall x, dy :: 0 <= x < |chars| && 0 <= dy < 6 ==>
         (Bit(Bits(chars[x]), dy) <==>
          InRect(x, 6 * band + dy, 0, 0, w, h) && At(pixels, w, h, x, 6 * band + dy) == colour)
  }

  /** Drawing the bit plane of a colour completes that colour in the band. */
  lemma ColourDone(t: Term, chars: seq<char>, pixels: seq<int>, w: int, h: int, colour: nat, done: set<nat>)
    requires t.x == 0 && t.colour == colour && colour > 0 && t.band >= 0 && |chars| == w
    requires Plane(chars, pixels, w, h, t.band, colour)
    requires Shown(t.grid, pixels, w, h, t.band, done)
    ensures Shown(PaintAll(t, chars).grid, pixels, w, h, t.band, done + {colour})
  {
    hide Bit, At, PaintAll;
    var u := PaintAll(t, chars);
    forall px, py
      ensures (px, py) in u.grid <==>
        InRect(px, py, 0, 0, w, h) && At(pixels, w, h, px, py) > 0
        && (py < 6 * t.band || (py < 6 * t.band + 6 && At(pixels, w, h, px, py) in done + {colour}))
      ensures (px, py) in u.grid ==> u.grid[(px, py)] == At(pixels, w, h, px, py)
    {
      PaintAllPoint(t, chars, px, py);
      if 0 <= px < w && 6 * t.band <= py < 6 * t.band + 6 {
        var dy := py - 6 * t.band;
        assert Bit(Bits(chars[px]), dy)
            <==> InRect(px, 6 * t.band + dy, 0, 0, w, h) && At(pixels, w, h, px, 6 * t.band + dy) == colour;
      }
    }
  }

  /** Every visible pixel of the band has one of the colours. */
  ghost predicate CoversBand(colours: set<nat>, pixels: seq<int>, w: int, h: int, band: int) {
    && |pixels| == w * h
    && forall px, py :: InRect(px, py, 0, 0, w, h) && 6 * band <= py < 6 * band + 6 && At(pixels, w, h, px, py) > 0
                        ==> At(pixels, w, h, px, py) in colours
  }

  lemma BandDone(grid: map<(int, int), nat>, pixels: seq<int>, w: int, h: int, band: int, colours: set<nat>)
    requires Shown(grid, pixels, w, h, band, colours) && CoversBand(colours, pixels, w, h, band)
    ensures Shown(grid, pixels, w, h, band + 1, {})
  {
    hide At;
  }

  lemma NothingShown(pixels: seq<int>, w: int, h: int)
    requires |pixels| == w * h
    ensures Shown(map[], pixels, w, h, 0, {})
  {
    hide At;
  }

  /** The grid is exactly the visible pixels, each in its own colour. */
  ghost predicate Complete(grid: map<(int, int), nat>, pixels: seq<int>, w: int, h: int) {
    && |pixels| == w * h
    && forall px, py {:trigger (px, py) in grid} ::
         ((px, py) in grid <==> InRect(px, py, 0, 0, w, h) && At(pixels, w, h, px, py) > 0)
         && ((px, py) in grid ==> grid[(px, py)] == At(pixels, w, h, px, py))
  }

  lemma AllDone(grid: map<(int, int), nat>, pixels: seq<int>, w: int, h: int, band: int)
    requires Shown(grid, pixels, w, h, band, {}) && 6 * band >= h
    ensures Complete(grid, pixels, w, h)
  {
    hide At;
  }

  // ----- colours

  /** Rounds a channel to the nearest of six levels. */
  function QuantizeChannel(v: Byte): int {
    (2 * v + 51) / 102 * 51
  }

  function QuantizeRgb(r: Byte, g: Byte, b: Byte): Rgb {
    (QuantizeChannel(r), QuantizeChannel(g), QuantizeChannel(b))
  }

  function ClampPercent(v: int): (p: nat)
    ensures p <= 100
  {
    var rounded := (200 * v + 255) / 510;
    if rounded < 0 then 0 else if rounded > 100 then 100 else rounded
  }

  function Percent(c: Rgb): (nat, nat, nat) {
    (ClampPercent(c.0), ClampPercent(c.1), ClampPercent(c.2))
  }

  predicate Level(v: int) {
    v == 0 || v == 51 || v == 102 || v == 153 || v == 204 || v == 255
  }

  predicate Levels(c: Rgb) {
    Level(c.0) && Level(c.1) && Level(c.2)
  }

  /** Quantizing gives the nearest level. */
  lemma QuantizeNearest(v: Byte)
    ensures Level(QuantizeChannel(v))
    ensures -51 <= 2 * (v - QuantizeChannel(v)) <= 51
  {
  }

  /** Distinct levels stay distinct on the stream's percentage scale. */
  lemma PercentInjective(a: Rgb, b: Rgb)
    requires Levels(a) && Levels(b) && Percent(a) == Percent(b)
    ensures a == b
  {
    LevelPercent(a.0);
    LevelPercent(a.1);
    LevelPercent(a.2);
    LevelPercent(b.0);
    LevelPercent(b.1);
    LevelPercent(b.2);
    hide ClampPercent;
  }

  lemma LevelPercent(v: int)
    requires Level(v)
    ensures v == 51 * (ClampPercent(v) / 20)
  {
  }

  function Code(c: Rgb): int {
    c.0 / 51 * 36 + c.1 / 51 * 6 + c.2 / 51
  }

  lemma LevelDigit(v: int)
    requires Level(v)
    ensures v == 51 * (v / 51) && 0 <= v / 51 < 6
  {
  }

  lemma CodeInjective(a: Rgb, b: Rgb)
    requires Levels(a) && Levels(b)
    ensures 0 <= Code(a) < 216 && (Code(a) == Code(b) ==> a == b)
  {
    LevelDigit(a.0);
    LevelDigit(a.1);
    LevelDigit(a.2);
    LevelDigit(b.0);
    LevelDigit(b.1);
    LevelDigit(b.2);
    hide Level;
    if Code(a) == Code(b) {
      SameDigits(a.0 / 51, a.1 / 51, a.2 / 51, b.0 / 51, b.1 / 51, b.2 / 51);
    }
  }

  lemma SameDigits(a: int, b: int, c: int, d: int, e: int, f: int)
    requires 0 <= a < 6 && 0 <= b < 6 && 0 <= c < 6 && 0 <= d < 6 && 0 <= e < 6 && 0 <= f < 6
    requires a * 36 + b * 6 + c == d * 36 + e * 6 + f
    ensures a == d && b == e && c == f
  {
  }

  lemma {:induction false} Pigeonhole(s: seq<int>, n: nat)
    requires forall i :: 0 <= i < |s| ==> 0 <= s[i] < n
    requires forall i, j :: 0 <= i < j < |s| ==> s[i] != s[j]
    ensures |s| <= n
    decreases n
  {
    assert |s| > 0 ==> 0 <= s[0] < n;
    if n > 0 && n - 1 in s {
      var i :| 0 <= i < |s| && s[i] == n - 1;
      var r := s[..i] + s[i + 1..];
      Pigeonhole(r, n - 1);
    } else if n > 0 {
      Pigeonhole(s, n - 1);
    }
  }

  /** There are at most 216 palette entries. */
  lemma PaletteIsSmall(colors: seq<Rgb>)
    requires Distinct(colors) && forall i :: 0 <= i < |colors| ==> Levels(colors[i])
    ensures |colors| <= 216
  {
    hide Code, Levels;
    var codes := seq(|colors|, i requires 0 <= i < |colors| => Code(colors[i]));
    forall i, j | 0 <= i < j < |codes|
      ensures codes[i] != codes[j]
    {
      CodeInjective(colors[i], colors[j]);
    }
    forall i | 0 <= i < |codes|
      ensures 0 <= codes[i] < 216
    {
      CodeInjective(colors[i], colors[i]);
    }
    Pigeonhole(codes, 216);
  }

  // ----- palette building

  function Alpha(rgba: seq<Byte>, p: nat): Byte
    requires 4 * p + 4 <= |rgba|
  {
    rgba[4 * p + 3]
  }

  function ColourOf(rgba: seq<Byte>, p: nat): Rgb
    requires 4 * p + 4 <= |rgba|
  {
    QuantizeRgb(rgba[4 * p], rgba[4 * p + 1], rgba[4 * p + 2])
  }

  /** A transparent pixel has no palette number; any other has that of its quantized colour. */
  predicate IndexedPixel(rgba: seq<Byte>, p: nat, index: int, colors: seq<Rgb>)
    requires 4 * p + 4 <= |rgba|
  {
    if Alpha(rgba, p) < ALPHA_THRESHOLD then index == -1
    else 1 <= index <= |colors| && colors[index - 1] == ColourOf(rgba, p)
  }

  /** Numbers and colours are in bijection: number i + 1 is the i-th colour. */
  ghost predicate PaletteOf(colors: seq<Rgb>, colorIndexes: map<Rgb, int>) {
    && (forall c :: c in colorIndexes <==> c in colors)
    && (forall i :: 0 <= i < |colors| ==> colorIndexes[colors[i]] == i + 1)
    && (forall i :: 0 <= i < |colors| ==> Levels(colors[i]))
  }

  lemma PaletteDistinct(colors: seq<Rgb>, colorIndexes: map<Rgb, int>)
    requires PaletteOf(colors, colorIndexes)
    ensures Distinct(colors)
  {
    forall i, j | 0 <= i < j < |colors|
      ensures colors[i] != colors[j]
    {
      assert colorIndexes[colors[i]] == i + 1 && colorIndexes[colors[j]] == j + 1;
    }
  }

  lemma PaletteGrows(colors: seq<Rgb>, colorIndexes: map<Rgb, int>, c: Rgb)
    requires PaletteOf(colors, colorIndexes) && c !in colorIndexes && Levels(c)
    ensures PaletteOf(colors + [c], colorIndexes[c := |colors| + 1])
  {
    hide Levels;
  }

  lemma PaletteHas(colors: seq<Rgb>, colorIndexes: map<Rgb, int>, c: Rgb)
    requires PaletteOf(colors, colorIndexes) && c in colorIndexes
    ensures 1 <= colorIndexes[c] <= |colors| && colors[colorIndexes[c] - 1] == c
  {
    hide Levels;
    var i :| 0 <= i < |colors| && colors[i] == c;
  }

  lemma ColourHasLevels(rgba: seq<Byte>, p: nat)
    requires 4 * p + 4 <= |rgba|
    ensures Levels(ColourOf(rgba, p))
  {
    QuantizeNearest(rgba[4 * p]);
    QuantizeNearest(rgba[4 * p + 1]);
    QuantizeNearest(rgba[4 * p + 2]);
  }

  method IndexPixels(rgba: seq<Byte>, width: nat, height: nat) returns (pixels: array<int>, colors: seq<Rgb>)
    requires |rgba| == 4 * (width * height)
    ensures fresh(pixels) && pixels.Length == width * height
    ensures forall p :: 0 <= p < pixels.Length ==> IndexedPixel(rgba, p, pixels[p], colors)
    ensures Distinct(colors) && |colors| <= 216 && forall i :: 0 <= i < |colors| ==> Levels(colors[i])
  {
    hide ColourOf, PaletteOf, Levels, Index;
    pixels := new int[width * height](_ => -1);
    var colorIndexes: map<Rgb, int> := map[];
    colors := [];
    EmptyPalette();
    IndexEnds(width, height);
    ghost var n := 0;
    for y := 0 to height
      invariant n == Index(width, 0, y) && n <= pixels.Length && PaletteOf(colors, colorIndexes)
      invariant forall p :: 0 <= p < n ==> IndexedPixel(rgba, p, pixels[p], colors)
      invariant forall p :: n <= p < pixels.Length ==> pixels[p] == -1
    {
      for x := 0 to width
        invariant n == Index(width, x, y) && n <= pixels.Length && PaletteOf(colors, colorIndexes)
        invariant forall p :: 0 <= p < n ==> IndexedPixel(rgba, p, pixels[p], colors)
        invariant forall p :: n <= p < pixels.Length ==> pixels[p] == -1
      {
        IndexBounds(width, height, x, y);
        var at := Index(width, x, y);
        if Alpha(rgba, at) >= ALPHA_THRESHOLD {
          var key := ColourOf(rgba, at);
          ColourHasLevels(rgba, at);
          if key !in colorIndexes {
            PaletteGrows(colors, colorIndexes, key);
            colorIndexes := colorIndexes[key := |colors| + 1];
            colors := colors + [key];
          }
          PaletteHas(colors, colorIndexes, key);
          pixels[at] := colorIndexes[key];
        }
        IndexNext(width, x, y);
        n := n + 1;
      }
      IndexNext(width, width, y);
    }
    PaletteDistinct(colors, colorIndexes);
    PaletteLevels(colors, colorIndexes);
    PaletteIsSmall(colors);
  }

  lemma EmptyPalette()
    ensures PaletteOf([], map[])
  {
  }

  lemma PaletteLevels(colors: seq<Rgb>, colorIndexes: map<Rgb, int>)
    requires PaletteOf(colors, colorIndexes)
    ensures forall i :: 0 <= i < |colors| ==> Levels(colors[i])
  {
  }

  // ----- emission

  /** The registers after the definitions. */
  ghost function Defined(t: Term, colors: seq<Rgb>): Term {
    if colors == [] then t
    else
      var n := |colors|;
      var before := Defined(t, colors[..n - 1]);
      before.(colour := n, palette := before.palette[n := Percent(colors[n - 1])])
  }

  /** The register holds the colour. */
  predicate Registered(palette: map<nat, Rgb>, n: nat, c: Rgb) {
    n in palette && palette[n] == Percent(c)
  }

  lemma {:induction false} DefinedIs(t: Term, colors: seq<Rgb>)
    ensures var u := Defined(t, colors);
      && u.x == t.x && u.band == t.band && u.grid == t.grid && u.raster == t.raster
      && (forall i :: 0 <= i < |colors| ==> Registered(u.palette, i + 1, colors[i]))
      && (forall i :: i in u.palette ==> 1 <= i <= |colors| || i in t.palette)
  {
    hide Percent;
    if colors != [] {
      var n := |colors| - 1;
      DefinedIs(t, colors[..n]);
      var u := Defined(t, colors);
      forall i | 0 <= i < |colors|
        ensures Registered(u.palette, i + 1, colors[i])
      {
        if i < n {
          assert colors[..n][i] == colors[i];
        } else {
          assert i + 1 == |colors|;
        }
      }
    }
  }

  method EmitDefinitions(colors: seq<Rgb>, ghost t: Term) returns (out: string)
    ensures Draws(out, t, Defined(t, colors)) && Clean(out)
  {
    hide Draws, Percent, Dec, Parameters;
    out := "";
    DrawsNothing(t);
    for i := 0 to |colors|
      invariant Draws(out, t, Defined(t, colors[..i])) && Clean(out)
    {
      var p := Percent(colors[i]);
      var part := "#" + Dec(i + 1) + (";2" + Parameters(p.0, p.1, p.2));
      ghost var before := Defined(t, colors[..i]);
      DrawsDefinition(i + 1, p, before);
      assert colors[..i + 1][..i] == colors[..i];
      DrawsThen(out, part, t, before, Defined(t, colors[..i + 1]));
      CleanConcat(out, part);
      out := out + part;
    }
    assert colors[..|colors|] == colors;
  }

  lemma Powers()
    ensures Pow2(0) == 1 && Pow2(1) == 2 && Pow2(2) == 4 && Pow2(3) == 8 && Pow2(4) == 16 && Pow2(5) == 32
    ensures Pow2(6) == 64
  {
    assert Pow2(3) == 8;
  }

  /** The next higher bit is not yet set, so the or adds it. */
  lemma NextBit(bits: nat, dy: nat)
    requires dy < 6 && bits < Pow2(dy)
    ensures Or(bits, Shl(1, dy)) == bits + Pow2(dy)
  {
    var p := Pow2(dy);
    SmallPower(dy);
    hide Or, Pow2;
    ModUnique(p, 0x1_0000_0000, 0, p);
    assert 1 * p == p;
    assert Shl(1, dy) == p;
    ModUnique(p, p, 1, 0);
    OrDisjoint(p, bits, dy);
  }

  lemma SmallPower(dy: nat)
    requires dy < 6
    ensures Pow2(dy) < 64
  {
    PowMono(dy + 1, 6);
    Powers();
  }

  /** Setting the next higher bit leaves the lower ones. */
  lemma SetBit(bits: nat, dy: nat, d: nat)
    requires dy < 6 && d < 6 && bits < Pow2(dy)
    ensures bits + Pow2(dy) < Pow2(dy + 1)
    ensures Bit(bits + Pow2(dy), d) <==> d == dy || Bit(bits, d)
    ensures d >= dy ==> !Bit(bits, d)
  {
    var p := Pow2(dy);
    if d < dy {
      PowSplit(d, dy - d);
      var q, m := Pow2(d), Pow2(dy - d - 1);
      assert Pow2(dy - d) == 2 * m;
      hide Pow2;
      LowerBit(bits, q, m);
    } else if d == dy {
      ModUnique(bits, p, 0, bits);
      ModUnique(bits + p, p, 1, bits);
    } else {
      PowMono(dy + 1, d);
      assert p <= Pow2(dy + 1);
      hide Pow2;
      ModUnique(bits, Pow2(d), 0, bits);
      ModUnique(bits + p, Pow2(d), 0, bits + p);
    }
  }

  /** Adding a multiple of q adds to the quotient. */
  lemma DivAdds(bits: nat, q: int, e: int)
    requires q > 0
    ensures (bits + q * e) / q == bits / q + e
  {
    var k := bits / q;
    DivMod(bits, q);
    assert q * (k + e) == q * k + q * e;
    ModUnique(bits + q * e, q, k + e, bits % q);
  }

  /** Adding an even multiple of q leaves the bit of weight q. */
  lemma LowerBit(bits: nat, q: int, m: int)
    requires q > 0 && m >= 0
    ensures (bits + q * (2 * m)) / q % 2 == bits / q % 2
  {
    var e := 2 * m;
    DivAdds(bits, q, e);
    ParityKept(bits / q, m);
  }

  lemma ParityKept(k: int, m: int)
    ensures (k + 2 * m) % 2 == k % 2
  {
  }

  /** Whether the pixel of a column in a row of the band has the colour. */
  predicate Wanted(pixels: seq<int>, w: nat, h: nat, band: nat, x: nat, color: int, dy: nat)
    requires |pixels| == w * h
  {
    InRect(x, 6 * band + dy, 0, 0, w, h) && At(pixels, w, h, x, 6 * band + dy) == color
  }

  /** The six pixels of a column that have the colour. */
  method ColumnBits(pixels: seq<int>, width: nat, height: nat, band: nat, x: nat, color: int) returns (bits: nat)
    requires |pixels| == width * height && x < width
    ensures bits < 64
    ensures forall dy :: 0 <= dy < 6 ==> (Bit(bits, dy) <==> Wanted(pixels, width, height, band, x, color, dy))
  {
    hide At, Bit, Pow2, Or, Shl;
    bits := 0;
    Powers();
    assert forall d :: 0 <= d < 6 ==> !Bit(0, d) by {
      forall d | 0 <= d < 6
        ensures !Bit(0, d)
      {
        SetBit(0, 0, d);
      }
    }
    var dy := 0;
    while dy < 6 && 6 * band + dy < height
      invariant 0 <= dy <= 6 && bits < Pow2(dy)
      invariant forall d :: 0 <= d < 6 ==>
          (Bit(bits, d) <==> d < dy && Wanted(pixels, width, height, band, x, color, d))
    {
      ghost var was := bits;
      if At(pixels, width, height, x, 6 * band + dy) == color {
        NextBit(bits, dy);
        bits := Or(bits, Shl(1, dy));
      }
      forall d | 0 <= d < 6
        ensures Bit(bits, d) <==> d < dy + 1 && Wanted(pixels, width, height, band, x, color, d)
      {
        SetBit(was, dy, d);
      }
      SetBit(was, dy, dy);
      PowMono(dy, dy + 1);
      dy := dy + 1;
    }
    PowMono(dy, 6);
  }

  method BitPlane(pixels: seq<int>, width: nat, height: nat, band: nat, color: int) returns (chars: seq<char>)
    requires |pixels| == width * height
    ensures Plane(chars, pixels, width, height, band, color) && |chars| == width
  {
    hide At, Bit;
    chars := [];
    for x := 0 to width
      invariant |chars| == x && Plane(chars, pixels, width, height, band, color)
    {
      var bits := ColumnBits(pixels, width, height, band, x, color);
      var c := (63 + bits) as char;
      assert Data(c) && Bits(c) == bits;
      chars := chars + [c];
    }
  }

  /** The colours of the visible pixels in the first dx columns of the band's first dy rows. */
  ghost predicate Seen(colours: set<nat>, pixels: seq<int>, w: int, h: int, band: int, dx: int, dy: int)
    requires |pixels| == w * h && dx <= w
  {
    forall px, py :: 0 <= px < dx && 0 <= py < h && 6 * band <= py < 6 * band + dy && At(pixels, w, h, px, py) > 0
                     ==> At(pixels, w, h, px, py) in colours
  }

  /** The palette numbers that occur in a band. */
  method BandColours(pixels: seq<int>, width: nat, height: nat, band: nat) returns (colours: set<nat>)
    requires |pixels| == width * height
    ensures CoversBand(colours, pixels, width, height, band) && forall c :: c in colours ==> c > 0
  {
    hide At;
    colours := {};
    var dy := 0;
    while dy < 6 && 6 * band + dy < height
      invariant 0 <= dy <= 6 && forall c :: c in colours ==> c > 0
      invariant Seen(colours, pixels, width, height, band, width, dy)
    {
      for x := 0 to width
        invariant forall c :: c in colours ==> c > 0
        invariant Seen(colours, pixels, width, height, band, width, dy)
        invariant Seen(colours, pixels, width, height, band, x, dy + 1)
      {
        var color := At(pixels, width, height, x, 6 * band + dy);
        if color > 0 {
          colours := colours + {color};
        }
      }
      dy := dy + 1;
    }
  }

  /** The members of a set in increasing order. */
  method Ascending(s: set<nat>) returns (q: seq<nat>)
    ensures forall c :: c in q <==> c in s
    ensures forall i, j :: 0 <= i < j < |q| ==> q[i] < q[j]
  {
    var le := (a: nat, b: nat) => a <= b;
    q := SortedKeys(s, le);
    forall i, j | 0 <= i < j < |q|
      ensures q[i] < q[j]
    {
      assert q[i] != q[j] && le(q[i], q[j]);
    }
  }

  /** One band: each of its colours in increasing order, returning to the first column between colours. */
  method EmitBand(pixels: seq<int>, width: nat, height: nat, band: nat, ghost t: Term)
    returns (out: string, ghost u: Term)
    requires |pixels| == width * height && t.x == 0 && t.band == band && Shown(t.grid, pixels, width, height, band, {})
    ensures Draws(out, t, u) && Clean(out)
    ensures u.band == band && u.palette == t.palette && u.raster == t.raster
    ensures Shown(u.grid, pixels, width, height, band + 1, {})
  {
    hide Draws, Shown, CoversBand, Plane, PaintAll;
    var bandColors := BandColours(pixels, width, height, band);
    var order := Ascending(bandColors);
    var wroteBandColor := false;
    out, u := "", t;
    DrawsNothing(t);
    ghost var done: set<nat> := {};
    for i := 0 to |order|
      invariant Draws(out, t, u) && Clean(out) && wroteBandColor == (i > 0) && (i == 0 ==> u.x == 0)
      invariant u.band == band && u.palette == t.palette && u.raster == t.raster
      invariant Shown(u.grid, pixels, width, height, band, done) && forall c :: c in done <==> c in order[..i]
    {
      var color := order[i];
      var chars := BitPlane(pixels, width, height, band, color);
      assert color in bandColors;
      if wroteBandColor {
        DrawsReturn(u);
        DrawsThen(out, "$", t, u, u.(x := 0));
        CleanConcat(out, "$");
        out, u := out + "$", u.(x := 0);
      }
      out, u := EmitColour(out, color, chars, t, u, pixels, width, height, done);
      done := done + {color};
      wroteBandColor := true;
    }
    assert order[..|order|] == order;
    assert forall c :: c in done <==> c in bandColors;
    assert done == bandColors;
    BandDone(u.grid, pixels, width, height, band, done);
  }

  method EmitColour(before: string, color: nat, chars: seq<char>, ghost t: Term, ghost u: Term, ghost pixels: seq<int>,
                    ghost w: int, ghost h: int, ghost done: set<nat>)
    returns (out: string, ghost v: Term)
    requires Draws(before, t, u) && Clean(before) && u.x == 0 && color > 0 && |chars| == w
    requires Plane(chars, pixels, w, h, u.band, color)
    requires Shown(u.grid, pixels, w, h, u.band, done)
    ensures Draws(out, t, v) && Clean(out)
    ensures v.band == u.band && v.palette == u.palette && v.raster == u.raster
    ensures Shown(v.grid, pixels, w, h, u.band, done + {color})
  {
    hide Draws, Shown, Dec, PaintAll;
    DrawsSelect(color, u);
    ghost var selected := u.(colour := color);
    var select := "#" + Dec(color);
    DrawsThen(before, select, t, u, selected);
    CleanConcat(before, select);
    var runs := SixelEncodeRuns(chars, selected);
    v := PaintAll(selected, chars);
    PaintAllPoint(selected, chars, 0, 0);
    ColourDone(selected, chars, pixels, w, h, color, done);
    DrawsThen(before + select, runs, t, selected, v);
    CleanConcat(before + select, runs);
    out := before + select + runs;
  }

  /** The registers are numbered from 1, at most 216 of them, and hold distinct colours. */
  ghost predicate SmallPalette(palette: map<nat, Rgb>) {
    && (forall i :: i in palette ==> 1 <= i <= 216)
    && forall i, j :: i in palette && j in palette && palette[i] == palette[j] ==> i == j
  }

  /** Exactly the visible pixels are drawn, and each shows its own quantized colour. */
  ghost predicate ShowsImage(grid: map<(int, int), nat>, palette: map<nat, Rgb>, rgba: seq<Byte>, w: nat, h: nat)
    requires |rgba| == 4 * (w * h)
  {
    && (forall px, py {:trigger (px, py) in grid} ::
          (px, py) in grid <==> InRect(px, py, 0, 0, w, h) && Visible(rgba, w, h, px, py))
    && forall px, py {:trigger (px, py) in grid} :: (px, py) in grid ==>
         grid[(px, py)] in palette && InRect(px, py, 0, 0, w, h)
             && palette[grid[(px, py)]] == Percent(Source(rgba, w, h, px, py))
  }

  /** The whole stream: a terminal that executes it shows the image. */
  method BuildSixelImageOutput(rgba: seq<Byte>, width: nat, height: nat) returns (out: string)
    requires |rgba| == 4 * (width * height)
    ensures Decode(out).Some? && Decode(out).value.raster == Some((width, height))
    ensures SmallPalette(Decode(out).value.palette)
    ensures ShowsImage(Decode(out).value.grid, Decode(out).value.palette, rgba, width, height)
  {
    hide Draws, Shown, Complete, Exec, Dec, Parameters, Defined;
    var raster, colors := IndexPixels(rgba, width, height);
    var pixels := raster[..];
    ghost var t0 := BLANK.(raster := Some((width, height)));
    var header := "\"1" + Parameters(1, width, height);
    HeaderDraws(width, height);
    var definitions := EmitDefinitions(colors, t0);
    ghost var t := Defined(t0, colors);
    DefinedIs(t0, colors);
    var body := header + definitions;
    DrawsThen(header, definitions, BLANK, t0, t);
    CleanConcat(header, definitions);
    NothingShown(pixels, width, height);
    ghost var palette := t.palette;
    var band := 0;
    while 6 * band < height
      invariant Draws(body, BLANK, t) && Clean(body) && t.palette == palette && t.raster == Some((width, height))
      invariant Shown(t.grid, pixels, width, height, band, {}) && (6 * band < height ==> t.x == 0 && t.band == band)
      decreases height - 6 * band
    {
      var part;
      ghost var u;
      part, u := EmitBand(pixels, width, height, band, t);
      DrawsThen(body, part, BLANK, t, u);
      CleanConcat(body, part);
      body, t := body + part, u;
      if 6 * band + 6 < height {
        DrawsNextBand(t);
        DrawsThen(body, "-", BLANK, t, t.(x := 0, band := t.band + 1));
        CleanConcat(body, "-");
        body, t := body + "-", t.(x := 0, band := t.band + 1);
      }
      band := band + 1;
    }
    AllDone(t.grid, pixels, width, height, band);
    StreamEnds(body, t);
    out := [ESC, 'P', 'q'] + body + [ESC, '\\', '\n'];
    GridMatches(t.grid, t.palette, pixels, rgba, width, height, colors);
    PaletteBijective(t.palette, colors);
  }

  lemma HeaderDraws(width: nat, height: nat)
    ensures Draws("\"1" + Parameters(1, width, height), BLANK, BLANK.(raster := Some((width, height))))
    ensures Clean("\"1" + Parameters(1, width, height))
  {
    hide Draws, Parameters;
    DrawsRaster(1, 1, width, height, BLANK);
    assert "\"" + Dec(1) == "\"1";
  }

  lemma StreamEnds(body: string, t: Term)
    requires Draws(body, BLANK, t)
    ensures Decode([ESC, 'P', 'q'] + body + [ESC, '\\', '\n']) == Some(t)
  {
    var s := [ESC, 'P', 'q'] + body + [ESC, '\\', '\n'];
    assert s[3..] == body + [ESC, '\\', '\n'];
    assert s[..3] == [ESC, 'P', 'q'];
    assert Clean([ESC, '\\', '\n']);
  }

  predicate Visible(rgba: seq<Byte>, w: int, h: int, px: int, py: int)
    requires |rgba| == 4 * (w * h) && InRect(px, py, 0, 0, w, h)
  {
    IndexBounds(w, h, px, py);
    Alpha(rgba, Index(w, px, py)) >= ALPHA_THRESHOLD
  }

  function Source(rgba: seq<Byte>, w: int, h: int, px: int, py: int): Rgb
    requires |rgba| == 4 * (w * h) && InRect(px, py, 0, 0, w, h)
  {
    IndexBounds(w, h, px, py);
    ColourOf(rgba, Index(w, px, py))
  }

  /** The registers hold the palette, so every drawn pixel shows its own quantized colour. */
  lemma GridMatches(grid: map<(int, int), nat>, palette: map<nat, Rgb>, pixels: seq<int>, rgba: seq<Byte>, w: nat,
                    h: nat, colors: seq<Rgb>)
    requires |rgba| == 4 * (w * h) && Complete(grid, pixels, w, h)
    requires forall p :: 0 <= p < |pixels| ==> IndexedPixel(rgba, p, pixels[p], colors)
    requires forall i :: 0 <= i < |colors| ==> Registered(palette, i + 1, colors[i])
    ensures ShowsImage(grid, palette, rgba, w, h)
  {
    hide Percent, ColourOf;
    forall px, py | InRect(px, py, 0, 0, w, h)
      ensures At(pixels, w, h, px, py) > 0 <==> Visible(rgba, w, h, px, py)
      ensures At(pixels, w, h, px, py) > 0
          ==> 1 <= At(pixels, w, h, px, py) <= |colors|
              && colors[At(pixels, w, h, px, py) - 1] == Source(rgba, w, h, px, py)
    {
      IndexBounds(w, h, px, py);
      assert IndexedPixel(rgba, Index(w, px, py), pixels[Index(w, px, py)], colors);
    }
  }

  lemma PaletteBijective(palette: map<nat, Rgb>, colors: seq<Rgb>)
    requires Distinct(colors) && |colors| <= 216 && forall i :: 0 <= i < |colors| ==> Levels(colors[i])
    requires forall i :: 0 <= i < |colors| ==> Registered(palette, i + 1, colors[i])
    requires forall i :: i in palette ==> 1 <= i <= |colors|
    ensures SmallPalette(palette)
  {
    hide Percent, Levels;
    forall i, j | i in palette && j in palette && palette[i] == palette[j]
      ensures i == j
    {
      assert i != j ==> colors[i - 1] != colors[j - 1];
      PercentInjective(colors[i - 1], colors[j - 1]);
    }
  }
}
