/**
 Hextile (section 7.7.4 of RFC 6143): 16x16 tiles in row-major order. A tile is raw, or a
 background with overpainted subrectangles; background and foreground carry over between tiles.
 */
module Hextile {
  import opened Machine
  import opened PixelFormats
  import opened Canvas
  import opened Tiling

  const SIZE: int := 16
  const BLACK: Rgba := 0xff00_0000
  const WHITE: Rgba := 0xffff_ffff

  // The bits of a tile's subencoding mask.
  predicate RawBit(mask: Byte) { mask % 2 == 1 }
  predicate BackgroundBit(mask: Byte) { mask / 2 % 2 == 1 }
  predicate ForegroundBit(mask: Byte) { mask / 4 % 2 == 1 }
  predicate SubrectsBit(mask: Byte) { mask / 8 % 2 == 1 }
  predicate ColouredBit(mask: Byte) { mask / 16 % 2 == 1 }

  datatype Subrect = Subrect(colour: Option<Pixel>, xy: Byte, wh: Byte) {
    function X(): int { xy / 16 }
    function Y(): int { xy % 16 }
    function W(): int { wh / 16 + 1 }
    function H(): int { wh % 16 + 1 }
  }

  datatype Tile =
    | Raw(mask: Byte, data: seq<Byte>)
    | Painted(mask: Byte, background: Option<Pixel>, foreground: Option<Pixel>, subrects: seq<Subrect>)

  // ----- parsing

  /** A pixel that is on the wire only when its mask bit is set. */
  function ParsePixel(src: seq<Byte>, c: nat, bpp: nat, present: bool): Option<(Option<Pixel>, nat)> {
    if !present then Some((None, c))
    else if |src| < c + bpp then None
    else Some((Some(src[c..c + bpp]), c + bpp))
  }

  function ParseSubrect(src: seq<Byte>, c: nat, bpp: nat, coloured: bool, b: Box): Option<(Subrect, nat)> {
    match ParsePixel(src, c, bpp, coloured)
    case None => None
    case Some((p, c)) =>
      if |src| < c + 2 then None
      else
        var s := Subrect(p, src[c], src[c + 1]);
        if LocalRectInside(b.w, b.h, s.X(), s.Y(), s.W(), s.H()) then Some((s, c + 2)) else None
  }

  function ParseSubrects(src: seq<Byte>, c: nat, n: nat, bpp: nat, coloured: bool, b: Box): Option<(seq<Subrect>, nat)>
    decreases n
  {
    if n == 0 then Some(([], c))
    else
      match ParseSubrect(src, c, bpp, coloured, b)
      case None => None
      case Some((s, c)) =>
        match ParseSubrects(src, c, n - 1, bpp, coloured, b)
        case None => None
        case Some((l, c)) => Some(([s] + l, c))
  }

  function ParseCounted(src: seq<Byte>, c: nat, bpp: nat, mask: Byte, b: Box): Option<(seq<Subrect>, nat)> {
    if !SubrectsBit(mask) then Some(([], c))
    else if |src| < c + 1 then None
    else ParseSubrects(src, c + 1, src[c], bpp, ColouredBit(mask), b)
  }

  function ParsePainted(src: seq<Byte>, c: nat, bpp: nat, mask: Byte, b: Box): Option<(Tile, nat)> {
    match ParsePixel(src, c, bpp, BackgroundBit(mask))
    case None => None
    case Some((bg, c)) =>
      match ParsePixel(src, c, bpp, ForegroundBit(mask))
      case None => None
      case Some((fg, c)) =>
        match ParseCounted(src, c, bpp, mask, b)
        case None => None
        case Some((l, c)) => Some((Painted(mask, bg, fg, l), c))
  }

  function RawLength(b: Box, bpp: nat): int {
    b.w * b.h * bpp
  }

  function ParseTile(src: seq<Byte>, c: nat, bpp: nat, b: Box): Option<(Tile, nat)>
    requires 0 <= RawLength(b, bpp)
  {
    if |src| < c + 1 then None
    else if RawBit(src[c]) then
      var end := c + 1 + RawLength(b, bpp);
      if |src| < end then None else Some((Raw(src[c], src[c + 1..end]), end))
    else ParsePainted(src, c + 1, bpp, src[c], b)
  }

  ghost predicate Sensible(boxes: seq<Box>) {
    forall b :: b in boxes ==> 0 < b.w <= SIZE && 0 < b.h <= SIZE
  }

  lemma RawLengthFits(b: Box, bpp: nat)
    requires 0 < b.w <= 64 && 0 < b.h <= 64
    ensures 0 <= b.w * b.h <= 4096 && 0 <= RawLength(b, bpp) <= 4096 * bpp
  {
    MulMono(b.w, b.h, 64, 64);
    MulMono(b.w * b.h, bpp, 4096, bpp);
  }

  /** The tiles of the listed boxes, which must end exactly at the end of the payload. */
  function ParseTiles(src: seq<Byte>, c: nat, bpp: nat, boxes: seq<Box>): Option<seq<Tile>>
    requires Sensible(boxes)
    decreases |boxes|
  {
    if boxes == [] then (if c == |src| then Some([]) else None)
    else
      RawLengthFits(boxes[0], bpp);
      match ParseTile(src, c, bpp, boxes[0])
      case None => None
      case Some((t, c)) =>
        match ParseTiles(src, c, bpp, boxes[1..])
        case None => None
        case Some(rest) => Some([t] + rest)
  }

  ghost function Boxes(w: nat, h: nat): (bs: seq<Box>)
    ensures Sensible(bs)
  {
    BoxesInside(w, h, SIZE, 0, 0);
    BoxesFrom(w, h, SIZE, 0, 0)
  }

  ghost function Parse(src: seq<Byte>, bpp: nat, w: nat, h: nat): Option<seq<Tile>> {
    ParseTiles(src, 0, bpp, Boxes(w, h))
  }

  // ----- the wire form

  predicate WellFormedPixel(p: Option<Pixel>, bpp: nat, present: bool) {
    p.Some? == present && (p.Some? ==> |p.value| == bpp)
  }

  predicate WellFormedSubrect(s: Subrect, bpp: nat, coloured: bool, b: Box) {
    WellFormedPixel(s.colour, bpp, coloured) && LocalRectInside(b.w, b.h, s.X(), s.Y(), s.W(), s.H())
  }

  predicate WellFormed(t: Tile, bpp: nat, b: Box) {
    match t
    case Raw(mask, data) => RawBit(mask) && |data| == RawLength(b, bpp)
    case Painted(mask, bg, fg, l) =>
      && !RawBit(mask) && WellFormedPixel(bg, bpp, BackgroundBit(mask)) && WellFormedPixel(fg, bpp, ForegroundBit(mask))
      && (!SubrectsBit(mask) ==> l == []) && |l| < 0x100
      && forall s :: s in l ==> WellFormedSubrect(s, bpp, ColouredBit(mask), b)
  }

  predicate AllWellFormed(tiles: seq<Tile>, bpp: nat, boxes: seq<Box>) {
    |tiles| == |boxes| && forall k :: 0 <= k < |tiles| ==> WellFormed(tiles[k], bpp, boxes[k])
  }

  function EncodePixel(p: Option<Pixel>): seq<Byte> {
    if p.Some? then p.value else []
  }

  function EncodeSubrect(s: Subrect): seq<Byte> {
    EncodePixel(s.colour) + [s.xy, s.wh]
  }

  function EncodeSubrects(l: seq<Subrect>): seq<Byte> {
    if l == [] then [] else EncodeSubrect(l[0]) + EncodeSubrects(l[1..])
  }

  function EncodeCounted(mask: Byte, l: seq<Subrect>): seq<Byte>
  {
    if SubrectsBit(mask) then [|l| % 0x100] + EncodeSubrects(l) else []
  }

  function EncodeTile(t: Tile): seq<Byte>
  {
    match t
    case Raw(mask, data) => [mask] + data
    case Painted(mask, bg, fg, l) => [mask] + (EncodePixel(bg) + (EncodePixel(fg) + EncodeCounted(mask, l)))
  }

  function Encode(tiles: seq<Tile>): seq<Byte>
  {
    if tiles == [] then [] else EncodeTile(tiles[0]) + Encode(tiles[1..])
  }

  lemma PixelParsed(src: seq<Byte>, c: nat, bpp: nat, present: bool, p: Option<Pixel>, end: nat)
    ensures ParsePixel(src, c, bpp, present) == Some((p, end)) <==>
            WellFormedPixel(p, bpp, present) && end == c + |EncodePixel(p)| && (p.Some? ==> At(src, c, EncodePixel(p)))
  {
  }

  lemma SubrectParsed(src: seq<Byte>, c: nat, bpp: nat, coloured: bool, b: Box, s: Subrect, end: nat)
    requires c <= |src|
    ensures ParseSubrect(src, c, bpp, coloured, b) == Some((s, end)) <==>
            WellFormedSubrect(s, bpp, coloured, b) && end == c + |EncodeSubrect(s)| && At(src, c, EncodeSubrect(s))
  {
    hide LocalRectInside;
    var e := EncodePixel(s.colour);
    PixelParsed(src, c, bpp, coloured, s.colour, c + |e|);
    AtConcat(src, c, e, [s.xy, s.wh]);
  }

  lemma {:induction false} SubrectsParsed(src: seq<Byte>, c: nat, n: nat, bpp: nat, coloured: bool, b: Box,
                                          l: seq<Subrect>, end: nat)
    requires c <= |src|
    ensures ParseSubrects(src, c, n, bpp, coloured, b) == Some((l, end)) <==>
            |l| == n && (forall s :: s in l ==> WellFormedSubrect(s, bpp, coloured, b))
            && end == c + |EncodeSubrects(l)| && At(src, c, EncodeSubrects(l))
    decreases n
  {
    hide WellFormedSubrect, EncodeSubrect, ParseSubrect;
    if n > 0 && l != [] {
      var e := EncodeSubrect(l[0]);
      assert l == [l[0]] + l[1..];
      AtConcat(src, c, e, EncodeSubrects(l[1..]));
      SubrectParsed(src, c, bpp, coloured, b, l[0], c + |e|);
      if At(src, c, e) {
        SubrectsParsed(src, c + |e|, n - 1, bpp, coloured, b, l[1..], end);
      }
      if ParseSubrects(src, c, n, bpp, coloured, b) == Some((l, end)) {
        var r := ParseSubrect(src, c, bpp, coloured, b).value;
        SubrectParsed(src, c, bpp, coloured, b, r.0, r.1);
      }
    }
  }

  lemma CountedParsed(src: seq<Byte>, c: nat, bpp: nat, mask: Byte, b: Box, l: seq<Subrect>, end: nat)
    requires c <= |src|
    ensures ParseCounted(src, c, bpp, mask, b) == Some((l, end)) <==>
            (!SubrectsBit(mask) ==> l == []) && |l| < 0x100
            && (forall s :: s in l ==> WellFormedSubrect(s, bpp, ColouredBit(mask), b))
            && end == c + |EncodeCounted(mask, l)| && At(src, c, EncodeCounted(mask, l))
  {
    hide WellFormedSubrect, ParseSubrects, EncodeSubrects, ColouredBit, SubrectsBit;
    if SubrectsBit(mask) {
      var e := EncodeSubrects(l);
      AtConcat(src, c, [|l| % 0x100], e);
      assert At(src, c, [|l| % 0x100]) <==> c < |src| && src[c] == |l| % 0x100;
      if c < |src| {
        SubrectsParsed(src, c + 1, src[c], bpp, ColouredBit(mask), b, l, end);
      }
    }
  }

  lemma PaintedEncodes(src: seq<Byte>, c: nat, bpp: nat, mask: Byte, b: Box)
    requires c <= |src| && !RawBit(mask) && ParsePainted(src, c, bpp, mask, b).Some?
    ensures var (t, end) := ParsePainted(src, c, bpp, mask, b).value;
            && t.Painted? && t.mask == mask && WellFormed(t, bpp, b) && end + 1 == c + |EncodeTile(t)|
            && At(src, c, EncodeTile(t)[1..])
  {
    hide WellFormedSubrect, ParseCounted, EncodeCounted, ParsePixel, EncodePixel;
    hide BackgroundBit, ForegroundBit, SubrectsBit, ColouredBit, RawBit;
    var (bg, c1) := ParsePixel(src, c, bpp, BackgroundBit(mask)).value;
    PixelParsed(src, c, bpp, BackgroundBit(mask), bg, c1);
    var (fg, c2) := ParsePixel(src, c1, bpp, ForegroundBit(mask)).value;
    PixelParsed(src, c1, bpp, ForegroundBit(mask), fg, c2);
    NoPixelNoBytes(bg);
    NoPixelNoBytes(fg);
    var (l, end) := ParseCounted(src, c2, bpp, mask, b).value;
    CountedParsed(src, c2, bpp, mask, b, l, end);
    var rest := EncodeCounted(mask, l);
    AtConcat(src, c, EncodePixel(bg), EncodePixel(fg) + rest);
    AtConcat(src, c1, EncodePixel(fg), rest);
    assert EncodeTile(Painted(mask, bg, fg, l))[1..] == EncodePixel(bg) + (EncodePixel(fg) + rest);
  }

  lemma EncodedPaintedParses(src: seq<Byte>, c: nat, bpp: nat, b: Box, t: Tile)
    requires c <= |src| && t.Painted? && WellFormed(t, bpp, b) && At(src, c, EncodeTile(t)[1..])
    ensures ParsePainted(src, c, bpp, t.mask, b) == Some((t, c + |EncodeTile(t)| - 1))
  {
    hide WellFormedSubrect, ParseCounted, EncodeCounted, ParsePixel, EncodePixel;
    hide BackgroundBit, ForegroundBit, SubrectsBit, ColouredBit, RawBit;
    var bg, fg := EncodePixel(t.background), EncodePixel(t.foreground);
    var rest := EncodeCounted(t.mask, t.subrects);
    assert EncodeTile(t)[1..] == bg + (fg + rest);
    AtConcat(src, c, bg, fg + rest);
    AtConcat(src, c + |bg|, fg, rest);
    PixelParsed(src, c, bpp, BackgroundBit(t.mask), t.background, c + |bg|);
    PixelParsed(src, c + |bg|, bpp, ForegroundBit(t.mask), t.foreground, c + |bg| + |fg|);
    CountedParsed(src, c + |bg| + |fg|, bpp, t.mask, b, t.subrects, c + |bg| + |fg| + |rest|);
  }

  lemma NoPixelNoBytes(p: Option<Pixel>)
    ensures p == None ==> EncodePixel(p) == []
  {
  }

  lemma TileEncodes(src: seq<Byte>, c: nat, bpp: nat, b: Box)
    requires c <= |src| && 0 <= RawLength(b, bpp) && ParseTile(src, c, bpp, b).Some?
    ensures var (t, end) := ParseTile(src, c, bpp, b).value;
            WellFormed(t, bpp, b) && end == c + |EncodeTile(t)| && At(src, c, EncodeTile(t))
  {
    hide ParsePainted, RawBit;
    var (t, end) := ParseTile(src, c, bpp, b).value;
    if RawBit(src[c]) {
      AtConcat(src, c, [t.mask], t.data);
    } else {
      PaintedEncodes(src, c + 1, bpp, src[c], b);
      AtConcat(src, c, [t.mask], EncodeTile(t)[1..]);
      assert EncodeTile(t) == [t.mask] + EncodeTile(t)[1..];
    }
  }

  lemma EncodedTileParses(src: seq<Byte>, c: nat, bpp: nat, b: Box, t: Tile)
    requires c <= |src| && 0 <= RawLength(b, bpp) && WellFormed(t, bpp, b) && At(src, c, EncodeTile(t))
    ensures ParseTile(src, c, bpp, b) == Some((t, c + |EncodeTile(t)|))
  {
    hide ParsePainted, RawBit;
    if t.Raw? {
      AtConcat(src, c, [t.mask], t.data);
    } else {
      AtConcat(src, c, [t.mask], EncodeTile(t)[1..]);
      assert EncodeTile(t) == [t.mask] + EncodeTile(t)[1..];
      MaskRead(src, c, t.mask);
      hide At;
      EncodedPaintedParses(src, c + 1, bpp, b, t);
    }
  }

  lemma MaskRead(src: seq<Byte>, c: nat, mask: Byte)
    requires At(src, c, [mask])
    ensures c < |src| && src[c] == mask
  {
  }

  lemma {:induction false} TilesEncode(src: seq<Byte>, c: nat, bpp: nat, boxes: seq<Box>)
    requires Sensible(boxes) && c <= |src| && ParseTiles(src, c, bpp, boxes).Some?
    ensures var tiles := ParseTiles(src, c, bpp, boxes).value;
            AllWellFormed(tiles, bpp, boxes) && src[c..] == Encode(tiles)
    decreases |boxes|
  {
    hide ParseTile, EncodeTile, WellFormed;
    if boxes != [] {
      RawLengthFits(boxes[0], bpp);
      TileEncodes(src, c, bpp, boxes[0]);
      var (t, end) := ParseTile(src, c, bpp, boxes[0]).value;
      TilesEncode(src, end, bpp, boxes[1..]);
      var tiles := ParseTiles(src, c, bpp, boxes).value;
      assert tiles[1..] == ParseTiles(src, end, bpp, boxes[1..]).value;
      assert src[c..] == src[c..end] + src[end..];
      forall k | 0 <= k < |tiles|
        ensures WellFormed(tiles[k], bpp, boxes[k])
      {
        assert k > 0 ==> tiles[k] == tiles[1..][k - 1] && boxes[k] == boxes[1..][k - 1];
      }
    }
  }

  lemma {:induction false} EncodedTilesParse(src: seq<Byte>, c: nat, bpp: nat, boxes: seq<Box>, tiles: seq<Tile>)
    requires Sensible(boxes) && c <= |src| && AllWellFormed(tiles, bpp, boxes) && src[c..] == Encode(tiles)
    ensures ParseTiles(src, c, bpp, boxes) == Some(tiles)
    decreases |boxes|
  {
    hide ParseTile, EncodeTile, WellFormed;
    if boxes != [] {
      RawLengthFits(boxes[0], bpp);
      var e, rest := EncodeTile(tiles[0]), Encode(tiles[1..]);
      assert src[c..] == e + rest;
      assert src[c..c + |e|] == src[c..][..|e|] && src[c + |e|..] == src[c..][|e|..];
      EncodedTileParses(src, c, bpp, boxes[0], tiles[0]);
      EncodedTilesParse(src, c + |e|, bpp, boxes[1..], tiles[1..]);
      assert tiles == [tiles[0]] + tiles[1..];
    } else {
      assert |src[c..]| == |src| - c;
    }
  }

  /** Exactly the encodings of well-formed tile lists are accepted, each as the list it encodes. */
  lemma ParseIsInverse(src: seq<Byte>, bpp: nat, w: nat, h: nat, tiles: seq<Tile>)
    ensures Parse(src, bpp, w, h) == Some(tiles) <==>
            AllWellFormed(tiles, bpp, Boxes(w, h)) && src == Encode(tiles)
  {
    hide ParseTiles, Encode, Boxes;
    assert src[0..] == src;
    if Parse(src, bpp, w, h) == Some(tiles) {
      TilesEncode(src, 0, bpp, Boxes(w, h));
    }
    if AllWellFormed(tiles, bpp, Boxes(w, h)) && src == Encode(tiles) {
      EncodedTilesParse(src, 0, bpp, Boxes(w, h), tiles);
    }
  }

  // ----- what the tiles paint

  function SubrectColour(s: Subrect, foreground: Rgba, fmt: PixelFormat): Rgba
    requires fmt.Valid() && (s.colour.Some? ==> |s.colour.value| == fmt.Bpp())
  {
    if s.colour.Some? then Colour(s.colour.value, fmt) else foreground
  }

  /** The value in force after a tile that may set it; a raw tile sets nothing. */
  function Carry(p: Option<Pixel>, before: Rgba, fmt: PixelFormat): Rgba
    requires fmt.Valid() && (p.Some? ==> |p.value| == fmt.Bpp())
  {
    if p.Some? then Colour(p.value, fmt) else before
  }

  /** The background after the listed tiles: the last one any of them sets, or black. */
  function BackgroundAfter(tiles: seq<Tile>, fmt: PixelFormat): Rgba
    requires fmt.Valid()
    requires forall t :: t in tiles && t.Painted? && t.background.Some? ==> |t.background.value| == fmt.Bpp()
  {
    if tiles == [] then BLACK
    else
      var before := BackgroundAfter(tiles[..|tiles| - 1], fmt);
      match tiles[|tiles| - 1]
      case Raw(_, _) => before
      case Painted(_, bg, _, _) => Carry(bg, before, fmt)
  }

  /** The foreground after the listed tiles: the last one any of them sets, or white. */
  function ForegroundAfter(tiles: seq<Tile>, fmt: PixelFormat): Rgba
    requires fmt.Valid()
    requires forall t :: t in tiles && t.Painted? && t.foreground.Some? ==> |t.foreground.value| == fmt.Bpp()
  {
    if tiles == [] then WHITE
    else
      var before := ForegroundAfter(tiles[..|tiles| - 1], fmt);
      match tiles[|tiles| - 1]
      case Raw(_, _) => before
      case Painted(_, _, fg, _) => Carry(fg, before, fmt)
  }

  predicate Fits(t: Tile, b: Box, fmt: PixelFormat) {
    fmt.Valid() && 0 < b.w <= SIZE && 0 < b.h <= SIZE && WellFormed(t, fmt.Bpp(), b)
  }

  lemma WellFormedPixelsFit(l: seq<Subrect>, fmt: PixelFormat, coloured: bool, b: Box)
    requires fmt.Valid() && forall s :: s in l ==> WellFormedSubrect(s, fmt.Bpp(), coloured, b)
    ensures AllPixelsFit(l, fmt)
  {
  }

  function SubrectOp(s: Subrect, b: Box, x: int, y: int, foreground: Rgba, fmt: PixelFormat): Op
    requires fmt.Valid() && (s.colour.Some? ==> |s.colour.value| == fmt.Bpp())
  {
    Fill(x + b.x + s.X(), y + b.y + s.Y(), s.W(), s.H(), SubrectColour(s, foreground, fmt))
  }

  predicate AllPixelsFit(l: seq<Subrect>, fmt: PixelFormat) {
    fmt.Valid() && forall s :: s in l && s.colour.Some? ==> |s.colour.value| == fmt.Bpp()
  }

  function SubrectOps(l: seq<Subrect>, b: Box, x: int, y: int, foreground: Rgba, fmt: PixelFormat): (ops: seq<Op>)
    requires AllPixelsFit(l, fmt)
    ensures |ops| == |l|
  {
    seq(|l|, i requires 0 <= i < |l| => assert l[i] in l; SubrectOp(l[i], b, x, y, foreground, fmt))
  }

  lemma SubrectOpAt(l: seq<Subrect>, i: nat, b: Box, x: int, y: int, foreground: Rgba, fmt: PixelFormat)
    requires AllPixelsFit(l, fmt) && i < |l|
    ensures var s := l[i];
      && (s.colour.Some? ==> |s.colour.value| == fmt.Bpp())
      && SubrectOps(l, b, x, y, foreground, fmt)[i]
         == Fill(x + b.x + s.X(), y + b.y + s.Y(), s.W(), s.H(),
                 if s.colour.Some? then Colour(s.colour.value, fmt) else foreground)
  {
    assert l[i] in l;
  }

  /** One tile's drawing, with the background and foreground in force in it. */
  function TileOps(t: Tile, b: Box, x: int, y: int, bg: Rgba, fg: Rgba, fmt: PixelFormat): seq<Op>
    requires Fits(t, b, fmt)
  {
    match t
    case Raw(_, data) =>
      RawLengthFits(b, fmt.Bpp());
      [Blit(x + b.x, y + b.y, b.w, b.h, RawPixels(data, b.w * b.h, fmt))]
    case Painted(_, _, _, l) =>
      assert AllPixelsFit(l, fmt) by { WellFormedPixelsFit(l, fmt, ColouredBit(t.mask), b); }
      [Fill(x + b.x, y + b.y, b.w, b.h, bg)] + SubrectOps(l, b, x, y, fg, fmt)
  }

  ghost predicate AllFit(tiles: seq<Tile>, boxes: seq<Box>, fmt: PixelFormat) {
    fmt.Valid() && |tiles| == |boxes| && forall k :: 0 <= k < |tiles| ==> Fits(tiles[k], boxes[k], fmt)
  }

  lemma CarriedFit(tiles: seq<Tile>, boxes: seq<Box>, fmt: PixelFormat)
    requires AllFit(tiles, boxes, fmt)
    ensures forall t :: t in tiles && t.Painted? && t.background.Some? ==> |t.background.value| == fmt.Bpp()
    ensures forall t :: t in tiles && t.Painted? && t.foreground.Some? ==> |t.foreground.value| == fmt.Bpp()
  {
  }

  ghost function TileOpsAt(tiles: seq<Tile>, boxes: seq<Box>, k: nat, x: int, y: int, fmt: PixelFormat): seq<Op>
    requires AllFit(tiles, boxes, fmt) && k < |tiles|
  {
    CarriedFit(tiles, boxes, fmt);
    TileOps(tiles[k], boxes[k], x, y, BackgroundAfter(tiles[..k + 1], fmt), ForegroundAfter(tiles[..k + 1], fmt), fmt)
  }

  ghost function Groups(tiles: seq<Tile>, boxes: seq<Box>, x: int, y: int, fmt: PixelFormat): (g: seq<seq<Op>>)
    requires AllFit(tiles, boxes, fmt)
    ensures |g| == |tiles|
  {
    seq(|tiles|, k requires 0 <= k < |tiles| => TileOpsAt(tiles, boxes, k, x, y, fmt))
  }

  /** Painting tile k with the values carried so far is the k-th group of operations. */
  lemma TilesNext(tiles: seq<Tile>, boxes: seq<Box>, k: nat, x: int, y: int, fmt: PixelFormat)
    requires AllFit(tiles, boxes, fmt) && k < |tiles|
    ensures (CarriedFit(tiles, boxes, fmt);
      var g, t := Groups(tiles, boxes, x, y, fmt), tiles[k];
      var bg, fg := BackgroundAfter(tiles[..k], fmt), ForegroundAfter(tiles[..k], fmt);
      var bg', fg' := BackgroundAfter(tiles[..k + 1], fmt), ForegroundAfter(tiles[..k + 1], fmt);
      && bg' == (if t.Raw? then bg else Carry(t.background, bg, fmt))
      && fg' == (if t.Raw? then fg else Carry(t.foreground, fg, fmt))
      && g[k] == TileOps(t, boxes[k], x, y, bg', fg', fmt)
      && Flatten(g[..k + 1]) == Flatten(g[..k]) + g[k])
  {
    hide TileOps, Carry;
    CarriedFit(tiles, boxes, fmt);
    var g := Groups(tiles, boxes, x, y, fmt);
    assert tiles[..k + 1][..k] == tiles[..k] && g[..k + 1][..k] == g[..k];
    assert g[k] == TileOpsAt(tiles, boxes, k, x, y, fmt);
  }

  /**
   Lockstep: k tiles are done, the walk stands at (tileX, tileY), the cursor is where the parse of the
   remaining tiles starts, and the carried colours are those the finished tiles leave in force.
   */
  ghost predicate Reached(src: seq<Byte>, fmt: PixelFormat, w: nat, h: nat, k: nat, cursor: int, tileX: int,
                          tileY: int, bg: Rgba, fg: Rgba)
    requires fmt.Valid() && Parse(src, fmt.Bpp(), w, h).Some?
  {
    var tiles, all := Parse(src, fmt.Bpp(), w, h).value, Boxes(w, h);
    ParsedFit(src, fmt, w, h);
    CarriedFit(tiles, all, fmt);
    && 0 <= cursor <= |src| && k <= |all| && 0 <= tileX && 0 <= tileY
    && all[k..] == BoxesFrom(w, h, SIZE, tileX, tileY)
    && ParseTiles(src, cursor, fmt.Bpp(), all[k..]) == Some(tiles[k..])
    && bg == BackgroundAfter(tiles[..k], fmt) && fg == ForegroundAfter(tiles[..k], fmt)
  }

  ghost function Drawing(src: seq<Byte>, fmt: PixelFormat, x: int, y: int, w: nat, h: nat, k: nat): seq<Op>
    requires fmt.Valid() && Parse(src, fmt.Bpp(), w, h).Some?
  {
    var tiles := Parse(src, fmt.Bpp(), w, h).value;
    ParsedFit(src, fmt, w, h);
    var groups := Groups(tiles, Boxes(w, h), x, y, fmt);
    if k <= |groups| then Flatten(groups[..k]) else []
  }

  lemma ReachedStart(src: seq<Byte>, fmt: PixelFormat, x: int, y: int, w: nat, h: nat)
    requires fmt.Valid() && Parse(src, fmt.Bpp(), w, h).Some?
    ensures Reached(src, fmt, w, h, 0, 0, 0, 0, BLACK, WHITE) && Drawing(src, fmt, x, y, w, h, 0) == []
  {
    hide ParseTiles, Groups;
    var tiles, all := Parse(src, fmt.Bpp(), w, h).value, Boxes(w, h);
    ParsedFit(src, fmt, w, h);
    assert all[0..] == all && tiles[0..] == tiles;
  }

  lemma ReachedTile(src: seq<Byte>, fmt: PixelFormat, w: nat, h: nat, k: nat, cursor: int, tileX: int, tileY: int,
                    bg: Rgba, fg: Rgba)
    requires fmt.Valid() && Parse(src, fmt.Bpp(), w, h).Some?
    requires Reached(src, fmt, w, h, k, cursor, tileX, tileY, bg, fg)
    requires tileX < w && tileY < h
    ensures var tiles, all := Parse(src, fmt.Bpp(), w, h).value, Boxes(w, h);
      var b := Box(tileX, tileY, Min(SIZE, w - tileX), Min(SIZE, h - tileY));
      && k < |all| == |tiles| && all[k] == b && Fits(tiles[k], b, fmt) && 0 <= RawLength(b, fmt.Bpp())
      && var r := ParseTile(src, cursor, fmt.Bpp(), b);
      && r.Some? && r.value.0 == tiles[k]
      && (0 <= r.value.1 <= |src| ==>
          var t := tiles[k];
          Reached(src, fmt, w, h, k + 1, r.value.1, tileX + SIZE, tileY,
                  if t.Raw? then bg else Carry(t.background, bg, fmt),
                  if t.Raw? then fg else Carry(t.foreground, fg, fmt)))
  {
    hide ParseTiles, ParseTile, Groups, TileOps, Carry, Fits, RawLength;
    var tiles, all := Parse(src, fmt.Bpp(), w, h).value, Boxes(w, h);
    ParsedFit(src, fmt, w, h);
    assert all[k..][0] == all[k];
    TilesUnfold(src, cursor, fmt.Bpp(), all[k..]);
    assert all[k..][1..] == all[k + 1..] && tiles[k..][1..] == tiles[k + 1..] && tiles[k..][0] == tiles[k];
    TilesNext(tiles, all, k, 0, 0, fmt);
  }

  /** The k-th tile's operations are the ones painted with the carried colours. */
  lemma DrawingNext(src: seq<Byte>, fmt: PixelFormat, x: int, y: int, w: nat, h: nat, k: nat, cursor: int, tileX: int,
                    tileY: int, bg: Rgba, fg: Rgba)
    requires fmt.Valid() && Parse(src, fmt.Bpp(), w, h).Some?
    requires Reached(src, fmt, w, h, k, cursor, tileX, tileY, bg, fg)
    requires tileX < w && tileY < h
    ensures var tiles := Parse(src, fmt.Bpp(), w, h).value;
      && k < |tiles| == |Boxes(w, h)| && Fits(tiles[k], Boxes(w, h)[k], fmt)
      && var t := tiles[k];
      Drawing(src, fmt, x, y, w, h, k + 1) == Drawing(src, fmt, x, y, w, h, k)
        + TileOps(t, Boxes(w, h)[k], x, y, if t.Raw? then bg else Carry(t.background, bg, fmt),
                  if t.Raw? then fg else Carry(t.foreground, fg, fmt), fmt)
  {
    hide ParseTiles, ParseTile, Groups, TileOps, Carry, Fits, RawLength, Flatten;
    ReachedTile(src, fmt, w, h, k, cursor, tileX, tileY, bg, fg);
    ParsedFit(src, fmt, w, h);
    TilesNext(Parse(src, fmt.Bpp(), w, h).value, Boxes(w, h), k, x, y, fmt);
  }

  lemma ReachedRow(src: seq<Byte>, fmt: PixelFormat, w: nat, h: nat, k: nat, cursor: int, tileX: int, tileY: int,
                   bg: Rgba, fg: Rgba)
    requires fmt.Valid() && Parse(src, fmt.Bpp(), w, h).Some?
    requires Reached(src, fmt, w, h, k, cursor, tileX, tileY, bg, fg)
    requires tileX >= w && tileY < h
    ensures Reached(src, fmt, w, h, k, cursor, 0, tileY + SIZE, bg, fg)
  {
    hide ParseTiles, BackgroundAfter, ForegroundAfter;
  }

  lemma ReachedEnd(src: seq<Byte>, fmt: PixelFormat, x: int, y: int, w: nat, h: nat, k: nat, cursor: int, tileY: int,
                   bg: Rgba, fg: Rgba)
    requires fmt.Valid() && Parse(src, fmt.Bpp(), w, h).Some? && Reached(src, fmt, w, h, k, cursor, 0, tileY, bg, fg)
    requires tileY >= h
    ensures cursor == |src| && Drawing(src, fmt, x, y, w, h, k) == PayloadOps(src, fmt, x, y, w, h)
  {
    hide BackgroundAfter, ForegroundAfter, Flatten, Groups;
    ParsedFit(src, fmt, w, h);
    var groups := Groups(Parse(src, fmt.Bpp(), w, h).value, Boxes(w, h), x, y, fmt);
    assert groups[..k] == groups;
  }

  lemma TileOpsDraw(t: Tile, b: Box, x: int, y: int, bg: Rgba, fg: Rgba, fmt: PixelFormat)
    requires Fits(t, b, fmt)
    ensures DrawsTile(TileOps(t, b, x, y, bg, fg, fmt), b, x, y)
  {
    hide RawPixels, SubrectColour;
    RawLengthFits(b, fmt.Bpp());
    var ops := TileOps(t, b, x, y, bg, fg, fmt);
    forall i | 0 <= i < |ops|
      ensures ops[i].Valid()
      ensures LocalRectInside(b.w, b.h, ops[i].x - (x + b.x), ops[i].y - (y + b.y), ops[i].w, ops[i].h)
    {
      if t.Painted? && i > 0 {
        assert t.subrects[i - 1] in t.subrects;
      }
    }
    forall px, py | InRect(px, py, x + b.x, y + b.y, b.w, b.h)
      ensures !Uncovered(ops, px, py)
    {
      assert ops[0].Covers(px, py);
    }
  }

  lemma GroupsDraw(tiles: seq<Tile>, boxes: seq<Box>, x: int, y: int, fmt: PixelFormat)
    requires AllFit(tiles, boxes, fmt)
    ensures DrawsTiles(Groups(tiles, boxes, x, y, fmt), boxes, x, y)
  {
    hide TileOps;
    var g := Groups(tiles, boxes, x, y, fmt);
    CarriedFit(tiles, boxes, fmt);
    forall k | 0 <= k < |g|
      ensures DrawsTile(g[k], boxes[k], x, y)
    {
      TileOpsDraw(tiles[k], boxes[k], x, y, BackgroundAfter(tiles[..k + 1], fmt), ForegroundAfter(tiles[..k + 1], fmt),
          fmt);
      assert g[k] == TileOpsAt(tiles, boxes, k, x, y, fmt);
    }
  }

  ghost function PayloadOps(src: seq<Byte>, fmt: PixelFormat, x: int, y: int, w: nat, h: nat): seq<Op>
    requires fmt.Valid() && Parse(src, fmt.Bpp(), w, h).Some?
  {
    var tiles := Parse(src, fmt.Bpp(), w, h).value;
    ParsedFit(src, fmt, w, h);
    Flatten(Groups(tiles, Boxes(w, h), x, y, fmt))
  }

  lemma ParsedFit(src: seq<Byte>, fmt: PixelFormat, w: nat, h: nat)
    requires fmt.Valid() && Parse(src, fmt.Bpp(), w, h).Some?
    ensures AllFit(Parse(src, fmt.Bpp(), w, h).value, Boxes(w, h), fmt)
  {
    hide ParseTiles, WellFormed, Boxes;
    ParseIsInverse(src, fmt.Bpp(), w, h, Parse(src, fmt.Bpp(), w, h).value);
  }

  lemma OpsFillRect(src: seq<Byte>, fmt: PixelFormat, x: int, y: int, w: nat, h: nat)
    requires fmt.Valid() && Parse(src, fmt.Bpp(), w, h).Some?
    ensures var ops := PayloadOps(src, fmt, x, y, w, h);
            AllValid(ops) && Within(ops, x, y, w, h) && Paints(ops, x, y, w, h)
  {
    var tiles := Parse(src, fmt.Bpp(), w, h).value;
    ParsedFit(src, fmt, w, h);
    GroupsDraw(tiles, Boxes(w, h), x, y, fmt);
    TilesFillRect(Groups(tiles, Boxes(w, h), x, y, fmt), w, h, SIZE, x, y);
  }

  /** The colour of a point of a painted tile: the last subrectangle holding it, or the background. */
  function SubrectsAt(l: seq<Subrect>, bg: Rgba, fg: Rgba, fmt: PixelFormat, px: int, py: int): Rgba
    requires AllPixelsFit(l, fmt)
  {
    if l == [] then bg
    else
      var s := l[|l| - 1];
      if InRect(px, py, s.X(), s.Y(), s.W(), s.H()) then SubrectColour(s, fg, fmt)
      else SubrectsAt(l[..|l| - 1], bg, fg, fmt, px, py)
  }

  /** The colour of a point of a tile, given the background and foreground in force. */
  function TileAt(t: Tile, b: Box, bg: Rgba, fg: Rgba, fmt: PixelFormat, px: int, py: int): Rgba
    requires Fits(t, b, fmt) && InRect(px, py, 0, 0, b.w, b.h)
  {
    match t
    case Raw(_, data) =>
      RawLengthFits(b, fmt.Bpp());
      IndexBounds(b.w, b.h, px, py);
      RawPixels(data, b.w * b.h, fmt)[Index(b.w, px, py)]
    case Painted(_, _, _, l) => WellFormedPixelsFit(l, fmt, ColouredBit(t.mask), b); SubrectsAt(l, bg, fg, fmt, px, py)
  }

  lemma {:induction false} SeenInSubrects(l: seq<Subrect>, b: Box, x: int, y: int, bg: Rgba, fg: Rgba,
                                          fmt: PixelFormat, px: int, py: int, ops: seq<Op>, under: Rgba)
    requires AllPixelsFit(l, fmt)
    requires |ops| == |l| + 1 && ops[0] == Fill(x + b.x, y + b.y, b.w, b.h, bg) && 0 <= b.w && 0 <= b.h
    requires forall i {:trigger l[i]} :: 0 <= i < |l| ==> ops[i + 1] == SubrectOp(l[i], b, x, y, fg, fmt)
    requires InRect(px, py, 0, 0, b.w, b.h)
    ensures AllValid(ops) && Seen(ops, x + b.x + px, y + b.y + py, under) == SubrectsAt(l, bg, fg, fmt, px, py)
  {
    hide SubrectColour;
    forall i | 0 <= i < |ops|
      ensures ops[i].Valid()
    {
      assert i > 0 ==> ops[i] == SubrectOp(l[i - 1], b, x, y, fg, fmt);
    }
    if l != [] {
      var n := |l| - 1;
      assert ops[n + 1] == SubrectOp(l[n], b, x, y, fg, fmt);
      SeenInSubrects(l[..n], b, x, y, bg, fg, fmt, px, py, ops[..n + 1], under);
    }
  }

  lemma SeenInTileOps(t: Tile, b: Box, x: int, y: int, bg: Rgba, fg: Rgba, fmt: PixelFormat, px: int, py: int,
                      under: Rgba)
    requires Fits(t, b, fmt) && InRect(px, py, 0, 0, b.w, b.h)
    ensures AllValid(TileOps(t, b, x, y, bg, fg, fmt))
    ensures Seen(TileOps(t, b, x, y, bg, fg, fmt), x + b.x + px, y + b.y + py, under)
        == TileAt(t, b, bg, fg, fmt, px, py)
  {
    hide RawPixels, SubrectColour;
    var ops := TileOps(t, b, x, y, bg, fg, fmt);
    TileOpsDraw(t, b, x, y, bg, fg, fmt);
    if t.Painted? {
      WellFormedPixelsFit(t.subrects, fmt, ColouredBit(t.mask), b);
      SeenInSubrects(t.subrects, b, x, y, bg, fg, fmt, px, py, ops, under);
    } else {
      assert ops[0].Covers(x + b.x + px, y + b.y + py);
    }
  }

  /** The colour of a point of tile i, with the background and foreground carried to it. */
  ghost function PixelAt(tiles: seq<Tile>, boxes: seq<Box>, i: nat, fmt: PixelFormat, px: int, py: int): Rgba
    requires AllFit(tiles, boxes, fmt) && i < |boxes| && InRect(px, py, 0, 0, boxes[i].w, boxes[i].h)
  {
    CarriedFit(tiles, boxes, fmt);
    TileAt(tiles[i], boxes[i], BackgroundAfter(tiles[..i + 1], fmt), ForegroundAfter(tiles[..i + 1], fmt), fmt, px, py)
  }

  lemma SeenInGroup(tiles: seq<Tile>, boxes: seq<Box>, i: nat, x: int, y: int, fmt: PixelFormat, px: int, py: int,
                    under: Rgba)
    requires AllFit(tiles, boxes, fmt) && i < |boxes| && InRect(px, py, 0, 0, boxes[i].w, boxes[i].h)
    ensures AllValid(TileOpsAt(tiles, boxes, i, x, y, fmt))
    ensures Seen(TileOpsAt(tiles, boxes, i, x, y, fmt), x + boxes[i].x + px, y + boxes[i].y + py, under)
            == PixelAt(tiles, boxes, i, fmt, px, py)
  {
    hide TileOps, TileAt;
    CarriedFit(tiles, boxes, fmt);
    SeenInTileOps(tiles[i], boxes[i], x, y, BackgroundAfter(tiles[..i + 1], fmt), ForegroundAfter(tiles[..i + 1], fmt),
        fmt, px, py, under);
  }

  /** Every pixel is the one its own tile gives it, with the background and foreground carried to that tile. */
  lemma PixelMeaning(src: seq<Byte>, fmt: PixelFormat, x: int, y: int, w: nat, h: nat, i: nat, px: int, py: int,
                     under: Rgba)
    requires fmt.Valid() && Parse(src, fmt.Bpp(), w, h).Some? && i < |Boxes(w, h)|
    requires var b := Boxes(w, h)[i]; InRect(px, py, 0, 0, b.w, b.h)
    ensures AllFit(Parse(src, fmt.Bpp(), w, h).value, Boxes(w, h), fmt) && AllValid(PayloadOps(src, fmt, x, y, w, h))
    ensures var b := Boxes(w, h)[i];
            Seen(PayloadOps(src, fmt, x, y, w, h), x + b.x + px, y + b.y + py, under)
            == PixelAt(Parse(src, fmt.Bpp(), w, h).value, Boxes(w, h), i, fmt, px, py)
  {
    hide TileOpsAt, PixelAt, Groups, Flatten, Boxes, Parse;
    ParsedFit(src, fmt, w, h);
    OpsFillRect(src, fmt, x, y, w, h);
    TilesMeaning(Parse(src, fmt.Bpp(), w, h).value, fmt, x, y, w, h, i, px, py, under);
  }

  lemma TilesMeaning(tiles: seq<Tile>, fmt: PixelFormat, x: int, y: int, w: nat, h: nat, i: nat, px: int, py: int,
                     under: Rgba)
    requires AllFit(tiles, Boxes(w, h), fmt) && i < |Boxes(w, h)|
    requires var b := Boxes(w, h)[i]; InRect(px, py, 0, 0, b.w, b.h)
    ensures AllValid(Flatten(Groups(tiles, Boxes(w, h), x, y, fmt)))
    ensures var b := Boxes(w, h)[i];
            Seen(Flatten(Groups(tiles, Boxes(w, h), x, y, fmt)), x + b.x + px, y + b.y + py, under)
            == PixelAt(tiles, Boxes(w, h), i, fmt, px, py)
  {
    hide TileOpsAt, PixelAt, Flatten, Seen, BoxesFrom;
    var boxes := Boxes(w, h);
    var b := boxes[i];
    GroupsDraw(tiles, boxes, x, y, fmt);
    BoxesInside(w, h, SIZE, 0, 0);
    assert b in boxes;
    var k := UniqueBox(w, h, SIZE, b.x + px, b.y + py);
    SeenInTile(Groups(tiles, boxes, x, y, fmt), boxes, x, y, i, x + b.x + px, y + b.y + py, under, under);
    SeenInGroup(tiles, boxes, i, x, y, fmt, px, py, under);
  }

  // ----- the validator

  lemma SubrectsUnfold(src: seq<Byte>, c: nat, n: nat, bpp: nat, coloured: bool, b: Box)
    ensures var r := ParseSubrects(src, c, n, bpp, coloured, b);
      if n == 0 then r == Some(([], c))
      else
        var s := ParseSubrect(src, c, bpp, coloured, b);
        && (s.None? ==> r.None?)
        && (s.Some? ==> var rest := ParseSubrects(src, s.value.1, n - 1, bpp, coloured, b);
             r == if rest.Some? then Some(([s.value.0] + rest.value.0, rest.value.1)) else None)
  {
  }

  lemma SubrectCountRead(src: seq<Byte>, c: nat, n: nat, bpp: nat, coloured: bool, b: Box)
    requires c <= |src| && ParseSubrects(src, c, n, bpp, coloured, b).Some?
    ensures |ParseSubrects(src, c, n, bpp, coloured, b).value.0| == n
  {
    hide ParseSubrects;
    var r := ParseSubrects(src, c, n, bpp, coloured, b).value;
    SubrectsParsed(src, c, n, bpp, coloured, b, r.0, r.1);
  }

  /** What one step of the list parser found. */
  lemma SubrectStep(src: seq<Byte>, c: nat, n: nat, bpp: nat, coloured: bool, b: Box, l: seq<Subrect>, end: nat)
    requires n > 0 && ParseSubrects(src, c, n, bpp, coloured, b) == Some((l, end))
    ensures var at := if coloured then c + bpp else c;
      && at + 2 <= |src| && l != []
      && l[0] == Subrect(if coloured then Some(src[c..at]) else None, src[at], src[at + 1])
      && LocalRectInside(b.w, b.h, l[0].X(), l[0].Y(), l[0].W(), l[0].H())
      && ParseSubrects(src, at + 2, n - 1, bpp, coloured, b) == Some((l[1..], end))
  {
    hide LocalRectInside;
  }

  /** The validator's walk over a tile's subrectangles. */
  method ValidateSubrects(src: seq<Byte>, start: I32, count: I32, bpp: I32, sub: Byte, tileW: I32, tileH: I32,
                          ghost b: Box)
    returns (ok: bool, cursor: I32)
    requires 1 <= bpp <= 4 && |src| < 0x4000_0000 && 0 <= start <= |src| && 0 <= count && b.w == tileW && b.h == tileH
    ensures var r := ParseSubrects(src, start, count, bpp, ColouredBit(sub), b);
            ok == r.Some? && (ok ==> cursor == r.value.1 && 0 <= cursor <= |src|)
  {
    hide ParseSubrects, LocalRectInside;
    cursor := start;
    ghost var whole := ParseSubrects(src, cursor, count, bpp, ColouredBit(sub), b);
    for i := 0 to count
      invariant 0 <= cursor <= |src|
      invariant var rest := ParseSubrects(src, cursor, count - i, bpp, ColouredBit(sub), b);
        rest.Some? == whole.Some? && (rest.Some? ==> rest.value.1 == whole.value.1)
    {
      SubrectsUnfold(src, cursor, count - i, bpp, ColouredBit(sub), b);
      if ColouredBit(sub) {
        if |src| < cursor + bpp { return false, cursor; }
        cursor := cursor + bpp;
      }
      if |src| < cursor + 2 { return false, cursor; }
      var xy, wh := src[cursor], src[cursor + 1];
      cursor := cursor + 2;
      if !LocalRectInside(tileW, tileH, xy / 16, xy % 16, wh / 16 + 1, wh % 16 + 1) { return false, cursor; }
    }
    SubrectsUnfold(src, cursor, 0, bpp, ColouredBit(sub), b);
    return true, cursor;
  }

  /** The validator's treatment of one tile: it finds where the tile ends. */
  method ValidateTile(src: seq<Byte>, start: I32, bpp: I32, tileW: I32, tileH: I32, ghost b: Box)
    returns (ok: bool, cursor: I32)
    requires 1 <= bpp <= 4 && |src| < 0x4000_0000 && 0 <= start <= |src|
    requires 0 < tileW <= SIZE && 0 < tileH <= SIZE && b.w == tileW && b.h == tileH && 0 <= RawLength(b, bpp)
    ensures var r := ParseTile(src, start, bpp, b);
      ok == r.Some? && (ok ==> cursor == r.value.1 && 0 <= cursor <= |src|)
  {
    hide ParseSubrects;
    hide RawBit, BackgroundBit, ForegroundBit, SubrectsBit, ColouredBit;
    RawLengthFits(b, bpp);
    cursor := start;
    if |src| < cursor + 1 { return false, cursor; }
    var sub := src[cursor];
    cursor := cursor + 1;
    if RawBit(sub) {
      var rawLen: I32 := tileW * tileH * bpp;
      if |src| < cursor + rawLen { return false, cursor; }
      return true, cursor + rawLen;
    }
    hide RawLength;
    if BackgroundBit(sub) {
      if |src| < cursor + bpp { return false, cursor; }
      cursor := cursor + bpp;
    }
    if ForegroundBit(sub) {
      if |src| < cursor + bpp { return false, cursor; }
      cursor := cursor + bpp;
    }
    if SubrectsBit(sub) {
      if |src| < cursor + 1 { return false, cursor; }
      var count: I32 := src[cursor];
      cursor := cursor + 1;
      ok, cursor := ValidateSubrects(src, cursor, count, bpp, sub, tileW, tileH, b);
      return ok, cursor;
    }
    return true, cursor;
  }

  lemma TilesUnfold(src: seq<Byte>, c: nat, bpp: nat, boxes: seq<Box>)
    requires Sensible(boxes) && boxes != []
    ensures 0 <= RawLength(boxes[0], bpp)
    ensures var r, t := ParseTiles(src, c, bpp, boxes), ParseTile(src, c, bpp, boxes[0]);
      && (t.None? ==> r.None?)
      && (t.Some? ==> var rest := ParseTiles(src, t.value.1, bpp, boxes[1..]);
           r == if rest.Some? then Some([t.value.0] + rest.value) else None)
  {
    hide ParseTile;
    RawLengthFits(boxes[0], bpp);
  }

  method ValidateHextilePayload(src: seq<Byte>, bpp: I32, w: I32, h: I32) returns (ok: bool)
    requires 1 <= bpp <= 4 && |src| < 0x4000_0000 && 0 <= w < 0x1_0000 && 0 <= h < 0x1_0000
    ensures ok <==> Parse(src, bpp, w, h).Some?
  {
    hide ParseTiles, ParseTile, RawLength;
    var cursor: I32 := 0;
    var tileY: I32 := 0;
    ghost var boxes := Boxes(w, h);
    while tileY < h
      invariant 0 <= tileY && 0 <= cursor <= |src|
      invariant boxes == BoxesFrom(w, h, SIZE, 0, tileY) && Sensible(boxes)
      invariant ParseTiles(src, cursor, bpp, boxes).Some? <==> Parse(src, bpp, w, h).Some?
      decreases h - tileY
    {
      var tileH: I32 := Min(16, h - tileY);
      var tileX: I32 := 0;
      while tileX < w
        invariant 0 <= tileX && 0 <= cursor <= |src|
        invariant boxes == BoxesFrom(w, h, SIZE, tileX, tileY) && Sensible(boxes)
        invariant ParseTiles(src, cursor, bpp, boxes).Some? <==> Parse(src, bpp, w, h).Some?
        decreases w - tileX
      {
        var tileW: I32 := Min(16, w - tileX);
        TilesUnfold(src, cursor, bpp, boxes);
        var valid, next := ValidateTile(src, cursor, bpp, tileW, tileH, boxes[0]);
        if !valid { return false; }
        cursor := next;
        tileX := tileX + 16;
        boxes := boxes[1..];
      }
      tileY := tileY + 16;
    }
    TilesEnd(src, cursor, bpp);
    return cursor == |src|;
  }

  lemma TilesEnd(src: seq<Byte>, c: nat, bpp: nat)
    ensures ParseTiles(src, c, bpp, []) == if c == |src| then Some([]) else None
  {
  }
}
