/**
 ZRLE tile data after inflation (section 7.7.6 of RFC 6143): 64x64 tiles in row-major order, each raw,
 solid, packed palette, plain run-length or palette run-length.
 */
module Zrle {
  import opened Machine
  import opened PixelFormats
  import opened Canvas
  import opened Tiling

  const SIZE: int := 64

  datatype Run = Run(pixel: Pixel, length: nat)
  // A palette run; a run of one pixel may omit its length byte.
  datatype IndexRun = IndexRun(index: nat, long: bool, length: nat)

  datatype Tile =
    | Raw(data: seq<Byte>)
    | Solid(pixel: Pixel)
    | Packed(size: nat, palette: seq<Byte>, data: seq<Byte>)
    | PlainRle(runs: seq<Run>)
    | PaletteRle(size: nat, palette: seq<Byte>, indexRuns: seq<IndexRun>)

  // ----- packed palette indices

  function BitsPerIndex(size: nat): (b: nat)
    ensures b == 1 || b == 2 || b == 4
  {
    if size <= 2 then 1 else if size <= 4 then 2 else 4
  }

  function RowBytes(w: int, bits: nat): int {
    (w * bits + 7) / 8
  }

  lemma ColumnByte(w: int, bits: nat, col: int)
    requires (bits == 1 || bits == 2 || bits == 4) && 0 <= col < w
    ensures 0 <= col * bits / 8 < RowBytes(w, bits) && 0 <= 8 - bits - (col * bits) % 8
  {
    if bits == 1 {
    } else if bits == 2 {
    } else {
    }
  }

  /** Where the index of (col, row) lies: its byte, and how far its low bit is from that byte's low bit. */
  function PackedByte(w: int, bits: nat, col: int, row: int): int {
    row * RowBytes(w, bits) + col * bits / 8
  }

  function PackedShift(bits: nat, col: int): int {
    8 - bits - (col * bits) % 8
  }

  lemma ColumnInRow(w: int, h: int, bits: nat, col: int, row: int)
    requires (bits == 1 || bits == 2 || bits == 4) && 0 <= col < w && 0 <= row < h
    ensures 0 <= PackedShift(bits, col) && 0 <= PackedByte(w, bits, col, row) < RowBytes(w, bits) * h
  {
    ColumnByte(w, bits, col);
    hide RowBytes;
    IndexBounds(RowBytes(w, bits), h, col * bits / 8, row);
  }

  /** The palette index of one pixel: rows start on a byte, and indices fill a byte from its high bits down. */
  function PackedIndex(data: seq<Byte>, w: int, h: int, bits: nat, col: int, row: int): (r: nat)
    requires (bits == 1 || bits == 2 || bits == 4) && |data| == RowBytes(w, bits) * h && 0 <= col < w && 0 <= row < h
  {
    ColumnInRow(w, h, bits, col, row);
    Shr(data[PackedByte(w, bits, col, row)], PackedShift(bits, col)) % Pow2(bits)
  }

  ghost predicate IndicesInPalette(data: seq<Byte>, w: int, h: int, size: nat) {
    && |data| == PackedBytes(w, h, size)
    && forall col, row :: 0 <= col < w && 0 <= row < h ==> PackedIndex(data, w, h, BitsPerIndex(size), col, row) < size
  }

  // ----- parsing

  /** The bytes after the first pixel of a run: as many 255s as needed, then one smaller byte. */
  function ParseExtra(src: seq<Byte>, c: nat): (r: Option<(nat, nat)>)
    ensures r.Some? ==> c < r.value.1 <= |src| && r.value.0 <= 255 * (r.value.1 - c)
    decreases |src| - c
  {
    if |src| < c + 1 then None
    else if src[c] != 255 then Some((src[c], c + 1))
    else
      match ParseExtra(src, c + 1)
      case None => None
      case Some((n, end)) => Some((255 + n, end))
  }

  function ParseRun(src: seq<Byte>, c: nat, bpp: nat): Option<(Run, nat)> {
    if |src| < c + bpp then None
    else
      match ParseExtra(src, c + bpp)
      case None => None
      case Some((n, end)) => Some((Run(src[c..c + bpp], 1 + n), end))
  }

  function ParseRuns(src: seq<Byte>, c: nat, remaining: nat, bpp: nat): Option<(seq<Run>, nat)>
    decreases remaining
  {
    if remaining == 0 then Some(([], c))
    else
      match ParseRun(src, c, bpp)
      case None => None
      case Some((r, c)) =>
        if r.length > remaining then None
        else
          match ParseRuns(src, c, remaining - r.length, bpp)
          case None => None
          case Some((l, c)) => Some(([r] + l, c))
  }

  function ParseIndexRun(src: seq<Byte>, c: nat): (r: Option<(IndexRun, nat)>)
    ensures r.Some? ==> c < |src| && r.value.0.length >= 1
  {
    if |src| < c + 1 then None
    else if src[c] < 128 then Some((IndexRun(src[c], false, 1), c + 1))
    else
      match ParseExtra(src, c + 1)
      case None => None
      case Some((n, end)) => Some((IndexRun(src[c] - 128, true, 1 + n), end))
  }

  function ParseIndexRuns(src: seq<Byte>, c: nat, remaining: nat, size: nat): Option<(seq<IndexRun>, nat)>
    decreases remaining
  {
    if remaining == 0 then Some(([], c))
    else
      match ParseIndexRun(src, c)
      case None => None
      case Some((r, c)) =>
        if r.index >= size || r.length > remaining then None
        else
          match ParseIndexRuns(src, c, remaining - r.length, size)
          case None => None
          case Some((l, c)) => Some(([r] + l, c))
  }

  function Area(b: Box): int {
    b.w * b.h
  }

  function RawBytes(b: Box, bpp: nat): int {
    b.w * b.h * bpp
  }

  function PaletteBytes(size: nat, bpp: nat): nat {
    size * bpp
  }

  function PackedBytes(w: int, h: int, size: nat): int {
    RowBytes(w, BitsPerIndex(size)) * h
  }

  predicate Sensible(b: Box) {
    0 < b.w <= SIZE && 0 < b.h <= SIZE
  }

  lemma AreaFits(b: Box, bpp: nat)
    requires Sensible(b)
    ensures 0 < Area(b) <= 4096 && 0 <= RawBytes(b, bpp) <= 4096 * bpp
  {
    MulMono(1, 1, b.w, b.h);
    MulMono(b.w, b.h, 64, 64);
    MulMono(b.w * b.h, bpp, 4096, bpp);
  }

  lemma PackedFits(b: Box, size: nat)
    requires Sensible(b)
    ensures 0 <= RowBytes(b.w, BitsPerIndex(size)) <= 32 && 0 <= PackedBytes(b.w, b.h, size) <= 2048
  {
    var bits := BitsPerIndex(size);
    assert bits == 1 ==> b.w * bits == b.w;
    assert bits == 2 ==> b.w * bits == 2 * b.w;
    assert bits == 4 ==> b.w * bits == 4 * b.w;
    MulMono(RowBytes(b.w, bits), b.h, 32, 64);
  }

  ghost function ParsePacked(src: seq<Byte>, c: nat, bpp: nat, size: nat, b: Box): Option<(Tile, nat)>
    requires Sensible(b)
  {
    PackedFits(b, size);
    var start := c + PaletteBytes(size, bpp);
    var end := start + PackedBytes(b.w, b.h, size);
    if |src| < end then None
    else
      var data := src[start..end];
      if IndicesInPalette(data, b.w, b.h, size) then Some((Packed(size, src[c..start], data), end)) else None
  }

  function ParsePlain(src: seq<Byte>, c: nat, bpp: nat, b: Box): Option<(Tile, nat)>
    requires Sensible(b)
  {
    AreaFits(b, bpp);
    match ParseRuns(src, c, Area(b), bpp)
    case None => None
    case Some((l, end)) => Some((PlainRle(l), end))
  }

  function ParsePaletteRle(src: seq<Byte>, c: nat, bpp: nat, size: nat, b: Box): Option<(Tile, nat)>
    requires Sensible(b)
  {
    AreaFits(b, bpp);
    var start := c + PaletteBytes(size, bpp);
    if |src| < start then None
    else
      match ParseIndexRuns(src, start, Area(b), size)
      case None => None
      case Some((l, end)) => Some((PaletteRle(size, src[c..start], l), end))
  }

  ghost function ParseTile(src: seq<Byte>, c: nat, bpp: nat, b: Box): Option<(Tile, nat)>
    requires Sensible(b)
  {
    AreaFits(b, bpp);
    if |src| < c + 1 then None
    else
      var size, rle, at := src[c] % 128, src[c] >= 128, c + 1;
      if !rle && size == 0 then
        var end := at + RawBytes(b, bpp);
        if |src| < end then None else Some((Raw(src[at..end]), end))
      else if !rle && size == 1 then
        if |src| < at + bpp then None else Some((Solid(src[at..at + bpp]), at + bpp))
      else if !rle && size <= 16 then ParsePacked(src, at, bpp, size, b)
      else if rle && size == 0 then ParsePlain(src, at, bpp, b)
      else if rle && size >= 2 then ParsePaletteRle(src, at, bpp, size, b)
      else None
  }

  ghost function ParseTiles(src: seq<Byte>, c: nat, bpp: nat, boxes: seq<Box>): Option<seq<Tile>>
    requires forall b :: b in boxes ==> Sensible(b)
    decreases |boxes|
  {
    if boxes == [] then (if c == |src| then Some([]) else None)
    else
      match ParseTile(src, c, bpp, boxes[0])
      case None => None
      case Some((t, c)) =>
        match ParseTiles(src, c, bpp, boxes[1..])
        case None => None
        case Some(rest) => Some([t] + rest)
  }

  ghost function Boxes(w: nat, h: nat): (bs: seq<Box>)
    ensures forall b :: b in bs ==> Sensible(b)
  {
    BoxesInside(w, h, SIZE, 0, 0);
    BoxesFrom(w, h, SIZE, 0, 0)
  }

  ghost function Parse(src: seq<Byte>, bpp: nat, w: nat, h: nat): Option<seq<Tile>> {
    ParseTiles(src, 0, bpp, Boxes(w, h))
  }

  // ----- the wire form

  function TotalRuns(l: seq<Run>): nat {
    if l == [] then 0 else l[0].length + TotalRuns(l[1..])
  }

  function TotalIndexRuns(l: seq<IndexRun>): nat {
    if l == [] then 0 else l[0].length + TotalIndexRuns(l[1..])
  }

  predicate GoodRun(r: Run, bpp: nat) {
    |r.pixel| == bpp && r.length >= 1
  }

  predicate GoodIndexRun(r: IndexRun, size: nat) {
    r.index < size && r.index < 128 && r.length >= 1 && (!r.long ==> r.length == 1)
  }

  ghost predicate WellFormed(t: Tile, bpp: nat, b: Box) {
    match t
    case Raw(data) => |data| == RawBytes(b, bpp)
    case Solid(p) => |p| == bpp
    case Packed(size, palette, data) =>
      2 <= size <= 16 && |palette| == PaletteBytes(size, bpp) && IndicesInPalette(data, b.w, b.h, size)
    case PlainRle(l) => (forall r :: r in l ==> GoodRun(r, bpp)) && TotalRuns(l) == Area(b)
    case PaletteRle(size, palette, l) =>
      && 2 <= size <= 127 && |palette| == PaletteBytes(size, bpp)
      && (forall r :: r in l ==> GoodIndexRun(r, size)) && TotalIndexRuns(l) == Area(b)
  }

  ghost predicate AllWellFormed(tiles: seq<Tile>, bpp: nat, boxes: seq<Box>) {
    |tiles| == |boxes| && forall k :: 0 <= k < |tiles| ==> WellFormed(tiles[k], bpp, boxes[k])
  }

  function EncodeExtra(n: nat): seq<Byte> {
    if n < 255 then [n] else [255] + EncodeExtra(n - 255)
  }

  function EncodeRun(r: Run): seq<Byte> {
    r.pixel + EncodeExtra(if r.length == 0 then 0 else r.length - 1)
  }

  function EncodeRuns(l: seq<Run>): seq<Byte> {
    if l == [] then [] else EncodeRun(l[0]) + EncodeRuns(l[1..])
  }

  function EncodeIndexRun(r: IndexRun): seq<Byte> {
    if r.long then [128 + r.index % 128] + EncodeExtra(if r.length == 0 then 0 else r.length - 1) else [r.index % 128]
  }

  function EncodeIndexRuns(l: seq<IndexRun>): seq<Byte> {
    if l == [] then [] else EncodeIndexRun(l[0]) + EncodeIndexRuns(l[1..])
  }

  function Subencoding(t: Tile): Byte {
    match t
    case Raw(_) => 0
    case Solid(_) => 1
    case Packed(size, _, _) => size % 128
    case PlainRle(_) => 128
    case PaletteRle(size, _, _) => 128 + size % 128
  }

  function Body(t: Tile): seq<Byte> {
    match t
    case Raw(data) => data
    case Solid(p) => p
    case Packed(_, palette, data) => palette + data
    case PlainRle(l) => EncodeRuns(l)
    case PaletteRle(_, palette, l) => palette + EncodeIndexRuns(l)
  }

  function EncodeTile(t: Tile): seq<Byte> {
    [Subencoding(t)] + Body(t)
  }

  function Encode(tiles: seq<Tile>): seq<Byte> {
    if tiles == [] then [] else EncodeTile(tiles[0]) + Encode(tiles[1..])
  }

  lemma {:induction false} ExtraParsed(src: seq<Byte>, c: nat, n: nat, end: nat)
    requires c <= |src|
    ensures ParseExtra(src, c) == Some((n, end)) <==> end == c + |EncodeExtra(n)| && At(src, c, EncodeExtra(n))
    decreases |src| - c
  {
    if c < |src| {
      if n >= 255 {
        AtConcat(src, c, [255], EncodeExtra(n - 255));
        ExtraParsed(src, c + 1, n - 255, end);
      } else {
        assert At(src, c, [n]) <==> src[c] == n;
      }
    } else {
      assert |EncodeExtra(n)| > 0;
    }
  }

  lemma RunParsed(src: seq<Byte>, c: nat, bpp: nat, r: Run, end: nat)
    requires c <= |src|
    ensures ParseRun(src, c, bpp) == Some((r, end)) <==>
            GoodRun(r, bpp) && end == c + |EncodeRun(r)| && At(src, c, EncodeRun(r))
  {
    hide ParseExtra, EncodeExtra;
    if r.length >= 1 && |r.pixel| == bpp {
      AtConcat(src, c, r.pixel, EncodeExtra(r.length - 1));
      if c + bpp <= |src| {
        ExtraParsed(src, c + bpp, r.length - 1, end);
      }
    }
  }

  lemma FirstByte(src: seq<Byte>, c: nat, b: Byte)
    ensures At(src, c, [b]) <==> c < |src| && src[c] == b
  {
  }

  lemma IndexRunParsed(src: seq<Byte>, c: nat, size: nat, r: IndexRun, end: nat)
    requires c <= |src|
    ensures (ParseIndexRun(src, c) == Some((r, end)) && r.index < size) <==>
            GoodIndexRun(r, size) && end == c + |EncodeIndexRun(r)| && At(src, c, EncodeIndexRun(r))
  {
    hide ParseExtra, EncodeExtra;
    if r.length >= 1 && r.index < 128 {
      hide At;
      if r.long {
        AtConcat(src, c, [128 + r.index], EncodeExtra(r.length - 1));
        FirstByte(src, c, 128 + r.index);
        if c < |src| {
          ExtraParsed(src, c + 1, r.length - 1, end);
        }
      } else {
        FirstByte(src, c, r.index);
      }
    }
  }

  lemma NothingAt(src: seq<Byte>, c: nat)
    requires c <= |src|
    ensures At(src, c, [])
  {
  }

  lemma AtInside(src: seq<Byte>, c: nat, e: seq<Byte>)
    requires At(src, c, e)
    ensures c + |e| <= |src|
  {
  }

  lemma {:induction false} RunsEncode(src: seq<Byte>, c: nat, remaining: nat, bpp: nat)
    requires c <= |src| && ParseRuns(src, c, remaining, bpp).Some?
    ensures var (l, end) := ParseRuns(src, c, remaining, bpp).value;
            && (forall r :: r in l ==> GoodRun(r, bpp)) && TotalRuns(l) == remaining
            && end == c + |EncodeRuns(l)| && At(src, c, EncodeRuns(l))
    decreases remaining
  {
    hide ParseRun, EncodeRun, EncodeExtra, At;
    if remaining > 0 {
      var (r, c1) := ParseRun(src, c, bpp).value;
      RunParsed(src, c, bpp, r, c1);
      AtInside(src, c, EncodeRun(r));
      RunsEncode(src, c1, remaining - r.length, bpp);
      var l := ParseRuns(src, c, remaining, bpp).value.0;
      AtConcat(src, c, EncodeRun(r), EncodeRuns(l[1..]));
      assert l == [r] + l[1..];
    } else {
      NothingAt(src, c);
    }
  }

  lemma {:induction false} EncodedRunsParse(src: seq<Byte>, c: nat, bpp: nat, l: seq<Run>)
    requires c <= |src| && (forall r :: r in l ==> GoodRun(r, bpp)) && At(src, c, EncodeRuns(l))
    ensures ParseRuns(src, c, TotalRuns(l), bpp) == Some((l, c + |EncodeRuns(l)|))
    decreases |l|
  {
    hide ParseRun, EncodeRun, At;
    if l != [] {
      var e := EncodeRun(l[0]);
      AtConcat(src, c, e, EncodeRuns(l[1..]));
      RunParsed(src, c, bpp, l[0], c + |e|);
      AtInside(src, c, e);
      EncodedRunsParse(src, c + |e|, bpp, l[1..]);
      assert l == [l[0]] + l[1..];
    }
  }

  lemma {:induction false} IndexRunsEncode(src: seq<Byte>, c: nat, remaining: nat, size: nat)
    requires c <= |src| && ParseIndexRuns(src, c, remaining, size).Some?
    ensures var (l, end) := ParseIndexRuns(src, c, remaining, size).value;
            && (forall r :: r in l ==> GoodIndexRun(r, size)) && TotalIndexRuns(l) == remaining
            && end == c + |EncodeIndexRuns(l)| && At(src, c, EncodeIndexRuns(l))
    decreases remaining
  {
    hide ParseIndexRun, EncodeIndexRun, At;
    if remaining > 0 {
      var (r, c1) := ParseIndexRun(src, c).value;
      IndexRunParsed(src, c, size, r, c1);
      AtInside(src, c, EncodeIndexRun(r));
      IndexRunsEncode(src, c1, remaining - r.length, size);
      var l := ParseIndexRuns(src, c, remaining, size).value.0;
      AtConcat(src, c, EncodeIndexRun(r), EncodeIndexRuns(l[1..]));
      assert l == [r] + l[1..];
    } else {
      NothingAt(src, c);
    }
  }

  lemma {:induction false} EncodedIndexRunsParse(src: seq<Byte>, c: nat, size: nat, l: seq<IndexRun>)
    requires c <= |src| && (forall r :: r in l ==> GoodIndexRun(r, size)) && At(src, c, EncodeIndexRuns(l))
    ensures ParseIndexRuns(src, c, TotalIndexRuns(l), size) == Some((l, c + |EncodeIndexRuns(l)|))
    decreases |l|
  {
    hide ParseIndexRun, EncodeIndexRun, At;
    if l != [] {
      var e := EncodeIndexRun(l[0]);
      AtConcat(src, c, e, EncodeIndexRuns(l[1..]));
      IndexRunParsed(src, c, size, l[0], c + |e|);
      AtInside(src, c, e);
      EncodedIndexRunsParse(src, c + |e|, size, l[1..]);
      assert l == [l[0]] + l[1..];
    }
  }

  lemma PackedParsed(src: seq<Byte>, c: nat, bpp: nat, size: nat, b: Box, t: Tile, end: nat)
    requires c <= |src| && Sensible(b) && 2 <= size <= 16
    ensures ParsePacked(src, c, bpp, size, b) == Some((t, end)) <==>
            t.Packed? && t.size == size && WellFormed(t, bpp, b) && end == c + |Body(t)| && At(src, c, Body(t))
  {
    hide IndicesInPalette, PackedBytes, PaletteBytes;
    PackedFits(b, size);
    if t.Packed? {
      AtConcat(src, c, t.palette, t.data);
      if IndicesInPalette(t.data, b.w, b.h, size) {
        PackedLength(t.data, b.w, b.h, size);
      }
    }
  }

  lemma PlainParsed(src: seq<Byte>, c: nat, bpp: nat, b: Box, t: Tile, end: nat)
    requires c <= |src| && Sensible(b)
    ensures ParsePlain(src, c, bpp, b) == Some((t, end)) <==>
            t.PlainRle? && WellFormed(t, bpp, b) && end == c + |Body(t)| && At(src, c, Body(t))
  {
    hide ParseRuns, EncodeRuns, GoodRun, Area;
    AreaFits(b, bpp);
    if ParsePlain(src, c, bpp, b) == Some((t, end)) {
      RunsEncode(src, c, Area(b), bpp);
    }
    if t.PlainRle? && WellFormed(t, bpp, b) && At(src, c, Body(t)) {
      EncodedRunsParse(src, c, bpp, t.runs);
    }
  }

  lemma PaletteRleParsed(src: seq<Byte>, c: nat, bpp: nat, size: nat, b: Box, t: Tile, end: nat)
    requires c <= |src| && Sensible(b) && 2 <= size <= 127
    ensures ParsePaletteRle(src, c, bpp, size, b) == Some((t, end)) <==>
            t.PaletteRle? && t.size == size && WellFormed(t, bpp, b) && end == c + |Body(t)| && At(src, c, Body(t))
  {
    hide ParseIndexRuns, EncodeIndexRuns, GoodIndexRun, PaletteBytes, Area;
    AreaFits(b, bpp);
    var start := c + PaletteBytes(size, bpp);
    if ParsePaletteRle(src, c, bpp, size, b) == Some((t, end)) {
      IndexRunsEncode(src, start, Area(b), size);
      AtConcat(src, c, t.palette, EncodeIndexRuns(t.indexRuns));
    }
    if t.PaletteRle? && t.size == size && WellFormed(t, bpp, b) && At(src, c, Body(t)) {
      AtConcat(src, c, t.palette, EncodeIndexRuns(t.indexRuns));
      EncodedIndexRunsParse(src, start, size, t.indexRuns);
    }
  }

  lemma TileEncodes(src: seq<Byte>, c: nat, bpp: nat, b: Box, t: Tile, end: nat)
    requires c <= |src| && Sensible(b) && ParseTile(src, c, bpp, b) == Some((t, end))
    ensures WellFormed(t, bpp, b) && end == c + |EncodeTile(t)| && At(src, c, EncodeTile(t))
  {
    hide PackedBytes, PaletteBytes, RawBytes, Area;
    hide ParsePacked, ParsePlain, ParsePaletteRle, TotalRuns, TotalIndexRuns, GoodRun, GoodIndexRun, IndicesInPalette;
    AreaFits(b, bpp);
    AtConcat(src, c, [Subencoding(t)], Body(t));
    FirstByte(src, c, Subencoding(t));
    var size := src[c] % 128;
    if src[c] == 128 {
      PlainParsed(src, c + 1, bpp, b, t, end);
    } else if src[c] > 128 {
      PaletteRleParsed(src, c + 1, bpp, size, b, t, end);
    } else if 2 <= size {
      PackedParsed(src, c + 1, bpp, size, b, t, end);
    }
  }

  lemma EncodedTileParses(src: seq<Byte>, c: nat, bpp: nat, b: Box, t: Tile)
    requires c <= |src| && Sensible(b) && WellFormed(t, bpp, b) && At(src, c, EncodeTile(t))
    ensures ParseTile(src, c, bpp, b) == Some((t, c + |EncodeTile(t)|))
  {
    hide PackedBytes, PaletteBytes, RawBytes, Area;
    hide ParsePacked, ParsePlain, ParsePaletteRle, TotalRuns, TotalIndexRuns, GoodRun, GoodIndexRun, IndicesInPalette;
    AreaFits(b, bpp);
    AtConcat(src, c, [Subencoding(t)], Body(t));
    FirstByte(src, c, Subencoding(t));
    var end := c + |EncodeTile(t)|;
    match t {
      case Raw(_) =>
      case Solid(_) =>
      case Packed(size, _, _) => PackedParsed(src, c + 1, bpp, size, b, t, end);
      case PlainRle(_) => PlainParsed(src, c + 1, bpp, b, t, end);
      case PaletteRle(size, _, _) => PaletteRleParsed(src, c + 1, bpp, size, b, t, end);
    }
  }

  lemma PackedLength(data: seq<Byte>, w: int, h: int, size: nat)
    requires IndicesInPalette(data, w, h, size)
    ensures |data| == PackedBytes(w, h, size)
  {
  }

  lemma {:induction false} TilesEncode(src: seq<Byte>, c: nat, bpp: nat, boxes: seq<Box>)
    requires (forall b :: b in boxes ==> Sensible(b)) && c <= |src| && ParseTiles(src, c, bpp, boxes).Some?
    ensures var tiles := ParseTiles(src, c, bpp, boxes).value;
            AllWellFormed(tiles, bpp, boxes) && src[c..] == Encode(tiles)
    decreases |boxes|
  {
    hide ParseTile, EncodeTile, WellFormed;
    if boxes != [] {
      var (t, end) := ParseTile(src, c, bpp, boxes[0]).value;
      TileEncodes(src, c, bpp, boxes[0], t, end);
      TilesEncode(src, end, bpp, boxes[1..]);
      var tiles := ParseTiles(src, c, bpp, boxes).value;
      assert tiles[1..] == ParseTiles(src, end, bpp, boxes[1..]).value;
      assert src[c..] == src[c..end] + src[end..];
      forall k | 0 <= k < |tiles|
        ensures WellFormed(tiles[k], bpp, boxes[k])
      {
        assert k > 0 ==> tiles[k] == tiles[1..][k - 1] && boxes[k] == boxes[1..][k - 1];
      }
    }
  }

  lemma {:induction false} EncodedTilesParse(src: seq<Byte>, c: nat, bpp: nat, boxes: seq<Box>, tiles: seq<Tile>)
    requires (forall b :: b in boxes ==> Sensible(b)) && c <= |src|
    requires AllWellFormed(tiles, bpp, boxes) && src[c..] == Encode(tiles)
    ensures ParseTiles(src, c, bpp, boxes) == Some(tiles)
    decreases |boxes|
  {
    hide ParseTile, EncodeTile, WellFormed;
    if boxes != [] {
      var e, rest := EncodeTile(tiles[0]), Encode(tiles[1..]);
      assert src[c..] == e + rest;
      assert src[c..c + |e|] == src[c..][..|e|] && src[c + |e|..] == src[c..][|e|..];
      EncodedTileParses(src, c, bpp, boxes[0], tiles[0]);
      EncodedTilesParse(src, c + |e|, bpp, boxes[1..], tiles[1..]);
      assert tiles == [tiles[0]] + tiles[1..];
    } else {
      assert |src[c..]| == |src| - c;
    }
  }

  /** Exactly the encodings of well-formed tile lists are accepted, each as the list it encodes. */
  lemma ParseIsInverse(src: seq<Byte>, bpp: nat, w: nat, h: nat, tiles: seq<Tile>)
    ensures Parse(src, bpp, w, h) == Some(tiles) <==>
            AllWellFormed(tiles, bpp, Boxes(w, h)) && src == Encode(tiles)
  {
    hide ParseTiles, Encode, Boxes;
    assert src[0..] == src;
    if Parse(src, bpp, w, h) == Some(tiles) {
      TilesEncode(src, 0, bpp, Boxes(w, h));
    }
    if AllWellFormed(tiles, bpp, Boxes(w, h)) && src == Encode(tiles) {
      EncodedTilesParse(src, 0, bpp, Boxes(w, h), tiles);
    }
  }

  // ----- what the tiles paint

  predicate RunsFit(l: seq<Run>, fmt: PixelFormat) {
    fmt.Valid() && forall r :: r in l ==> GoodRun(r, fmt.Bpp())
  }

  function RunPixels(c: Rgba, n: nat): (p: seq<Rgba>)
    ensures |p| == n && forall i :: 0 <= i < n ==> p[i] == c
  {
    seq(n, _ => c)
  }

  /** The pixels of a list of runs, in row-major order. */
  function Expand(l: seq<Run>, fmt: PixelFormat): (p: seq<Rgba>)
    requires RunsFit(l, fmt)
    ensures |p| == TotalRuns(l)
  {
    if l == [] then [] else assert l[0] in l; RunPixels(Colour(l[0].pixel, fmt), l[0].length) + Expand(l[1..], fmt)
  }

  predicate IndexRunsFit(l: seq<IndexRun>, size: nat) {
    forall r :: r in l ==> GoodIndexRun(r, size)
  }

  function ExpandIndexed(l: seq<IndexRun>, colours: seq<Rgba>): (p: seq<Rgba>)
    requires IndexRunsFit(l, |colours|)
    ensures |p| == TotalIndexRuns(l)
  {
    if l == [] then []
    else
      assert l[0] in l;
      RunPixels(colours[l[0].index], l[0].length) + ExpandIndexed(l[1..], colours)
  }

  ghost predicate Fits(t: Tile, b: Box, fmt: PixelFormat) {
    fmt.Valid() && Sensible(b) && WellFormed(t, fmt.Bpp(), b)
  }

  /** The colours of a palette. */
  function PaletteColours(palette: seq<Byte>, size: nat, fmt: PixelFormat): (p: seq<Rgba>)
    requires fmt.Valid() && |palette| == PaletteBytes(size, fmt.Bpp())
    ensures |p| == size
  {
    RawPixels(palette, size, fmt)
  }

  lemma PointInArea(b: Box, k: int)
    requires Sensible(b) && 0 <= k < Area(b)
    ensures 0 <= k % b.w < b.w && 0 <= k / b.w < b.h && k == Index(b.w, k % b.w, k / b.w)
  {
    PointOf(b.w, b.h, k);
  }

  function PackedColour(data: seq<Byte>, b: Box, size: nat, colours: seq<Rgba>, col: int, row: int): Rgba
    requires IndicesInPalette(data, b.w, b.h, size) && |colours| == size && 0 <= col < b.w && 0 <= row < b.h
  {
    colours[PackedIndex(data, b.w, b.h, BitsPerIndex(size), col, row)]
  }

  ghost function PackedPixels(data: seq<Byte>, b: Box, size: nat, colours: seq<Rgba>): (p: seq<Rgba>)
    requires Sensible(b) && IndicesInPalette(data, b.w, b.h, size) && |colours| == size && 0 <= Area(b)
    ensures |p| == Area(b)
  {
    seq(Area(b), k requires 0 <= k < Area(b) =>
      PointInArea(b, k); PackedColour(data, b, size, colours, k % b.w, k / b.w))
  }

  /** All pixels of a tile, in row-major order. */
  ghost function Pixels(t: Tile, b: Box, fmt: PixelFormat): (p: seq<Rgba>)
    requires Fits(t, b, fmt)
    ensures |p| == Area(b)
  {
    AreaFits(b, fmt.Bpp());
    match t
    case Raw(data) => RawPixels(data, Area(b), fmt)
    case Solid(p) => RunPixels(Colour(p, fmt), Area(b))
    case Packed(size, palette, data) => PackedPixels(data, b, size, PaletteColours(palette, size, fmt))
    case PlainRle(l) => Expand(l, fmt)
    case PaletteRle(size, palette, l) => ExpandIndexed(l, PaletteColours(palette, size, fmt))
  }

  ghost function TileOp(t: Tile, b: Box, x: int, y: int, fmt: PixelFormat): Op
    requires Fits(t, b, fmt)
  {
    match t
    case Solid(p) => Fill(x + b.x, y + b.y, b.w, b.h, Colour(p, fmt))
    case _ => Blit(x + b.x, y + b.y, b.w, b.h, Pixels(t, b, fmt))
  }

  ghost predicate AllFit(tiles: seq<Tile>, boxes: seq<Box>, fmt: PixelFormat) {
    fmt.Valid() && |tiles| == |boxes| && forall k :: 0 <= k < |tiles| ==> Fits(tiles[k], boxes[k], fmt)
  }

  ghost function Groups(tiles: seq<Tile>, boxes: seq<Box>, x: int, y: int, fmt: PixelFormat): (g: seq<seq<Op>>)
    requires AllFit(tiles, boxes, fmt)
    ensures |g| == |tiles|
  {
    seq(|tiles|, k requires 0 <= k < |tiles| => [TileOp(tiles[k], boxes[k], x, y, fmt)])
  }

  lemma ParsedFit(src: seq<Byte>, fmt: PixelFormat, w: nat, h: nat)
    requires fmt.Valid() && Parse(src, fmt.Bpp(), w, h).Some?
    ensures AllFit(Parse(src, fmt.Bpp(), w, h).value, Boxes(w, h), fmt)
  {
    hide ParseTiles, WellFormed, Boxes;
    ParseIsInverse(src, fmt.Bpp(), w, h, Parse(src, fmt.Bpp(), w, h).value);
  }

  ghost function PayloadOps(src: seq<Byte>, fmt: PixelFormat, x: int, y: int, w: nat, h: nat): seq<Op>
    requires fmt.Valid() && Parse(src, fmt.Bpp(), w, h).Some?
  {
    ParsedFit(src, fmt, w, h);
    Flatten(Groups(Parse(src, fmt.Bpp(), w, h).value, Boxes(w, h), x, y, fmt))
  }

  lemma GroupsDraw(tiles: seq<Tile>, boxes: seq<Box>, x: int, y: int, fmt: PixelFormat)
    requires AllFit(tiles, boxes, fmt)
    ensures DrawsTiles(Groups(tiles, boxes, x, y, fmt), boxes, x, y)
  {
    hide Pixels, Colour;
    var g := Groups(tiles, boxes, x, y, fmt);
    forall k | 0 <= k < |g|
      ensures DrawsTile(g[k], boxes[k], x, y)
    {
      var b, op := boxes[k], TileOp(tiles[k], boxes[k], x, y, fmt);
      forall px, py | InRect(px, py, x + b.x, y + b.y, b.w, b.h)
        ensures !Uncovered([op], px, py)
      {
        assert [op][0].Covers(px, py);
      }
    }
  }

  lemma OpsFillRect(src: seq<Byte>, fmt: PixelFormat, x: int, y: int, w: nat, h: nat)
    requires fmt.Valid() && Parse(src, fmt.Bpp(), w, h).Some?
    ensures var ops := PayloadOps(src, fmt, x, y, w, h);
            AllValid(ops) && Within(ops, x, y, w, h) && Paints(ops, x, y, w, h)
  {
    hide Parse, Groups;
    ParsedFit(src, fmt, w, h);
    var tiles := Parse(src, fmt.Bpp(), w, h).value;
    GroupsDraw(tiles, Boxes(w, h), x, y, fmt);
    TilesFillRect(Groups(tiles, Boxes(w, h), x, y, fmt), w, h, SIZE, x, y);
  }

  // ----- the tile interpreter: one point at a time

  /** The run that holds position k of the walk. */
  function RunAt(l: seq<Run>, k: nat): Run
    requires k < TotalRuns(l)
  {
    if k < l[0].length then l[0] else RunAt(l[1..], k - l[0].length)
  }

  function IndexRunAt(l: seq<IndexRun>, k: nat): IndexRun
    requires k < TotalIndexRuns(l)
  {
    if k < l[0].length then l[0] else IndexRunAt(l[1..], k - l[0].length)
  }

  lemma {:induction false} ExpandAt(l: seq<Run>, fmt: PixelFormat, k: nat)
    requires RunsFit(l, fmt) && k < TotalRuns(l)
    ensures RunAt(l, k) in l && Expand(l, fmt)[k] == Colour(RunAt(l, k).pixel, fmt)
  {
    hide Colour;
    if k >= l[0].length {
      ExpandAt(l[1..], fmt, k - l[0].length);
    }
  }

  lemma {:induction false} ExpandIndexedAt(l: seq<IndexRun>, colours: seq<Rgba>, k: nat)
    requires IndexRunsFit(l, |colours|) && k < TotalIndexRuns(l)
    ensures IndexRunAt(l, k) in l && ExpandIndexed(l, colours)[k] == colours[IndexRunAt(l, k).index]
  {
    if k >= l[0].length {
      ExpandIndexedAt(l[1..], colours, k - l[0].length);
    }
  }

  /** The colour of a point of a tile. */
  ghost function TileAt(t: Tile, b: Box, fmt: PixelFormat, px: int, py: int): Rgba
    requires Fits(t, b, fmt) && InRect(px, py, 0, 0, b.w, b.h)
  {
    IndexBounds(b.w, b.h, px, py);
    var k := Index(b.w, px, py);
    match t
    case Raw(data) => PixelOffset(k, Area(b), fmt.Bpp()); DecodePixel(data, k * fmt.Bpp(), fmt)
    case Solid(p) => Colour(p, fmt)
    case Packed(size, palette, data) => PackedColour(data, b, size, PaletteColours(palette, size, fmt), px, py)
    case PlainRle(l) => ExpandAt(l, fmt, k); Colour(RunAt(l, k).pixel, fmt)
    case PaletteRle(size, palette, l) =>
      ExpandIndexedAt(l, PaletteColours(palette, size, fmt), k);
      PaletteColours(palette, size, fmt)[IndexRunAt(l, k).index]
  }

  lemma PixelsAt(t: Tile, b: Box, fmt: PixelFormat, px: int, py: int)
    requires Fits(t, b, fmt) && InRect(px, py, 0, 0, b.w, b.h)
    ensures 0 <= Index(b.w, px, py) < |Pixels(t, b, fmt)|
    ensures Pixels(t, b, fmt)[Index(b.w, px, py)] == TileAt(t, b, fmt, px, py)
  {
    hide Colour, DecodePixel, PackedColour, PaletteColours;
    IndexBounds(b.w, b.h, px, py);
    var k := Index(b.w, px, py);
    match t {
      case Raw(data) => RawPixelsAt(data, Area(b), fmt, k);
      case Solid(_) =>
      case Packed(size, palette, data) => ModUnique(k, b.w, py, px);
      case PlainRle(l) => ExpandAt(l, fmt, k);
      case PaletteRle(size, palette, l) => ExpandIndexedAt(l, PaletteColours(palette, size, fmt), k);
    }
  }

  /** Every pixel of an accepted payload is the one the tile interpreter gives for its tile. */
  lemma PixelMeaning(src: seq<Byte>, fmt: PixelFormat, x: int, y: int, w: nat, h: nat, i: nat, px: int, py: int,
                     under: Rgba)
    requires fmt.Valid() && Parse(src, fmt.Bpp(), w, h).Some? && i < |Boxes(w, h)|
    requires var b := Boxes(w, h)[i]; InRect(px, py, 0, 0, b.w, b.h)
    ensures AllFit(Parse(src, fmt.Bpp(), w, h).value, Boxes(w, h), fmt) && AllValid(PayloadOps(src, fmt, x, y, w, h))
    ensures var b := Boxes(w, h)[i];
            Seen(PayloadOps(src, fmt, x, y, w, h), x + b.x + px, y + b.y + py, under)
            == TileAt(Parse(src, fmt.Bpp(), w, h).value[i], b, fmt, px, py)
  {
    hide TileAt, Groups, Flatten, Boxes, Parse;
    ParsedFit(src, fmt, w, h);
    OpsFillRect(src, fmt, x, y, w, h);
    TilesMeaning(Parse(src, fmt.Bpp(), w, h).value, fmt, x, y, w, h, i, px, py, under);
  }

  lemma TilesMeaning(tiles: seq<Tile>, fmt: PixelFormat, x: int, y: int, w: nat, h: nat, i: nat, px: int, py: int,
                     under: Rgba)
    requires AllFit(tiles, Boxes(w, h), fmt) && i < |Boxes(w, h)|
    requires var b := Boxes(w, h)[i]; InRect(px, py, 0, 0, b.w, b.h)
    ensures AllValid(Flatten(Groups(tiles, Boxes(w, h), x, y, fmt)))
    ensures var b := Boxes(w, h)[i];
            Seen(Flatten(Groups(tiles, Boxes(w, h), x, y, fmt)), x + b.x + px, y + b.y + py, under)
            == TileAt(tiles[i], b, fmt, px, py)
  {
    hide TileAt, TileOp, Flatten, Seen, BoxesFrom;
    var boxes := Boxes(w, h);
    var b := boxes[i];
    GroupsDraw(tiles, boxes, x, y, fmt);
    BoxesInside(w, h, SIZE, 0, 0);
    assert b in boxes;
    var k := UniqueBox(w, h, SIZE, b.x + px, b.y + py);
    SeenInTile(Groups(tiles, boxes, x, y, fmt), boxes, x, y, i, x + b.x + px, y + b.y + py, under, under);
    SeenInOp(tiles[i], b, x, y, fmt, px, py, under);
  }

  lemma SeenInOp(t: Tile, b: Box, x: int, y: int, fmt: PixelFormat, px: int, py: int, under: Rgba)
    requires Fits(t, b, fmt) && InRect(px, py, 0, 0, b.w, b.h)
    ensures AllValid([TileOp(t, b, x, y, fmt)])
    ensures Seen([TileOp(t, b, x, y, fmt)], x + b.x + px, y + b.y + py, under) == TileAt(t, b, fmt, px, py)
  {
    hide Pixels, Colour;
    PixelsAt(t, b, fmt, px, py);
    assert TileOp(t, b, x, y, fmt).Covers(x + b.x + px, y + b.y + py);
  }

  // ----- the parse, step by step

  lemma RunsUnfold(src: seq<Byte>, c: nat, remaining: nat, bpp: nat)
    ensures var r := ParseRuns(src, c, remaining, bpp);
      if remaining == 0 then r == Some(([], c))
      else
        var run := ParseRun(src, c, bpp);
        && (run.None? ==> r.None?)
        && (run.Some? && run.value.0.length > remaining ==> r.None?)
        && (run.Some? && run.value.0.length <= remaining ==>
             var rest := ParseRuns(src, run.value.1, remaining - run.value.0.length, bpp);
             r == if rest.Some? then Some(([run.value.0] + rest.value.0, rest.value.1)) else None)
  {
    hide ParseRun;
  }

  lemma IndexRunsUnfold(src: seq<Byte>, c: nat, remaining: nat, size: nat)
    ensures var r := ParseIndexRuns(src, c, remaining, size);
      if remaining == 0 then r == Some(([], c))
      else
        var run := ParseIndexRun(src, c);
        && (run.None? ==> r.None?)
        && (run.Some? && (run.value.0.index >= size || run.value.0.length > remaining) ==> r.None?)
        && (run.Some? && run.value.0.index < size && run.value.0.length <= remaining ==>
             var rest := ParseIndexRuns(src, run.value.1, remaining - run.value.0.length, size);
             r == if rest.Some? then Some(([run.value.0] + rest.value.0, rest.value.1)) else None)
  {
    hide ParseIndexRun;
  }

  lemma PackedIndexAt(src: seq<Byte>, start: nat, w: int, h: int, size: nat, col: int, row: int)
    requires 0 <= col < w && 0 <= row < h && 0 <= PackedBytes(w, h, size) && start + PackedBytes(w, h, size) <= |src|
    ensures var bits := BitsPerIndex(size);
      var at := start + PackedByte(w, bits, col, row);
      && start <= at < start + PackedBytes(w, h, size) && 0 <= PackedShift(bits, col)
      && PackedIndex(src[start..start + PackedBytes(w, h, size)], w, h, bits, col, row)
         == And(Shr(src[at], PackedShift(bits, col)), Pow2(bits) - 1)
  {
    var bits := BitsPerIndex(size);
    ColumnInRow(w, h, bits, col, row);
    hide RowBytes, And, Shr, PackedShift, PackedByte;
    AndAllOnes(Shr(src[start + PackedByte(w, bits, col, row)], PackedShift(bits, col)), bits);
  }

  lemma TilesUnfold(src: seq<Byte>, c: nat, bpp: nat, boxes: seq<Box>)
    requires (forall b :: b in boxes ==> Sensible(b)) && boxes != []
    ensures var r, t := ParseTiles(src, c, bpp, boxes), ParseTile(src, c, bpp, boxes[0]);
      && (t.None? ==> r.None?)
      && (t.Some? ==> var rest := ParseTiles(src, t.value.1, bpp, boxes[1..]);
           r == if rest.Some? then Some([t.value.0] + rest.value) else None)
  {
    hide ParseTile;
  }
}
