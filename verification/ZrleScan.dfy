/**
 The validating pass over ZRLE tile data in 32-bit arithmetic, on any payload, and when it agrees with
 the grammar. The two differ only where a run length leaves 31 bits.
 */
module ZrleScan {
  import opened Machine
  import opened Tiling
  import opened Zrle

  /** Payloads are smaller than the largest AssemblyScript buffer. */
  const MAX_BUFFER: int := 0x4000_0000

  // ----- run lengths

  /** The accumulator of the run-length loops as 32-bit arithmetic computes it, and where the loop stops. */
  function WrappedRunLength(src: seq<Byte>, c: nat, runLen: I32): (r: Option<(I32, nat)>)
    ensures r.Some? ==> c < r.value.1 <= |src|
    decreases |src| - c
  {
    if |src| < c + 1 then None
    else if src[c] != 255 then Some((ToI32(runLen + src[c]), c + 1))
    else WrappedRunLength(src, c + 1, ToI32(runLen + src[c]))
  }

  lemma {:induction false} WrappedRunLengthIs(src: seq<Byte>, c: nat, runLen: I32)
    ensures WrappedRunLength(src, c, runLen) ==
      match ParseExtra(src, c)
      case None => None
      case Some((n, end)) => Some((ToI32(runLen + n), end))
    decreases |src| - c
  {
    if c < |src| && src[c] == 255 {
      WrappedRunLengthIs(src, c + 1, ToI32(runLen + 255));
      if ParseExtra(src, c).Some? {
        WrapTwice(runLen + 255, ParseExtra(src, c + 1).value.0);
      }
    }
  }

  lemma WrapTwice(a: int, b: int)
    ensures ToI32(ToI32(a) + b) == ToI32(a + b)
  {
    var m := 0x1_0000_0000;
    var q := if a % m < 0x8000_0000 then a / m else a / m + 1;
    assert ToI32(a) == a - m * q;
    assert (a + b) % m == (a - m * q + b) % m by {
      var n := a - m * q + b;
      ModUnique(a + b, m, n / m + q, n % m);
    }
  }

  /** The 32-bit accumulator gives the true run length exactly when that length fits in 31 bits. */
  lemma RunLengthExactWhen(src: seq<Byte>, c: nat)
    requires ParseExtra(src, c).Some?
    ensures var (n, end) := ParseExtra(src, c).value;
      WrappedRunLength(src, c, 1) == Some((1 + n, end)) <==> 1 + n < 0x8000_0000
  {
    WrappedRunLengthIs(src, c, 1);
  }

  /** No run length in the payload, wherever it is read, leaves 31 bits. */
  ghost predicate NoLongRun(src: seq<Byte>) {
    forall c: nat {:trigger ParseExtra(src, c)} :: c <= |src| && ParseExtra(src, c).Some?
        ==> 1 + ParseExtra(src, c).value.0 < 0x8000_0000
  }

  ghost predicate ReadsExactly(src: seq<Byte>, c: nat) {
    match ParseExtra(src, c)
    case None => WrappedRunLength(src, c, 1) == None
    case Some((n, end)) => WrappedRunLength(src, c, 1) == Some((1 + n, end))
  }

  /** The reader is exact everywhere in a payload if and only if the payload has no overlong run length. */
  lemma ReaderExactWhen(src: seq<Byte>)
    ensures NoLongRun(src) <==> forall c: nat :: c <= |src| ==> ReadsExactly(src, c)
  {
    hide ParseExtra, WrappedRunLength;
    forall c: nat
      ensures ReadsExactly(src, c) <==> (ParseExtra(src, c).Some? ==> 1 + ParseExtra(src, c).value.0 < 0x8000_0000)
    {
      WrappedRunLengthIs(src, c, 1);
      if ParseExtra(src, c).Some? {
        RunLengthExactWhen(src, c);
      }
    }
  }

  /** A string of n bytes 255 at c. */
  predicate Full(src: seq<Byte>, c: nat, n: nat) {
    c + n <= |src| && forall i :: c <= i < c + n ==> src[i] == 255
  }

  lemma {:induction false} ExtraIsString(src: seq<Byte>, c: nat)
    requires ParseExtra(src, c).Some?
    ensures var (n, end) := ParseExtra(src, c).value; Full(src, c, end - 1 - c) && n < 255 * (end - c)
    decreases |src| - c
  {
    if src[c] == 255 {
      ExtraIsString(src, c + 1);
    }
  }

  /** What a caller can check: without 8421504 bytes 255 in a row no run length is overlong. */
  lemma ShortStringsSuffice(src: seq<Byte>)
    requires forall c: nat :: !Full(src, c, 0x80_8080)
    ensures NoLongRun(src)
  {
    forall c: nat | c <= |src| && ParseExtra(src, c).Some?
      ensures 1 + ParseExtra(src, c).value.0 < 0x8000_0000
    {
      ExtraIsString(src, c);
      assert !Full(src, c, 0x80_8080);
    }
  }

  /** A string of n bytes 255 followed by a smaller byte is read as one run length. */
  lemma {:induction false} StringRead(src: seq<Byte>, c: nat, n: nat)
    requires Full(src, c, n) && c + n < |src| && src[c + n] != 255
    ensures ParseExtra(src, c) == Some((255 * n + src[c + n], c + n + 1))
    decreases n
  {
    if n > 0 {
      StringRead(src, c + 1, n - 1);
    }
  }

  function Repeat(n: nat): (s: seq<Byte>)
    ensures |s| == n && forall i :: 0 <= i < n ==> s[i] == 255
  {
    seq(n, _ => 255)
  }

  /** The bound is sharp: 8421504 bytes 255 and 126 are read exactly, with 127 the length wraps to the least integer. */
  lemma LimitIsTight()
    ensures WrappedRunLength(Repeat(0x80_8080) + [126], 0, 1) == Some((0x7fff_ffff, 0x80_8081))
    ensures WrappedRunLength(Repeat(0x80_8080) + [127], 0, 1) == Some((-0x8000_0000, 0x80_8081))
  {
    hide ParseExtra, WrappedRunLength;
    var a, b: seq<Byte> := Repeat(0x80_8080) + [126], Repeat(0x80_8080) + [127];
    StringRead(a, 0, 0x80_8080);
    WrappedRunLengthIs(a, 0, 1);
    StringRead(b, 0, 0x80_8080);
    WrappedRunLengthIs(b, 0, 1);
  }

  /** The loop that reads the length bytes of a run. */
  method ReadRunLength(src: seq<Byte>, start: I32) returns (ok: bool, runLen: I32, cursor: I32)
    requires |src| < MAX_BUFFER && 0 <= start <= |src|
    ensures 0 <= cursor <= |src| && WrappedRunLength(src, start, 1) == if ok then Some((runLen, cursor)) else None
    ensures ok ==> start < cursor
  {
    cursor, runLen := start, 1;
    while true
      invariant start <= cursor <= |src|
      invariant WrappedRunLength(src, cursor, runLen) == WrappedRunLength(src, start, 1)
      decreases |src| - cursor
    {
      if |src| < cursor + 1 { return false, runLen, cursor; }
      var val := src[cursor];
      cursor := cursor + 1;
      runLen := ToI32(runLen + val);
      if val != 255 { break; }
    }
    return true, runLen, cursor;
  }

  // ----- run-length tiles

  /** The plain run-length loop from the state (c, pixels): where it stops, or None if it rejects. */
  function ScanRuns(src: seq<Byte>, c: nat, pixels: I32, totalPixels: I32, bpp: nat): Option<nat>
    decreases |src| - c
  {
    if pixels >= totalPixels then Some(c)
    else if |src| < c + bpp then None
    else
      match WrappedRunLength(src, c + bpp, 1)
      case None => None
      case Some((runLen, end)) =>
        if runLen > ToI32(totalPixels - pixels) then None
        else ScanRuns(src, end, ToI32(pixels + runLen), totalPixels, bpp)
  }

  /** Where a parse of a tile's runs ends. */
  function EndOf<T>(r: Option<(T, nat)>): Option<nat> {
    match r
    case None => None
    case Some((_, end)) => Some(end)
  }

  /** The loop ends where the grammar does, if no run length is overlong or the runs parse. */
  lemma {:induction false} RunsScanned(src: seq<Byte>, c: nat, remaining: nat, totalPixels: I32, bpp: nat)
    requires remaining <= totalPixels <= 4096
    requires NoLongRun(src) || ParseRuns(src, c, remaining, bpp).Some?
    ensures ScanRuns(src, c, totalPixels - remaining, totalPixels, bpp) == EndOf(ParseRuns(src, c, remaining, bpp))
    decreases remaining
  {
    hide ParseExtra, WrappedRunLength, ParseRuns, ToI32;
    RunsUnfold(src, c, remaining, bpp);
    if remaining > 0 && c + bpp <= |src| {
      WrappedRunLengthIs(src, c + bpp, 1);
      Fits31(remaining);
      match ParseExtra(src, c + bpp)
      case None =>
      case Some((n, end)) =>
        Fits31(1 + n);
        if 1 + n <= remaining {
          Fits31(totalPixels - remaining + 1 + n);
          hide NoLongRun;
          RunsScanned(src, end, remaining - (1 + n), totalPixels, bpp);
        }
    }
  }

  lemma Fits31(x: int)
    ensures -0x8000_0000 <= x < 0x8000_0000 <==> ToI32(x) == x
  {
  }

  method ValidatePlain(src: seq<Byte>, start: I32, bpp: I32, totalPixels: I32) returns (ok: bool, cursor: I32)
    requires 1 <= bpp <= 4 && |src| < MAX_BUFFER && 0 <= start <= |src|
    ensures 0 <= cursor <= |src| && ScanRuns(src, start, 0, totalPixels, bpp) == if ok then Some(cursor) else None
  {
    hide WrappedRunLength;
    cursor := start;
    var pixels: I32 := 0;
    while pixels < totalPixels
      invariant 0 <= cursor <= |src|
      invariant ScanRuns(src, cursor, pixels, totalPixels, bpp) == ScanRuns(src, start, 0, totalPixels, bpp)
      decreases |src| - cursor
    {
      if |src| < cursor + bpp { return false, cursor; }
      cursor := cursor + bpp;
      var runLen;
      ok, runLen, cursor := ReadRunLength(src, cursor);
      if !ok { return false, cursor; }
      if runLen > ToI32(totalPixels - pixels) { return false, cursor; }
      pixels := ToI32(pixels + runLen);
    }
    return true, cursor;
  }

  /** A palette index, the run length that follows if its high bit is set, and where the next run starts. */
  function ScanIndexRun(src: seq<Byte>, c: nat): (r: Option<(I32, I32, nat)>)
    ensures r.Some? ==> c < r.value.2 <= |src| && 0 <= r.value.0 < 128
  {
    if |src| < c + 1 then None
    else if src[c] < 128 then Some((src[c], 1, c + 1))
    else
      match WrappedRunLength(src, c + 1, 1)
      case None => None
      case Some((runLen, end)) => Some((src[c] - 128, runLen, end))
  }

  method ReadIndexRun(src: seq<Byte>, start: I32) returns (ok: bool, palIdx: I32, runLen: I32, cursor: I32)
    requires |src| < MAX_BUFFER && 0 <= start < |src|
    ensures 0 <= cursor <= |src| && ScanIndexRun(src, start) == if ok then Some((palIdx, runLen, cursor)) else None
  {
    hide WrappedRunLength;
    var idxByte: I32 := src[start];
    ok, palIdx, runLen, cursor := true, idxByte, 1, start + 1;
    if idxByte >= 128 {
      palIdx := idxByte % 128;
      ok, runLen, cursor := ReadRunLength(src, cursor);
    }
  }

  function ScanIndexRuns(src: seq<Byte>, c: nat, pixels: I32, totalPixels: I32, size: nat): Option<nat>
    decreases |src| - c
  {
    if pixels >= totalPixels then Some(c)
    else
      match ScanIndexRun(src, c)
      case None => None
      case Some((palIdx, runLen, end)) =>
        if palIdx >= size || runLen > ToI32(totalPixels - pixels) then None
        else ScanIndexRuns(src, end, ToI32(pixels + runLen), totalPixels, size)
  }

  lemma IndexRunScanned(src: seq<Byte>, c: nat)
    ensures match ParseIndexRun(src, c)
      case None => ScanIndexRun(src, c) == None
      case Some((r, end)) => ScanIndexRun(src, c) == Some((r.index, ToI32(r.length), end))
  {
    hide ParseExtra, WrappedRunLength;
    if c < |src| {
      WrappedRunLengthIs(src, c + 1, 1);
    }
  }

  lemma IndexRunFits(src: seq<Byte>, c: nat)
    requires NoLongRun(src) && ParseIndexRun(src, c).Some?
    ensures ParseIndexRun(src, c).value.0.length < 0x8000_0000
  {
    hide ParseExtra;
  }

  lemma {:induction false} IndexRunsScanned(src: seq<Byte>, c: nat, remaining: nat, totalPixels: I32, size: nat)
    requires remaining <= totalPixels <= 4096
    requires NoLongRun(src) || ParseIndexRuns(src, c, remaining, size).Some?
    ensures ScanIndexRuns(src, c, totalPixels - remaining, totalPixels, size)
        == EndOf(ParseIndexRuns(src, c, remaining, size))
    decreases remaining
  {
    hide ParseIndexRun, ScanIndexRun, NoLongRun, ParseIndexRuns, ToI32;
    IndexRunsUnfold(src, c, remaining, size);
    if remaining > 0 {
      IndexRunScanned(src, c);
      Fits31(remaining);
      match ParseIndexRun(src, c)
      case None =>
      case Some((r, end)) =>
        if NoLongRun(src) {
          IndexRunFits(src, c);
        }
        Fits31(r.length);
        Fits31(totalPixels - remaining + r.length);
        if r.index < size && r.length <= remaining {
          IndexRunsScanned(src, end, remaining - r.length, totalPixels, size);
        }
    }
  }

  method ValidatePaletteRle(src: seq<Byte>, start: I32, paletteSize: I32, totalPixels: I32)
    returns (ok: bool, cursor: I32)
    requires |src| < MAX_BUFFER && 0 <= start <= |src| && 0 <= paletteSize
    ensures 0 <= cursor <= |src|
    ensures ScanIndexRuns(src, start, 0, totalPixels, paletteSize) == if ok then Some(cursor) else None
  {
    hide ScanIndexRun;
    cursor := start;
    var pixels: I32 := 0;
    while pixels < totalPixels
      invariant 0 <= cursor <= |src|
      invariant ScanIndexRuns(src, cursor, pixels, totalPixels, paletteSize)
          == ScanIndexRuns(src, start, 0, totalPixels, paletteSize)
      decreases |src| - cursor
    {
      if |src| < cursor + 1 {
        NothingToScan(src, cursor);
        return false, cursor;
      }
      var palIdx, runLen;
      ok, palIdx, runLen, cursor := ReadIndexRun(src, cursor);
      if !ok { return false, cursor; }
      if palIdx >= paletteSize { return false, cursor; }
      if runLen > ToI32(totalPixels - pixels) { return false, cursor; }
      pixels := ToI32(pixels + runLen);
    }
    return true, cursor;
  }

  lemma NothingToScan(src: seq<Byte>, c: nat)
    requires |src| < c + 1
    ensures ScanIndexRun(src, c) == None
  {
  }

  // ----- tiles

  method ValidatePacked(src: seq<Byte>, start: I32, bpp: I32, paletteSize: I32, tileW: I32, tileH: I32, ghost b: Box)
    returns (ok: bool, cursor: I32)
    requires 1 <= bpp <= 4 && |src| < MAX_BUFFER && 0 <= start <= |src| && 2 <= paletteSize <= 16
    requires Sensible(b) && b.w == tileW && b.h == tileH
    ensures 0 <= cursor <= |src|
    ensures EndOf(ParsePacked(src, start, bpp, paletteSize, b)) == if ok then Some(cursor) else None
  {
    hide And, Shr, Pow2, PackedIndex, PackedByte, PackedShift, RowBytes;
    PackedFits(b, paletteSize);
    cursor := start;
    var bitsPerIdx: I32 := BitsPerIndex(paletteSize);
    var rowBytes: I32 := RowBytes(tileW, bitsPerIdx);
    var packedLen: I32 := rowBytes * tileH;
    MulMono(paletteSize, bpp, 16, 4);
    var paletteLen: I32 := paletteSize * bpp;
    assert packedLen == PackedBytes(tileW, tileH, paletteSize) && paletteLen == PaletteBytes(paletteSize, bpp);
    hide PackedBytes, PaletteBytes;
    if |src| < cursor + paletteLen + packedLen { return false, cursor; }
    var packedStart: I32 := cursor + paletteLen;
    ghost var data := src[packedStart..packedStart + packedLen];
    for row := 0 to tileH
      invariant forall c, r :: 0 <= c < tileW && 0 <= r < row ==>
          PackedIndex(data, tileW, tileH, bitsPerIdx, c, r) < paletteSize
    {
      for col := 0 to tileW
        invariant forall c, r :: 0 <= c < tileW && 0 <= r < row ==>
            PackedIndex(data, tileW, tileH, bitsPerIdx, c, r) < paletteSize
        invariant forall c :: 0 <= c < col ==> PackedIndex(data, tileW, tileH, bitsPerIdx, c, row) < paletteSize
      {
        PackedIndexAt(src, packedStart, tileW, tileH, paletteSize, col, row);
        var byteIdx: I32 := packedStart + PackedByte(tileW, bitsPerIdx, col, row);
        var shift := PackedShift(bitsPerIdx, col);
        var palIdx := And(Shr(src[byteIdx], shift), Pow2(bitsPerIdx) - 1);
        if palIdx >= paletteSize { return false, cursor; }
      }
    }
    return true, packedStart + packedLen;
  }

  /** Where one tile ends for the validating pass, or None if it rejects. */
  ghost function ScanTile(src: seq<Byte>, c: nat, bpp: nat, b: Box): Option<nat>
    requires Sensible(b)
  {
    AreaFits(b, bpp);
    if |src| < c + 1 then None
    else
      var size, rle, at := src[c] % 128, src[c] >= 128, c + 1;
      if !rle && size == 0 then (if |src| < at + RawBytes(b, bpp) then None else Some(at + RawBytes(b, bpp)))
      else if !rle && size == 1 then (if |src| < at + bpp then None else Some(at + bpp))
      else if !rle && size <= 16 then EndOf(ParsePacked(src, at, bpp, size, b))
      else if rle && size == 0 then ScanRuns(src, at, 0, Area(b), bpp)
      else if rle && size >= 2 then
        if |src| < at + PaletteBytes(size, bpp) then None
        else ScanIndexRuns(src, at + PaletteBytes(size, bpp), 0, Area(b), size)
      else None
  }

  lemma TileScanned(src: seq<Byte>, c: nat, bpp: nat, b: Box)
    requires Sensible(b) && (NoLongRun(src) || ParseTile(src, c, bpp, b).Some?)
    ensures ScanTile(src, c, bpp, b) == EndOf(ParseTile(src, c, bpp, b))
  {
    hide ParsePacked, ParseRuns, ParseIndexRuns, ScanRuns, ScanIndexRuns, NoLongRun, RawBytes, PaletteBytes;
    AreaFits(b, bpp);
    if c < |src| {
      var size, at := src[c] % 128, c + 1;
      if NoLongRun(src) || ParseRuns(src, at, Area(b), bpp).Some? {
        RunsScanned(src, at, Area(b), Area(b), bpp);
      }
      if NoLongRun(src) || ParseIndexRuns(src, at + PaletteBytes(size, bpp), Area(b), size).Some? {
        IndexRunsScanned(src, at + PaletteBytes(size, bpp), Area(b), Area(b), size);
      }
      hide Area;
    }
  }

  method ValidateTile(src: seq<Byte>, start: I32, bpp: I32, tileW: I32, tileH: I32, ghost b: Box)
    returns (ok: bool, cursor: I32)
    requires 1 <= bpp <= 4 && |src| < MAX_BUFFER && 0 <= start <= |src|
    requires Sensible(b) && b.w == tileW && b.h == tileH
    ensures 0 <= cursor <= |src| && ScanTile(src, start, bpp, b) == if ok then Some(cursor) else None
  {
    hide ParsePacked, ScanRuns, ScanIndexRuns;
    AreaFits(b, bpp);
    cursor := start;
    if |src| < cursor + 1 { return false, cursor; }
    var subenc: I32 := src[cursor];
    cursor := cursor + 1;
    var paletteSize: I32 := subenc % 128;
    var rle := subenc >= 128;
    var totalPixels: I32 := tileW * tileH;
    var rawLen: I32 := totalPixels * bpp;
    assert totalPixels == Area(b) && rawLen == RawBytes(b, bpp);
    hide Area, RawBytes;
    if !rle && paletteSize == 0 {
      if |src| < cursor + rawLen { return false, cursor; }
      return true, cursor + rawLen;
    }
    if !rle && paletteSize == 1 {
      if |src| < cursor + bpp { return false, cursor; }
      return true, cursor + bpp;
    }
    if !rle && paletteSize > 1 && paletteSize <= 16 {
      ok, cursor := ValidatePacked(src, cursor, bpp, paletteSize, tileW, tileH, b);
      return ok, cursor;
    }
    if rle && paletteSize == 0 {
      ok, cursor := ValidatePlain(src, cursor, bpp, totalPixels);
      return ok, cursor;
    }
    if rle && paletteSize >= 2 {
      MulMono(paletteSize, bpp, 127, 4);
      var paletteLen: I32 := paletteSize * bpp;
      if |src| < cursor + paletteLen { return false, cursor; }
      cursor := cursor + paletteLen;
      ok, cursor := ValidatePaletteRle(src, cursor, paletteSize, totalPixels);
      return ok, cursor;
    }
    return false, cursor;
  }

  /** The tile walk of the validating pass from cursor c. */
  ghost predicate ScanTiles(src: seq<Byte>, c: nat, bpp: nat, boxes: seq<Box>)
    requires forall b :: b in boxes ==> Sensible(b)
    decreases |boxes|
  {
    if boxes == [] then c == |src|
    else
      match ScanTile(src, c, bpp, boxes[0])
      case None => false
      case Some(end) => ScanTiles(src, end, bpp, boxes[1..])
  }

  /** Whether the validating pass accepts a payload. */
  ghost predicate Scan(src: seq<Byte>, bpp: nat, w: nat, h: nat) {
    ScanTiles(src, 0, bpp, Boxes(w, h))
  }

  lemma {:induction false} TilesScanned(src: seq<Byte>, c: nat, bpp: nat, boxes: seq<Box>)
    requires (forall b :: b in boxes ==> Sensible(b)) && (NoLongRun(src) || ParseTiles(src, c, bpp, boxes).Some?)
    ensures ScanTiles(src, c, bpp, boxes) <==> ParseTiles(src, c, bpp, boxes).Some?
    decreases |boxes|
  {
    hide ParseTile, ScanTile, NoLongRun;
    if boxes != [] {
      TileScanned(src, c, bpp, boxes[0]);
      if ParseTile(src, c, bpp, boxes[0]).Some? {
        TilesScanned(src, ParseTile(src, c, bpp, boxes[0]).value.1, bpp, boxes[1..]);
      }
    }
  }

  /** The validating pass accepts every payload that parses, and no other unless some run length is overlong. */
  lemma ScanIsParse(src: seq<Byte>, bpp: nat, w: nat, h: nat)
    ensures Parse(src, bpp, w, h).Some? ==> Scan(src, bpp, w, h)
    ensures NoLongRun(src) ==> (Scan(src, bpp, w, h) <==> Parse(src, bpp, w, h).Some?)
  {
    hide ParseTiles, ScanTiles, NoLongRun, Boxes;
    if NoLongRun(src) || Parse(src, bpp, w, h).Some? {
      TilesScanned(src, 0, bpp, Boxes(w, h));
    }
  }

  method ValidateZrleTileDataPayload(src: seq<Byte>, bpp: I32, w: I32, h: I32) returns (ok: bool)
    requires 1 <= bpp <= 4 && |src| < MAX_BUFFER && 0 <= w < 0x1_0000 && 0 <= h < 0x1_0000
    ensures ok <==> Scan(src, bpp, w, h)
  {
    hide ScanTile;
    var cursor: I32 := 0;
    var tileY: I32 := 0;
    ghost var boxes := Boxes(w, h);
    while tileY < h
      invariant 0 <= tileY && 0 <= cursor <= |src|
      invariant boxes == BoxesFrom(w, h, SIZE, 0, tileY) && forall b :: b in boxes ==> Sensible(b)
      invariant ScanTiles(src, cursor, bpp, boxes) <==> Scan(src, bpp, w, h)
      decreases h - tileY
    {
      var tileH: I32 := Min(64, h - tileY);
      var tileX: I32 := 0;
      while tileX < w
        invariant 0 <= tileX && 0 <= cursor <= |src|
        invariant boxes == BoxesFrom(w, h, SIZE, tileX, tileY) && forall b :: b in boxes ==> Sensible(b)
        invariant ScanTiles(src, cursor, bpp, boxes) <==> Scan(src, bpp, w, h)
        decreases w - tileX
      {
        var tileW: I32 := Min(64, w - tileX);
        var valid, next := ValidateTile(src, cursor, bpp, tileW, tileH, boxes[0]);
        if !valid { return false; }
        cursor := next;
        tileX := tileX + 64;
        boxes := boxes[1..];
      }
      tileY := tileY + 64;
    }
    return cursor == |src|;
  }
}
