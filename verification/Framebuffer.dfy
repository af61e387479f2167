/**
 The RGBA framebuffer and the rectangle decoders that write it in place. The bytes live in `fb`;
 the ghost grid `view` is what they show, one packed pixel per point.
 */
module Framebuffers {
  import opened Machine
  import opened PixelFormats
  import opened Canvas
  import opened Tiling
  import Rre
  import Hextile
  import Zrle
  import ZrlePaint
  import ZrleScan

  const ACCEPTED: I32 := 0
  const REJECTED: I32 := -1

  /** A packed pixel in memory order: red, green, blue, alpha. */
  function Memory(c: Rgba): (m: seq<Byte>)
    ensures |m| == 4
  {
    [c % 0x100, c / 0x100 % 0x100, c / 0x1_0000 % 0x100, c / 0x100_0000 % 0x100]
  }

  lemma MemoryIs(c: Rgba)
    ensures Memory(c) == [ByteOf(c, 0), ByteOf(c, 8), ByteOf(c, 16), ByteOf(c, 24)]
  {
    BytePowers();
    hide ByteOf;
  }

  lemma OffsetFits(w: int, h: int, x: int, y: int)
    requires 0 <= x < w && 0 <= y < h
    ensures 0 <= 4 * Index(w, x, y) && 4 * Index(w, x, y) + 4 <= 4 * (w * h)
  {
    IndexBounds(w, h, x, y);
  }

  /** The four bytes at (x, y) of a surface of width w are those of pixel c. */
  ghost predicate Shows(bytes: seq<Byte>, w: int, x: int, y: int, c: Rgba) {
    var i := 4 * Index(w, x, y);
    0 <= i && i + 4 <= |bytes| && bytes[i..i + 4] == Memory(c)
  }

  /** The bytes are exactly those of the grid. */
  ghost predicate Holds(bytes: seq<Byte>, w: int, h: int, g: Grid) {
    && 0 <= w && 0 <= h && |bytes| == 4 * (w * h) && HasSize(g, w, h)
    && forall x, y {:trigger g[y][x]} :: InRect(x, y, 0, 0, w, h) ==> Shows(bytes, w, x, y, g[y][x])
  }

  lemma HoldsSize(b: seq<Byte>, w: int, h: int, g: Grid)
    requires Holds(b, w, h, g)
    ensures 0 <= w && 0 <= h && |b| == 4 * (w * h) && HasSize(g, w, h)
  {
  }

  lemma SameOutside(b: seq<Byte>, b': seq<Byte>, at: int, n: int, i: int)
    requires |b| == |b'| && 0 <= at && 0 <= n && at + n <= |b| && 0 <= i && i + 4 <= |b|
    requires b'[..at] == b[..at] && b'[at + n..] == b[at + n..] && (i + 4 <= at || at + n <= i)
    ensures b'[i..i + 4] == b[i..i + 4]
  {
    if i + 4 <= at {
      assert b'[i..i + 4] == b'[..at][i..i + 4] && b[i..i + 4] == b[..at][i..i + 4];
    } else {
      var k := i - (at + n);
      assert b'[i..i + 4] == b'[at + n..][k..k + 4] && b[i..i + 4] == b[at + n..][k..k + 4];
    }
  }

  /** Overwriting the four bytes of one pixel sets that pixel of the grid and no other. */
  lemma HoldsSet(b: seq<Byte>, b': seq<Byte>, w: int, h: int, g: Grid, x: int, y: int, c: Rgba)
    requires Holds(b, w, h, g) && InRect(x, y, 0, 0, w, h) && |b'| == |b| && Shows(b', w, x, y, c)
    requires var i := 4 * Index(w, x, y); b'[..i] == b[..i] && b'[i + 4..] == b[i + 4..]
    ensures Holds(b', w, h, Set(g, x, y, c))
  {
    hide Memory;
    var g' := Set(g, x, y, c);
    forall qx, qy | InRect(qx, qy, 0, 0, w, h)
      ensures Shows(b', w, qx, qy, g'[qy][qx])
    {
      OffsetFits(w, h, qx, qy);
      IndexInjective(w, x, y, qx, qy);
      assert Shows(b, w, qx, qy, g[qy][qx]);
      if qx != x || qy != y {
        SameOutside(b, b', 4 * Index(w, x, y), 4, 4 * Index(w, qx, qy));
      }
    }
  }

  /** The grid is determined by the bytes, and the bytes by the grid. */
  lemma HoldsUnique(b: seq<Byte>, b': seq<Byte>, w: int, h: int, g: Grid)
    requires Holds(b, w, h, g) && Holds(b', w, h, g)
    ensures b == b'
  {
    hide Memory;
    forall j | 0 <= j < |b|
      ensures b[j] == b'[j]
    {
      var x, y := (j / 4) % w, (j / 4) / w;
      PointOf(w, h, j / 4);
      assert Shows(b, w, x, y, g[y][x]) && Shows(b', w, x, y, g[y][x]);
      assert j == 4 * Index(w, x, y) + j % 4;
      assert b[j] == Memory(g[y][x])[j % 4];
    }
  }

  /** A surface of zero bytes: transparent black everywhere. */
  ghost function Blank(w: nat, h: nat): Grid {
    var blank: Rgba := 0;
    var row: seq<Rgba> := seq(w, _ => blank);
    seq(h, _ => row)
  }

  lemma BlankHolds(b: seq<Byte>, w: nat, h: nat)
    requires |b| == 4 * (w * h)
    requires forall j :: 0 <= j < |b| ==> b[j] == 0
    ensures Holds(b, w, h, Blank(w, h))
  {
    var g := Blank(w, h);
    forall x, y | InRect(x, y, 0, 0, w, h)
      ensures Shows(b, w, x, y, g[y][x])
    {
      OffsetFits(w, h, x, y);
    }
  }

  // ----- copying rows of bytes

  /** Equal bytes show equal pixels, wherever the two rows lie. */
  lemma CopiedBytesShow(b: seq<Byte>, w: int, x: int, y: int, b': seq<Byte>, w': int, x': int, y': int, n: int, i: int,
                        c: Rgba)
    requires 0 <= i < n && Shows(b, w, x + i, y, c)
    requires 0 <= 4 * Index(w', x', y') && 4 * Index(w', x', y') + 4 * n <= |b'|
    requires 0 <= 4 * Index(w, x, y) && 4 * Index(w, x, y) + 4 * n <= |b|
    requires var to, from := 4 * Index(w', x', y'), 4 * Index(w, x, y); b'[to..to + 4 * n] == b[from..from + 4 * n]
    ensures Shows(b', w', x' + i, y', c)
  {
    hide Memory;
    var at, from := 4 * Index(w', x', y'), 4 * Index(w, x, y);
    SliceOfSlice(b', at, 4 * n, 4 * i, 4);
    SliceOfSlice(b, from, 4 * n, 4 * i, 4);
  }

  lemma RowFits(w: int, h: int, x: int, y: int, n: int)
    requires 0 <= x && 0 <= n && x + n <= w && 0 <= y < h
    ensures 0 <= 4 * Index(w, x, y) && 4 * Index(w, x, y) + 4 * n <= 4 * (w * h)
  {
    MulMono(y, w, h - 1, w);
  }

  ghost predicate StagedAt(tmp: seq<Byte>, w: int, g: Grid, sx: int, sy: int, c: int, r: int)
    requires 0 <= sy + r < |g| && 0 <= sx + c < |g[sy + r]|
  {
    Shows(tmp, w, c, r, g[sy + r][sx + c])
  }

  /** The first `rows` rows of the block at (sx, sy) are staged in a buffer of width w. */
  ghost predicate Staged(tmp: seq<Byte>, w: int, h: int, g: Grid, gw: int, gh: int, sx: int, sy: int, rows: int) {
    && |tmp| == 4 * (w * h) && HasSize(g, gw, gh) && LocalRectInside(gw, gh, sx, sy, w, h) && rows <= h
    && forall c, r :: InRect(c, r, 0, 0, w, rows) ==> StagedAt(tmp, w, g, sx, sy, c, r)
  }

  lemma StagedNext(t: seq<Byte>, t': seq<Byte>, w: int, h: int, b: seq<Byte>, g: Grid, gw: int, gh: int, sx: int,
                   sy: int, row: int)
    requires Staged(t, w, h, g, gw, gh, sx, sy, row) && Holds(b, gw, gh, g) && |t'| == |t| && 0 <= row < h
    requires 0 <= 4 * Index(w, 0, row) && 4 * Index(w, 0, row) + 4 * w <= |t|
    requires 0 <= 4 * Index(gw, sx, sy + row) && 4 * Index(gw, sx, sy + row) + 4 * w <= |b|
    requires var to := 4 * Index(w, 0, row); t'[..to] == t[..to]
    requires var to, from := 4 * Index(w, 0, row), 4 * Index(gw, sx, sy + row);
      t'[to..to + 4 * w] == b[from..from + 4 * w]
    ensures Staged(t', w, h, g, gw, gh, sx, sy, row + 1)
  {
    hide Memory;
    forall c, r | InRect(c, r, 0, 0, w, row + 1)
      ensures StagedAt(t', w, g, sx, sy, c, r)
    {
      if r < row {
        IndexInjective(w, c, r, 0, row);
        OffsetFits(w, h, c, r);
        assert StagedAt(t, w, g, sx, sy, c, r);
        var i, to := 4 * Index(w, c, r), 4 * Index(w, 0, row);
        assert t'[i..i + 4] == t'[..to][i..i + 4] && t[i..i + 4] == t[..to][i..i + 4];
      } else {
        assert Shows(b, gw, sx + c, sy + row, g[sy + row][sx + c]);
        CopiedBytesShow(b, gw, sx, sy + row, t', w, 0, row, w, c, g[sy + row][sx + c]);
      }
    }
  }

  /** A grid whose row y shows `row` from column x on. */
  ghost function WithRow(g: Grid, x: int, y: int, row: seq<Rgba>): Grid
    requires 0 <= y < |g| && 0 <= x && x + |row| <= |g[y]|
  {
    var line: seq<Rgba> := g[y][..x] + row + g[y][x + |row|..];
    g[y := line]
  }

  lemma HoldsRow(b: seq<Byte>, b': seq<Byte>, w: int, h: int, g: Grid, x: int, y: int, row: seq<Rgba>)
    requires Holds(b, w, h, g) && |b'| == |b| && 0 <= y < h && 0 <= x && x + |row| <= w
    requires forall i :: 0 <= i < |row| ==> Shows(b', w, x + i, y, row[i])
    requires 0 <= 4 * Index(w, x, y) && 4 * Index(w, x, y) + 4 * |row| <= |b|
    requires var at := 4 * Index(w, x, y); b'[..at] == b[..at] && b'[at + 4 * |row|..] == b[at + 4 * |row|..]
    ensures Holds(b', w, h, WithRow(g, x, y, row))
  {
    hide Memory;
    var g' := WithRow(g, x, y, row);
    forall qx, qy | InRect(qx, qy, 0, 0, w, h)
      ensures Shows(b', w, qx, qy, g'[qy][qx])
    {
      if qy == y && x <= qx < x + |row| {
        assert Shows(b', w, x + (qx - x), y, row[qx - x]);
      } else {
        OffsetFits(w, h, qx, qy);
        if |row| > 0 {
          IndexInjective(w, qx, qy, x, y);
          IndexInjective(w, x + |row| - 1, y, qx, qy);
        }
        assert Shows(b, w, qx, qy, g[qy][qx]);
        var at, i := 4 * Index(w, x, y), 4 * Index(w, qx, qy);
        SameOutside(b, b', at, 4 * |row|, i);
      }
    }
  }

  /** The rows above `rows` of the destination show the source block of the original grid. */
  ghost predicate Moved(g0: Grid, g: Grid, gw: int, gh: int, dx: int, dy: int, sx: int, sy: int, w: int, h: int,
                        rows: int) {
    && HasSize(g0, gw, gh) && HasSize(g, gw, gh) && LocalRectInside(gw, gh, dx, dy, w, h)
    && LocalRectInside(gw, gh, sx, sy, w, h) && 0 <= rows <= h
    && forall px, py {:trigger g[py][px]} :: InRect(px, py, 0, 0, gw, gh) ==>
         g[py][px] == if InRect(px, py, dx, dy, w, rows) then g0[sy + (py - dy)][sx + (px - dx)] else g0[py][px]
  }

  lemma MovedNext(g0: Grid, g: Grid, gw: int, gh: int, dx: int, dy: int, sx: int, sy: int, w: int, h: int, row: int)
    requires Moved(g0, g, gw, gh, dx, dy, sx, sy, w, h, row) && row < h
    ensures 0 <= dy + row < |g| && 0 <= dx && dx + w <= |g[dy + row]| && 0 <= sy + row < |g0|
    ensures 0 <= sx <= sx + w <= |g0[sy + row]| && |g0[sy + row][sx..sx + w]| == w
    ensures Moved(g0, WithRow(g, dx, dy + row, g0[sy + row][sx..sx + w]), gw, gh, dx, dy, sx, sy, w, h, row + 1)
  {
    var g' := WithRow(g, dx, dy + row, g0[sy + row][sx..sx + w]);
    forall px, py {:trigger g'[py][px]} | InRect(px, py, 0, 0, gw, gh)
      ensures g'[py][px]
           == if InRect(px, py, dx, dy, w, row + 1) then g0[sy + (py - dy)][sx + (px - dx)] else g0[py][px]
    {
      if py != dy + row {
        assert g'[py][px] == g[py][px];
      }
    }
  }

  lemma CopyStarts(tmp: seq<Byte>, w: int, h: int, g: Grid, gw: int, gh: int, dx: int, dy: int, sx: int, sy: int)
    requires |tmp| == 4 * (w * h) && HasSize(g, gw, gh)
    requires LocalRectInside(gw, gh, dx, dy, w, h) && LocalRectInside(gw, gh, sx, sy, w, h)
    ensures Staged(tmp, w, h, g, gw, gh, sx, sy, 0) && Moved(g, g, gw, gh, dx, dy, sx, sy, w, h, 0)
  {
  }

  /** Storing a staged row over the surface shows that row of the original grid. */
  lemma StoredRow(tmp: seq<Byte>, b: seq<Byte>, b': seq<Byte>, g0: Grid, g: Grid, gw: int, gh: int,
                  dx: int, dy: int, sx: int, sy: int, w: int, h: int, row: int)
    requires Staged(tmp, w, h, g0, gw, gh, sx, sy, h) && Holds(b, gw, gh, g) && |b'| == |b| && 0 <= row < h
    requires LocalRectInside(gw, gh, dx, dy, w, h)
    requires 0 <= 4 * Index(w, 0, row) && 4 * Index(w, 0, row) + 4 * w <= |tmp|
    requires 0 <= 4 * Index(gw, dx, dy + row) && 4 * Index(gw, dx, dy + row) + 4 * w <= |b|
    requires var to, from := 4 * Index(gw, dx, dy + row), 4 * Index(w, 0, row);
             b'[to..to + 4 * w] == tmp[from..from + 4 * w] && b'[..to] == b[..to] && b'[to + 4 * w..] == b[to + 4 * w..]
    ensures Holds(b', gw, gh, WithRow(g, dx, dy + row, g0[sy + row][sx..sx + w]))
  {
    hide Memory;
    var line := g0[sy + row][sx..sx + w];
    forall i | 0 <= i < w
      ensures Shows(b', gw, dx + i, dy + row, line[i])
    {
      assert StagedAt(tmp, w, g0, sx, sy, i, row);
      CopiedBytesShow(tmp, w, 0, row, b', gw, dx, dy + row, w, i, line[i]);
    }
    HoldsRow(b, b', gw, gh, g, dx, dy + row, line);
  }

  class Framebuffer {
    var fbWidth: I32
    var fbHeight: I32
    var fb: array<Byte>
    ghost var view: Grid

    /** Dimensions are 16-bit on the wire (section 7.3.2 of RFC 6143), and the bytes fit a 32-bit index. */
    ghost predicate Valid()
      reads this, fb
    {
      && fbWidth < 0x1_0000 && fbHeight < 0x1_0000
      && 4 * (fbWidth * fbHeight) < 0x8000_0000 && Holds(fb[..], fbWidth, fbHeight, view)
    }

    constructor ()
      ensures Valid() && fbWidth == 0 && fbHeight == 0 && view == [] && fresh(fb)
    {
      fbWidth, fbHeight := 0, 0;
      fb := new Byte[0];
      view := [];
    }

    method InitFramebuffer(width: I32, height: I32)
      requires 0 <= width < 0x1_0000 && 0 <= height < 0x1_0000 && 4 * (width * height) < 0x8000_0000
      modifies this
      ensures Valid() && fbWidth == width && fbHeight == height && fresh(fb)
      ensures view == Blank(width, height)
    {
      hide Holds;
      fbWidth := width;
      fbHeight := height;
      MulMono(0, 0, width, height);
      var length: I32 := width * height * 4;
      var zero: Byte := 0;
      fb := new Byte[length](_ => zero);
      view := Blank(width, height);
      BlankHolds(fb[..], width, height);
    }

    method SetPixel(x: I32, y: I32, packed: Rgba)
      requires Valid() && InRect(x, y, 0, 0, fbWidth, fbHeight)
      modifies `view, fb
      ensures Valid() && view == Set(old(view), x, y, packed)
    {
      OffsetFits(fbWidth, fbHeight, x, y);
      var idx: I32 := 4 * Index(fbWidth, x, y);
      hide Index, ByteOf, Pow2;
      MemoryIs(packed);
      fb[idx] := ByteOf(packed, 0);
      fb[idx + 1] := ByteOf(packed, 8);
      fb[idx + 2] := ByteOf(packed, 16);
      fb[idx + 3] := ByteOf(packed, 24);
      view := Set(view, x, y, packed);
      hide Holds, Memory;
      assert fb[idx..idx + 4] == Memory(packed);
      assert fb[..idx] == old(fb[..idx]) && fb[idx + 4..] == old(fb[idx + 4..]);
      assert fb[..][idx..idx + 4] == fb[idx..idx + 4] && fb[..][..idx] == fb[..idx]
          && fb[..][idx + 4..] == fb[idx + 4..];
      HoldsSet(old(fb[..]), fb[..], fbWidth, fbHeight, old(view), x, y, packed);
    }

    predicate RectInside(x: int, y: int, w: int, h: int)
      reads this
    {
      LocalRectInside(fbWidth, fbHeight, x, y, w, h)
    }

    method FillRect(x: I32, y: I32, w: I32, h: I32, packed: Rgba)
      requires Valid() && RectInside(x, y, w, h)
      modifies `view, fb
      ensures Valid() && Drawn(old(view), [Fill(x, y, w, h, packed)], view, fbWidth, fbHeight)
    {
      ghost var op := Fill(x, y, w, h, packed);
      for row := 0 to h
        invariant Valid() && Filling(old(view), op, row, 0, view, fbWidth, fbHeight)
      {
        for col := 0 to w
          invariant Valid() && Filling(old(view), op, row, col, view, fbWidth, fbHeight)
        {
          FillingNext(old(view), op, row, col, view, fbWidth, fbHeight);
          SetPixel(x + col, y + row, packed);
        }
      }
      FillingDone(old(view), op, view, fbWidth, fbHeight);
    }

    /** Decodes w * h consecutive wire pixels into the rectangle at (x, y), row by row. */
    method PaintRaw(src: seq<Byte>, start: I32, x: I32, y: I32, w: I32, h: I32, fmt: PixelFormat)
      requires Valid() && fmt.Valid() && |src| < 0x4000_0000 && RectInside(x, y, w, h) && 0 <= start
      requires 0 <= w * h * fmt.Bpp() && start + w * h * fmt.Bpp() <= |src|
      modifies `view, fb
      ensures Valid() && 0 <= w * h
      ensures var data := src[start..start + w * h * fmt.Bpp()];
        Drawn(old(view), [Blit(x, y, w, h, RawPixels(data, w * h, fmt))], view, fbWidth, fbHeight)
    {
      hide Holds, DecodePixel, RawPixels, Begun, Index, Drawn;
      var bpp: I32 := fmt.Bpp();
      AreaFits(w, h, bpp);
      ghost var data := src[start..start + w * h * bpp];
      ghost var op := Blit(x, y, w, h, RawPixels(data, w * h, fmt));
      HoldsSize(fb[..], fbWidth, fbHeight, view);
      BegunFirst(view, op, fbWidth, fbHeight);
      IndexEnds(w, h);
      var srcOff: I32 := start;
      ghost var k: nat := 0;
      for py := 0 to h
        invariant Valid() && Begun(old(view), op, k, view, fbWidth, fbHeight)
        invariant k == Index(w, 0, py) && srcOff == start + k * bpp
      {
        for px := 0 to w
          invariant Valid() && Begun(old(view), op, k, view, fbWidth, fbHeight)
          invariant k == Index(w, px, py) && srcOff == start + k * bpp
        {
          BegunNext(old(view), op, k, view, fbWidth, fbHeight, px, py);
          RawPixelsWithin(src, start, w * h, fmt, k);
          var packed := DecodePixel(src, srcOff, fmt);
          SetPixel(x + px, y + py, packed);
          IndexNext(w, px, py);
          srcOff, k := srcOff + bpp, k + 1;
        }
        IndexNext(w, w, py);
      }
      BegunDone(old(view), op, k, view, fbWidth, fbHeight);
    }

    method ProcessRawRect(src: seq<Byte>, x: I32, y: I32, w: I32, h: I32, fmt: PixelFormat) returns (r: I32)
      requires Valid() && fmt.Valid() && |src| < 0x4000_0000
      modifies `view, fb
      ensures Valid()
      ensures r == if fmt.trueColor && RectInside(x, y, w, h) && w * h * fmt.Bpp() <= |src| then ACCEPTED else REJECTED
      ensures r == ACCEPTED ==> 0 <= w * h && 0 <= w * h * fmt.Bpp()
      ensures r == ACCEPTED ==>
        var data := src[..w * h * fmt.Bpp()];
        Drawn(old(view), [Blit(x, y, w, h, RawPixels(data, w * h, fmt))], view, fbWidth, fbHeight)
      ensures r == REJECTED ==> fb[..] == old(fb[..]) && view == old(view)
    {
      hide Holds, RawPixels, Drawn;
      if !fmt.trueColor { return REJECTED; }
      var bpp: I32 := fmt.Bpp();
      if !RectInside(x, y, w, h) { return REJECTED; }
      AreaFits(w, h, bpp);
      var expected: I32 := w * h * bpp;
      if |src| < expected { return REJECTED; }
      PaintRaw(src, 0, x, y, w, h, fmt);
      return ACCEPTED;
    }

    lemma AreaFits(w: int, h: int, bpp: int)
      requires Valid() && 0 <= w <= fbWidth && 0 <= h <= fbHeight && 1 <= bpp <= 4
      ensures 0 <= w * h && 0 <= w * h * bpp < 0x8000_0000 && 0 <= w * h * 4 < 0x8000_0000
    {
      MulMono(w, h, fbWidth, fbHeight);
    }

    /** Copies one row of bytes of the surface into the staging buffer. */
    method StageRow(tmp: array<Byte>, tmpStart: I32, srcStart: I32, n: I32)
      requires tmp != fb && 0 <= n && 0 <= tmpStart && tmpStart + n <= tmp.Length
      requires 0 <= srcStart && srcStart + n <= fb.Length
      modifies tmp
      ensures tmp[..tmpStart] == old(tmp[..tmpStart])
      ensures tmp[tmpStart..tmpStart + n] == fb[srcStart..srcStart + n]
    {
      for i := 0 to n
        invariant tmp[..tmpStart] == old(tmp[..tmpStart])
        invariant tmp[tmpStart..tmpStart + i] == fb[srcStart..srcStart + i]
      {
        tmp[tmpStart + i] := fb[srcStart + i];
      }
    }

    /** Copies one row of bytes of the staging buffer into the surface. */
    method StoreRow(tmp: array<Byte>, tmpStart: I32, dstStart: I32, n: I32)
      requires tmp != fb && 0 <= n && 0 <= tmpStart && tmpStart + n <= tmp.Length
      requires 0 <= dstStart && dstStart + n <= fb.Length
      modifies fb
      ensures fb[dstStart..dstStart + n] == tmp[tmpStart..tmpStart + n]
      ensures fb[..dstStart] == old(fb[..dstStart]) && fb[dstStart + n..] == old(fb[dstStart + n..])
    {
      for i := 0 to n
        invariant fb[dstStart..dstStart + i] == tmp[tmpStart..tmpStart + i]
        invariant fb[..dstStart] == old(fb[..dstStart]) && fb[dstStart + i..] == old(fb[dstStart + i..])
      {
        fb[dstStart + i] := tmp[tmpStart + i];
        assert fb[dstStart + i + 1..] == old(fb[dstStart + i..])[1..];
      }
    }

    /** Source and destination may overlap: the block is staged in a temporary buffer first. */
    method ProcessCopyRect(dstX: I32, dstY: I32, w: I32, h: I32, srcX: I32, srcY: I32) returns (r: I32)
      requires Valid()
      modifies `view, fb
      ensures Valid()
      ensures r == if RectInside(dstX, dstY, w, h) && RectInside(srcX, srcY, w, h) then ACCEPTED else REJECTED
      ensures r == ACCEPTED ==> Moved(old(view), view, fbWidth, fbHeight, dstX, dstY, srcX, srcY, w, h, h)
      ensures r == REJECTED ==> fb[..] == old(fb[..]) && view == old(view)
    {
      hide Holds, Shows, Memory;
      if !RectInside(dstX, dstY, w, h) || !RectInside(srcX, srcY, w, h) { return REJECTED; }
      AreaFits(w, h, 4);
      var length: I32 := w * h * 4;
      var tmp := new Byte[length];
      HoldsSize(fb[..], fbWidth, fbHeight, view);
      hide Staged, Moved, Index, StagedAt;
      CopyStarts(tmp[..], w, h, view, fbWidth, fbHeight, dstX, dstY, srcX, srcY);
      for row := 0 to h
        invariant Valid() && view == old(view) && fb[..] == old(fb[..])
        invariant Staged(tmp[..], w, h, view, fbWidth, fbHeight, srcX, srcY, row)
      {
        RowFits(fbWidth, fbHeight, srcX, srcY + row, w);
        RowFits(w, h, 0, row, w);
        ghost var before := tmp[..];
        StageRow(tmp, 4 * Index(w, 0, row), 4 * Index(fbWidth, srcX, srcY + row), 4 * w);
        StagedNext(before, tmp[..], w, h, fb[..], view, fbWidth, fbHeight, srcX, srcY, row);
      }
      for row := 0 to h
        invariant Valid() && Staged(tmp[..], w, h, old(view), fbWidth, fbHeight, srcX, srcY, h)
        invariant Moved(old(view), view, fbWidth, fbHeight, dstX, dstY, srcX, srcY, w, h, row)
      {
        RowFits(fbWidth, fbHeight, dstX, dstY + row, w);
        RowFits(w, h, 0, row, w);
        ghost var before := fb[..];
        StoreRow(tmp, 4 * Index(w, 0, row), 4 * Index(fbWidth, dstX, dstY + row), 4 * w);
        MovedNext(old(view), view, fbWidth, fbHeight, dstX, dstY, srcX, srcY, w, h, row);
        StoredRow(tmp[..], before, fb[..], old(view), view, fbWidth, fbHeight, dstX, dstY, srcX, srcY, w, h, row);
        view := WithRow(view, dstX, dstY + row, old(view)[srcY + row][srcX..srcX + w]);
      }
      return ACCEPTED;
    }

    method ProcessRreRect(src: seq<Byte>, x: I32, y: I32, w: I32, h: I32, fmt: PixelFormat) returns (r: I32)
      requires Valid() && fmt.Valid() && |src| < 0x4000_0000
      modifies `view, fb
      ensures Valid()
      ensures r == if fmt.trueColor && RectInside(x, y, w, h) && Rre.Parse(src, fmt.Bpp(), w, h, true).Some?
                   then ACCEPTED else REJECTED
      ensures r == ACCEPTED ==>
        Drawn(old(view), Rre.PayloadOps(src, fmt, x, y, w, h, true), view, fbWidth, fbHeight)
      ensures r == REJECTED ==> fb[..] == old(fb[..]) && view == old(view)
    {
      hide Holds, Drawn, DecodePixel, Rre.ParseSubrects, Rre.SubrectCount, Rre.Ops, Word16;
      if !fmt.trueColor { return REJECTED; }
      var bpp: I32 := fmt.Bpp();
      if !RectInside(x, y, w, h) { return REJECTED; }
      var ok := Rre.ValidateRrePayload(src, bpp, w, h);
      if !ok { return REJECTED; }
      var subrectCount: I32 := Rre.SubrectCount(src);
      if subrectCount < 0 { return REJECTED; }
      ghost var p := Rre.Parse(src, bpp, w, h, true).value;
      Rre.ParsedLength(src, 4 + bpp, subrectCount, bpp, w, h, true);
      ghost var ops := Rre.Ops(p, fmt, x, y, w, h);
      var cursor: I32 := 4;
      var bgPacked := DecodePixel(src, cursor, fmt);
      DecodePixelAt(src, cursor, fmt);
      cursor := cursor + bpp;
      FillRect(x, y, w, h, bgPacked);
      Rre.OpsAt(p, fmt, x, y, w, h);
      assert ops[..1] == [ops[0]];
      for i := 0 to subrectCount
        invariant Valid() && Drawn(old(view), ops[..i + 1], view, fbWidth, fbHeight)
        invariant 0 <= cursor <= |src|
        invariant Rre.ParseSubrects(src, cursor, subrectCount - i, bpp, w, h, true) == Some(p.subrects[i..])
      {
        ghost var l := p.subrects[i..];
        Rre.ParsedStep(src, cursor, subrectCount - i, bpp, w, h, true, l);
        if |src| < cursor + bpp + 8 { return REJECTED; }
        var fgPacked := DecodePixel(src, cursor, fmt);
        DecodePixelAt(src, cursor, fmt);
        cursor := cursor + bpp;
        var sx: I32 := Word16(src[cursor], src[cursor + 1]);
        var sy: I32 := Word16(src[cursor + 2], src[cursor + 3]);
        var sw: I32 := Word16(src[cursor + 4], src[cursor + 5]);
        var sh: I32 := Word16(src[cursor + 6], src[cursor + 7]);
        cursor := cursor + 8;
        if !LocalRectInside(w, h, sx, sy, sw, sh) { return REJECTED; }
        ghost var before := view;
        FillRect(x + sx, y + sy, sw, sh, fgPacked);
        assert ops[i + 1] == Fill(x + sx, y + sy, sw, sh, fgPacked);
        DrawnThen(old(view), ops[..i + 1], before, [ops[i + 1]], view, fbWidth, fbHeight);
        assert ops[..i + 1] + [ops[i + 1]] == ops[..i + 2];
      }
      Rre.ParseUnfolds(src, cursor, 0, bpp, w, h, true);
      assert ops[..subrectCount + 1] == ops;
      if cursor == |src| { return ACCEPTED; } else { return REJECTED; }
    }

    method ProcessCoRreRect(src: seq<Byte>, x: I32, y: I32, w: I32, h: I32, fmt: PixelFormat) returns (r: I32)
      requires Valid() && fmt.Valid() && |src| < 0x4000_0000
      modifies `view, fb
      ensures Valid()
      ensures r == if fmt.trueColor && RectInside(x, y, w, h) && Rre.Parse(src, fmt.Bpp(), w, h, false).Some?
                   then ACCEPTED else REJECTED
      ensures r == ACCEPTED ==>
        Drawn(old(view), Rre.PayloadOps(src, fmt, x, y, w, h, false), view, fbWidth, fbHeight)
      ensures r == REJECTED ==> fb[..] == old(fb[..]) && view == old(view)
    {
      hide Holds, Drawn, DecodePixel, Rre.ParseSubrects, Rre.SubrectCount, Rre.Ops, Word16;
      if !fmt.trueColor { return REJECTED; }
      var bpp: I32 := fmt.Bpp();
      if !RectInside(x, y, w, h) { return REJECTED; }
      var ok := Rre.ValidateCoRrePayload(src, bpp, w, h);
      if !ok { return REJECTED; }
      var subrectCount: I32 := Rre.SubrectCount(src);
      if subrectCount < 0 { return REJECTED; }
      ghost var p := Rre.Parse(src, bpp, w, h, false).value;
      Rre.ParsedLength(src, 4 + bpp, subrectCount, bpp, w, h, false);
      ghost var ops := Rre.Ops(p, fmt, x, y, w, h);
      var cursor: I32 := 4;
      var bgPacked := DecodePixel(src, cursor, fmt);
      DecodePixelAt(src, cursor, fmt);
      cursor := cursor + bpp;
      FillRect(x, y, w, h, bgPacked);
      Rre.OpsAt(p, fmt, x, y, w, h);
      assert ops[..1] == [ops[0]];
      for i := 0 to subrectCount
        invariant Valid() && Drawn(old(view), ops[..i + 1], view, fbWidth, fbHeight)
        invariant 0 <= cursor <= |src|
        invariant Rre.ParseSubrects(src, cursor, subrectCount - i, bpp, w, h, false) == Some(p.subrects[i..])
      {
        ghost var l := p.subrects[i..];
        Rre.ParsedStep(src, cursor, subrectCount - i, bpp, w, h, false, l);
        if |src| < cursor + bpp + 4 { return REJECTED; }
        var fgPacked := DecodePixel(src, cursor, fmt);
        DecodePixelAt(src, cursor, fmt);
        cursor := cursor + bpp;
        var sx, sy, sw, sh := src[cursor], src[cursor + 1], src[cursor + 2], src[cursor + 3];
        cursor := cursor + 4;
        if !LocalRectInside(w, h, sx, sy, sw, sh) { return REJECTED; }
        ghost var before := view;
        FillRect(x + sx, y + sy, sw, sh, fgPacked);
        assert ops[i + 1] == Fill(x + sx, y + sy, sw, sh, fgPacked);
        DrawnThen(old(view), ops[..i + 1], before, [ops[i + 1]], view, fbWidth, fbHeight);
        assert ops[..i + 1] + [ops[i + 1]] == ops[..i + 2];
      }
      Rre.ParseUnfolds(src, cursor, 0, bpp, w, h, false);
      assert ops[..subrectCount + 1] == ops;
      if cursor == |src| { return ACCEPTED; } else { return REJECTED; }
    }

    /** A Hextile tile's subrectangles, painted in order. */
    method PaintSubrects(src: seq<Byte>, start: I32, count: I32, sub: Byte, x: I32, y: I32, b: Box, foreground: Rgba,
                         fmt: PixelFormat, ghost l: seq<Hextile.Subrect>)
      returns (ok: bool, cursor: I32)
      requires Valid() && fmt.Valid() && |src| < 0x4000_0000 && 0 <= start <= |src| && 0 <= count && |l| == count
      requires RectInside(x + b.x, y + b.y, b.w, b.h) && Hextile.AllPixelsFit(l, fmt)
      requires var r := Hextile.ParseSubrects(src, start, count, fmt.Bpp(), Hextile.ColouredBit(sub), b);
               r.Some? && r.value.0 == l
      modifies `view, fb
      ensures Valid() && ok && 0 <= cursor <= |src|
      ensures cursor == Hextile.ParseSubrects(src, start, count, fmt.Bpp(), Hextile.ColouredBit(sub), b).value.1
      ensures Drawn(old(view), Hextile.SubrectOps(l, b, x, y, foreground, fmt), view, fbWidth, fbHeight)
    {
      hide Holds, Drawn, DecodePixel, Hextile.ParseSubrects, Hextile.ColouredBit, Hextile.SubrectOps;
      var bpp: I32 := fmt.Bpp();
      hide Colour, Seen;
      ghost var ops := Hextile.SubrectOps(l, b, x, y, foreground, fmt);
      ghost var end := Hextile.ParseSubrects(src, start, count, bpp, Hextile.ColouredBit(sub), b).value.1;
      HoldsSize(fb[..], fbWidth, fbHeight, view);
      DrawnNothing(view, fbWidth, fbHeight);
      cursor := start;
      for i := 0 to count
        invariant Valid() && Drawn(old(view), ops[..i], view, fbWidth, fbHeight)
        invariant 0 <= cursor <= |src|
        invariant Hextile.ParseSubrects(src, cursor, count - i, bpp, Hextile.ColouredBit(sub), b) == Some((l[i..], end))
      {
        Hextile.SubrectStep(src, cursor, count - i, bpp, Hextile.ColouredBit(sub), b, l[i..], end);
        assert l[i..][0] == l[i] && l[i..][1..] == l[i + 1..];
        var color := foreground;
        if Hextile.ColouredBit(sub) {
          if |src| < cursor + bpp { return false, cursor; }
          color := DecodePixel(src, cursor, fmt);
          DecodePixelAt(src, cursor, fmt);
          cursor := cursor + bpp;
        }
        if |src| < cursor + 2 { return false, cursor; }
        var xy, wh := src[cursor], src[cursor + 1];
        cursor := cursor + 2;
        var subX, subY, subW, subH := xy / 16, xy % 16, wh / 16 + 1, wh % 16 + 1;
        if !LocalRectInside(b.w, b.h, subX, subY, subW, subH) { return false, cursor; }
        ghost var before := view;
        FillRect(x + b.x + subX, y + b.y + subY, subW, subH, color);
        Hextile.SubrectOpAt(l, i, b, x, y, foreground, fmt);
        assert [ops[i]] == [Fill(x + b.x + subX, y + b.y + subY, subW, subH, color)];
        DrawnThen(old(view), ops[..i], before, [ops[i]], view, fbWidth, fbHeight);
        assert ops[..i] + [ops[i]] == ops[..i + 1];
      }
      Hextile.SubrectsUnfold(src, cursor, 0, bpp, Hextile.ColouredBit(sub), b);
      assert ops[..count] == ops;
      return true, cursor;
    }

    /** A Hextile tile that is a background with subrectangles. */
    method PaintPainted(src: seq<Byte>, start: I32, sub: Byte, x: I32, y: I32, b: Box, fmt: PixelFormat,
                        background: Rgba, foreground: Rgba, ghost t: Hextile.Tile)
      returns (ok: bool, cursor: I32, bg: Rgba, fg: Rgba)
      requires Valid() && |src| < 0x4000_0000 && 0 <= start <= |src| && Hextile.Fits(t, b, fmt) && t.Painted?
      requires t.mask == sub
      requires RectInside(x + b.x, y + b.y, b.w, b.h)
      requires var r := Hextile.ParsePainted(src, start, fmt.Bpp(), sub, b); r.Some? && r.value.0 == t
      modifies `view, fb
      ensures Valid() && ok && 0 <= cursor <= |src|
      ensures cursor == Hextile.ParsePainted(src, start, fmt.Bpp(), sub, b).value.1
      ensures bg == Hextile.Carry(t.background, background, fmt) && fg == Hextile.Carry(t.foreground, foreground, fmt)
      ensures Drawn(old(view), Hextile.TileOps(t, b, x, y, bg, fg, fmt), view, fbWidth, fbHeight)
    {
      hide Holds, Drawn, DecodePixel, Hextile.ParseSubrects, Hextile.SubrectOps;
      hide Hextile.BackgroundBit, Hextile.ForegroundBit, Hextile.SubrectsBit, Hextile.ColouredBit;
      var bpp: I32 := fmt.Bpp();
      cursor, bg, fg := start, background, foreground;
      if Hextile.BackgroundBit(sub) {
        if |src| < cursor + bpp { return false, cursor, bg, fg; }
        bg := DecodePixel(src, cursor, fmt);
        DecodePixelAt(src, cursor, fmt);
        cursor := cursor + bpp;
      }
      FillRect(x + b.x, y + b.y, b.w, b.h, bg);
      ghost var base := [Fill(x + b.x, y + b.y, b.w, b.h, bg)];
      if Hextile.ForegroundBit(sub) {
        if |src| < cursor + bpp { return false, cursor, bg, fg; }
        fg := DecodePixel(src, cursor, fmt);
        DecodePixelAt(src, cursor, fmt);
        cursor := cursor + bpp;
      }
      Hextile.WellFormedPixelsFit(t.subrects, fmt, Hextile.ColouredBit(sub), b);
      if Hextile.SubrectsBit(sub) {
        if |src| < cursor + 1 { return false, cursor, bg, fg; }
        var count: I32 := src[cursor];
        cursor := cursor + 1;
        ghost var before := view;
        Hextile.SubrectCountRead(src, cursor, count, bpp, Hextile.ColouredBit(sub), b);
        ok, cursor := PaintSubrects(src, cursor, count, sub, x, y, b, fg, fmt, t.subrects);
        if !ok { return false, cursor, bg, fg; }
        DrawnThen(old(view), base, before, Hextile.SubrectOps(t.subrects, b, x, y, fg, fmt), view, fbWidth, fbHeight);
      } else {
        assert base == base + Hextile.SubrectOps(t.subrects, b, x, y, fg, fmt);
      }
      return true, cursor, bg, fg;
    }

    /** One Hextile tile: paints it and returns the background and foreground it leaves in force. */
    method PaintHextile(src: seq<Byte>, start: I32, x: I32, y: I32, b: Box, fmt: PixelFormat, background: Rgba,
                        foreground: Rgba,
                        ghost t: Hextile.Tile)
      returns (ok: bool, cursor: I32, bg: Rgba, fg: Rgba)
      requires Valid() && |src| < 0x4000_0000 && 0 <= start <= |src| && Hextile.Fits(t, b, fmt)
      requires RectInside(x + b.x, y + b.y, b.w, b.h) && 0 <= Hextile.RawLength(b, fmt.Bpp())
      requires var r := Hextile.ParseTile(src, start, fmt.Bpp(), b); r.Some? && r.value.0 == t
      modifies `view, fb
      ensures Valid() && ok && 0 <= cursor <= |src|
      ensures cursor == Hextile.ParseTile(src, start, fmt.Bpp(), b).value.1
      ensures bg == (if t.Raw? then background else Hextile.Carry(t.background, background, fmt))
      ensures fg == (if t.Raw? then foreground else Hextile.Carry(t.foreground, foreground, fmt))
      ensures Drawn(old(view), Hextile.TileOps(t, b, x, y, bg, fg, fmt), view, fbWidth, fbHeight)
    {
      hide Holds, Drawn, RawPixels, Hextile.SubrectOps, Hextile.ParsePixel, Hextile.ParseCounted;
      var bpp: I32 := fmt.Bpp();
      Hextile.RawLengthFits(b, bpp);
      cursor, bg, fg := start, background, foreground;
      if |src| < cursor + 1 { return false, cursor, bg, fg; }
      var sub := src[cursor];
      cursor := cursor + 1;
      if Hextile.RawBit(sub) {
        var rawLen: I32 := b.w * b.h * bpp;
        if |src| < cursor + rawLen { return false, cursor, bg, fg; }
        PaintRaw(src, cursor, x + b.x, y + b.y, b.w, b.h, fmt);
        return true, cursor + rawLen, bg, fg;
      }
      ok, cursor, bg, fg := PaintPainted(src, cursor, sub, x, y, b, fmt, background, foreground, t);
    }

    method ProcessHextileRect(src: seq<Byte>, x: I32, y: I32, w: I32, h: I32, fmt: PixelFormat) returns (r: I32)
      requires Valid() && fmt.Valid() && |src| < 0x4000_0000
      modifies `view, fb
      ensures Valid()
      ensures r == if fmt.trueColor && RectInside(x, y, w, h) && Hextile.Parse(src, fmt.Bpp(), w, h).Some?
                   then ACCEPTED else REJECTED
      ensures r == ACCEPTED ==>
        Drawn(old(view), Hextile.PayloadOps(src, fmt, x, y, w, h), view, fbWidth, fbHeight)
      ensures r == REJECTED ==> fb[..] == old(fb[..]) && view == old(view)
    {
      hide Holds, Drawn, Hextile.ParseTile, Hextile.RawLength, Hextile.TileOps, Hextile.Carry;
      hide Hextile.Fits, Hextile.Parse, Hextile.Reached, Hextile.Drawing, Hextile.Boxes, Hextile.PayloadOps;
      if !fmt.trueColor { return REJECTED; }
      var bpp: I32 := fmt.Bpp();
      if !RectInside(x, y, w, h) { return REJECTED; }
      HoldsSize(fb[..], fbWidth, fbHeight, view);
      var valid := Hextile.ValidateHextilePayload(src, bpp, w, h);
      if !valid { return REJECTED; }
      ghost var tiles := Hextile.Parse(src, bpp, w, h).value;
      ghost var k: nat := 0;
      DrawnNothing(view, fbWidth, fbHeight);
      Hextile.ReachedStart(src, fmt, x, y, w, h);
      var cursor: I32 := 0;
      var background: Rgba := 0xff00_0000;
      var foreground: Rgba := 0xffff_ffff;
      var tileY: I32 := 0;
      while tileY < h
        invariant 0 <= tileY && 0 <= cursor <= |src| && Valid()
        invariant Hextile.Reached(src, fmt, w, h, k, cursor, 0, tileY, background, foreground)
        invariant Drawn(old(view), Hextile.Drawing(src, fmt, x, y, w, h, k), view, fbWidth, fbHeight)
        decreases h - tileY
      {
        var tileH: I32 := Min(16, h - tileY);
        var tileX: I32 := 0;
        while tileX < w
          invariant 0 <= tileX && 0 <= cursor <= |src| && Valid()
          invariant Hextile.Reached(src, fmt, w, h, k, cursor, tileX, tileY, background, foreground)
          invariant Drawn(old(view), Hextile.Drawing(src, fmt, x, y, w, h, k), view, fbWidth, fbHeight)
          decreases w - tileX
        {
          var tileW: I32 := Min(16, w - tileX);
          var b := Box(tileX, tileY, tileW, tileH);
          Hextile.ReachedTile(src, fmt, w, h, k, cursor, tileX, tileY, background, foreground);
          Hextile.DrawingNext(src, fmt, x, y, w, h, k, cursor, tileX, tileY, background, foreground);
          ghost var before := view;
          var ok;
          ok, cursor, background, foreground :=
            PaintHextile(src, cursor, x, y, b, fmt, background, foreground, tiles[k]);
          if !ok { return REJECTED; }
          DrawnThen(old(view), Hextile.Drawing(src, fmt, x, y, w, h, k), before,
                    Hextile.TileOps(tiles[k], b, x, y, background, foreground, fmt), view, fbWidth, fbHeight);
          k := k + 1;
          tileX := tileX + 16;
        }
        Hextile.ReachedRow(src, fmt, w, h, k, cursor, tileX, tileY, background, foreground);
        tileY := tileY + 16;
      }
      Hextile.ReachedEnd(src, fmt, x, y, w, h, k, cursor, tileY, background, foreground);
      if cursor == |src| { return ACCEPTED; } else { return REJECTED; }
    }

    /** Reads a palette of wire pixels, if the payload holds it. */
    method ReadPalette(src: seq<Byte>, start: I32, paletteSize: I32, fmt: PixelFormat)
      returns (ok: bool, palette: array<Rgba>, cursor: I32)
      requires fmt.Valid() && |src| < ZrleScan.MAX_BUFFER && 0 <= start <= |src| && 0 <= paletteSize <= 127
      ensures fresh(palette) && 0 <= cursor <= |src|
      ensures (ok <==> start + Zrle.PaletteBytes(paletteSize, fmt.Bpp()) <= |src|)
      ensures ok ==>
        && cursor == start + Zrle.PaletteBytes(paletteSize, fmt.Bpp())
        && palette[..] == Zrle.PaletteColours(src[start..cursor], paletteSize, fmt)
    {
      hide DecodePixel, RawPixels;
      var bpp: I32 := fmt.Bpp();
      var none: Rgba := 0;
      palette := new Rgba[paletteSize](_ => none);
      cursor := start;
      assert 1 <= bpp <= 4;
      hide ReadsAt, PixelFormat.Bpp;
      for i := 0 to paletteSize
        invariant cursor == start + i * bpp <= |src|
        invariant forall j :: 0 <= j < i ==> ReadsAt(src, start, j, fmt, palette[j])
      {
        EntryFits(i, paletteSize, bpp);
        if |src| < cursor + bpp { return false, palette, cursor; }
        EntryReads(src, start, i, fmt);
        palette[i] := DecodePixel(src, cursor, fmt);
        cursor := cursor + bpp;
      }
      PaletteRead(src, start, paletteSize, fmt, palette[..]);
      return true, palette, cursor;
    }

    method PaintPacked(src: seq<Byte>, start: I32, x: I32, y: I32, paletteSize: I32, b: Box, fmt: PixelFormat)
      returns (ok: bool, cursor: I32)
      requires Valid() && |src| < ZrleScan.MAX_BUFFER && 0 <= start <= |src| && 2 <= paletteSize <= 16
      requires Zrle.Sensible(b) && fmt.Valid() && RectInside(x + b.x, y + b.y, b.w, b.h)
      modifies `view, fb
      ensures Valid() && 0 <= cursor <= |src|
      ensures var p := ZrlePaint.PaintedPacked(src, start, paletteSize, b, fmt);
        p.end == (if ok then Some(cursor) else None)
            && Drawn(old(view), ZrlePaint.OpsOf(p, b, x, y), view, fbWidth, fbHeight)
    {
      hide Holds, Drawn, Begun, Index, And, Shr, Pow2, Zrle.PackedByte, Zrle.PackedShift, ZrlePaint.PackedFrom;
      hide Zrle.PaletteBytes, Zrle.PaletteColours, ZrlePaint.BoxOp, ZrlePaint.OpsOf, Zrle.RowBytes;
      Zrle.AreaFits(b, fmt.Bpp());
      Zrle.PackedFits(b, paletteSize);
      HoldsSize(fb[..], fbWidth, fbHeight, view);
      ghost var p := ZrlePaint.PaintedPacked(src, start, paletteSize, b, fmt);
      NothingDrawn(view, b, x, y);
      var palette;
      ok, palette, cursor := ReadPalette(src, start, paletteSize, fmt);
      if !ok { return false, cursor; }
      var bitsPerIdx: I32 := Zrle.BitsPerIndex(paletteSize);
      var rowBytes: I32 := Zrle.RowBytes(b.w, bitsPerIdx);
      var packedLen: I32 := rowBytes * b.h;
      assert packedLen == Zrle.PackedBytes(b.w, b.h, paletteSize);
      hide Zrle.PackedBytes, Zrle.BitsPerIndex;
      if |src| < cursor + packedLen { return false, cursor; }
      ghost var data, colours := src[cursor..cursor + packedLen], palette[..];
      ghost var op := ZrlePaint.BoxOp(p.pixels, b, x, y);
      ZrlePaint.BoxStarts(view, p.pixels, b, x, y, fbWidth, fbHeight);
      ZrlePaint.PackedLeftAll(data, b, paletteSize, colours);
      IndexEnds(b.w, b.h);
      assert p.pixels == ZrlePaint.PackedFrom(data, b, paletteSize, colours, 0);
      assert p.end == if |p.pixels| == b.w * b.h then Some(cursor + packedLen) else None;
      hide ZrlePaint.PackedLeft, ZrlePaint.PaintedPacked;
      ghost var k: nat := 0;
      for row := 0 to b.h
        invariant Valid() && k == Index(b.w, 0, row) && Begun(old(view), op, k, view, fbWidth, fbHeight)
        invariant palette[..] == colours && ZrlePaint.PackedLeft(p.pixels, k, data, b, paletteSize, colours)
      {
        for col := 0 to b.w
          invariant Valid() && k == Index(b.w, col, row) && Begun(old(view), op, k, view, fbWidth, fbHeight)
          invariant palette[..] == colours && ZrlePaint.PackedLeft(p.pixels, k, data, b, paletteSize, colours)
        {
          ZrlePaint.PackedLeftNext(src, cursor, p.pixels, b, paletteSize, colours, k, col, row);
          var byteIdx: I32 := cursor + Zrle.PackedByte(b.w, bitsPerIdx, col, row);
          var shift := Zrle.PackedShift(bitsPerIdx, col);
          var palIdx := And(Shr(src[byteIdx], shift), Pow2(bitsPerIdx) - 1);
          if palIdx >= paletteSize {
            WalkWithin(b.w, b.h, col, row);
            ZrlePaint.BegunIsOps(old(view), p, b, x, y, view, fbWidth, fbHeight);
            return false, cursor;
          }
          BegunNext(old(view), op, k, view, fbWidth, fbHeight, col, row);
          var packed := palette[palIdx];
          SetPixel(x + b.x + col, y + b.y + row, packed);
          IndexNext(b.w, col, row);
          k := k + 1;
        }
        IndexNext(b.w, b.w, row);
      }
      ZrlePaint.PackedLeftNone(p.pixels, data, b, paletteSize, colours, k);
      ZrlePaint.BegunIsOps(old(view), p, b, x, y, view, fbWidth, fbHeight);
      return true, cursor + packedLen;
    }

    /** Drawing nothing of a tile. */
    lemma NothingDrawn(g: Grid, b: Box, x: int, y: int)
      requires Zrle.Sensible(b) && HasSize(g, fbWidth, fbHeight)
      ensures 0 <= Zrle.Area(b) && Drawn(g, ZrlePaint.OpsOf(ZrlePaint.STOPPED, b, x, y), g, fbWidth, fbHeight)
    {
      Zrle.AreaFits(b, 1);
      DrawnNothing(g, fbWidth, fbHeight);
    }

    /**
     Writes a run of equal pixels, continuing the row-major walk of a tile from (px0, py0); a length
     below one writes nothing.
     */
    method PaintRun(x: I32, y: I32, tileW: I32, tileH: I32, px0: I32, py0: I32, runLen: I32, packed: Rgba,
                    ghost g0: Grid, ghost op: Op, ghost k: nat)
      returns (px: I32, py: I32)
      requires Valid() && Begun(g0, op, k, view, fbWidth, fbHeight) && op.x == x && op.y == y && op.w == tileW
      requires op.h == tileH
      requires 0 < tileW <= 64 && 0 < tileH <= 64 && 0 <= px0 < tileW && 0 <= py0 < tileH && k == Index(tileW, px0, py0)
      requires k + ZrlePaint.Count(runLen) <= |op.pixels| && |op.pixels| == Index(tileW, 0, tileH)
      requires forall j :: k <= j < k + ZrlePaint.Count(runLen) ==> op.pixels[j] == packed
      modifies `view, fb
      ensures Valid() && Begun(g0, op, k + ZrlePaint.Count(runLen), view, fbWidth, fbHeight)
      ensures 0 <= px < tileW && 0 <= py <= tileH && k + ZrlePaint.Count(runLen) == Index(tileW, px, py)
      ensures (py == tileH ==> px == 0)
    {
      hide Holds, Index;
      px, py := px0, py0;
      var r: I32 := 0;
      while r < runLen
        invariant 0 <= r <= ZrlePaint.Count(runLen) && Valid() && Begun(g0, op, k + r, view, fbWidth, fbHeight)
        invariant 0 <= px < tileW && 0 <= py <= tileH && k + r == Index(tileW, px, py) && (py == tileH ==> px == 0)
      {
        WalkNotDone(tileW, tileH, px, py, k + r);
        BegunNext(g0, op, k + r, view, fbWidth, fbHeight, px, py);
        SetPixel(x + px, y + py, packed);
        IndexNext(tileW, px, py);
        px := px + 1;
        if px >= tileW {
          px, py := 0, py + 1;
          if py >= tileH {
            IndexEnds(tileW, tileH);
            assert k + r + 1 == Index(tileW, 0, tileH);
            assert r + 1 == runLen;
            break;
          }
        }
        r := r + 1;
      }
    }

    method PaintPlain(src: seq<Byte>, start: I32, x: I32, y: I32, b: Box, fmt: PixelFormat)
      returns (ok: bool, cursor: I32)
      requires Valid() && |src| < ZrleScan.MAX_BUFFER && 0 <= start <= |src|
      requires Zrle.Sensible(b) && fmt.Valid() && RectInside(x + b.x, y + b.y, b.w, b.h)
      modifies `view, fb
      ensures Valid() && 0 <= cursor <= |src| && 0 <= Zrle.Area(b)
      ensures var p := ZrlePaint.PaintedRuns(src, start, Zrle.Area(b), fmt);
        p.end == (if ok then Some(cursor) else None)
            && Drawn(old(view), ZrlePaint.OpsOf(p, b, x, y), view, fbWidth, fbHeight)
    {
      hide Holds, Drawn, Begun, Index, DecodePixel, ZrleScan.WrappedRunLength, ZrlePaint.PaintedRuns, ZrlePaint.BoxOp,
           ZrlePaint.OpsOf, ZrlePaint.Left, Zrle.Area;
      var bpp: I32 := fmt.Bpp();
      Zrle.AreaFits(b, bpp);
      HoldsSize(fb[..], fbWidth, fbHeight, view);
      ghost var p := ZrlePaint.PaintedRuns(src, start, Zrle.Area(b), fmt);
      ghost var op := ZrlePaint.BoxOp(p.pixels, b, x, y);
      ZrlePaint.BoxStarts(view, p.pixels, b, x, y, fbWidth, fbHeight);
      ZrlePaint.LeftAll(p);
      ghost var k: nat := 0;
      var px: I32, py: I32 := 0, 0;
      cursor := start;
      while py < b.h
        invariant Valid() && Begun(old(view), op, k, view, fbWidth, fbHeight) && 0 <= cursor <= |src|
        invariant 0 <= px < b.w && 0 <= py <= b.h && k == Index(b.w, px, py) && (py == b.h ==> px == 0)
        invariant k <= Zrle.Area(b) && ZrlePaint.Left(p, k, ZrlePaint.PaintedRuns(src, cursor, Zrle.Area(b) - k, fmt))
        decreases |src| - cursor
      {
        WalkWithin(b.w, b.h, px, py);
        ZrlePaint.RunsStep(src, cursor, Zrle.Area(b) - k, fmt);
        if |src| < cursor + bpp {
          ZrlePaint.Finished(old(view), p, k, ZrlePaint.STOPPED, b, x, y, view, fbWidth, fbHeight);
          return false, cursor;
        }
        var packed := DecodePixel(src, cursor, fmt);
        cursor := cursor + bpp;
        var runLen;
        ok, runLen, cursor := ZrleScan.ReadRunLength(src, cursor);
        if !ok || runLen > b.w * b.h - Index(b.w, px, py) {
          ZrlePaint.Finished(old(view), p, k, ZrlePaint.STOPPED, b, x, y, view, fbWidth, fbHeight);
          return false, cursor;
        }
        ZrlePaint.LeftNext(p, k, packed, ZrlePaint.Count(runLen),
            ZrlePaint.PaintedRuns(src, cursor, Zrle.Area(b) - k - ZrlePaint.Count(runLen), fmt));
        px, py := PaintRun(x + b.x, y + b.y, b.w, b.h, px, py, runLen, packed, old(view), op, k);
        k := k + ZrlePaint.Count(runLen);
      }
      ZrlePaint.RunsDone(src, cursor, fmt);
      ZrlePaint.Finished(old(view), p, k, ZrlePaint.Painted([], Some(cursor)), b, x, y, view, fbWidth, fbHeight);
      return true, cursor;
    }

    method PaintPaletteRle(src: seq<Byte>, start: I32, x: I32, y: I32, paletteSize: I32, b: Box, fmt: PixelFormat)
      returns (ok: bool, cursor: I32)
      requires Valid() && |src| < ZrleScan.MAX_BUFFER && 0 <= start <= |src| && 2 <= paletteSize <= 127
      requires Zrle.Sensible(b) && fmt.Valid() && RectInside(x + b.x, y + b.y, b.w, b.h)
      modifies `view, fb
      ensures Valid() && 0 <= cursor <= |src|
      ensures var p := ZrlePaint.PaintedPaletteRle(src, start, paletteSize, b, fmt);
        p.end == (if ok then Some(cursor) else None)
            && Drawn(old(view), ZrlePaint.OpsOf(p, b, x, y), view, fbWidth, fbHeight)
    {
      hide Holds, Drawn, Begun, Index, ZrleScan.ScanIndexRun, ZrlePaint.PaintedIndexRuns, ZrlePaint.BoxOp,
           ZrlePaint.OpsOf, ZrlePaint.Left, Zrle.Area, Zrle.PaletteBytes, Zrle.PaletteColours;
      Zrle.AreaFits(b, fmt.Bpp());
      HoldsSize(fb[..], fbWidth, fbHeight, view);
      ghost var p := ZrlePaint.PaintedPaletteRle(src, start, paletteSize, b, fmt);
      NothingDrawn(view, b, x, y);
      var palette;
      ok, palette, cursor := ReadPalette(src, start, paletteSize, fmt);
      if !ok { return false, cursor; }
      ghost var op, colours := ZrlePaint.BoxOp(p.pixels, b, x, y), palette[..];
      ZrlePaint.BoxStarts(view, p.pixels, b, x, y, fbWidth, fbHeight);
      ZrlePaint.LeftAll(p);
      ghost var k: nat := 0;
      var px: I32, py: I32 := 0, 0;
      while py < b.h
        invariant Valid() && Begun(old(view), op, k, view, fbWidth, fbHeight) && 0 <= cursor <= |src|
        invariant palette[..] == colours
        invariant 0 <= px < b.w && 0 <= py <= b.h && k == Index(b.w, px, py) && (py == b.h ==> px == 0)
        invariant k <= Zrle.Area(b)
        invariant ZrlePaint.Left(p, k, ZrlePaint.PaintedIndexRuns(src, cursor, Zrle.Area(b) - k, colours))
        decreases |src| - cursor
      {
        WalkWithin(b.w, b.h, px, py);
        ZrlePaint.IndexRunsStep(src, cursor, Zrle.Area(b) - k, colours);
        if |src| < cursor + 1 {
          ZrleScan.NothingToScan(src, cursor);
          ZrlePaint.Finished(old(view), p, k, ZrlePaint.STOPPED, b, x, y, view, fbWidth, fbHeight);
          return false, cursor;
        }
        var palIdx, runLen;
        ok, palIdx, runLen, cursor := ZrleScan.ReadIndexRun(src, cursor);
        if !ok || palIdx >= paletteSize || runLen > b.w * b.h - Index(b.w, px, py) {
          ZrlePaint.Finished(old(view), p, k, ZrlePaint.STOPPED, b, x, y, view, fbWidth, fbHeight);
          return false, cursor;
        }
        var packed := palette[palIdx];
        assert packed == colours[palIdx];
        ZrlePaint.LeftNext(p, k, packed, ZrlePaint.Count(runLen),
            ZrlePaint.PaintedIndexRuns(src, cursor, Zrle.Area(b) - k - ZrlePaint.Count(runLen), colours));
        px, py := PaintRun(x + b.x, y + b.y, b.w, b.h, px, py, runLen, packed, old(view), op, k);
        k := k + ZrlePaint.Count(runLen);
      }
      ZrlePaint.IndexRunsDone(src, cursor, colours);
      ZrlePaint.Finished(old(view), p, k, ZrlePaint.Painted([], Some(cursor)), b, x, y, view, fbWidth, fbHeight);
      return true, cursor;
    }

    /** One ZRLE tile. */
    method PaintZrle(src: seq<Byte>, start: I32, x: I32, y: I32, b: Box, fmt: PixelFormat)
      returns (ok: bool, cursor: I32)
      requires Valid() && |src| < ZrleScan.MAX_BUFFER && 0 <= start <= |src|
      requires Zrle.Sensible(b) && fmt.Valid() && RectInside(x + b.x, y + b.y, b.w, b.h)
      modifies `view, fb
      ensures Valid() && 0 <= cursor <= |src|
      ensures var (ops, end) := ZrlePaint.PaintedTile(src, start, b, x, y, fmt);
        end == (if ok then Some(cursor) else None) && Drawn(old(view), ops, view, fbWidth, fbHeight)
    {
      hide Holds, Drawn, DecodePixel, ZrlePaint.PaintedPacked, ZrlePaint.PaintedPaletteRle, ZrlePaint.PaintedRuns,
           ZrlePaint.OpsOf, RawPixels;
      var bpp: I32 := fmt.Bpp();
      Zrle.AreaFits(b, bpp);
      HoldsSize(fb[..], fbWidth, fbHeight, view);
      DrawnNothing(view, fbWidth, fbHeight);
      cursor := start;
      if |src| < cursor + 1 { return false, cursor; }
      var subenc: I32 := src[cursor];
      cursor := cursor + 1;
      var paletteSize: I32 := subenc % 128;
      var rle := subenc >= 128;
      if !rle && paletteSize == 0 {
        var rawLen: I32 := b.w * b.h * bpp;
        if |src| < cursor + rawLen { return false, cursor; }
        PaintRaw(src, cursor, x + b.x, y + b.y, b.w, b.h, fmt);
        ZrlePaint.FinishedOp(RawPixels(src[cursor..cursor + rawLen], Zrle.Area(b), fmt), cursor + rawLen, b, x, y);
        return true, cursor + rawLen;
      }
      hide Zrle.RawBytes, Zrle.Area;
      if !rle && paletteSize == 1 {
        if |src| < cursor + bpp { return false, cursor; }
        var packed := DecodePixel(src, cursor, fmt);
        FillRect(x + b.x, y + b.y, b.w, b.h, packed);
        return true, cursor + bpp;
      }
      if !rle && paletteSize > 1 && paletteSize <= 16 {
        ok, cursor := PaintPacked(src, cursor, x, y, paletteSize, b, fmt);
        return ok, cursor;
      }
      if rle && paletteSize == 0 {
        ok, cursor := PaintPlain(src, cursor, x, y, b, fmt);
        return ok, cursor;
      }
      if rle && paletteSize >= 2 {
        ok, cursor := PaintPaletteRle(src, cursor, x, y, paletteSize, b, fmt);
        return ok, cursor;
      }
      return false, cursor;
    }

    /** The painting pass: whatever the payload, it draws the operations of the specification and ends as that says. */
    method PaintTiles(src: seq<Byte>, x: I32, y: I32, w: I32, h: I32, fmt: PixelFormat) returns (done: bool)
      requires Valid() && fmt.Valid() && |src| < ZrleScan.MAX_BUFFER && RectInside(x, y, w, h)
      modifies `view, fb
      ensures Valid()
      ensures var (ops, end) := ZrlePaint.PaintedPayload(src, fmt, x, y, w, h);
        done == end && Drawn(old(view), ops, view, fbWidth, fbHeight)
    {
      hide Holds, Drawn, ZrlePaint.PaintedTile;
      HoldsSize(fb[..], fbWidth, fbHeight, view);
      DrawnNothing(view, fbWidth, fbHeight);
      ghost var whole := ZrlePaint.PaintedPayload(src, fmt, x, y, w, h);
      ghost var boxes, drawn: seq<Op> := Zrle.Boxes(w, h), [];
      assert [] + whole.0 == whole.0;
      var cursor: I32 := 0;
      var tileY: I32 := 0;
      while tileY < h
        invariant 0 <= tileY && 0 <= cursor <= |src| && Valid() && Drawn(old(view), drawn, view, fbWidth, fbHeight)
        invariant boxes == BoxesFrom(w, h, Zrle.SIZE, 0, tileY) && forall b :: b in boxes ==> Zrle.Sensible(b)
        invariant Continues(whole, drawn, ZrlePaint.PaintedTiles(src, cursor, boxes, x, y, fmt))
        decreases h - tileY
      {
        var tileH: I32 := Min(64, h - tileY);
        var tileX: I32 := 0;
        while tileX < w
          invariant 0 <= tileX && 0 <= cursor <= |src| && Valid() && Drawn(old(view), drawn, view, fbWidth, fbHeight)
          invariant boxes == BoxesFrom(w, h, Zrle.SIZE, tileX, tileY) && forall b :: b in boxes ==> Zrle.Sensible(b)
          invariant Continues(whole, drawn, ZrlePaint.PaintedTiles(src, cursor, boxes, x, y, fmt))
          decreases w - tileX
        {
          var tileW: I32 := Min(64, w - tileX);
          var b := Box(tileX, tileY, tileW, tileH);
          assert boxes[0] == b;
          ghost var before, start := view, cursor;
          var ok;
          ok, cursor := PaintZrle(src, cursor, x, y, b, fmt);
          ghost var ops := ZrlePaint.PaintedTile(src, start, b, x, y, fmt).0;
          DrawnThen(old(view), drawn, before, ops, view, fbWidth, fbHeight);
          if !ok { return false; }
          Assoc(drawn, ops, ZrlePaint.PaintedTiles(src, cursor, boxes[1..], x, y, fmt).0);
          drawn := drawn + ops;
          boxes := boxes[1..];
          tileX := tileX + 64;
        }
        tileY := tileY + 64;
      }
      assert drawn + [] == drawn;
      return cursor == |src|;
    }

    method ProcessZrleTileData(src: seq<Byte>, x: I32, y: I32, w: I32, h: I32, fmt: PixelFormat) returns (r: I32)
      requires Valid() && fmt.Valid() && |src| < ZrleScan.MAX_BUFFER
      modifies `view, fb
      ensures Valid()
      // For every payload: what the validating pass refuses changes nothing, what it lets through is painted as far as
      // it goes.
      ensures !(fmt.trueColor && RectInside(x, y, w, h) && ZrleScan.Scan(src, fmt.Bpp(), w, h)) ==>
        r == REJECTED && fb[..] == old(fb[..]) && view == old(view)
      ensures fmt.trueColor && RectInside(x, y, w, h) && ZrleScan.Scan(src, fmt.Bpp(), w, h) ==>
        var (ops, end) := ZrlePaint.PaintedPayload(src, fmt, x, y, w, h);
        r == (if end then ACCEPTED else REJECTED) && Drawn(old(view), ops, view, fbWidth, fbHeight)
      // A payload that parses is accepted and drawn as parsed.
      ensures fmt.trueColor && RectInside(x, y, w, h) && Zrle.Parse(src, fmt.Bpp(), w, h).Some? ==>
        r == ACCEPTED && Drawn(old(view), Zrle.PayloadOps(src, fmt, x, y, w, h), view, fbWidth, fbHeight)
      // Without overlong run lengths no other is accepted, and a rejected one changes nothing.
      ensures ZrleScan.NoLongRun(src) && r == ACCEPTED ==>
        fmt.trueColor && RectInside(x, y, w, h) && Zrle.Parse(src, fmt.Bpp(), w, h).Some?
      ensures ZrleScan.NoLongRun(src) && r == REJECTED ==> fb[..] == old(fb[..]) && view == old(view)
    {
      hide Holds, Drawn, ZrleScan.NoLongRun, ZrlePaint.PaintedPayload, Zrle.PayloadOps, Zrle.Parse, ZrleScan.Scan;
      if !fmt.trueColor { return REJECTED; }
      var bpp: I32 := fmt.Bpp();
      if !RectInside(x, y, w, h) { return REJECTED; }
      ZrleScan.ScanIsParse(src, bpp, w, h);
      if Zrle.Parse(src, bpp, w, h).Some? {
        ZrlePaint.PaintsAsParsed(src, fmt, x, y, w, h);
      }
      var valid := ZrleScan.ValidateZrleTileDataPayload(src, bpp, w, h);
      if !valid { return REJECTED; }
      var done := PaintTiles(src, x, y, w, h, fmt);
      if done { return ACCEPTED; } else { return REJECTED; }
    }
  }

  /** What is drawn so far and what the walk still draws make up the whole. */
  ghost predicate Continues(whole: (seq<Op>, bool), drawn: seq<Op>, rest: (seq<Op>, bool)) {
    whole.0 == drawn + rest.0 && whole.1 == rest.1
  }

  ghost predicate ReadsAt(src: seq<Byte>, start: nat, j: nat, fmt: PixelFormat, colour: Rgba)
    requires fmt.Valid()
  {
    0 <= start + j * fmt.Bpp() && start + j * fmt.Bpp() + fmt.Bpp() <= |src|
        && colour == DecodePixel(src, start + j * fmt.Bpp(), fmt)
  }

  lemma EntryFits(i: nat, size: nat, bpp: nat)
    requires i < size
    ensures (i + 1) * bpp == i * bpp + bpp <= size * bpp
  {
    MulMono(i + 1, bpp, size, bpp);
  }

  lemma EntryReads(src: seq<Byte>, start: nat, j: nat, fmt: PixelFormat)
    requires fmt.Valid() && 0 <= start + j * fmt.Bpp() && start + j * fmt.Bpp() + fmt.Bpp() <= |src|
    ensures ReadsAt(src, start, j, fmt, DecodePixel(src, start + j * fmt.Bpp(), fmt))
  {
  }

  lemma PaletteRead(src: seq<Byte>, start: nat, size: nat, fmt: PixelFormat, palette: seq<Rgba>)
    requires fmt.Valid() && start + size * fmt.Bpp() <= |src| && |palette| == size && 0 <= size * fmt.Bpp()
    requires forall j :: 0 <= j < size ==> ReadsAt(src, start, j, fmt, palette[j])
    ensures palette == RawPixels(src[start..start + size * fmt.Bpp()], size, fmt)
  {
    hide DecodePixel, RawPixels;
    var colours := RawPixels(src[start..start + size * fmt.Bpp()], size, fmt);
    forall j | 0 <= j < size
      ensures palette[j] == colours[j]
    {
      RawPixelsWithin(src, start, size, fmt, j);
      assert ReadsAt(src, start, j, fmt, palette[j]);
    }
  }

  /** The bytes of pixels in memory order. */
  function Flat(pixels: seq<Rgba>): (bytes: seq<Byte>)
    ensures |bytes| == 4 * |pixels|
    ensures forall i {:trigger pixels[i]} :: 0 <= i < |pixels| ==> bytes[4 * i..4 * i + 4] == Memory(pixels[i])
  {
    if pixels == [] then []
    else
      var n := |pixels| - 1;
      var front := Flat(pixels[..n]);
      assert forall i {:trigger pixels[i]} :: 0 <= i < n ==>
          (front + Memory(pixels[n]))[4 * i..4 * i + 4] == front[4 * i..4 * i + 4] && pixels[..n][i] == pixels[i];
      front + Memory(pixels[n])
  }

  lemma NothingFlat()
    ensures Flat([]) == []
  {
  }

  lemma FlatStep(pixels: seq<Rgba>, i: nat)
    requires i < |pixels|
    ensures Flat(pixels[..i + 1]) == Flat(pixels[..i]) + Memory(pixels[i])
  {
    hide Memory;
    assert pixels[..i + 1][..i] == pixels[..i];
  }

  /** The standalone raw decoder: a new buffer instead of the surface. */
  method DecodeRawRectToRgba(src: seq<Byte>, width: I32, height: I32, fmt: PixelFormat) returns (out: array<Byte>)
    requires fmt.Valid() && |src| < 0x4000_0000 && 0 <= width && 0 <= height && 4 * (width * height) < 0x8000_0000
    ensures fresh(out) && 0 <= width * height
    ensures out[..] == if fmt.trueColor && width * height * fmt.Bpp() <= |src|
                       then Flat(RawPixels(src, width * height, fmt)) else []
  {
    hide ReadPixelValue, PixelColour, RawPixels, Flat, Memory, Pack, Channel, ScaleChannel;
    MulMono(0, 0, width, height);
    if !fmt.trueColor {
      out := new Byte[0];
      return;
    }
    var bpp: I32 := fmt.Bpp();
    var pixels: I32 := width * height;
    AreaBytes(pixels, bpp);
    if |src| < pixels * bpp {
      out := new Byte[0];
      return;
    }
    var length: I32 := pixels * 4;
    out := new Byte[length];
    var srcOff: I32, dstOff: I32 := 0, 0;
    ghost var colours := RawPixels(src, pixels, fmt);
    NothingFlat();
    for i := 0 to pixels
      invariant srcOff == i * bpp && dstOff == 4 * i
      invariant out[..dstOff] == Flat(colours[..i])
    {
      RawPixelsAt(src, pixels, fmt, i);
      var v := ReadPixelValue(src, srcOff, bpp, fmt.bigEndian);
      var r := ScaleChannel(Channel(v, fmt.rShift, fmt.rMax), fmt.rMax);
      var g := ScaleChannel(Channel(v, fmt.gShift, fmt.gMax), fmt.gMax);
      var bl := ScaleChannel(Channel(v, fmt.bShift, fmt.bMax), fmt.bMax);
      MemoryOfPack(r, g, bl);
      PixelColourIs(v, fmt);
      out[dstOff], out[dstOff + 1], out[dstOff + 2], out[dstOff + 3] := r, g, bl, 255;
      assert out[..dstOff + 4] == out[..dstOff] + [r, g, bl, 255];
      FlatStep(colours, i);
      srcOff := srcOff + bpp;
      dstOff := dstOff + 4;
    }
    assert colours[..pixels] == colours && out[..dstOff] == out[..];
  }

  lemma AreaBytes(pixels: int, bpp: int)
    requires 0 <= pixels && 4 * pixels < 0x8000_0000 && 1 <= bpp <= 4
    ensures 0 <= pixels * bpp < 0x8000_0000
  {
    MulMono(pixels, bpp, pixels, 4);
  }

  lemma MemoryOfPack(r: Byte, g: Byte, b: Byte)
    ensures Memory(Pack(r, g, b)) == [r, g, b, 255]
  {
    PackIs(r, g, b);
    hide Pack;
    var c := Pack(r, g, b);
    var c1 := g + b as int * 0x100 + 0xff_0000;
    var c2 := b as int + 0xff00;
    assert c == c1 * 0x100 + r && c / 0x100 == c1 && c % 0x100 == r;
    assert c1 == c2 * 0x100 + g && c / 0x1_0000 == c2;
    assert c / 0x100_0000 == 0xff;
  }

  lemma PixelColourIs(v: U32, fmt: PixelFormat)
    ensures PixelColour(v, fmt) == Pack(ScaleChannel(Channel(v, fmt.rShift, fmt.rMax), fmt.rMax),
                                        ScaleChannel(Channel(v, fmt.gShift, fmt.gMax), fmt.gMax),
                                        ScaleChannel(Channel(v, fmt.bShift, fmt.bMax), fmt.bMax))
  {
  }

  /** A surface that shows one block of pixels holds exactly their bytes. */
  lemma BlockBytes(bytes: seq<Byte>, w: int, h: int, g0: Grid, g: Grid, pixels: seq<Rgba>)
    requires Holds(bytes, w, h, g) && |pixels| == w * h && Drawn(g0, [Blit(0, 0, w, h, pixels)], g, w, h)
    ensures bytes == Flat(pixels)
  {
    hide Memory, Flat;
    forall p | 0 <= p < w * h
      ensures bytes[4 * p..4 * p + 4] == Memory(pixels[p])
    {
      PointOf(w, h, p);
      var x, y := p % w, p / w;
      var op := Blit(0, 0, w, h, pixels);
      assert op.Covers(x, y) && op.At(x, y) == pixels[p];
      assert g[y][x] == pixels[p];
      assert Shows(bytes, w, x, y, g[y][x]);
    }
    FlatUnique(bytes, pixels);
  }

  lemma {:induction false} FlatUnique(bytes: seq<Byte>, pixels: seq<Rgba>)
    requires |bytes| == 4 * |pixels|
    requires forall p {:trigger pixels[p]} :: 0 <= p < |pixels| ==> bytes[4 * p..4 * p + 4] == Memory(pixels[p])
    ensures bytes == Flat(pixels)
  {
    hide Memory;
    if pixels != [] {
      var n := |pixels| - 1;
      forall p {:trigger pixels[..n][p]} | 0 <= p < n
        ensures bytes[..4 * n][4 * p..4 * p + 4] == Memory(pixels[..n][p])
      {
        assert pixels[..n][p] == pixels[p] && bytes[..4 * n][4 * p..4 * p + 4] == bytes[4 * p..4 * p + 4];
      }
      FlatUnique(bytes[..4 * n], pixels[..n]);
      assert bytes == bytes[..4 * n] + bytes[4 * n..4 * n + 4] && Memory(pixels[n]) == bytes[4 * n..4 * n + 4];
    }
  }

  /** The two raw paths agree: decoding into a fresh surface leaves exactly the standalone decoder's bytes. */
  method RawPathsAgree(src: seq<Byte>, w: I32, h: I32, fmt: PixelFormat)
    returns (r: I32, surface: Framebuffer, out: array<Byte>)
    requires fmt.Valid() && |src| < 0x4000_0000 && 0 <= w < 0x1_0000 && 0 <= h < 0x1_0000 && 4 * (w * h) < 0x8000_0000
    ensures r == ACCEPTED ==> surface.fb[..] == out[..]
    ensures r == REJECTED ==> out[..] == []
    ensures r == ACCEPTED <==> fmt.trueColor && w * h * fmt.Bpp() <= |src|
  {
    hide RawPixels, Flat, Drawn, Holds;
    surface := new Framebuffer();
    surface.InitFramebuffer(w, h);
    r := surface.ProcessRawRect(src, 0, 0, w, h, fmt);
    out := DecodeRawRectToRgba(src, w, h, fmt);
    if r == ACCEPTED {
      var n := w * h;
      BlockBytes(surface.fb[..], w, h, Blank(w, h), surface.view, RawPixels(src[..n * fmt.Bpp()], n, fmt));
      RawPixelsPrefix(src, n, fmt);
    }
  }
}
