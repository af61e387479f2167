/** What the decoders promise about the surface, for every accepted payload. */
module DecoderLaws {
  import opened Machine
  import opened PixelFormats
  import opened Canvas
  import opened Tiling
  import opened Framebuffers
  import Rre
  import Hextile
  import Zrle
  import ZrleLimit
  import ZrlePaint
  import ZrleScan

  /** Nothing changes outside the rectangle at (x, y). */
  ghost predicate Outside(g0: Grid, g: Grid, gw: int, gh: int, x: int, y: int, w: int, h: int) {
    && HasSize(g0, gw, gh) && HasSize(g, gw, gh)
    && forall px, py {:trigger g[py][px]} :: InRect(px, py, 0, 0, gw, gh) && !InRect(px, py, x, y, w, h)
        ==> g[py][px] == g0[py][px]
  }

  lemma OutsideKept(g0: Grid, ops: seq<Op>, g: Grid, gw: int, gh: int, x: int, y: int, w: int, h: int)
    requires Drawn(g0, ops, g, gw, gh) && Within(ops, x, y, w, h)
    ensures Outside(g0, g, gw, gh, x, y, w, h)
  {
    forall px, py | InRect(px, py, 0, 0, gw, gh) && !InRect(px, py, x, y, w, h)
      ensures g[py][px] == g0[py][px]
    {
      Framed(g0, ops, g, gw, gh, x, y, w, h, px, py);
    }
  }

  /** An accepted RRE (wide) or CoRRE payload shows its picture in the rectangle and nothing new elsewhere. */
  lemma RreLaw(g0: Grid, g: Grid, gw: int, gh: int, src: seq<Byte>, fmt: PixelFormat, x: int, y: int, w: nat, h: nat,
               wide: bool)
    requires fmt.Valid() && LocalRectInside(gw, gh, x, y, w, h) && Rre.Parse(src, fmt.Bpp(), w, h, wide).Some?
    requires Drawn(g0, Rre.PayloadOps(src, fmt, x, y, w, h, wide), g, gw, gh)
    ensures Outside(g0, g, gw, gh, x, y, w, h)
    ensures var p := Rre.Parse(src, fmt.Bpp(), w, h, wide).value;
      && Rre.WellFormed(p, fmt.Bpp(), w, h, wide)
      && forall px, py {:trigger g[y + py][x + px]} :: InRect(px, py, 0, 0, w, h)
          ==> g[y + py][x + px] == Rre.PictureAt(p, fmt, px, py)
  {
    hide Rre.Parse, Rre.Ops, Rre.Encode, Rre.WellFormedSubrect, Rre.PictureAt, Seen;
    var p := Rre.Parse(src, fmt.Bpp(), w, h, wide).value;
    Rre.ParseIsInverse(src, p, fmt.Bpp(), w, h, wide);
    Rre.OpsFillRect(src, fmt, x, y, w, h, wide);
    OutsideKept(g0, Rre.PayloadOps(src, fmt, x, y, w, h, wide), g, gw, gh, x, y, w, h);
    RrePixelsFit(p, fmt, w, h, wide);
    forall px, py | InRect(px, py, 0, 0, w, h)
      ensures g[y + py][x + px] == Rre.PictureAt(p, fmt, px, py)
    {
      Rre.SeenInPicture(p, fmt, x, y, w, h, x + px, y + py, g0[y + py][x + px]);
    }
  }

  lemma RrePixelsFit(p: Rre.Picture, fmt: PixelFormat, w: int, h: int, wide: bool)
    requires Rre.WellFormed(p, fmt.Bpp(), w, h, wide)
    ensures |p.background| == fmt.Bpp() && forall s :: s in p.subrects ==> |s.pixel| == fmt.Bpp()
  {
    forall s | s in p.subrects
      ensures |s.pixel| == fmt.Bpp()
    {
      assert Rre.WellFormedSubrect(s, fmt.Bpp(), w, h, wide);
    }
  }

  /** An accepted Hextile payload shows, at every point, what the point's own tile gives it. */
  lemma HextileLaw(g0: Grid, g: Grid, gw: int, gh: int, src: seq<Byte>, fmt: PixelFormat, x: int, y: int, w: nat,
                   h: nat)
    requires fmt.Valid() && LocalRectInside(gw, gh, x, y, w, h) && Hextile.Parse(src, fmt.Bpp(), w, h).Some?
    requires Drawn(g0, Hextile.PayloadOps(src, fmt, x, y, w, h), g, gw, gh)
    ensures Outside(g0, g, gw, gh, x, y, w, h)
    ensures var tiles, boxes := Hextile.Parse(src, fmt.Bpp(), w, h).value, Hextile.Boxes(w, h);
      && Hextile.AllFit(tiles, boxes, fmt)
      && forall i, px, py :: 0 <= i < |boxes| && InRect(px, py, 0, 0, boxes[i].w, boxes[i].h) ==>
           HextileShown(g, x, y, tiles, boxes, i, fmt, px, py)
  {
    hide Hextile.Parse, Hextile.Groups, Hextile.Boxes, Hextile.PayloadOps, Hextile.PixelAt, Seen;
    var tiles, boxes := Hextile.Parse(src, fmt.Bpp(), w, h).value, Hextile.Boxes(w, h);
    var ops := Hextile.PayloadOps(src, fmt, x, y, w, h);
    Hextile.ParsedFit(src, fmt, w, h);
    Hextile.OpsFillRect(src, fmt, x, y, w, h);
    OutsideKept(g0, ops, g, gw, gh, x, y, w, h);
    forall i, px, py | 0 <= i < |boxes| && InRect(px, py, 0, 0, boxes[i].w, boxes[i].h)
      ensures HextileShown(g, x, y, tiles, boxes, i, fmt, px, py)
    {
      BoxInside(w, h, Hextile.SIZE, boxes, i) by { HextileBoxes(w, h); }
      var qx, qy := x + boxes[i].x + px, y + boxes[i].y + py;
      assert g[qy][qx] == Seen(ops, qx, qy, g0[qy][qx]);
      Hextile.PixelMeaning(src, fmt, x, y, w, h, i, px, py, g0[qy][qx]);
    }
  }

  ghost predicate HextileShown(g: Grid, x: int, y: int, tiles: seq<Hextile.Tile>, boxes: seq<Box>, i: nat,
                               fmt: PixelFormat, px: int, py: int)
    requires Hextile.AllFit(tiles, boxes, fmt) && i < |boxes| && InRect(px, py, 0, 0, boxes[i].w, boxes[i].h)
  {
    var qx, qy := x + boxes[i].x + px, y + boxes[i].y + py;
    0 <= qy < |g| && 0 <= qx < |g[qy]| && g[qy][qx] == Hextile.PixelAt(tiles, boxes, i, fmt, px, py)
  }

  lemma HextileBoxes(w: nat, h: nat)
    ensures Hextile.Boxes(w, h) == BoxesFrom(w, h, Hextile.SIZE, 0, 0)
  {
  }

  lemma BoxInside(w: int, h: int, s: int, boxes: seq<Box>, i: nat)
    requires s > 0 && boxes == BoxesFrom(w, h, s, 0, 0) && i < |boxes|
    ensures LocalRectInside(w, h, boxes[i].x, boxes[i].y, boxes[i].w, boxes[i].h)
  {
    BoxesInside(w, h, s, 0, 0);
    assert boxes[i] in boxes;
  }

  /** An accepted ZRLE payload shows, at every point, what the tile interpreter gives for the point's tile. */
  lemma ZrleLaw(g0: Grid, g: Grid, gw: int, gh: int, src: seq<Byte>, fmt: PixelFormat, x: int, y: int, w: nat, h: nat)
    requires fmt.Valid() && LocalRectInside(gw, gh, x, y, w, h) && Zrle.Parse(src, fmt.Bpp(), w, h).Some?
    requires Drawn(g0, Zrle.PayloadOps(src, fmt, x, y, w, h), g, gw, gh)
    ensures Outside(g0, g, gw, gh, x, y, w, h)
    ensures var tiles, boxes := Zrle.Parse(src, fmt.Bpp(), w, h).value, Zrle.Boxes(w, h);
      && Zrle.AllFit(tiles, boxes, fmt)
      && forall i, px, py :: 0 <= i < |boxes| && InRect(px, py, 0, 0, boxes[i].w, boxes[i].h) ==>
           ZrleShown(g, x, y, tiles, boxes, i, fmt, px, py)
  {
    hide Zrle.Parse, Zrle.Groups, Zrle.Boxes, Zrle.PayloadOps, Zrle.TileAt, Seen;
    var tiles, boxes := Zrle.Parse(src, fmt.Bpp(), w, h).value, Zrle.Boxes(w, h);
    var ops := Zrle.PayloadOps(src, fmt, x, y, w, h);
    Zrle.ParsedFit(src, fmt, w, h);
    Zrle.OpsFillRect(src, fmt, x, y, w, h);
    OutsideKept(g0, ops, g, gw, gh, x, y, w, h);
    forall i, px, py | 0 <= i < |boxes| && InRect(px, py, 0, 0, boxes[i].w, boxes[i].h)
      ensures ZrleShown(g, x, y, tiles, boxes, i, fmt, px, py)
    {
      BoxInside(w, h, Zrle.SIZE, boxes, i) by { ZrleBoxes(w, h); }
      var qx, qy := x + boxes[i].x + px, y + boxes[i].y + py;
      assert g[qy][qx] == Seen(ops, qx, qy, g0[qy][qx]);
      Zrle.PixelMeaning(src, fmt, x, y, w, h, i, px, py, g0[qy][qx]);
    }
  }

  ghost predicate ZrleShown(g: Grid, x: int, y: int, tiles: seq<Zrle.Tile>, boxes: seq<Box>, i: nat, fmt: PixelFormat,
                            px: int, py: int)
    requires Zrle.AllFit(tiles, boxes, fmt) && i < |boxes| && InRect(px, py, 0, 0, boxes[i].w, boxes[i].h)
  {
    var qx, qy := x + boxes[i].x + px, y + boxes[i].y + py;
    0 <= qy < |g| && 0 <= qx < |g[qy]| && g[qy][qx] == Zrle.TileAt(tiles[i], boxes[i], fmt, px, py)
  }

  lemma ZrleBoxes(w: nat, h: nat)
    ensures Zrle.Boxes(w, h) == BoxesFrom(w, h, Zrle.SIZE, 0, 0)
  {
  }

  /** Whatever a ZRLE payload holds, decoding it changes nothing outside its rectangle. */
  lemma ZrleOutside(g0: Grid, g: Grid, gw: int, gh: int, src: seq<Byte>, fmt: PixelFormat, x: int, y: int, w: nat,
                    h: nat)
    requires fmt.Valid() && Drawn(g0, ZrlePaint.PaintedPayload(src, fmt, x, y, w, h).0, g, gw, gh)
    ensures Outside(g0, g, gw, gh, x, y, w, h)
  {
    hide ZrlePaint.PaintedPayload, Drawn, Within;
    ZrlePaint.PaintsWithin(src, fmt, x, y, w, h);
    OutsideKept(g0, ZrlePaint.PaintedPayload(src, fmt, x, y, w, h).0, g, gw, gh, x, y, w, h);
  }

  /** A rejected payload that does change the surface: the first tile is painted and stays. */
  method HalfPainted(surface: Framebuffer, p: Pixel, x: I32, y: I32, fmt: PixelFormat) returns (r: I32)
    requires surface.Valid() && fmt.Valid() && fmt.trueColor && |p| == fmt.Bpp() && surface.RectInside(x, y, 65, 1)
    modifies surface`view, surface.fb
    ensures surface.Valid() && r == REJECTED && Zrle.Parse(ZrleLimit.Overlong(p), fmt.Bpp(), 65, 1).None?
    ensures Drawn(old(surface.view), [Fill(x, y, 64, 1, Colour(p, fmt))], surface.view, surface.fbWidth,
                  surface.fbHeight)
  {
    hide Drawn, Colour, ZrleLimit.Overlong, ZrlePaint.PaintedPayload, Zrle.Parse, ZrleScan.Scan, ZrleScan.NoLongRun;
    ZrleLimit.HalfPaints(p, fmt, x, y);
    r := surface.ProcessZrleTileData(ZrleLimit.Overlong(p), x, y, 65, 1, fmt);
  }

  /**
   The same background and subrectangles, sent as RRE to one surface and as CoRRE to an equal one,
   leave equal bytes.
   */
  method CompactAgrees(a: Framebuffer, b: Framebuffer, p: Rre.Picture, x: I32, y: I32, w: I32, h: I32, fmt: PixelFormat)
    requires a.Valid() && b.Valid() && a != b && a.fb != b.fb && fmt.Valid() && fmt.trueColor
    requires a.fbWidth == b.fbWidth && a.fbHeight == b.fbHeight && a.view == b.view && a.RectInside(x, y, w, h)
    requires Rre.WellFormed(p, fmt.Bpp(), w, h, false) && Rre.WellFormed(p, fmt.Bpp(), w, h, true)
    requires |Rre.Encode(p, fmt.Bpp(), w, h, true)| < 0x4000_0000
    requires |Rre.Encode(p, fmt.Bpp(), w, h, false)| < 0x4000_0000
    modifies a`view, a.fb, b`view, b.fb
    ensures a.Valid() && b.Valid() && a.fb[..] == b.fb[..]
  {
    hide Holds, Rre.Encode, Rre.Parse, Rre.PayloadOps, Rre.WellFormed, Drawn;
    Rre.CompactPaintsTheSame(p, fmt, x, y, w, h);
    RrePixelsFit(p, fmt, w, h, false);
    ghost var g0 := a.view;
    var r := a.ProcessRreRect(Rre.Encode(p, fmt.Bpp(), w, h, true), x, y, w, h, fmt);
    var s := b.ProcessCoRreRect(Rre.Encode(p, fmt.Bpp(), w, h, false), x, y, w, h, fmt);
    DrawnUnique(g0, Rre.Ops(p, fmt, x, y, w, h), a.view, b.view, a.fbWidth, a.fbHeight);
    HoldsUnique(a.fb[..], b.fb[..], a.fbWidth, a.fbHeight, a.view);
  }
}
