/** Pixel grids, drawing operations, and the painter's law that gives them meaning. */
module Canvas {
  import opened Machine
  import opened PixelFormats

  // Rows of packed pixels.
  type Grid = seq<seq<Rgba>>

  ghost predicate HasSize(g: Grid, w: int, h: int) {
    && |g| == h
    && forall y {:trigger g[y]} :: 0 <= y < h ==> |g[y]| == w
  }

  function Set(g: Grid, x: int, y: int, c: Rgba): Grid
    requires 0 <= y < |g| && 0 <= x < |g[y]|
  {
    var row: seq<Rgba> := g[y];
    var row': seq<Rgba> := row[x := c];
    g[y := row']
  }

  predicate InRect(px: int, py: int, x: int, y: int, w: int, h: int) {
    x <= px < x + w && y <= py < y + h
  }

  /** The test both framebuffer and tile bounds share; no sum is formed, so nothing can wrap. */
  predicate LocalRectInside(parentW: int, parentH: int, x: int, y: int, w: int, h: int) {
    if x < 0 || y < 0 || w < 0 || h < 0 then false
    else if x > parentW || y > parentH then false
    else w <= parentW - x && h <= parentH - y
  }

  /** The bounds test accepts a rectangle exactly when it and all its points lie in the parent. */
  lemma LocalRectInsideMeaning(parentW: int, parentH: int, x: int, y: int, w: int, h: int)
    requires 0 <= parentW && 0 <= parentH && w > 0 && h > 0
    ensures LocalRectInside(parentW, parentH, x, y, w, h)
            <==> forall px, py :: InRect(px, py, x, y, w, h) ==> InRect(px, py, 0, 0, parentW, parentH)
  {
    if forall px, py :: InRect(px, py, x, y, w, h) ==> InRect(px, py, 0, 0, parentW, parentH) {
      assert InRect(x, y, x, y, w, h);
      assert InRect(x + w - 1, y + h - 1, x, y, w, h);
    }
  }

  /** Row-major position of (px, py) in rows of width w. */
  function Index(w: int, px: int, py: int): int {
    py * w + px
  }

  lemma IndexBounds(w: int, h: int, px: int, py: int)
    requires 0 <= px < w && 0 <= py < h
    ensures 0 <= Index(w, px, py) < w * h
  {
    assert py * w <= (h - 1) * w;
  }

  lemma IndexNext(w: int, px: int, py: int)
    ensures Index(w, px + 1, py) == Index(w, px, py) + 1
    ensures Index(w, w, py) == Index(w, 0, py + 1)
  {
  }

  lemma IndexEnds(w: int, h: int)
    ensures Index(w, 0, 0) == 0 && Index(w, 0, h) == w * h
  {
  }

  lemma IndexInjective(w: int, px: int, py: int, qx: int, qy: int)
    requires 0 <= px < w && 0 <= qx < w
    ensures Index(w, px, py) == Index(w, qx, qy) ==> px == qx && py == qy
    ensures Index(w, px, py) < Index(w, qx, qy) <==> py < qy || (py == qy && px < qx)
  {
    assert qy * w - py * w == (qy - py) * w;
    assert py * w - qy * w == (py - qy) * w;
    if qy > py {
      MulAtLeast(w, qy - py);
    } else if py > qy {
      MulAtLeast(w, py - qy);
    }
  }

  /** A row-major walk that has not reached the end stands on a point; one past the last row is the end. */
  lemma WalkNotDone(w: int, h: int, px: int, py: int, k: int)
    requires 0 <= px < w && 0 <= py <= h && k == Index(w, px, py) && k < Index(w, 0, h)
    ensures py < h
  {
  }

  lemma WalkWithin(w: int, h: int, px: int, py: int)
    requires 0 <= px < w && 0 <= py < h
    ensures Index(w, px, py) < w * h && Index(w, px, py) == py * w + px
  {
    IndexBounds(w, h, px, py);
  }

  /** Every position is that of one point. */
  lemma PointOf(w: int, h: int, p: int)
    requires 0 <= w && 0 <= h && 0 <= p < w * h
    ensures w > 0
    ensures 0 <= p % w < w && 0 <= p / w < h && p == Index(w, p % w, p / w)
  {
    assert w > 0;
    DivMod(p, w);
    var y := p / w;
    if y >= h {
      MulMono(w, h, w, y);
    } else if y < 0 {
      MulAtLeast(w, -y);
    }
  }

  /** One drawing step: a rectangle of one colour, or a row-major block of pixels. */
  datatype Op =
    | Fill(x: int, y: int, w: int, h: int, colour: Rgba)
    | Blit(x: int, y: int, w: int, h: int, pixels: seq<Rgba>)
  {
    ghost predicate Valid() {
      0 <= w && 0 <= h && (Blit? ==> |pixels| == w * h)
    }

    predicate Covers(px: int, py: int) {
      InRect(px, py, x, y, w, h)
    }

    function At(px: int, py: int): Rgba
      requires Valid() && Covers(px, py)
    {
      match this
      case Fill(_, _, _, _, c) => c
      case Blit(_, _, _, _, p) => IndexBounds(w, h, px - x, py - y); p[Index(w, px - x, py - y)]
    }
  }

  ghost predicate AllValid(ops: seq<Op>) {
    forall i :: 0 <= i < |ops| ==> ops[i].Valid()
  }

  /** The pixel at (px, py) once ops are drawn in order over a pixel that was `under`. */
  function Seen(ops: seq<Op>, px: int, py: int, under: Rgba): Rgba
    requires AllValid(ops)
  {
    if ops == [] then under
    else
      var last := ops[|ops| - 1];
      if last.Covers(px, py) then last.At(px, py) else Seen(ops[..|ops| - 1], px, py, under)
  }

  ghost predicate Uncovered(ops: seq<Op>, px: int, py: int) {
    forall i :: 0 <= i < |ops| ==> !ops[i].Covers(px, py)
  }

  /** The painter's law: the last operation covering a pixel decides it, and an uncovered pixel is kept. */
  lemma {:induction false} PaintersLaw(ops: seq<Op>, px: int, py: int, under: Rgba)
    requires AllValid(ops)
    ensures Uncovered(ops, px, py) ==> Seen(ops, px, py, under) == under
    ensures forall i :: 0 <= i < |ops| && ops[i].Covers(px, py) && Uncovered(ops[i + 1..], px, py)
                        ==> Seen(ops, px, py, under) == ops[i].At(px, py)
  {
    if ops != [] {
      var n := |ops| - 1;
      PaintersLaw(ops[..n], px, py, under);
      forall i | 0 <= i < |ops| && ops[i].Covers(px, py) && Uncovered(ops[i + 1..], px, py)
        ensures Seen(ops, px, py, under) == ops[i].At(px, py)
      {
        if i < n {
          assert ops[i + 1..][n - i - 1] == ops[n];
          assert ops[..n][i + 1..] == ops[i + 1..][..n - i - 1];
          assert ops[..n][i] == ops[i];
        }
      }
    }
  }

  /** A covered pixel does not depend on what was underneath. */
  lemma {:induction false} CoveredForgets(ops: seq<Op>, px: int, py: int, a: Rgba, b: Rgba)
    requires AllValid(ops) && !Uncovered(ops, px, py)
    ensures Seen(ops, px, py, a) == Seen(ops, px, py, b)
  {
    var n := |ops| - 1;
    if !ops[n].Covers(px, py) {
      var i :| 0 <= i < |ops| && ops[i].Covers(px, py);
      assert ops[..n][i] == ops[i];
      CoveredForgets(ops[..n], px, py, a, b);
    }
  }

  /** Drawing in two parts is drawing one part over the other. */
  lemma {:induction false} SeenConcat(a: seq<Op>, b: seq<Op>, px: int, py: int, under: Rgba)
    requires AllValid(a) && AllValid(b)
    ensures AllValid(a + b)
    ensures Seen(a + b, px, py, under) == Seen(b, px, py, Seen(a, px, py, under))
  {
    if b == [] {
      assert a + b == a;
    } else {
      var n := |b| - 1;
      SeenConcat(a, b[..n], px, py, under);
      assert (a + b)[..|a + b| - 1] == a + b[..n];
    }
  }

  /** `g` is what drawing ops over `g0` leaves. */
  ghost predicate Drawn(g0: Grid, ops: seq<Op>, g: Grid, w: int, h: int) {
    && AllValid(ops)
    && HasSize(g0, w, h) && HasSize(g, w, h)
    && forall px, py {:trigger g[py][px]} :: InRect(px, py, 0, 0, w, h) ==> g[py][px] == Seen(ops, px, py, g0[py][px])
  }

  lemma DrawnUnique(g0: Grid, ops: seq<Op>, g: Grid, g': Grid, w: int, h: int)
    requires Drawn(g0, ops, g, w, h) && Drawn(g0, ops, g', w, h)
    ensures g == g'
  {
    SameGrid(g, g', w, h);
  }

  lemma SameGrid(g: Grid, g': Grid, w: int, h: int)
    requires HasSize(g, w, h) && HasSize(g', w, h)
    requires forall px, py {:trigger g[py][px]} :: InRect(px, py, 0, 0, w, h) ==> g[py][px] == g'[py][px]
    ensures g == g'
  {
    forall y | 0 <= y < h
      ensures g[y] == g'[y]
    {
      assert |g[y]| == w && |g'[y]| == w;
      forall x | 0 <= x < w
        ensures g[y][x] == g'[y][x]
      {
        assert InRect(x, y, 0, 0, w, h);
      }
    }
  }

  lemma DrawnNothing(g: Grid, w: int, h: int)
    requires HasSize(g, w, h)
    ensures Drawn(g, [], g, w, h)
  {
  }

  lemma DrawnThen(g0: Grid, a: seq<Op>, g1: Grid, b: seq<Op>, g2: Grid, w: int, h: int)
    requires Drawn(g0, a, g1, w, h) && Drawn(g1, b, g2, w, h)
    ensures Drawn(g0, a + b, g2, w, h)
  {
    assert AllValid(a + b);
    forall px, py | InRect(px, py, 0, 0, w, h)
      ensures g2[py][px] == Seen(a + b, px, py, g0[py][px])
    {
      SeenConcat(a, b, px, py, g0[py][px]);
      assert g1[py][px] == Seen(a, px, py, g0[py][px]);
    }
  }

  /** Every operation lies in the rectangle. */
  ghost predicate Within(ops: seq<Op>, x: int, y: int, w: int, h: int) {
    forall i :: 0 <= i < |ops| ==> LocalRectInside(w, h, ops[i].x - x, ops[i].y - y, ops[i].w, ops[i].h)
  }

  /** Every point of the rectangle is painted by some operation. */
  ghost predicate Paints(ops: seq<Op>, x: int, y: int, w: int, h: int) {
    forall px, py :: InRect(px, py, x, y, w, h) ==> !Uncovered(ops, px, py)
  }

  /** Drawing inside a rectangle leaves every pixel outside it alone. */
  lemma Framed(g0: Grid, ops: seq<Op>, g: Grid, w: int, h: int, x: int, y: int, rw: int, rh: int, px: int, py: int)
    requires Drawn(g0, ops, g, w, h) && Within(ops, x, y, rw, rh)
    requires InRect(px, py, 0, 0, w, h) && !InRect(px, py, x, y, rw, rh)
    ensures g[py][px] == g0[py][px]
  {
    PaintersLaw(ops, px, py, g0[py][px]);
  }

  /** When the operations paint the whole rectangle, its new contents do not depend on the old surface. */
  lemma Forgets(g0: Grid, g0': Grid, ops: seq<Op>, g: Grid, g': Grid, w: int, h: int,
                x: int, y: int, rw: int, rh: int, px: int, py: int)
    requires Drawn(g0, ops, g, w, h) && Drawn(g0', ops, g', w, h) && Paints(ops, x, y, rw, rh)
    requires InRect(px, py, 0, 0, w, h) && InRect(px, py, x, y, rw, rh)
    ensures g[py][px] == g'[py][px]
  {
    CoveredForgets(ops, px, py, g0[py][px], g0'[py][px]);
  }

  /** The first k pixels of a block, in row-major order, are in place and nothing else has changed. */
  ghost predicate Begun(g0: Grid, op: Op, k: int, g: Grid, w: int, h: int) {
    && op.Blit? && op.Valid() && LocalRectInside(w, h, op.x, op.y, op.w, op.h)
    && HasSize(g0, w, h) && HasSize(g, w, h)
    && forall px, py {:trigger g[py][px]} :: InRect(px, py, 0, 0, w, h) ==>
         g[py][px] == if op.Covers(px, py) && Index(op.w, px - op.x, py - op.y) < k then op.At(px, py) else g0[py][px]
  }

  lemma BegunFirst(g: Grid, op: Op, w: int, h: int)
    requires op.Blit? && op.Valid() && LocalRectInside(w, h, op.x, op.y, op.w, op.h) && HasSize(g, w, h)
    ensures Begun(g, op, 0, g, w, h)
  {
    forall px, py | InRect(px, py, 0, 0, w, h) && op.Covers(px, py)
      ensures Index(op.w, px - op.x, py - op.y) >= 0
    {
      IndexBounds(op.w, op.h, px - op.x, py - op.y);
    }
  }

  /** Writing the next pixel of the walk. */
  lemma BegunNext(g0: Grid, op: Op, k: int, g: Grid, w: int, h: int, px: int, py: int)
    requires Begun(g0, op, k, g, w, h)
    requires 0 <= px < op.w && 0 <= py < op.h && k == Index(op.w, px, py)
    ensures 0 <= k < |op.pixels|
    ensures Begun(g0, op, k + 1, Set(g, op.x + px, op.y + py, op.pixels[k]), w, h)
  {
    IndexBounds(op.w, op.h, px, py);
    var g' := Set(g, op.x + px, op.y + py, op.pixels[k]);
    forall qx, qy | InRect(qx, qy, 0, 0, w, h)
      ensures g'[qy][qx] ==
        if op.Covers(qx, qy) && Index(op.w, qx - op.x, qy - op.y) < k + 1 then op.At(qx, qy) else g0[qy][qx]
    {
      if op.Covers(qx, qy) {
        IndexInjective(op.w, px, py, qx - op.x, qy - op.y);
        IndexInjective(op.w, qx - op.x, qy - op.y, px, py);
      }
      if qx == op.x + px && qy == op.y + py {
        assert g'[qy][qx] == op.pixels[k];
      } else {
        assert g'[qy][qx] == g[qy][qx];
      }
    }
  }

  lemma BegunDone(g0: Grid, op: Op, k: int, g: Grid, w: int, h: int)
    requires Begun(g0, op, k, g, w, h) && k == op.w * op.h
    ensures Drawn(g0, [op], g, w, h)
  {
    forall px, py | InRect(px, py, 0, 0, w, h)
      ensures g[py][px] == Seen([op], px, py, g0[py][px])
    {
      if op.Covers(px, py) {
        IndexBounds(op.w, op.h, px - op.x, py - op.y);
      }
      assert Seen([op][..0], px, py, g0[py][px]) == g0[py][px];
    }
  }

  /** The first k pixels of a block as single points, in the order they are written. */
  ghost function Dots(op: Op, k: nat): (ops: seq<Op>)
    requires op.Blit? && op.Valid() && k <= |op.pixels|
    ensures |ops| == k && AllValid(ops)
  {
    if k == 0 then []
    else Dots(op, k - 1) + [Fill(op.x + (k - 1) % op.w, op.y + (k - 1) / op.w, 1, 1, op.pixels[k - 1])]
  }

  lemma {:induction false} SeenInDots(op: Op, k: nat, px: int, py: int, under: Rgba)
    requires op.Blit? && op.Valid() && k <= |op.pixels|
    ensures Seen(Dots(op, k), px, py, under) ==
            if op.Covers(px, py) && Index(op.w, px - op.x, py - op.y) < k then op.At(px, py) else under
  {
    if op.Covers(px, py) {
      IndexBounds(op.w, op.h, px - op.x, py - op.y);
    }
    if k > 0 {
      SeenInDots(op, k - 1, px, py, under);
      PointOf(op.w, op.h, k - 1);
      var ops := Dots(op, k);
      assert ops[..k - 1] == Dots(op, k - 1);
      if op.Covers(px, py) {
        IndexInjective(op.w, px - op.x, py - op.y, (k - 1) % op.w, (k - 1) / op.w);
      }
    }
  }

  /** A block begun is its first pixels drawn. */
  lemma BegunIsDots(g0: Grid, op: Op, k: nat, g: Grid, w: int, h: int)
    requires Begun(g0, op, k, g, w, h) && k <= |op.pixels|
    ensures Drawn(g0, Dots(op, k), g, w, h)
  {
    forall px, py | InRect(px, py, 0, 0, w, h)
      ensures g[py][px] == Seen(Dots(op, k), px, py, g0[py][px])
    {
      SeenInDots(op, k, px, py, g0[py][px]);
    }
  }

  lemma {:induction false} DotsWithin(op: Op, k: nat, x: int, y: int, w: int, h: int)
    requires op.Blit? && op.Valid() && k <= |op.pixels| && LocalRectInside(w, h, op.x - x, op.y - y, op.w, op.h)
    ensures Within(Dots(op, k), x, y, w, h)
  {
    if k > 0 {
      DotsWithin(op, k - 1, x, y, w, h);
      PointOf(op.w, op.h, k - 1);
    }
  }

  /** The first `row` rows of a fill, and `col` pixels of the next, are in place. */
  ghost predicate Filling(g0: Grid, op: Op, row: int, col: int, g: Grid, w: int, h: int) {
    && HasSize(g0, w, h) && HasSize(g, w, h)
    && forall px, py {:trigger g[py][px]} :: InRect(px, py, 0, 0, w, h) ==>
         g[py][px] == if op.Fill? && (InRect(px, py, op.x, op.y, op.w, row) || InRect(px, py, op.x, op.y + row, col, 1))
                      then op.colour else g0[py][px]
  }

  lemma FillingNext(g0: Grid, op: Op, row: int, col: int, g: Grid, w: int, h: int)
    requires op.Fill? && LocalRectInside(w, h, op.x, op.y, op.w, op.h)
    requires 0 <= row < op.h && 0 <= col < op.w && Filling(g0, op, row, col, g, w, h)
    ensures Filling(g0, op, row, col + 1, Set(g, op.x + col, op.y + row, op.colour), w, h)
  {
    var g' := Set(g, op.x + col, op.y + row, op.colour);
    forall px, py | InRect(px, py, 0, 0, w, h)
      ensures g'[py][px] == if (px == op.x + col && py == op.y + row) then op.colour else g[py][px]
    {
    }
  }

  lemma FillingDone(g0: Grid, op: Op, g: Grid, w: int, h: int)
    requires op.Fill? && op.Valid() && Filling(g0, op, op.h, 0, g, w, h)
    ensures Drawn(g0, [op], g, w, h)
  {
    forall px, py | InRect(px, py, 0, 0, w, h)
      ensures g[py][px] == Seen([op], px, py, g0[py][px])
    {
      assert Seen([op][..0], px, py, g0[py][px]) == g0[py][px];
    }
  }
}
