/** The row-major tile grid that Hextile (16) and ZRLE (64) walk over a rectangle. */
module Tiling {
  import opened Machine
  import opened PixelFormats
  import opened Canvas

  datatype Box = Box(x: int, y: int, w: int, h: int)

  /** The tiles still to visit when the walk stands at (x, y). */
  function BoxesFrom(w: int, h: int, s: int, x: int, y: int): seq<Box>
    requires s > 0
    decreases h - y, w - x
  {
    if y >= h then []
    else if x >= w then BoxesFrom(w, h, s, 0, y + s)
    else [Box(x, y, Min(s, w - x), Min(s, h - y))] + BoxesFrom(w, h, s, x + s, y)
  }

  /** Every tile is non-empty, no larger than s, and inside the rectangle, at or after the walk's position. */
  lemma {:induction false} BoxesInside(w: int, h: int, s: int, x: int, y: int)
    requires s > 0 && 0 <= x && 0 <= y
    ensures forall b :: b in BoxesFrom(w, h, s, x, y) ==>
              && 0 < b.w <= s && 0 < b.h <= s && LocalRectInside(w, h, b.x, b.y, b.w, b.h)
              && (b.y >= y + s || (b.y == y && b.x >= x))
    decreases h - y, w - x
  {
    if y < h {
      if x >= w {
        BoxesInside(w, h, s, 0, y + s);
      } else {
        BoxesInside(w, h, s, x + s, y);
      }
    }
  }

  /** The tiles cover the rectangle: the walk reaches the tile of every pixel it has not passed. */
  lemma {:induction false} BoxFor(w: int, h: int, s: int, x: int, y: int, px: int, py: int) returns (i: nat)
    requires s > 0 && 0 <= x && 0 <= y
    requires InRect(px, py, 0, 0, w, h) && (py >= y + s || (py >= y && px >= x))
    ensures i < |BoxesFrom(w, h, s, x, y)|
    ensures var b := BoxesFrom(w, h, s, x, y)[i]; InRect(px, py, b.x, b.y, b.w, b.h)
    decreases h - y, w - x
  {
    if x >= w {
      i := BoxFor(w, h, s, 0, y + s, px, py);
    } else if InRect(px, py, x, y, Min(s, w - x), Min(s, h - y)) {
      i := 0;
    } else {
      i := BoxFor(w, h, s, x + s, y, px, py);
      i := i + 1;
    }
  }

  /** The tiles do not overlap. */
  lemma {:induction false} BoxesDisjoint(w: int, h: int, s: int, x: int, y: int, i: nat, j: nat, px: int, py: int)
    requires s > 0 && 0 <= x && 0 <= y
    requires i < j < |BoxesFrom(w, h, s, x, y)|
    ensures var bs := BoxesFrom(w, h, s, x, y);
            !(InRect(px, py, bs[i].x, bs[i].y, bs[i].w, bs[i].h) && InRect(px, py, bs[j].x, bs[j].y, bs[j].w, bs[j].h))
    decreases h - y, w - x
  {
    if x >= w {
      BoxesDisjoint(w, h, s, 0, y + s, i, j, px, py);
    } else if i == 0 {
      BoxesInside(w, h, s, x + s, y);
      var bs := BoxesFrom(w, h, s, x, y);
      assert bs[j] == BoxesFrom(w, h, s, x + s, y)[j - 1];
      assert bs[j] in BoxesFrom(w, h, s, x + s, y);
    } else {
      BoxesDisjoint(w, h, s, x + s, y, i - 1, j - 1, px, py);
    }
  }

  // ----- drawing tile by tile

  function Flatten(groups: seq<seq<Op>>): seq<Op> {
    if groups == [] then [] else Flatten(groups[..|groups| - 1]) + groups[|groups| - 1]
  }

  /** Each group of operations draws exactly its own tile of the rectangle at (x, y). */
  ghost predicate DrawsTiles(groups: seq<seq<Op>>, boxes: seq<Box>, x: int, y: int) {
    && |groups| == |boxes|
    && forall k :: 0 <= k < |groups| ==> DrawsTile(groups[k], boxes[k], x, y)
  }

  ghost predicate DrawsTile(ops: seq<Op>, b: Box, x: int, y: int) {
    AllValid(ops) && Within(ops, x + b.x, y + b.y, b.w, b.h) && Paints(ops, x + b.x, y + b.y, b.w, b.h)
  }

  predicate InBox(op: Op, b: Box, x: int, y: int) {
    LocalRectInside(b.w, b.h, op.x - (x + b.x), op.y - (y + b.y), op.w, op.h)
  }

  lemma {:induction false} FlattenValid(groups: seq<seq<Op>>, boxes: seq<Box>, x: int, y: int)
    requires DrawsTiles(groups, boxes, x, y)
    ensures AllValid(Flatten(groups))
    ensures forall op :: op in Flatten(groups) ==>
      exists k :: 0 <= k < |boxes| && InBox(op, boxes[k], x, y)
  {
    if groups != [] {
      var n := |groups| - 1;
      FlattenValid(groups[..n], boxes[..n], x, y);
      var a, b := Flatten(groups[..n]), groups[n];
      assert DrawsTile(b, boxes[n], x, y);
      forall op: Op | op in a + b
        ensures exists k :: 0 <= k < |boxes| && InBox(op, boxes[k], x, y)
      {
        if op in a {
          var k :| 0 <= k < n && InBox(op, boxes[..n][k], x, y);
          assert boxes[..n][k] == boxes[k];
        } else {
          var i :| 0 <= i < |b| && b[i] == op;
          assert InBox(b[i], boxes[n], x, y);
        }
      }
    }
  }

  /** A point in one tile only shows what that tile's operations draw there. */
  lemma {:induction false} SeenInTile(groups: seq<seq<Op>>, boxes: seq<Box>, x: int, y: int, i: nat, px: int, py: int,
                                      under: Rgba, other: Rgba)
    requires DrawsTiles(groups, boxes, x, y) && i < |boxes|
    requires forall k :: 0 <= k < |boxes| ==>
      (k == i <==> InRect(px - x, py - y, boxes[k].x, boxes[k].y, boxes[k].w, boxes[k].h))
    ensures AllValid(Flatten(groups)) && AllValid(groups[i])
    ensures Seen(Flatten(groups), px, py, under) == Seen(groups[i], px, py, other)
  {
    var n := |groups| - 1;
    FlattenValid(groups, boxes, x, y);
    FlattenValid(groups[..n], boxes[..n], x, y);
    assert DrawsTile(groups[n], boxes[n], x, y) && DrawsTile(groups[i], boxes[i], x, y);
    SeenConcat(Flatten(groups[..n]), groups[n], px, py, under);
    var below := Seen(Flatten(groups[..n]), px, py, under);
    if i == n {
      assert InRect(px, py, x + boxes[n].x, y + boxes[n].y, boxes[n].w, boxes[n].h);
      CoveredForgets(groups[n], px, py, below, other);
    } else {
      PaintersLaw(groups[n], px, py, below);
      SeenInTile(groups[..n], boxes[..n], x, y, i, px, py, under, other);
    }
  }

  /** Drawing every tile of the grid paints the whole rectangle and nothing else. */
  lemma TilesFillRect(groups: seq<seq<Op>>, w: nat, h: nat, s: nat, x: int, y: int)
    requires s > 0 && DrawsTiles(groups, BoxesFrom(w, h, s, 0, 0), x, y)
    ensures var ops := Flatten(groups); AllValid(ops) && Within(ops, x, y, w, h) && Paints(ops, x, y, w, h)
  {
    var boxes, ops := BoxesFrom(w, h, s, 0, 0), Flatten(groups);
    FlattenValid(groups, boxes, x, y);
    BoxesInside(w, h, s, 0, 0);
    forall i | 0 <= i < |ops|
      ensures LocalRectInside(w, h, ops[i].x - x, ops[i].y - y, ops[i].w, ops[i].h)
    {
      var op := ops[i];
      assert op in ops;
      var k :| 0 <= k < |boxes| && InBox(op, boxes[k], x, y);
      assert boxes[k] in boxes;
    }
    forall px, py | InRect(px, py, x, y, w, h)
      ensures !Uncovered(ops, px, py)
    {
      if Uncovered(ops, px, py) {
        var i := UniqueBox(w, h, s, px - x, py - y);
        PaintersLaw(ops, px, py, 0);
        PaintersLaw(ops, px, py, 1);
        SeenInTile(groups, boxes, x, y, i, px, py, 0, 0);
        SeenInTile(groups, boxes, x, y, i, px, py, 1, 0);
      }
    }
  }

  /** Each point of the rectangle lies in exactly one tile. */
  lemma UniqueBox(w: int, h: int, s: int, px: int, py: int) returns (i: nat)
    requires s > 0 && InRect(px, py, 0, 0, w, h)
    ensures var bs := BoxesFrom(w, h, s, 0, 0);
      i < |bs| && forall k :: 0 <= k < |bs| ==> (k == i <==> InRect(px, py, bs[k].x, bs[k].y, bs[k].w, bs[k].h))
  {
    i := BoxFor(w, h, s, 0, 0, px, py);
    var bs := BoxesFrom(w, h, s, 0, 0);
    forall k | 0 <= k < |bs| && k != i
      ensures !InRect(px, py, bs[k].x, bs[k].y, bs[k].w, bs[k].h)
    {
      if k < i {
        BoxesDisjoint(w, h, s, 0, 0, k, i, px, py);
      } else {
        BoxesDisjoint(w, h, s, 0, 0, i, k, px, py);
      }
    }
  }
}
