/**
 RRE (section 7.7.3 of RFC 6143) and its compact variant CoRRE: a background and a list of
 coloured subrectangles. The two differ only in the width of a coordinate on the wire.
 */
module Rre {
  import opened Machine
  import opened PixelFormats
  import opened Canvas

  datatype Subrect = Subrect(pixel: Pixel, x: nat, y: nat, w: nat, h: nat)
  datatype Picture = Picture(background: Pixel, subrects: seq<Subrect>)

  /** Bytes of one coordinate. */
  function CoordSize(wide: bool): int {
    if wide then 2 else 1
  }

  function Coord(src: seq<Byte>, at: nat, wide: bool): nat
    requires at + CoordSize(wide) <= |src|
  {
    if wide then Word16(src[at], src[at + 1]) else src[at]
  }

  /** The signed 32-bit count that starts the payload. */
  function SubrectCount(src: seq<Byte>): I32
    requires |src| >= 4
  {
    ToI32(Word32(src[0], src[1], src[2], src[3]))
  }

  function ReadSubrect(src: seq<Byte>, c: nat, bpp: nat, wide: bool): Subrect
    requires c + bpp + 4 * CoordSize(wide) <= |src|
  {
    var at, cs := c + bpp, CoordSize(wide);
    Subrect(src[c..at], Coord(src, at, wide), Coord(src, at + cs, wide),
            Coord(src, at + 2 * cs, wide), Coord(src, at + 3 * cs, wide))
  }

  predicate Inside(s: Subrect, w: int, h: int) {
    LocalRectInside(w, h, s.x, s.y, s.w, s.h)
  }

  /** Reads n subrectangles that must end exactly at the end of the payload. */
  function ParseSubrects(src: seq<Byte>, c: nat, n: nat, bpp: nat, w: int, h: int, wide: bool): Option<seq<Subrect>>
    decreases n
  {
    var next := c + bpp + 4 * CoordSize(wide);
    if n == 0 then (if c == |src| then Some([]) else None)
    else if |src| < next || !Inside(ReadSubrect(src, c, bpp, wide), w, h) then None
    else
      match ParseSubrects(src, next, n - 1, bpp, w, h, wide)
      case None => None
      case Some(rest) => Some([ReadSubrect(src, c, bpp, wide)] + rest)
  }

  function Parse(src: seq<Byte>, bpp: int, w: int, h: int, wide: bool): Option<Picture>
    requires bpp > 0
  {
    if |src| < 4 + bpp then None
    else if SubrectCount(src) < 0 then None
    else
      match ParseSubrects(src, 4 + bpp, SubrectCount(src), bpp, w, h, wide)
      case None => None
      case Some(l) => Some(Picture(src[4..4 + bpp], l))
  }

  // ----- the wire form, written from the standard, and the proof that Parse inverts it

  predicate WellFormedSubrect(s: Subrect, bpp: int, w: int, h: int, wide: bool) {
    && |s.pixel| == bpp && Inside(s, w, h)
    && var limit := if wide then 0x1_0000 else 0x100; s.x < limit && s.y < limit && s.w < limit && s.h < limit
  }

  predicate WellFormed(p: Picture, bpp: int, w: int, h: int, wide: bool) {
    && |p.background| == bpp && |p.subrects| < 0x8000_0000
    && AllWellFormed(p.subrects, bpp, w, h, wide)
  }

  function EncodeCoord(v: nat, wide: bool): (e: seq<Byte>)
    requires v < if wide then 0x1_0000 else 0x100
    ensures |e| == CoordSize(wide)
  {
    if wide then [v / 0x100, v % 0x100] else [v]
  }

  function EncodeSubrect(s: Subrect, bpp: int, w: int, h: int, wide: bool): (e: seq<Byte>)
    requires WellFormedSubrect(s, bpp, w, h, wide)
    ensures |e| == bpp + 4 * CoordSize(wide)
  {
    s.pixel + (EncodeCoord(s.x, wide) + EncodeCoord(s.y, wide) + EncodeCoord(s.w, wide) + EncodeCoord(s.h, wide))
  }

  function EncodeSubrects(l: seq<Subrect>, bpp: int, w: int, h: int, wide: bool): seq<Byte>
    requires AllWellFormed(l, bpp, w, h, wide)
  {
    if l == [] then [] else EncodeSubrect(l[0], bpp, w, h, wide) + EncodeSubrects(l[1..], bpp, w, h, wide)
  }

  function EncodeCount(n: nat): (e: seq<Byte>)
    requires n < 0x8000_0000
    ensures |e| == 4
  {
    [n / 0x100_0000, n / 0x1_0000 % 0x100, n / 0x100 % 0x100, n % 0x100]
  }

  function Encode(p: Picture, bpp: int, w: int, h: int, wide: bool): seq<Byte>
    requires WellFormed(p, bpp, w, h, wide)
  {
    EncodeCount(|p.subrects|) + p.background + EncodeSubrects(p.subrects, bpp, w, h, wide)
  }

  lemma CoordEncoded(v: nat, e: seq<Byte>, wide: bool)
    requires |e| == CoordSize(wide)
    ensures (v < (if wide then 0x1_0000 else 0x100) && e == EncodeCoord(v, wide)) <==> v == Coord(e, 0, wide)
  {
    hide Word16;
  }

  /** One step of the list parser undoes one step of the encoder, and conversely. */
  lemma SubrectEncoded(e: seq<Byte>, s: Subrect, bpp: int, w: int, h: int, wide: bool)
    requires 0 <= bpp && |e| == bpp + 4 * CoordSize(wide)
    ensures
      (WellFormedSubrect(s, bpp, w, h, wide) && e == EncodeSubrect(s, bpp, w, h, wide)) <==>
      (s == ReadSubrect(e, 0, bpp, wide) && Inside(s, w, h))
  {
    hide Word16;
    var cs := CoordSize(wide);
    var a, b, c, d := e[bpp..bpp + cs], e[bpp + cs..bpp + 2 * cs], e[bpp + 2 * cs..bpp + 3 * cs], e[bpp + 3 * cs..];
    assert e == e[..bpp] + (a + b + c + d);
    CoordEncoded(s.x, a, wide);
    CoordEncoded(s.y, b, wide);
    CoordEncoded(s.w, c, wide);
    CoordEncoded(s.h, d, wide);
    if WellFormedSubrect(s, bpp, w, h, wide) && e == EncodeSubrect(s, bpp, w, h, wide) {
      var t := EncodeSubrect(s, bpp, w, h, wide);
      assert t[..bpp] == s.pixel;
      assert t[bpp..bpp + cs] == EncodeCoord(s.x, wide);
      assert t[bpp + cs..bpp + 2 * cs] == EncodeCoord(s.y, wide);
      assert t[bpp + 2 * cs..bpp + 3 * cs] == EncodeCoord(s.w, wide);
      assert t[bpp + 3 * cs..] == EncodeCoord(s.h, wide);
    }
  }

  predicate AllWellFormed(l: seq<Subrect>, bpp: int, w: int, h: int, wide: bool) {
    forall s :: s in l ==> WellFormedSubrect(s, bpp, w, h, wide)
  }

  lemma {:induction false} EncodedSubrectsParse(src: seq<Byte>, c: nat, l: seq<Subrect>, bpp: nat, w: int, h: int,
                                                wide: bool)
    requires c <= |src| && AllWellFormed(l, bpp, w, h, wide) && src[c..] == EncodeSubrects(l, bpp, w, h, wide)
    ensures ParseSubrects(src, c, |l|, bpp, w, h, wide) == Some(l)
    decreases |l|
  {
    hide Coord, EncodeCoord, LocalRectInside, ReadSubrect, EncodeSubrect;
    if l != [] {
      var next := c + bpp + 4 * CoordSize(wide);
      var first, rest := EncodeSubrect(l[0], bpp, w, h, wide), EncodeSubrects(l[1..], bpp, w, h, wide);
      assert |src[c..]| == |first| + |rest|;
      assert src[c..] == src[c..next] + src[next..];
      Split(src[c..next], src[next..], first, rest);
      SubrectEncoded(first, l[0], bpp, w, h, wide);
      ReadSubrectAt(src, c, bpp, wide);
      EncodedSubrectsParse(src, next, l[1..], bpp, w, h, wide);
      assert l == [l[0]] + l[1..];
    }
  }

  lemma {:induction false} ParsedSubrectsEncode(src: seq<Byte>, c: nat, n: nat, bpp: nat, w: int, h: int, wide: bool)
    requires c <= |src| && ParseSubrects(src, c, n, bpp, w, h, wide).Some?
    ensures var l := ParseSubrects(src, c, n, bpp, w, h, wide).value;
            |l| == n && AllWellFormed(l, bpp, w, h, wide) && src[c..] == EncodeSubrects(l, bpp, w, h, wide)
    decreases n
  {
    hide Coord, EncodeCoord, LocalRectInside, ReadSubrect, EncodeSubrect;
    if n > 0 {
      var l := ParseSubrects(src, c, n, bpp, w, h, wide).value;
      var next := c + bpp + 4 * CoordSize(wide);
      var e := src[c..next];
      ReadSubrectAt(src, c, bpp, wide);
      SubrectEncoded(e, l[0], bpp, w, h, wide);
      ParsedSubrectsEncode(src, next, n - 1, bpp, w, h, wide);
      assert l[1..] == ParseSubrects(src, next, n - 1, bpp, w, h, wide).value;
      assert src[c..] == e + src[next..];
    }
  }

  lemma Split<T>(a: seq<T>, b: seq<T>, a': seq<T>, b': seq<T>)
    requires a + b == a' + b' && |a| == |a'|
    ensures a == a' && b == b'
  {
    assert (a + b)[..|a|] == a && (a' + b')[..|a|] == a';
    assert (a + b)[|a|..] == b && (a' + b')[|a|..] == b';
  }

  lemma ReadSubrectAt(src: seq<Byte>, c: nat, bpp: nat, wide: bool)
    requires c + bpp + 4 * CoordSize(wide) <= |src|
    ensures ReadSubrect(src, c, bpp, wide) == ReadSubrect(src[c..c + bpp + 4 * CoordSize(wide)], 0, bpp, wide)
  {
    hide Word16;
    var e := src[c..c + bpp + 4 * CoordSize(wide)];
    assert forall i :: 0 <= i < |e| ==> e[i] == src[c + i];
    assert e[..bpp] == src[c..c + bpp];
  }

  lemma FourDigits(n: nat)
    ensures n == n / 0x100_0000 * 0x100_0000 + n / 0x1_0000 % 0x100 * 0x1_0000 + n / 0x100 % 0x100 * 0x100 + n % 0x100
  {
  }

  lemma EncodedCount(n: nat)
    requires n < 0x8000_0000
    ensures SubrectCount(EncodeCount(n)) == n
  {
    hide Word32;
    FourDigits(n);
  }

  lemma CountEncoded(e: seq<Byte>)
    requires |e| == 4 && SubrectCount(e) >= 0
    ensures EncodeCount(SubrectCount(e)) == e
  {
    hide Word32;
    var v3 := e[0] as int;
    var v2 := v3 * 0x100 + e[1];
    var v1 := v2 * 0x100 + e[2];
    var v := v1 * 0x100 + e[3];
    assert SubrectCount(e) == v;
    assert v / 0x100 == v1 && v % 0x100 == e[3];
    assert v1 / 0x100 == v2 && v1 % 0x100 == e[2];
    assert v / 0x1_0000 == v2;
    assert v / 0x100_0000 == v3;
  }

  /** Exactly the encodings of well-formed pictures are accepted, each as the one picture it encodes. */
  lemma ParseIsInverse(src: seq<Byte>, p: Picture, bpp: nat, w: int, h: int, wide: bool)
    requires bpp > 0
    ensures Parse(src, bpp, w, h, wide) == Some(p) <==>
            (WellFormed(p, bpp, w, h, wide) && src == Encode(p, bpp, w, h, wide))
  {
    hide WellFormed, Encode, Parse;
    if WellFormed(p, bpp, w, h, wide) && src == Encode(p, bpp, w, h, wide) {
      EncodedParses(src, p, bpp, w, h, wide);
    }
    if Parse(src, bpp, w, h, wide) == Some(p) {
      ParsedEncodes(src, p, bpp, w, h, wide);
    }
  }

  lemma ParsedEncodes(src: seq<Byte>, p: Picture, bpp: nat, w: int, h: int, wide: bool)
    requires bpp > 0 && Parse(src, bpp, w, h, wide) == Some(p)
    ensures WellFormed(p, bpp, w, h, wide) && src == Encode(p, bpp, w, h, wide)
  {
    hide ToI32, WellFormedSubrect, ParseSubrects, EncodeSubrects, EncodeCount;
    ParsedSubrectsEncode(src, 4 + bpp, SubrectCount(src), bpp, w, h, wide);
    assert SubrectCount(src[..4]) == SubrectCount(src);
    CountEncoded(src[..4]);
    assert src == src[..4] + src[4..4 + bpp] + src[4 + bpp..];
  }

  lemma EncodedParses(src: seq<Byte>, p: Picture, bpp: nat, w: int, h: int, wide: bool)
    requires bpp > 0 && WellFormed(p, bpp, w, h, wide) && src == Encode(p, bpp, w, h, wide)
    ensures Parse(src, bpp, w, h, wide) == Some(p)
  {
    hide ToI32, WellFormedSubrect, ParseSubrects, EncodeSubrects, EncodeCount;
    var n := |p.subrects|;
    var t := EncodeCount(n) + p.background;
    assert src == t + EncodeSubrects(p.subrects, bpp, w, h, wide);
    assert src[4 + bpp..] == EncodeSubrects(p.subrects, bpp, w, h, wide);
    assert src[..4] == EncodeCount(n) && src[4..4 + bpp] == p.background;
    EncodedCount(n);
    EncodedSubrectsParse(src, 4 + bpp, p.subrects, bpp, w, h, wide);
  }

  lemma ParsedLength(src: seq<Byte>, c: nat, n: nat, bpp: int, w: int, h: int, wide: bool)
    requires bpp > 0
    ensures var r := ParseSubrects(src, c, n, bpp, w, h, wide); r.Some? ==>
      |r.value| == n && forall s :: s in r.value ==> |s.pixel| == bpp && Inside(s, w, h)
    decreases n
  {
  }

  // ----- what a picture paints

  function SubrectOp(s: Subrect, fmt: PixelFormat, x: int, y: int): Op
    requires fmt.Valid() && |s.pixel| == fmt.Bpp()
  {
    Fill(x + s.x, y + s.y, s.w, s.h, Colour(s.pixel, fmt))
  }

  function SubrectOps(l: seq<Subrect>, fmt: PixelFormat, x: int, y: int): seq<Op>
    requires fmt.Valid() && forall s :: s in l ==> |s.pixel| == fmt.Bpp()
  {
    seq(|l|, i requires 0 <= i < |l| => SubrectOp(l[i], fmt, x, y))
  }

  function Ops(p: Picture, fmt: PixelFormat, x: int, y: int, w: int, h: int): seq<Op>
    requires fmt.Valid() && |p.background| == fmt.Bpp() && forall s :: s in p.subrects ==> |s.pixel| == fmt.Bpp()
  {
    [Fill(x, y, w, h, Colour(p.background, fmt))] + SubrectOps(p.subrects, fmt, x, y)
  }

  lemma OpsAt(p: Picture, fmt: PixelFormat, x: int, y: int, w: int, h: int)
    requires fmt.Valid() && |p.background| == fmt.Bpp() && forall s :: s in p.subrects ==> |s.pixel| == fmt.Bpp()
    ensures var ops := Ops(p, fmt, x, y, w, h);
      && |ops| == |p.subrects| + 1 && ops[0] == Fill(x, y, w, h, Colour(p.background, fmt))
      && forall i {:trigger p.subrects[i]} :: 0 <= i < |p.subrects|
          ==> ops[i + 1] == SubrectOp(p.subrects[i], fmt, x, y)
  {
    hide Colour;
  }

  function PayloadOps(src: seq<Byte>, fmt: PixelFormat, x: int, y: int, w: int, h: int, wide: bool): seq<Op>
    requires fmt.Valid() && Parse(src, fmt.Bpp(), w, h, wide).Some?
  {
    ParsedLength(src, 4 + fmt.Bpp(), SubrectCount(src), fmt.Bpp(), w, h, wide);
    Ops(Parse(src, fmt.Bpp(), w, h, wide).value, fmt, x, y, w, h)
  }

  /** The painting stays in the rectangle and covers all of it. */
  lemma OpsFillRect(src: seq<Byte>, fmt: PixelFormat, x: int, y: int, w: int, h: int, wide: bool)
    requires fmt.Valid() && 0 <= w && 0 <= h && Parse(src, fmt.Bpp(), w, h, wide).Some?
    ensures var ops := PayloadOps(src, fmt, x, y, w, h, wide);
            AllValid(ops) && Within(ops, x, y, w, h) && Paints(ops, x, y, w, h)
  {
    var ops := PayloadOps(src, fmt, x, y, w, h, wide);
    ParsedLength(src, 4 + fmt.Bpp(), SubrectCount(src), fmt.Bpp(), w, h, wide);
    var p := Parse(src, fmt.Bpp(), w, h, wide).value;
    forall i | 0 <= i < |ops|
      ensures ops[i].Valid() && LocalRectInside(w, h, ops[i].x - x, ops[i].y - y, ops[i].w, ops[i].h)
    {
      if i > 0 {
        assert p.subrects[i - 1] in p.subrects;
        assert ops[i] == SubrectOps(p.subrects, fmt, x, y)[i - 1];
      }
    }
    forall px, py | InRect(px, py, x, y, w, h)
      ensures !Uncovered(ops, px, py)
    {
      assert ops[0].Covers(px, py);
    }
  }

  /** The colour RRE gives a pixel: the last subrectangle holding it, or the background. */
  function PictureAt(p: Picture, fmt: PixelFormat, px: int, py: int): Rgba
    requires fmt.Valid() && |p.background| == fmt.Bpp() && forall s :: s in p.subrects ==> |s.pixel| == fmt.Bpp()
    decreases |p.subrects|
  {
    if p.subrects == [] then Colour(p.background, fmt)
    else
      var n := |p.subrects| - 1;
      var s := p.subrects[n];
      if InRect(px, py, s.x, s.y, s.w, s.h) then Colour(s.pixel, fmt)
      else PictureAt(Picture(p.background, p.subrects[..n]), fmt, px, py)
  }

  lemma OpsValid(p: Picture, fmt: PixelFormat, x: int, y: int, w: nat, h: nat)
    requires fmt.Valid() && |p.background| == fmt.Bpp() && forall s :: s in p.subrects ==> |s.pixel| == fmt.Bpp()
    ensures AllValid(Ops(p, fmt, x, y, w, h))
  {
    hide Colour;
    var ops := Ops(p, fmt, x, y, w, h);
    forall i | 0 <= i < |ops|
      ensures ops[i].Valid()
    {
      assert i > 0 ==> ops[i] == SubrectOps(p.subrects, fmt, x, y)[i - 1];
    }
  }

  lemma {:induction false} SeenInPicture(p: Picture, fmt: PixelFormat, x: int, y: int, w: nat, h: nat, px: int,
                                         py: int, under: Rgba)
    requires fmt.Valid() && |p.background| == fmt.Bpp() && forall s :: s in p.subrects ==> |s.pixel| == fmt.Bpp()
    requires InRect(px, py, x, y, w, h)
    ensures AllValid(Ops(p, fmt, x, y, w, h))
    ensures Seen(Ops(p, fmt, x, y, w, h), px, py, under) == PictureAt(p, fmt, px - x, py - y)
    decreases |p.subrects|
  {
    hide Colour;
    var ops := Ops(p, fmt, x, y, w, h);
    OpsValid(p, fmt, x, y, w, h);
    var n := |p.subrects| - 1;
    if n < 0 {
      assert ops[..0] == [];
    } else {
      var p' := Picture(p.background, p.subrects[..n]);
      SeenInPicture(p', fmt, x, y, w, h, px, py, under);
      OpsOfPrefix(p, fmt, x, y, w, h);
    }
  }

  lemma OpsOfPrefix(p: Picture, fmt: PixelFormat, x: int, y: int, w: nat, h: nat)
    requires fmt.Valid() && |p.background| == fmt.Bpp() && forall s :: s in p.subrects ==> |s.pixel| == fmt.Bpp()
    requires p.subrects != []
    ensures var n, ops := |p.subrects| - 1, Ops(p, fmt, x, y, w, h);
            var s := p.subrects[n];
            && |ops| == n + 2
            && ops[..n + 1] == Ops(Picture(p.background, p.subrects[..n]), fmt, x, y, w, h)
            && ops[n + 1] == Fill(x + s.x, y + s.y, s.w, s.h, Colour(s.pixel, fmt))
  {
    hide Colour;
    var n := |p.subrects| - 1;
    assert SubrectOps(p.subrects, fmt, x, y)[..n] == SubrectOps(p.subrects[..n], fmt, x, y);
  }

  /** The same background and subrectangles sent as RRE or as CoRRE paint the same operations. */
  lemma CompactPaintsTheSame(p: Picture, fmt: PixelFormat, x: int, y: int, w: int, h: int)
    requires fmt.Valid() && WellFormed(p, fmt.Bpp(), w, h, false)
    ensures WellFormed(p, fmt.Bpp(), w, h, true)
    ensures var a, b := Encode(p, fmt.Bpp(), w, h, true), Encode(p, fmt.Bpp(), w, h, false);
            && Parse(a, fmt.Bpp(), w, h, true).Some? && Parse(b, fmt.Bpp(), w, h, false).Some?
            && PayloadOps(a, fmt, x, y, w, h, true) == PayloadOps(b, fmt, x, y, w, h, false) == Ops(p, fmt, x, y, w, h)
  {
    forall s | s in p.subrects
      ensures WellFormedSubrect(s, fmt.Bpp(), w, h, true)
    {
      assert WellFormedSubrect(s, fmt.Bpp(), w, h, false);
    }
    ParseIsInverse(Encode(p, fmt.Bpp(), w, h, true), p, fmt.Bpp(), w, h, true);
    ParseIsInverse(Encode(p, fmt.Bpp(), w, h, false), p, fmt.Bpp(), w, h, false);
  }

  // ----- the validators

  /** One step of the list parser. */
  lemma ParseUnfolds(src: seq<Byte>, c: nat, n: nat, bpp: nat, w: int, h: int, wide: bool)
    ensures var next := c + bpp + 4 * CoordSize(wide);
            var r := ParseSubrects(src, c, n, bpp, w, h, wide);
            if n == 0 then r.Some? <==> c == |src|
            else r.Some? <==> next <= |src| && Inside(ReadSubrect(src, c, bpp, wide), w, h)
                              && ParseSubrects(src, next, n - 1, bpp, w, h, wide).Some?
  {
  }

  /** The same step, for the list that is read. */
  lemma ParsedStep(src: seq<Byte>, c: nat, n: nat, bpp: nat, w: int, h: int, wide: bool, l: seq<Subrect>)
    requires n > 0 && ParseSubrects(src, c, n, bpp, w, h, wide) == Some(l)
    ensures var next := c + bpp + 4 * CoordSize(wide);
            && next <= |src| && l != [] && l[0] == ReadSubrect(src, c, bpp, wide) && Inside(l[0], w, h)
            && ParseSubrects(src, next, n - 1, bpp, w, h, wide) == Some(l[1..])
  {
  }

  method ValidateRrePayload(src: seq<Byte>, bpp: I32, w: I32, h: I32) returns (ok: bool)
    requires 1 <= bpp <= 4 && |src| < 0x4000_0000
    ensures ok <==> Parse(src, bpp, w, h, true).Some?
  {
    hide ParseSubrects, LocalRectInside, SubrectCount, Word16;
    if |src| < 4 + bpp { return false; }
    var subrectCount: I32 := SubrectCount(src);
    if subrectCount < 0 { return false; }
    var cursor: I32 := 4 + bpp;
    var i: I32 := 0;
    while i < subrectCount
      invariant 0 <= i <= subrectCount && 0 <= cursor <= |src|
      invariant ParseSubrects(src, cursor, subrectCount - i, bpp, w, h, true).Some?
                <==> ParseSubrects(src, 4 + bpp, subrectCount, bpp, w, h, true).Some?
    {
      ParseUnfolds(src, cursor, subrectCount - i, bpp, w, h, true);
      if |src| < cursor + bpp + 8 { return false; }
      cursor := cursor + bpp;
      var sx: I32 := Word16(src[cursor], src[cursor + 1]);
      var sy: I32 := Word16(src[cursor + 2], src[cursor + 3]);
      var sw: I32 := Word16(src[cursor + 4], src[cursor + 5]);
      var sh: I32 := Word16(src[cursor + 6], src[cursor + 7]);
      cursor := cursor + 8;
      if !LocalRectInside(w, h, sx, sy, sw, sh) { return false; }
      i := i + 1;
    }
    ParseUnfolds(src, cursor, 0, bpp, w, h, true);
    return cursor == |src|;
  }

  method ValidateCoRrePayload(src: seq<Byte>, bpp: I32, w: I32, h: I32) returns (ok: bool)
    requires 1 <= bpp <= 4 && |src| < 0x4000_0000
    ensures ok <==> Parse(src, bpp, w, h, false).Some?
  {
    hide ParseSubrects, LocalRectInside, SubrectCount, Word16;
    if |src| < 4 + bpp { return false; }
    var subrectCount: I32 := SubrectCount(src);
    if subrectCount < 0 { return false; }
    var cursor: I32 := 4 + bpp;
    var i: I32 := 0;
    while i < subrectCount
      invariant 0 <= i <= subrectCount && 0 <= cursor <= |src|
      invariant ParseSubrects(src, cursor, subrectCount - i, bpp, w, h, false).Some?
                <==> ParseSubrects(src, 4 + bpp, subrectCount, bpp, w, h, false).Some?
    {
      ParseUnfolds(src, cursor, subrectCount - i, bpp, w, h, false);
      if |src| < cursor + bpp + 4 { return false; }
      cursor := cursor + bpp;
      var sx, sy, sw, sh := src[cursor], src[cursor + 1], src[cursor + 2], src[cursor + 3];
      cursor := cursor + 4;
      if !LocalRectInside(w, h, sx, sy, sw, sh) { return false; }
      i := i + 1;
    }
    ParseUnfolds(src, cursor, 0, bpp, w, h, false);
    return cursor == |src|;
  }
}
