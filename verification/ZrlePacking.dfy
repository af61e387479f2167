/**
 The packing of palette indices that a ZRLE sender performs (section 7.7.6 of RFC 6143): indices
 fill each byte from its most significant bits down, and every row starts on a byte. The decoder's
 index extraction undoes it.
 */
module ZrlePacking {
  import opened Machine
  import opened Canvas
  import opened Zrle

  /** Slots written one after another, most significant first. */
  function Slots(slots: seq<nat>, bits: nat): nat {
    if slots == [] then 0 else Slots(slots[..|slots| - 1], bits) * Pow2(bits) + slots[|slots| - 1]
  }

  ghost predicate Narrow(slots: seq<nat>, bits: nat) {
    forall i :: 0 <= i < |slots| ==> slots[i] < Pow2(bits)
  }

  lemma {:induction false} ShrSplit(v: nat, a: nat, b: nat)
    ensures Shr(v, a + b) == Shr(Shr(v, a), b)
    decreases a
  {
    if a > 0 {
      ShrSplit(v / 2, a - 1, b);
    }
  }

  lemma LastSlot(slots: seq<nat>, bits: nat)
    requires slots != [] && Narrow(slots, bits)
    ensures Slots(slots, bits) % Pow2(bits) == slots[|slots| - 1]
    ensures Shr(Slots(slots, bits), bits) == Slots(slots[..|slots| - 1], bits)
  {
    var front, last := Slots(slots[..|slots| - 1], bits), slots[|slots| - 1];
    ShrIsDiv(Slots(slots, bits), bits);
    ModUnique(front * Pow2(bits) + last, Pow2(bits), front, last);
  }

  /** Shifting past the k slots after a slot and keeping the low bits reads that slot back. */
  lemma {:induction false} SlotAt(slots: seq<nat>, bits: nat, k: nat)
    requires k < |slots| && Narrow(slots, bits)
    ensures 0 <= bits * k && Shr(Slots(slots, bits), bits * k) % Pow2(bits) == slots[|slots| - 1 - k]
    decreases k
  {
    LastSlot(slots, bits);
    if k > 0 {
      assert bits * k == bits + bits * (k - 1);
      ShrSplit(Slots(slots, bits), bits, bits * (k - 1));
      SlotAt(slots[..|slots| - 1], bits, k - 1);
    } else {
      assert bits * k == 0;
    }
  }

  lemma SlotStep(front: nat, last: nat, m: int, p: int)
    requires front < m && last < p
    ensures front * p + last < m * p
  {
    MulMono(front + 1, p, m, p);
    assert (front + 1) * p == front * p + p;
  }

  lemma {:induction false} SlotsFit(slots: seq<nat>, bits: nat)
    requires Narrow(slots, bits)
    ensures 0 <= bits * |slots| && Slots(slots, bits) < Pow2(bits * |slots|)
  {
    if slots != [] {
      var n := |slots| - 1;
      SlotsFit(slots[..n], bits);
      assert bits * |slots| == bits * n + bits;
      PowSplit(bits * n, bits);
      hide Pow2;
      SlotStep(Slots(slots[..n], bits), slots[n], Pow2(bits * n), Pow2(bits));
    }
  }

  // ----- rows of indices

  type Indices = seq<seq<nat>>

  ghost predicate FitsPalette(ix: Indices, w: int, h: int, size: nat) {
    && |ix| == h && forall r :: 0 <= r < h ==> |ix[r]| == w && forall c :: 0 <= c < w ==> ix[r][c] < size
  }

  function PerByte(bits: nat): (n: int)
    requires bits == 1 || bits == 2 || bits == 4
  {
    if bits == 1 then 8 else if bits == 2 then 4 else 2
  }

  /** The indices in byte q of a row; positions past the row's end are zero padding. */
  function ByteSlots(row: seq<nat>, bits: nat, q: nat): (s: seq<nat>)
    requires bits == 1 || bits == 2 || bits == 4
    ensures |s| == PerByte(bits)
  {
    seq(PerByte(bits), s requires 0 <= s < PerByte(bits) =>
      var i := q * PerByte(bits) + s; if i < |row| then row[i] else 0)
  }

  lemma ByteSlotsFit(row: seq<nat>, bits: nat, q: nat)
    requires (bits == 1 || bits == 2 || bits == 4) && Narrow(row, bits)
    ensures Narrow(ByteSlots(row, bits, q), bits) && Slots(ByteSlots(row, bits, q), bits) < 0x100
  {
    var s := ByteSlots(row, bits, q);
    SlotsFit(s, bits);
    assert bits * |s| == 8;
    assert Pow2(8) == 256 by { EightBits(); }
  }

  lemma EightBits()
    ensures Pow2(8) == 256 && Pow2(1) == 2 && Pow2(2) == 4 && Pow2(4) == 16
  {
    assert Pow2(4) == 16;
    PowSplit(4, 4);
  }

  ghost predicate NarrowRows(ix: Indices, w: int, h: int, bits: nat) {
    |ix| == h && forall r :: 0 <= r < h ==> |ix[r]| == w && Narrow(ix[r], bits)
  }

  ghost function ByteValue(row: seq<nat>, bits: nat, q: nat): Byte
    requires (bits == 1 || bits == 2 || bits == 4) && Narrow(row, bits)
  {
    ByteSlotsFit(row, bits, q);
    Slots(ByteSlots(row, bits, q), bits)
  }

  ghost function Pack(ix: Indices, w: int, h: int, bits: nat): (data: seq<Byte>)
    requires (bits == 1 || bits == 2 || bits == 4) && 0 < w && 0 < h && NarrowRows(ix, w, h, bits)
    ensures |data| == RowBytes(w, bits) * h
  {
    MulMono(0, 0, RowBytes(w, bits), h);
    seq(RowBytes(w, bits) * h, p requires 0 <= p < RowBytes(w, bits) * h =>
      PointOf(RowBytes(w, bits), h, p); ByteValue(ix[p / RowBytes(w, bits)], bits, p % RowBytes(w, bits)))
  }

  /** Where the decoder looks is where the sender put the index. */
  lemma ShiftIsSlot(bits: nat, col: nat)
    requires bits == 1 || bits == 2 || bits == 4
    ensures var n := PerByte(bits);
      && col * bits / 8 == col / n && PackedShift(bits, col) == bits * (n - 1 - col % n)
      && col == (col / n) * n + col % n
  {
    if bits == 1 {
    } else if bits == 2 {
    } else {
    }
  }

  lemma PackedIndexIs(ix: Indices, w: int, h: int, bits: nat, col: int, row: int)
    requires (bits == 1 || bits == 2 || bits == 4) && NarrowRows(ix, w, h, bits) && 0 <= col < w && 0 <= row < h
    ensures PackedIndex(Pack(ix, w, h, bits), w, h, bits, col, row) == ix[row][col]
  {
    var n, q := PerByte(bits), col / PerByte(bits);
    var slots := ByteSlots(ix[row], bits, q);
    PackedByteIs(ix, w, h, bits, col, row);
    ShiftIsSlot(bits, col);
    ByteSlotsFit(ix[row], bits, q);
    SlotInByte(ix[row], bits, col);
    hide Pack, Slots, ByteSlots, PackedByte, RowBytes;
    SlotAt(slots, bits, n - 1 - col % n);
  }

  lemma SlotInByte(row: seq<nat>, bits: nat, col: nat)
    requires (bits == 1 || bits == 2 || bits == 4) && col < |row|
    ensures ByteSlots(row, bits, col / PerByte(bits))[col % PerByte(bits)] == row[col]
  {
    ShiftIsSlot(bits, col);
  }

  /** The byte the decoder looks into is the one the sender filled. */
  lemma PackedByteIs(ix: Indices, w: int, h: int, bits: nat, col: int, row: int)
    requires (bits == 1 || bits == 2 || bits == 4) && NarrowRows(ix, w, h, bits) && 0 <= col < w && 0 <= row < h
    ensures var p := PackedByte(w, bits, col, row);
      0 <= p < RowBytes(w, bits) * h
          && Pack(ix, w, h, bits)[p] == Slots(ByteSlots(ix[row], bits, col / PerByte(bits)), bits)
  {
    var rb, q := RowBytes(w, bits), col / PerByte(bits);
    ColumnInRow(w, h, bits, col, row);
    ColumnByte(w, bits, col);
    ShiftIsSlot(bits, col);
    var p := PackedByte(w, bits, col, row);
    assert p == row * rb + q;
    ModUnique(p, rb, row, q);
    PackAt(ix, w, h, bits, p);
  }

  lemma PackAt(ix: Indices, w: int, h: int, bits: nat, p: nat)
    requires (bits == 1 || bits == 2 || bits == 4) && 0 < w && 0 < h && NarrowRows(ix, w, h, bits)
    requires p < RowBytes(w, bits) * h
    ensures RowBytes(w, bits) > 0 && 0 <= p / RowBytes(w, bits) < h
    ensures Pack(ix, w, h, bits)[p] == Slots(ByteSlots(ix[p / RowBytes(w, bits)], bits, p % RowBytes(w, bits)), bits)
  {
    PointOf(RowBytes(w, bits), h, p);
  }

  /** A sender's packed tile is accepted and every point shows the palette entry the sender chose for it. */
  lemma PackedRoundTrip(ix: Indices, w: int, h: int, size: nat)
    requires 0 < w && 0 < h && 2 <= size <= 16 && FitsPalette(ix, w, h, size)
    ensures NarrowRows(ix, w, h, BitsPerIndex(size))
    ensures var data := Pack(ix, w, h, BitsPerIndex(size));
      && IndicesInPalette(data, w, h, size)
      && forall col, row :: 0 <= col < w && 0 <= row < h ==>
           PackedIndex(data, w, h, BitsPerIndex(size), col, row) == ix[row][col]
  {
    var bits := BitsPerIndex(size);
    EightBits();
    assert size <= Pow2(bits);
    hide Pack, PackedIndex;
    forall col, row | 0 <= col < w && 0 <= row < h
      ensures PackedIndex(Pack(ix, w, h, bits), w, h, bits, col, row) == ix[row][col]
    {
      PackedIndexIs(ix, w, h, bits, col, row);
    }
  }
}
