/** The ustar archive writer, and a reader of the format (POSIX ustar interchange format) that undoes it. */
module Ustar {
  import opened Machine

  /** A code unit of a JavaScript string. */
  type Unit = x: int | 0 <= x < 0x1_0000

  type Bytes = seq<Byte>

  const BLOCK: nat := 512
  const SPACE: Byte := 32

  /** What is written: content is given as its encoded bytes. */
  datatype Entry = Entry(name: seq<Unit>, kind: seq<Unit>, content: Bytes, link: seq<Unit>)

  function Zeros(n: nat): (z: Bytes)
    ensures |z| == n && forall i :: 0 <= i < n ==> z[i] == 0
  {
    seq(n, _ => 0)
  }

  /** Writing text as one byte a code unit, at most size of them. */
  function Ascii(value: seq<Unit>, size: nat): (b: Bytes)
    ensures |b| == Min(|value|, size)
  {
    seq(Min(|value|, size), i requires 0 <= i < Min(|value|, size) => value[i] % 0x100)
  }

  function Units(s: string): (u: seq<Unit>)
    requires forall i :: 0 <= i < |s| ==> s[i] as int < 0x80
    ensures |u| == |s|
  {
    seq(|s|, i requires 0 <= i < |s| => s[i] as int)
  }

  // ----- octal numbers

  function Octal(n: nat): (d: Bytes)
    ensures d != []
  {
    if n < 8 then [48 + n] else Octal(n / 8) + [48 + n % 8]
  }

  /** The number padded with leading zeros. */
  function Padded(n: nat, width: nat): (d: Bytes)
    ensures |d| >= width
  {
    if |Octal(n)| >= width then Octal(n) else seq(width - |Octal(n)|, _ => 48) + Octal(n)
  }

  predicate OctalDigit(b: Byte) {
    48 <= b < 56
  }

  /** The value of leading octal digits on top of those already read. */
  function Value(d: Bytes, acc: nat): nat {
    if d == [] || !OctalDigit(d[0]) then acc else Value(d[1..], 8 * acc + (d[0] - 48))
  }

  function Pow8(n: nat): (p: nat)
    ensures p >= 1
  {
    if n == 0 then 1 else 8 * Pow8(n - 1)
  }

  lemma {:induction false} OctalFits(n: nat, width: nat)
    requires width >= 1 && n < Pow8(width)
    ensures |Octal(n)| <= width && forall i :: 0 <= i < |Octal(n)| ==> OctalDigit(Octal(n)[i])
  {
    if n >= 8 {
      assert width > 1 && n / 8 < Pow8(width - 1);
      OctalFits(n / 8, width - 1);
    }
  }

  lemma {:induction false} OctalValue(n: nat, rest: Bytes)
    ensures Value(Octal(n) + rest, 0) == Value(rest, n)
  {
    if n < 8 {
      assert (Octal(n) + rest)[1..] == rest;
    } else {
      var last: Bytes := [48 + n % 8];
      Assoc(Octal(n / 8), last, rest);
      OctalValue(n / 8, last + rest);
      assert (last + rest)[1..] == rest;
    }
  }

  lemma {:induction false} LeadingZeros(k: nat, rest: Bytes)
    ensures Value(seq(k, _ => 48 as Byte) + rest, 0) == Value(rest, 0)
  {
    var z := seq(k, _ => 48 as Byte);
    if k == 0 {
      assert z + rest == rest;
    } else {
      assert (z + rest)[1..] == seq(k - 1, _ => 48 as Byte) + rest;
      LeadingZeros(k - 1, rest);
    }
  }

  /** A number that fits its field reads back, and the field has exactly the width. */
  lemma PaddedValue(n: nat, width: nat, rest: Bytes)
    requires width >= 1 && n < Pow8(width) && (rest == [] || !OctalDigit(rest[0]))
    ensures |Padded(n, width)| == width && Value(Padded(n, width) + rest, 0) == n
  {
    OctalFits(n, width);
    OctalValue(n, rest);
    if |Octal(n)| < width {
      var k := width - |Octal(n)|;
      Assoc(seq(k, _ => 48 as Byte), Octal(n), rest);
      LeadingZeros(k, Octal(n) + rest);
    }
  }

  // ----- sums

  function Sum(b: Bytes): nat {
    if b == [] then 0 else b[0] + Sum(b[1..])
  }

  lemma {:induction false} SumConcat(a: Bytes, b: Bytes)
    ensures Sum(a + b) == Sum(a) + Sum(b)
  {
    if a == [] {
      assert a + b == b;
    } else {
      assert (a + b)[1..] == a[1..] + b;
      SumConcat(a[1..], b);
    }
  }

  lemma {:induction false} SumBounded(b: Bytes)
    ensures Sum(b) <= 255 * |b|
  {
    if b != [] {
      SumBounded(b[1..]);
    }
  }

  // ----- the header block

  /** Bytes followed by zeros up to the size of the field. */
  predicate FieldIs(h: Bytes, offset: nat, size: nat, b: Bytes) {
    && offset + size <= |h| && |b| <= size
    && h[offset..offset + |b|] == b && forall i :: offset + |b| <= i < offset + size ==> h[i] == 0
  }

  function Spaces(n: nat): Bytes {
    seq(n, _ => SPACE)
  }

  /** The checksum of a block: its own field counts as spaces. */
  function Checksum(h: Bytes): nat
    requires |h| == BLOCK
  {
    Sum(h[..148]) + Sum(Spaces(8)) + Sum(h[156..])
  }

  const MODE: string := "0000644\0"
  const OWNER: string := "0000000\0"
  const MTIME: string := "00000000000\0"
  const MAGIC: string := "ustar\0"
  const VERSION: string := "00"

  /** Every byte of the header block. */
  ghost predicate HeaderIs(h: Bytes, e: Entry) {
    && |h| == BLOCK
    && FieldIs(h, 0, 100, Ascii(e.name, 100))
    && FieldIs(h, 100, 8, Ascii(Units(MODE), 8))
    && FieldIs(h, 108, 8, Ascii(Units(OWNER), 8))
    && FieldIs(h, 116, 8, Ascii(Units(OWNER), 8))
    && FieldIs(h, 124, 12, (Padded(|e.content|, 11) + [0])[..12])
    && FieldIs(h, 136, 12, Ascii(Units(MTIME), 12))
    && FieldIs(h, 148, 8, Padded(Checksum(h), 6) + [0, SPACE])
    && FieldIs(h, 156, 1, Ascii(e.kind, 1))
    && FieldIs(h, 157, 100, Ascii(e.link, 100))
    && FieldIs(h, 257, 6, Ascii(Units(MAGIC), 6))
    && FieldIs(h, 263, 2, Ascii(Units(VERSION), 2))
    && FieldIs(h, 265, 247, [])
  }

  // ----- fields laid out one after another

  datatype Region = Region(offset: nat, size: nat, bytes: Bytes)

  /** The regions hold their bytes, and everything from end on is still zero. */
  ghost predicate Laid(h: Bytes, regions: seq<Region>, end: nat) {
    && |h| == BLOCK && end <= BLOCK
    && (forall k :: 0 <= k < |regions| ==> Holds(h, regions[k], end))
    && forall i :: end <= i < BLOCK ==> h[i] == 0
  }

  ghost predicate Holds(h: Bytes, r: Region, end: nat) {
    r.offset + r.size <= end && FieldIs(h, r.offset, r.size, r.bytes)
  }

  ghost predicate Disjoint(r: Region, offset: nat, size: nat) {
    r.offset + r.size <= offset || offset + size <= r.offset
  }

  function Put(h: Bytes, offset: nat, b: Bytes): (p: Bytes)
    requires offset + |b| <= |h|
    ensures |p| == |h|
  {
    h[..offset] + b + h[offset + |b|..]
  }

  lemma PutAt(h: Bytes, offset: nat, b: Bytes)
    requires offset + |b| <= |h|
    ensures Put(h, offset, b)[offset..offset + |b|] == b
    ensures forall i :: 0 <= i < |h| && !(offset <= i < offset + |b|) ==> Put(h, offset, b)[i] == h[i]
  {
  }

  lemma PutKeeps(h: Bytes, offset: nat, b: Bytes, r: Region, end: nat)
    requires offset + |b| <= |h| && Holds(h, r, end) && Disjoint(r, offset, |b|)
    ensures Holds(Put(h, offset, b), r, end)
  {
    PutAt(h, offset, b);
    hide Put;
    assert Put(h, offset, b)[r.offset..r.offset + |r.bytes|] == h[r.offset..r.offset + |r.bytes|];
  }

  lemma Extend(h: Bytes, regions: seq<Region>, end: nat, size: nat, b: Bytes)
    requires Laid(h, regions, end) && |b| <= size && end + size <= BLOCK
    ensures Laid(Put(h, end, b), regions + [Region(end, size, b)], end + size)
  {
    var p, more := Put(h, end, b), regions + [Region(end, size, b)];
    PutAt(h, end, b);
    forall k | 0 <= k < |more|
      ensures Holds(p, more[k], end + size)
    {
      if k < |regions| {
        assert Holds(h, regions[k], end);
        PutKeeps(h, end, b, regions[k], end);
      }
    }
  }

  /** Rewriting one whole region. */
  lemma Replace(h: Bytes, regions: seq<Region>, end: nat, k: nat, b: Bytes)
    requires Laid(h, regions, end) && k < |regions| && |b| == regions[k].size
    requires forall j :: 0 <= j < |regions| && j != k ==> Disjoint(regions[j], regions[k].offset, |b|)
    requires Holds(h, regions[k], end)
    ensures Laid(Put(h, regions[k].offset, b), regions[k := regions[k].(bytes := b)], end)
  {
    var p, next := Put(h, regions[k].offset, b), regions[k := regions[k].(bytes := b)];
    PutAt(h, regions[k].offset, b);
    forall j | 0 <= j < |next|
      ensures Holds(p, next[j], end)
    {
      assert Holds(h, regions[j], end);
      if j != k {
        PutKeeps(h, regions[k].offset, b, regions[j], end);
      }
    }
  }

  // ----- the writer

  /** Copies text into the header, cut to the field's size. */
  method Field(header: array<Byte>, offset: nat, size: nat, value: seq<Unit>)
    requires offset + size <= header.Length
    modifies header
    ensures header[..] == Put(old(header[..]), offset, Ascii(value, size))
  {
    var n := Min(|value|, size);
    ghost var h, b := header[..], Ascii(value, size);
    hide Put, Ascii;
    PutNothing(h, offset);
    for i := 0 to n
      invariant header[..] == Put(h, offset, b[..i])
    {
      PutGrows(h, offset, b, i);
      AsciiAt(value, size, i);
      header[offset + i] := value[i] % 0x100;
    }
    assert b[..n] == b;
  }

  lemma PutNothing(h: Bytes, offset: nat)
    requires offset <= |h|
    ensures Put(h, offset, []) == h
  {
  }

  lemma PutGrows(h: Bytes, offset: nat, b: Bytes, i: nat)
    requires i < |b| && offset + |b| <= |h|
    ensures Put(h, offset, b[..i + 1]) == Put(h, offset, b[..i])[offset + i := b[i]]
  {
  }

  lemma AsciiAt(value: seq<Unit>, size: nat, i: nat)
    requires i < |Ascii(value, size)|
    ensures i < |value| && Ascii(value, size)[i] == value[i] % 0x100
  {
  }

  method Fill(header: array<Byte>, value: Byte, from: nat, to: nat)
    requires from <= to <= header.Length
    modifies header
    ensures header[..] == Put(old(header[..]), from, seq(to - from, _ => value))
  {
    ghost var h, b: Bytes := header[..], seq(to - from, _ => value);
    hide Put;
    PutNothing(h, from);
    for i := from to to
      invariant header[..] == Put(h, from, b[..i - from])
    {
      PutGrows(h, from, b, i - from);
      header[i] := value;
    }
    assert b[..to - from] == b;
  }

  method Total(header: array<Byte>) returns (sum: nat)
    ensures sum == Sum(header[..])
  {
    sum := 0;
    for i := 0 to header.Length
      invariant sum == Sum(header[..i])
    {
      assert header[..i + 1] == header[..i] + [header[i]];
      SumConcat(header[..i], [header[i]]);
      sum := sum + header[i];
    }
    assert header[..header.Length] == header[..];
  }

  /** The regions of a finished header; b is what stands in the checksum field. */
  ghost function Regions(e: Entry, b: Bytes): seq<Region> {
    [Region(0, 100, Ascii(e.name, 100)), Region(100, 8, Ascii(Units(MODE), 8)), Region(108, 8, Ascii(Units(OWNER), 8)),
     Region(116, 8, Ascii(Units(OWNER), 8)), Region(124, 12, SizeField(e)), Region(136, 12, Ascii(Units(MTIME), 12)),
     Region(148, 8, b), Region(156, 1, Ascii(e.kind, 1)), Region(157, 100, Ascii(e.link, 100)),
     Region(257, 6, Ascii(Units(MAGIC), 6)), Region(263, 2, Ascii(Units(VERSION), 2))]
  }

  function SizeField(e: Entry): (b: Bytes)
    ensures |b| == 12
  {
    (Padded(|e.content|, 11) + [0])[..12]
  }

  lemma LaidIsHeader(h: Bytes, e: Entry, b: Bytes)
    requires Laid(h, Regions(e, b), 265) && b == Padded(Checksum(h), 6) + [0, SPACE]
    ensures HeaderIs(h, e)
  {
    hide Ascii, Units, Padded, Checksum, FieldIs, SizeField;
    var rs := Regions(e, b);
    assert forall k :: 0 <= k < |rs| ==> Holds(h, rs[k], 265);
    assert Holds(h, rs[0], 265) && Holds(h, rs[1], 265) && Holds(h, rs[2], 265) && Holds(h, rs[3], 265);
    assert Holds(h, rs[4], 265) && Holds(h, rs[5], 265) && Holds(h, rs[6], 265) && Holds(h, rs[7], 265);
    assert Holds(h, rs[8], 265) && Holds(h, rs[9], 265) && Holds(h, rs[10], 265);
    RestIsZero(h);
    SizeIs(e);
  }

  lemma SizeIs(e: Entry)
    ensures SizeField(e) == (Padded(|e.content|, 11) + [0])[..12]
  {
  }

  lemma RestIsZero(h: Bytes)
    requires |h| == BLOCK && forall i :: 265 <= i < BLOCK ==> h[i] == 0
    ensures FieldIs(h, 265, 247, [])
  {
  }

  lemma AsciiOfBytes(b: Bytes, size: nat)
    ensures Ascii(b, size) == b[..Min(|b|, size)]
  {
  }

  /** Writes the next field, after which its region is laid. */
  method LayField(header: array<Byte>, size: nat, value: seq<Unit>, ghost regions: seq<Region>, end: nat)
    returns (ghost laid: seq<Region>)
    requires Laid(header[..], regions, end) && end + size <= header.Length
    modifies header
    ensures laid == regions + [Region(end, size, Ascii(value, size))] && Laid(header[..], laid, end + size)
  {
    hide Laid, Put, Ascii;
    ghost var h := header[..];
    LaidLength(h, regions, end);
    AsciiLength(value, size);
    Field(header, end, size, value);
    Extend(h, regions, end, size, Ascii(value, size));
    laid := regions + [Region(end, size, Ascii(value, size))];
  }

  lemma LaidLength(h: Bytes, regions: seq<Region>, end: nat)
    requires Laid(h, regions, end)
    ensures |h| == BLOCK
  {
  }

  lemma AsciiLength(value: seq<Unit>, size: nat)
    ensures |Ascii(value, size)| <= size
  {
  }

  /** The fields up to the time stamp. */
  method LayFront(header: array<Byte>, e: Entry) returns (ghost rs: seq<Region>)
    requires header[..] == Zeros(BLOCK)
    modifies header
    ensures rs == Regions(e, Spaces(8))[..6] && Laid(header[..], rs, 148)
  {
    hide Laid, Put, Ascii, Units, Padded;
    NothingLaid();
    AsciiOfBytes(Padded(|e.content|, 11) + [0], 12);
    rs := LayField(header, 100, e.name, [], 0);
    rs := LayField(header, 8, Units(MODE), rs, 100);
    rs := LayField(header, 8, Units(OWNER), rs, 108);
    rs := LayField(header, 8, Units(OWNER), rs, 116);
    rs := LayField(header, 12, Padded(|e.content|, 11) + [0], rs, 124);
    rs := LayField(header, 12, Units(MTIME), rs, 136);
  }

  /** All fields but the checksum, whose place is filled with spaces. */
  method LayHeader(header: array<Byte>, e: Entry)
    requires header[..] == Zeros(BLOCK)
    modifies header
    ensures Laid(header[..], Regions(e, Spaces(8)), 265)
  {
    hide Laid, Put, Ascii, Units, Padded, SizeField;
    ghost var rs := LayFront(header, e);
    ghost var h := header[..];
    LaidLength(h, rs, 148);
    Fill(header, SPACE, 148, 156);
    Extend(h, rs, 148, 8, Spaces(8));
    rs := rs + [Region(148, 8, Spaces(8))];
    rs := LayField(header, 1, e.kind, rs, 156);
    rs := LayField(header, 100, e.link, rs, 157);
    rs := LayField(header, 6, Units(MAGIC), rs, 257);
    rs := LayField(header, 2, Units(VERSION), rs, 263);
    assert rs == Regions(e, Spaces(8));
  }

  lemma NothingLaid()
    ensures Laid(Zeros(BLOCK), [], 0)
  {
  }

  /** With spaces in its field the block's sum is the checksum. */
  lemma SumIsChecksum(h: Bytes, e: Entry)
    requires Laid(h, Regions(e, Spaces(8)), 265)
    ensures Sum(h) == Checksum(h)
  {
    var rs := Regions(e, Spaces(8));
    assert Holds(h, rs[6], 265);
    assert h[148..156] == Spaces(8);
    assert h == h[..148] + (Spaces(8) + h[156..]);
    SumConcat(h[..148], Spaces(8) + h[156..]);
    SumConcat(Spaces(8), h[156..]);
  }

  lemma ChecksumIgnoresItself(h: Bytes, b: Bytes)
    requires |h| == BLOCK && |b| == 8
    ensures Checksum(Put(h, 148, b)) == Checksum(h)
  {
    assert Put(h, 148, b)[..148] == h[..148] && Put(h, 148, b)[156..] == h[156..];
  }

  /** A checksum always fits in six octal digits. */
  lemma ChecksumFits(h: Bytes)
    requires |h| == BLOCK
    ensures Checksum(h) < Pow8(6) && |Padded(Checksum(h), 6)| == 6
  {
    SumBounded(h[..148]);
    SumBounded(Spaces(8));
    SumBounded(h[156..]);
    assert Pow8(6) == 262144 by {
      assert Pow8(3) == 512;
    }
    PaddedValue(Checksum(h), 6, []);
  }

  ghost predicate SumRegionsApart(e: Entry) {
    var rs := Regions(e, Spaces(8));
    forall j :: 0 <= j < |rs| && j != 6 ==> Disjoint(rs[j], rs[6].offset, 8)
  }

  lemma RegionsApart(e: Entry)
    ensures SumRegionsApart(e)
  {
    hide Ascii, Units, SizeField;
  }

  method WriteHeader(header: array<Byte>, e: Entry)
    requires header[..] == Zeros(BLOCK)
    modifies header
    ensures HeaderIs(header[..], e)
  {
    hide Laid, Put, Ascii, Units, Padded, HeaderIs, Checksum, Sum, Holds;
    LayHeader(header, e);
    ghost var h := header[..];
    LaidLength(h, Regions(e, Spaces(8)), 265);
    var sum := Total(header);
    SumIsChecksum(h, e);
    ChecksumFits(h);
    var text := Padded(sum, 6) + [0, SPACE];
    AsciiOfBytes(text, 8);
    assert text[..8] == text;
    Field(header, 148, 8, text);
    RegionsApart(e);
    RegionHeld(h, Regions(e, Spaces(8)), 265, 6);
    Replace(h, Regions(e, Spaces(8)), 265, 6, text);
    assert Regions(e, Spaces(8))[6 := Region(148, 8, text)] == Regions(e, text);
    ChecksumIgnoresItself(h, text);
    LaidIsHeader(header[..], e, text);
  }

  lemma RegionHeld(h: Bytes, regions: seq<Region>, end: nat, k: nat)
    requires Laid(h, regions, end) && k < |regions|
    ensures Holds(h, regions[k], end)
  {
  }

  /** The number of bytes of n rounded up to whole blocks. */
  function Rounded(n: nat): (r: nat)
    ensures r % BLOCK == 0 && n <= r < n + BLOCK
  {
    n + (BLOCK - n % BLOCK) % BLOCK
  }

  /** An entry on the tape: its header, its content, and zeros up to a whole number of blocks. */
  ghost predicate EntryIs(b: Bytes, e: Entry) {
    var n := |e.content|;
    && |b| == BLOCK + Rounded(n)
    && HeaderIs(b[..BLOCK], e) && b[BLOCK..BLOCK + n] == e.content && forall i :: BLOCK + n <= i < |b| ==> b[i] == 0
  }

  method TarEntry(e: Entry) returns (b: Bytes)
    ensures EntryIs(b, e) && |b| % BLOCK == 0
  {
    hide HeaderIs;
    var header := new Byte[BLOCK](_ => 0);
    assert header[..] == Zeros(BLOCK);
    WriteHeader(header, e);
    var padding := Zeros((BLOCK - |e.content| % BLOCK) % BLOCK);
    b := header[..] + e.content + padding;
    assert b[..BLOCK] == header[..];
    assert b[BLOCK..BLOCK + |e.content|] == e.content;
  }

  function Concat(entries: seq<Bytes>): Bytes {
    if entries == [] then [] else entries[0] + Concat(entries[1..])
  }

  function Archive(entries: seq<Bytes>): Bytes {
    Concat(entries) + Zeros(2 * BLOCK)
  }

  // ----- the reader

  /** An entry as the format stores it. */
  datatype Member = Member(name: Bytes, kind: Byte, content: Bytes, link: Bytes)

  /** A text field ends at its first zero byte. */
  function UntilNul(b: Bytes): Bytes {
    if b == [] || b[0] == 0 then [] else [b[0]] + UntilNul(b[1..])
  }

  predicate ChecksumOk(h: Bytes)
    requires |h| == BLOCK
  {
    Value(h[148..156], 0) == Checksum(h)
  }

  predicate AllZero(b: Bytes) {
    forall i :: 0 <= i < |b| ==> b[i] == 0
  }

  /** Reads headers and contents up to the two zero blocks that end an archive. */
  function ParseArchive(b: Bytes): Option<seq<Member>>
    decreases |b|
  {
    if |b| < 2 * BLOCK then None
    else if AllZero(b[..2 * BLOCK]) then Some([])
    else
      var h := b[..BLOCK];
      var size := Value(h[124..136], 0);
      if h[257..263] != Units(MAGIC) || h[263..265] != Units(VERSION) || !ChecksumOk(h) || BLOCK + Rounded(size) > |b|
      then None
      else
        match ParseArchive(b[BLOCK + Rounded(size)..])
        case None => None
        case Some(rest) => Some([Member(UntilNul(h[..100]), h[156], b[BLOCK..BLOCK + size], UntilNul(h[157..257]))]
            + rest)
  }

  /** What the format keeps of an entry. */
  function Stored(e: Entry): Member {
    Member(UntilNul(Ascii(e.name, 100)), if e.kind == [] then 0 else e.kind[0] % 0x100, e.content,
           UntilNul(Ascii(e.link, 100)))
  }

  lemma {:induction false} UntilNulPadded(b: Bytes, z: Bytes)
    requires AllZero(z)
    ensures UntilNul(b + z) == UntilNul(b)
  {
    if b == [] {
      assert b + z == z;
    } else {
      assert (b + z)[1..] == b[1..] + z;
      UntilNulPadded(b[1..], z);
    }
  }

  lemma FieldRead(h: Bytes, offset: nat, size: nat, b: Bytes)
    requires FieldIs(h, offset, size, b)
    ensures UntilNul(h[offset..offset + size]) == UntilNul(b)
    ensures |b| == size ==> h[offset..offset + size] == b
  {
    hide UntilNul;
    var f, z := h[offset..offset + size], h[offset + |b|..offset + size];
    assert f[..|b|] == h[offset..offset + |b|] && f[|b|..] == z;
    assert f == f[..|b|] + f[|b|..];
    UntilNulPadded(b, z);
  }

  /** The size field reads back the size; a JavaScript string is far below the limit. */
  lemma SizeRead(h: Bytes, e: Entry)
    requires HeaderIs(h, e) && |e.content| < Pow8(11)
    ensures Value(h[124..136], 0) == |e.content|
  {
    hide Ascii, Units, Checksum, UntilNul, Value;
    FieldRead(h, 124, 12, SizeField(e));
    PaddedValue(|e.content|, 11, [0]);
    assert SizeField(e) == Padded(|e.content|, 11) + [0];
  }

  lemma ChecksumRead(h: Bytes, e: Entry)
    requires HeaderIs(h, e)
    ensures ChecksumOk(h)
  {
    hide Ascii, Units, Checksum, UntilNul, Value;
    ChecksumFits(h);
    FieldRead(h, 148, 8, Padded(Checksum(h), 6) + [0, SPACE]);
    PaddedValue(Checksum(h), 6, [0, SPACE]);
  }

  lemma HeaderRead(h: Bytes, e: Entry)
    requires HeaderIs(h, e)
    ensures h[257..263] == Units(MAGIC) && h[263..265] == Units(VERSION)
    ensures UntilNul(h[..100]) == Stored(e).name && UntilNul(h[157..257]) == Stored(e).link && h[156] == Stored(e).kind
    ensures h[100] == 48
  {
    hide Checksum, UntilNul, Value, Padded;
    FieldRead(h, 0, 100, Ascii(e.name, 100));
    assert h[0..100] == h[..100];
    FieldRead(h, 157, 100, Ascii(e.link, 100));
    FieldRead(h, 257, 6, Ascii(Units(MAGIC), 6));
    FieldRead(h, 263, 2, Ascii(Units(VERSION), 2));
    assert Ascii(Units(MAGIC), 6) == Units(MAGIC) && Ascii(Units(VERSION), 2) == Units(VERSION);
    FieldRead(h, 100, 8, Ascii(Units(MODE), 8));
    assert h[100..108][0] == Ascii(Units(MODE), 8)[0] == 48;
    if e.kind != [] {
      assert h[156..157][0] == Ascii(e.kind, 1)[0];
    }
  }

  function StoredAll(es: seq<Entry>): seq<Member> {
    if es == [] then [] else [Stored(es[0])] + StoredAll(es[1..])
  }

  /** Reading an entry and what follows it. */
  lemma EntryRead(b: Bytes, e: Entry, rest: Bytes)
    requires EntryIs(b, e) && |e.content| < Pow8(11) && |rest| >= 2 * BLOCK && ParseArchive(rest).Some?
    ensures ParseArchive(b + rest) == Some([Stored(e)] + ParseArchive(rest).value)
  {
    var t, h, n := b + rest, b[..BLOCK], |e.content|;
    assert t[..BLOCK] == h && t[|b|..] == rest;
    assert t[BLOCK..BLOCK + n] == e.content;
    SizeRead(h, e);
    ChecksumRead(h, e);
    HeaderRead(h, e);
    hide HeaderIs, ChecksumOk, UntilNul, Value, Units, Stored, EntryIs;
    assert !AllZero(t[..2 * BLOCK]) by {
      assert t[..2 * BLOCK][100] == h[100] == 48;
    }
    StoredIs(e);
  }

  lemma StoredIs(e: Entry)
    ensures Stored(e).content == e.content
  {
  }

  lemma ArchiveEnds()
    ensures ParseArchive(Zeros(2 * BLOCK)) == Some([])
  {
  }

  /** Reading an archive gives back what every entry stored, in order, and takes whole blocks. */
  lemma {:induction false} ArchiveRoundTrip(bs: seq<Bytes>, es: seq<Entry>)
    requires |bs| == |es| && forall i :: 0 <= i < |es| ==> EntryIs(bs[i], es[i]) && |es[i].content| < Pow8(11)
    ensures ParseArchive(Archive(bs)) == Some(StoredAll(es)) && |Archive(bs)| % BLOCK == 0
  {
    hide EntryIs, ParseArchive;
    ArchiveEnds();
    if bs == [] {
      assert Archive(bs) == Zeros(2 * BLOCK);
    } else {
      ArchiveRoundTrip(bs[1..], es[1..]);
      assert Archive(bs) == bs[0] + Archive(bs[1..]) by {
        Assoc(bs[0], Concat(bs[1..]), Zeros(2 * BLOCK));
      }
      EntryRead(bs[0], es[0], Archive(bs[1..]));
      EntrySize(bs[0], es[0]);
    }
  }

  lemma EntrySize(b: Bytes, e: Entry)
    requires EntryIs(b, e)
    ensures |b| % BLOCK == 0
  {
    var r := Rounded(|e.content|);
    assert |b| == BLOCK + r && r % BLOCK == 0;
    hide *;
    WholeBlocks(r);
  }

  lemma WholeBlocks(r: nat)
    requires r % 512 == 0
    ensures (512 + r) % 512 == 0
  {
  }

  predicate Plain(text: seq<Unit>) {
    |text| <= 100 && forall i :: 0 <= i < |text| ==> 0 < text[i] < 0x100
  }

  lemma {:induction false} UntilNulIs(b: Bytes)
    ensures |UntilNul(b)| <= |b| && UntilNul(b) == b[..|UntilNul(b)|]
    ensures (forall i :: 0 <= i < |UntilNul(b)| ==> b[i] != 0) && (|UntilNul(b)| < |b| ==> b[|UntilNul(b)|] == 0)
  {
    if b != [] && b[0] != 0 {
      UntilNulIs(b[1..]);
      assert b == [b[0]] + b[1..];
    }
  }

  /**
   A name or link comes back as it was exactly when it has at most 100 characters, each non-zero and
   one byte wide.
   */
  lemma TextKept(text: seq<Unit>)
    ensures UntilNul(Ascii(text, 100)) == text <==> Plain(text)
  {
    var b := Ascii(text, 100);
    UntilNulIs(b);
    hide UntilNul, Min;
    if Plain(text) {
      assert |b| == |text| by { MinIs(|text|, 100); }
      assert forall i :: 0 <= i < |b| ==> b[i] == text[i];
    } else if UntilNul(b) == text {
      MinIs(|text|, 100);
      forall i | 0 <= i < |text|
        ensures 0 < text[i] < 0x100
      {
        assert UntilNul(b)[i] == b[i];
      }
    }
  }

  lemma MinIs(a: nat, b: nat)
    ensures a <= b ==> Min(a, b) == a
    ensures a > b ==> Min(a, b) == b
  {
  }

  /** So an archive of plain entries reads back unchanged: name, type, content and link. */
  lemma PlainRoundTrip(bs: seq<Bytes>, es: seq<Entry>)
    requires |bs| == |es| && forall i :: 0 <= i < |es| ==> EntryIs(bs[i], es[i]) && |es[i].content| < Pow8(11)
    requires forall i {:trigger es[i]} :: 0 <= i < |es| ==>
        Plain(es[i].name) && Plain(es[i].link) && |es[i].kind| == 1 && es[i].kind[0] < 0x100
    ensures var r := ParseArchive(Archive(bs));
      && r.Some? && |r.value| == |es|
      && forall i {:trigger es[i]} :: 0 <= i < |es| ==>
           r.value[i].name == es[i].name && r.value[i].link == es[i].link && r.value[i].content == es[i].content
           && [r.value[i].kind] == es[i].kind
  {
    hide EntryIs, ParseArchive, Stored;
    ArchiveRoundTrip(bs, es);
    StoredAllIs(es);
    forall i {:trigger es[i]} | 0 <= i < |es|
      ensures Stored(es[i]).name == es[i].name && Stored(es[i]).link == es[i].link
      ensures Stored(es[i]).content == es[i].content
        && [Stored(es[i]).kind] == es[i].kind
    {
      PlainStored(es[i]);
    }
  }

  lemma PlainStored(e: Entry)
    requires Plain(e.name) && Plain(e.link) && |e.kind| == 1 && e.kind[0] < 0x100
    ensures Stored(e).name == e.name && Stored(e).link == e.link && Stored(e).content == e.content
    ensures [Stored(e).kind] == e.kind
  {
    TextKept(e.name);
    TextKept(e.link);
  }

  lemma {:induction false} StoredAllIs(es: seq<Entry>)
    ensures |StoredAll(es)| == |es| && forall i :: 0 <= i < |es| ==> StoredAll(es)[i] == Stored(es[i])
  {
    if es != [] {
      StoredAllIs(es[1..]);
    }
  }
}
