/**
 The canonical serializer of the catalog delta: two values print alike exactly when they are equal up
 to key order.
 */
module Serializer {
  import opened Machine
  import opened Sorting

  /** A code point of a JavaScript string; an unpaired surrogate counts as one. */
  type Code = x: int | 0 <= x < 0x11_0000

  type Str = seq<Code>

  datatype Entry = Entry(key: Str, value: Json)

  /** A value as the catalog loader yields it; a number is given by its canonical text. */
  datatype Json =
    | Undefined
    | Null
    | Bool(b: bool)
    | Number(text: string)
    | String(s: Str)
    | Array(items: seq<Json>)
    | Object(entries: seq<Entry>)

  // ----- well-formed values

  predicate NumberChar(c: char) {
    '0' <= c <= '9' || 'a' <= c <= 'z' || c == '-' || c == '+' || c == '.'
  }

  predicate NumberText(t: string) {
    t != [] && forall i :: 0 <= i < |t| ==> NumberChar(t[i])
  }

  function Keys(entries: seq<Entry>): (k: seq<Str>)
    ensures |k| == |entries|
  {
    seq(|entries|, i requires 0 <= i < |entries| => entries[i].key)
  }

  predicate Wf(v: Json) {
    match v
    case Number(text) => NumberText(text)
    case Array(items) => forall i :: 0 <= i < |items| ==> Wf(items[i])
    case Object(entries) => Distinct(Keys(entries)) && forall i :: 0 <= i < |entries| ==> Wf(entries[i].value)
    case _ => true
  }

  // ----- equality up to key order

  ghost predicate SameKeys(a: seq<Entry>, b: seq<Entry>) {
    forall k :: k in Keys(a) <==> k in Keys(b)
  }

  ghost predicate Same(a: Json, b: Json)
    decreases a
  {
    match a
    case Array(items) =>
      b.Array? && |items| == |b.items| && forall i :: 0 <= i < |items| ==> Same(items[i], b.items[i])
    case Object(entries) =>
      && b.Object? && SameKeys(entries, b.entries)
      && forall i, j :: 0 <= i < |entries| && 0 <= j < |b.entries| && entries[i].key == b.entries[j].key
                        ==> Same(entries[i].value, b.entries[j].value)
    case _ => a == b
  }

  // ----- printing

  function HexDigit(n: nat): char
    requires n < 16
  {
    if n < 10 then ('0' as int + n) as char else ('a' as int + n - 10) as char
  }

  predicate Surrogate(c: Code) {
    0xD800 <= c < 0xE000
  }

  /** One code point between the quotes of a JSON string. */
  function Escape(c: Code): (e: string)
    ensures e != [] && e[0] != '\"'
  {
    if c == 8 then "\\b"
    else if c == 9 then "\\t"
    else if c == 10 then "\\n"
    else if c == 12 then "\\f"
    else if c == 13 then "\\r"
    else if c == 0x22 then "\\\""
    else if c == 0x5C then "\\\\"
    else if c < 0x20 || Surrogate(c) then
      "\\u" + [HexDigit(c / 0x1000), HexDigit(c / 0x100 % 16), HexDigit(c / 0x10 % 16), HexDigit(c % 16)]
    else [c as char]
  }

  function Escaped(s: Str): string {
    if s == [] then "" else Escape(s[0]) + Escaped(s[1..])
  }

  function Quoted(s: Str): string {
    "\"" + Escaped(s) + "\""
  }

  function Join(parts: seq<string>): string {
    if parts == [] then "" else if |parts| == 1 then parts[0] else parts[0] + "," + Join(parts[1..])
  }

  function IndexOf<T(==)>(s: seq<T>, x: T): (i: nat)
    requires x in s
    ensures i < |s| && s[i] == x
  {
    if s[0] == x then 0 else 1 + IndexOf(s[1..], x)
  }

  /** The elements, rearranged so that their keys ascend. */
  function InKeyOrder<A>(keys: seq<Str>, xs: seq<A>, le: (Str, Str) -> bool): (ys: seq<A>)
    requires |keys| == |xs|
    ensures |ys| == |xs|
  {
    SortPermutes(keys, le);
    seq(|xs|, j requires 0 <= j < |xs| =>
      assert Sort(keys, le)[j] in Sort(keys, le);
      xs[IndexOf(keys, Sort(keys, le)[j])])
  }

  function Member(key: Str, printed: string): string {
    Quoted(key) + ":" + printed
  }

  function Stable(v: Json, le: (Str, Str) -> bool): string
    decreases v
  {
    match v
    case Undefined => "undefined"
    case Null => "object:null"
    case Bool(b) => if b then "boolean:true" else "boolean:false"
    case Number(text) => "number:" + text
    case String(s) => "string:" + Quoted(s)
    case Array(items) => "array:[" + Join(seq(|items|, i requires 0 <= i < |items| => Stable(items[i], le))) + "]"
    case Object(entries) =>
      var members := seq(|entries|,
          i requires 0 <= i < |entries| => Member(entries[i].key, Stable(entries[i].value, le)));
      "object:{" + Join(InKeyOrder(Keys(entries), members, le)) + "}"
  }

  // ----- reading back what was printed

  lemma Strip(p: string, x: string, y: string)
    requires p + x == p + y
    ensures x == y
  {
    assert (p + x)[|p|..] == x;
    assert (p + y)[|p|..] == y;
  }

  /** Reading the first code point is unambiguous. */
  lemma EscapeUnique(c: Code, d: Code, x: string, y: string)
    requires Escape(c) + x == Escape(d) + y
    ensures c == d
  {
    var a, b := Escape(c) + x, Escape(d) + y;
    assert a[0] == Escape(c)[0] && b[0] == Escape(d)[0];
    if a[0] == '\\' {
      assert a[1] == Escape(c)[1] && b[1] == Escape(d)[1];
      if a[1] == 'u' {
        assert |Escape(c)| == 6 && |Escape(d)| == 6;
        assert Escape(c) == a[..6] && Escape(d) == b[..6];
        HexUnique(c, d);
      }
    }
  }

  lemma HexUnique(c: Code, d: Code)
    requires |Escape(c)| == 6 && Escape(c) == Escape(d)
    ensures c == d
  {
    assert HexDigit(c / 0x1000) == Escape(c)[2];
    DigitUnique(c / 0x1000, d / 0x1000);
    assert HexDigit(c / 0x100 % 16) == Escape(c)[3];
    DigitUnique(c / 0x100 % 16, d / 0x100 % 16);
    assert HexDigit(c / 0x10 % 16) == Escape(c)[4];
    DigitUnique(c / 0x10 % 16, d / 0x10 % 16);
    assert HexDigit(c % 16) == Escape(c)[5];
    DigitUnique(c % 16, d % 16);
    hide Escape, HexDigit;
    Nibbles(c);
    Nibbles(d);
  }

  lemma DigitUnique(m: nat, n: nat)
    requires m < 16 && n < 16 && HexDigit(m) == HexDigit(n)
    ensures m == n
  {
  }

  lemma Nibbles(c: nat)
    ensures c == 0x1000 * (c / 0x1000) + 0x100 * (c / 0x100 % 16) + 0x10 * (c / 0x10 % 16) + c % 16
  {
    var a := c / 0x10;
    var b := a / 0x10;
    assert c / 0x100 == b && c / 0x1000 == b / 0x10;
  }

  lemma ClosingQuote(s: Str, x: string)
    ensures (Escaped(s) + "\"" + x)[0] == '\"' <==> s == []
  {
    hide Escape;
    if s != [] {
      assert (Escaped(s) + "\"" + x)[0] == Escape(s[0])[0];
    }
  }

  lemma {:induction false} EscapedUnique(s: Str, t: Str, x: string, y: string)
    requires Escaped(s) + "\"" + x == Escaped(t) + "\"" + y
    ensures s == t && x == y
  {
    hide Escape;
    var a, b := Escaped(s) + "\"" + x, Escaped(t) + "\"" + y;
    if s == [] || t == [] {
      ClosingQuote(s, x);
      ClosingQuote(t, y);
      assert s == [] && t == [];
      assert a == "\"" + x && b == "\"" + y;
      Strip("\"", x, y);
    } else {
      var s', t' := Escaped(s[1..]) + "\"" + x, Escaped(t[1..]) + "\"" + y;
      assert a == Escape(s[0]) + s' && b == Escape(t[0]) + t';
      EscapeUnique(s[0], t[0], s', t');
      Strip(Escape(s[0]), s', t');
      EscapedUnique(s[1..], t[1..], x, y);
    }
  }

  lemma QuotedThen(s: Str, x: string)
    ensures Quoted(s) + x == "\"" + (Escaped(s) + "\"" + x)
  {
    hide Escaped;
    Assoc("\"", Escaped(s), "\"");
    Assoc("\"", Escaped(s) + "\"", x);
  }

  lemma QuotedUnique(s: Str, t: Str, x: string, y: string)
    requires Quoted(s) + x == Quoted(t) + y
    ensures s == t && x == y
  {
    hide Escaped;
    QuotedThen(s, x);
    QuotedThen(t, y);
    Strip("\"", Escaped(s) + "\"" + x, Escaped(t) + "\"" + y);
    EscapedUnique(s, t, x, y);
  }

  /** What may follow a printed value. */
  predicate Ends(rest: string) {
    rest == [] || rest[0] == ',' || rest[0] == ']' || rest[0] == '}'
  }

  lemma NotShorter(t: string, u: string, x: string, y: string)
    requires NumberText(u) && Ends(x) && t + x == u + y
    ensures |u| <= |t|
  {
    var s := t + x;
    forall i | 0 <= i < |u|
      ensures NumberChar(s[i])
    {
      assert s[i] == (u + y)[i];
    }
    if |t| < |s| {
      assert s[|t|] == x[0];
      assert !NumberChar(s[|t|]);
    }
  }

  lemma NumberUnique(t: string, u: string, x: string, y: string)
    requires NumberText(t) && NumberText(u) && Ends(x) && Ends(y) && t + x == u + y
    ensures t == u && x == y
  {
    NotShorter(t, u, x, y);
    NotShorter(u, t, y, x);
    assert (t + x)[..|t|] == t && (u + y)[..|t|] == u;
    Strip(t, x, y);
  }

  /** How a printed value begins; no opening is a prefix of another. */
  function Opening(v: Json): (o: string)
    ensures o != [] && 'a' <= o[0] <= 'z'
  {
    match v
    case Undefined => "undefined"
    case Null => "object:null"
    case Bool(b) => if b then "boolean:true" else "boolean:false"
    case Number(_) => "number:"
    case String(_) => "string:"
    case Array(_) => "array:["
    case Object(_) => "object:{"
  }

  predicate SameKind(a: Json, b: Json) {
    match a
    case Undefined => b.Undefined?
    case Null => b.Null?
    case Bool(_) => a == b
    case Number(_) => b.Number?
    case String(_) => b.String?
    case Array(_) => b.Array?
    case Object(_) => b.Object?
  }

  lemma OpeningUnique(a: Json, b: Json, x: string, y: string)
    requires Opening(a) + x == Opening(b) + y
    ensures SameKind(a, b) && x == y
  {
    var s, t := Opening(a) + x, Opening(b) + y;
    assert s[0] == Opening(a)[0] && t[0] == Opening(b)[0];
    if s[0] == 'o' {
      assert s[7] == Opening(a)[7] && t[7] == Opening(b)[7];
    } else if s[0] == 'b' {
      assert s[8] == Opening(a)[8] && t[8] == Opening(b)[8];
    }
    assert SameKind(a, b);
    Strip(Opening(a), x, y);
  }

  // ----- arrays and objects as lists of slots

  /** An element of an array, or a member of an object in printing order. */
  datatype Slot = Slot(keyed: bool, key: Str, value: Json)

  function Slots(v: Json, le: (Str, Str) -> bool): (s: seq<Slot>)
    requires v.Array? || v.Object?
  {
    match v
    case Array(items) => seq(|items|, i requires 0 <= i < |items| => Slot(false, [], items[i]))
    case Object(entries) =>
      InKeyOrder(Keys(entries),
          seq(|entries|, i requires 0 <= i < |entries| => Slot(true, entries[i].key, entries[i].value)), le)
  }

  function Piece(slot: Slot, le: (Str, Str) -> bool): string {
    if slot.keyed then Member(slot.key, Stable(slot.value, le)) else Stable(slot.value, le)
  }

  /** The printed slots from the k-th on, with the closing bracket. */
  function Tail(v: Json, le: (Str, Str) -> bool, k: nat): string
    requires (v.Array? || v.Object?) && k <= |Slots(v, le)|
    decreases |Slots(v, le)| - k
  {
    if k == |Slots(v, le)| then (if v.Array? then "]" else "}")
    else (if k == 0 then "" else ",") + Piece(Slots(v, le)[k], le) + Tail(v, le, k + 1)
  }

  lemma JoinStep(parts: seq<string>, k: nat)
    requires k < |parts|
    ensures Join(parts[k..]) == if k + 1 == |parts| then parts[k] else parts[k] + "," + Join(parts[k + 1..])
    ensures Join(parts[|parts|..]) == ""
  {
    assert parts[k..][0] == parts[k] && parts[k..][1..] == parts[k + 1..];
  }

  lemma {:induction false} TailIsJoin(v: Json, parts: seq<string>, le: (Str, Str) -> bool, k: nat)
    requires (v.Array? || v.Object?) && |parts| == |Slots(v, le)| && k <= |parts|
    requires forall i :: 0 <= i < |parts| ==> parts[i] == Piece(Slots(v, le)[i], le)
    ensures Tail(v, le, k) == (if 0 < k < |parts| then "," else "") + Join(parts[k..]) + (if v.Array? then "]" else "}")
    decreases |parts| - k
  {
    hide Slots, Piece;
    var n := |parts|;
    var close := if v.Array? then "]" else "}";
    if k < n {
      TailIsJoin(v, parts, le, k + 1);
      JoinStep(parts, k);
      var comma := if k == 0 then "" else ",";
      assert Tail(v, le, k) == comma + parts[k] + Tail(v, le, k + 1);
      hide Join, Tail;
      if k + 1 < n {
        Regroup(comma, parts[k], Join(parts[k + 1..]), close);
      }
    }
  }

  lemma Regroup(comma: string, part: string, rest: string, close: string)
    ensures comma + part + ("," + rest + close) == comma + (part + "," + rest) + close
  {
    Assoc(comma + part, "," + rest, close);
    Assoc(comma, part, "," + rest);
    Assoc(part, ",", rest);
  }

  /** What follows the opening of a printed value. */
  function Rest(v: Json, le: (Str, Str) -> bool): string {
    match v
    case Number(text) => text
    case String(s) => Quoted(s)
    case Array(_) => Tail(v, le, 0)
    case Object(_) => Tail(v, le, 0)
    case _ => ""
  }

  lemma StableOpens(v: Json, le: (Str, Str) -> bool)
    ensures Stable(v, le) == Opening(v) + Rest(v, le)
  {
    match v
    case Array(_) => ArrayOpens(v, le);
    case Object(_) => ObjectOpens(v, le);
    case _ =>
  }

  lemma ArrayOpens(v: Json, le: (Str, Str) -> bool)
    requires v.Array?
    ensures Stable(v, le) == "array:[" + Tail(v, le, 0)
  {
    var items := v.items;
    var parts := seq(|items|, i requires 0 <= i < |items| => Stable(items[i], le));
    assert Stable(v, le) == "array:[" + Join(parts) + "]";
    assert forall i :: 0 <= i < |parts| ==> parts[i] == Piece(Slots(v, le)[i], le);
    hide Stable, Join, Tail, Piece, Slots;
    TailIsJoin(v, parts, le, 0);
    assert parts[0..] == parts;
    assert "" + Join(parts) == Join(parts);
    Assoc("array:[", Join(parts), "]");
  }

  lemma ObjectOpens(v: Json, le: (Str, Str) -> bool)
    requires v.Object?
    ensures Stable(v, le) == "object:{" + Tail(v, le, 0)
  {
    var entries := v.entries;
    var members := seq(|entries|,
        i requires 0 <= i < |entries| => Member(entries[i].key, Stable(entries[i].value, le)));
    var parts := InKeyOrder(Keys(entries), members, le);
    assert Stable(v, le) == "object:{" + Join(parts) + "}";
    assert forall i :: 0 <= i < |parts| ==> parts[i] == Piece(Slots(v, le)[i], le) by {
      hide Stable, Join, Member;
    }
    hide Stable, Join, Tail, Piece, Slots;
    TailIsJoin(v, parts, le, 0);
    assert parts[0..] == parts;
    assert "" + Join(parts) == Join(parts);
    Assoc("object:{", Join(parts), "}");
  }

  /** The first character of a slot tells it from a separator and from a closing bracket. */
  lemma PieceStarts(slot: Slot, le: (Str, Str) -> bool)
    ensures Piece(slot, le) != [] && !Ends(Piece(slot, le))
  {
    StableOpens(slot.value, le);
  }

  lemma TailStarts(v: Json, le: (Str, Str) -> bool, k: nat, x: string)
    requires (v.Array? || v.Object?) && k <= |Slots(v, le)|
    ensures 0 < k ==> Ends(Tail(v, le, k) + x)
    ensures var c := (Tail(v, le, k) + x)[0]; (c == ']' || c == '}') <==> k == |Slots(v, le)|
  {
    hide Slots, Piece;
    if k < |Slots(v, le)| {
      PieceStarts(Slots(v, le)[k], le);
    }
  }

  /**
   No value prints so that another value's text continues it: what was printed determines the value and
   where it ends.
   */
  lemma {:induction false} Unique(a: Json, b: Json, le: (Str, Str) -> bool, x: string, y: string)
    requires Wf(a) && Wf(b) && Ends(x) && Ends(y) && Stable(a, le) + x == Stable(b, le) + y
    ensures Same(a, b) && x == y
    decreases a, if a.Array? || a.Object? then |Slots(a, le)| + 1 else 0
  {
    hide Stable, Slots, Tail;
    StableOpens(a, le);
    StableOpens(b, le);
    assert Stable(a, le) + x == Opening(a) + (Rest(a, le) + x);
    assert Stable(b, le) + y == Opening(b) + (Rest(b, le) + y);
    OpeningUnique(a, b, Rest(a, le) + x, Rest(b, le) + y);
    match a
    case Number(text) =>
      NumberUnique(text, b.text, x, y);
    case String(s) =>
      QuotedUnique(s, b.s, x, y);
    case Array(items) =>
      SlotsUnique(a, b, le, 0, x, y);
      ArraySame(a, b, le);
    case Object(entries) =>
      SlotsUnique(a, b, le, 0, x, y);
      ObjectSame(a, b, le);
    case _ =>
      assert Rest(a, le) + x == x && Rest(b, le) + y == y;
  }

  ghost predicate SameSlot(s: Slot, t: Slot) {
    s.keyed == t.keyed && s.key == t.key && Same(s.value, t.value)
  }

  lemma TailSplits(v: Json, le: (Str, Str) -> bool, k: nat, x: string)
    requires (v.Array? || v.Object?) && k < |Slots(v, le)|
    ensures Tail(v, le, k) + x == (if k == 0 then "" else ",") + (Piece(Slots(v, le)[k], le) + (Tail(v, le, k + 1) + x))
  {
    hide Slots, Piece;
    var comma, piece, tail := if k == 0 then "" else ",", Piece(Slots(v, le)[k], le), Tail(v, le, k + 1);
    assert Tail(v, le, k) == comma + piece + tail;
    hide Tail;
    Assoc(comma + piece, tail, x);
    Assoc(comma, piece, tail + x);
  }

  lemma {:induction false} SlotsUnique(a: Json, b: Json, le: (Str, Str) -> bool, k: nat, x: string, y: string)
    requires Wf(a) && Wf(b) && ((a.Array? && b.Array?) || (a.Object? && b.Object?))
    requires k <= |Slots(a, le)| && k <= |Slots(b, le)|
    requires Ends(x) && Ends(y) && Tail(a, le, k) + x == Tail(b, le, k) + y
    ensures |Slots(a, le)| == |Slots(b, le)| && x == y
    ensures forall j :: k <= j < |Slots(a, le)| ==> SameSlot(Slots(a, le)[j], Slots(b, le)[j])
    decreases a, |Slots(a, le)| - k
  {
    hide Slots, Piece, Same, Stable, Ends;
    TailStarts(a, le, k, x);
    TailStarts(b, le, k, y);
    if k == |Slots(a, le)| {
      Strip(if a.Array? then "]" else "}", x, y);
    } else {
      var s, t := Slots(a, le)[k], Slots(b, le)[k];
      var p, q := Tail(a, le, k + 1) + x, Tail(b, le, k + 1) + y;
      var comma := if k == 0 then "" else ",";
      TailSplits(a, le, k, x);
      TailSplits(b, le, k, y);
      Strip(comma, Piece(s, le) + p, Piece(t, le) + q);
      TailStarts(a, le, k + 1, x);
      TailStarts(b, le, k + 1, y);
      SlotInside(a, le, k);
      SlotInside(b, le, k);
      PieceKeys(s, t, le, p, q);
      Unique(s.value, t.value, le, p, q);
      SlotsUnique(a, b, le, k + 1, x, y);
    }
  }

  lemma SlotInside(v: Json, le: (Str, Str) -> bool, k: nat)
    requires Wf(v) && (v.Array? || v.Object?) && k < |Slots(v, le)|
    ensures Slots(v, le)[k].value < v && Wf(Slots(v, le)[k].value) && Slots(v, le)[k].keyed == v.Object?
    ensures v.Array? ==> Slots(v, le)[k].key == []
  {
    hide Stable;
  }

  lemma PieceKeys(s: Slot, t: Slot, le: (Str, Str) -> bool, p: string, q: string)
    requires s.keyed == t.keyed && (!s.keyed ==> s.key == t.key) && Piece(s, le) + p == Piece(t, le) + q
    ensures s.key == t.key && Stable(s.value, le) + p == Stable(t.value, le) + q
  {
    hide Stable, Quoted;
    if s.keyed {
      var u, v := ":" + (Stable(s.value, le) + p), ":" + (Stable(t.value, le) + q);
      assert Piece(s, le) + p == Quoted(s.key) + u;
      assert Piece(t, le) + q == Quoted(t.key) + v;
      QuotedUnique(s.key, t.key, u, v);
      Strip(":", Stable(s.value, le) + p, Stable(t.value, le) + q);
    }
  }

  lemma ArraySame(a: Json, b: Json, le: (Str, Str) -> bool)
    requires a.Array? && b.Array? && |Slots(a, le)| == |Slots(b, le)|
    requires forall j :: 0 <= j < |Slots(a, le)| ==> SameSlot(Slots(a, le)[j], Slots(b, le)[j])
    ensures Same(a, b)
  {
    forall i | 0 <= i < |a.items|
      ensures Same(a.items[i], b.items[i])
    {
      assert SameSlot(Slots(a, le)[i], Slots(b, le)[i]);
    }
  }

  /** Every member of an object is in the slot of its key's position. */
  lemma SlotOf(v: Json, le: (Str, Str) -> bool, i: nat) returns (j: nat)
    requires v.Object? && Distinct(Keys(v.entries)) && i < |v.entries|
    ensures j < |Slots(v, le)| && Slots(v, le)[j] == Slot(true, v.entries[i].key, v.entries[i].value)
  {
    var keys := Keys(v.entries);
    SortPermutes(keys, le);
    assert keys[i] in Sort(keys, le);
    j := IndexOf(Sort(keys, le), keys[i]);
    var at := IndexOf(keys, keys[i]);
    assert at == i;
  }

  lemma SlotFrom(v: Json, le: (Str, Str) -> bool, j: nat)
    requires v.Object? && j < |Slots(v, le)|
    ensures Slots(v, le)[j].key in Keys(v.entries)
  {
    var keys := Keys(v.entries);
    SortPermutes(keys, le);
    assert Sort(keys, le)[j] in Sort(keys, le);
    var at := IndexOf(keys, Sort(keys, le)[j]);
    assert keys[at] == v.entries[at].key;
  }

  lemma ObjectSame(a: Json, b: Json, le: (Str, Str) -> bool)
    requires Wf(a) && Wf(b) && a.Object? && b.Object? && |Slots(a, le)| == |Slots(b, le)|
    requires forall j :: 0 <= j < |Slots(a, le)| ==> SameSlot(Slots(a, le)[j], Slots(b, le)[j])
    ensures Same(a, b)
  {
    hide Slots;
    forall i | 0 <= i < |a.entries|
      ensures a.entries[i].key in Keys(b.entries)
    {
      var j := SlotOf(a, le, i);
      assert SameSlot(Slots(a, le)[j], Slots(b, le)[j]);
      SlotFrom(b, le, j);
    }
    forall i | 0 <= i < |b.entries|
      ensures b.entries[i].key in Keys(a.entries)
    {
      var j := SlotOf(b, le, i);
      assert SameSlot(Slots(a, le)[j], Slots(b, le)[j]);
      SlotFrom(a, le, j);
    }
    forall i, m | 0 <= i < |a.entries| && 0 <= m < |b.entries| && a.entries[i].key == b.entries[m].key
      ensures Same(a.entries[i].value, b.entries[m].value)
    {
      var j := SlotOf(a, le, i);
      assert SameSlot(Slots(a, le)[j], Slots(b, le)[j]);
      SlotKeyed(b, le, j, m);
    }
  }

  /** The slot with a member's key holds that member's value. */
  lemma SlotKeyed(v: Json, le: (Str, Str) -> bool, j: nat, i: nat)
    requires v.Object? && Distinct(Keys(v.entries)) && j < |Slots(v, le)| && i < |v.entries|
    requires Slots(v, le)[j].key == v.entries[i].key
    ensures Slots(v, le)[j].value == v.entries[i].value
  {
    var keys := Keys(v.entries);
    SortPermutes(keys, le);
    assert Sort(keys, le)[j] in Sort(keys, le);
    var at := IndexOf(keys, Sort(keys, le)[j]);
    assert keys[at] == v.entries[at].key && keys[i] == v.entries[i].key;
    assert at == i;
  }

  // ----- equal values print alike

  /** At no depth do two distinct keys of one object tie. */
  ghost predicate TieFree(v: Json, le: (Str, Str) -> bool) {
    match v
    case Array(items) => forall i :: 0 <= i < |items| ==> TieFree(items[i], le)
    case Object(entries) =>
      NoTies(Keys(entries), le) && forall i :: 0 <= i < |entries| ==> TieFree(entries[i].value, le)
    case _ => true
  }

  lemma {:induction false} SamePrints(a: Json, b: Json, le: (Str, Str) -> bool)
    requires Preorder(le) && Wf(a) && Wf(b) && Same(a, b) && TieFree(a, le)
    ensures Stable(a, le) == Stable(b, le)
    decreases a
  {
    match a
    case Array(items) =>
      forall i | 0 <= i < |items|
        ensures Stable(items[i], le) == Stable(b.items[i], le)
      {
        SamePrints(items[i], b.items[i], le);
      }
      assert seq(|items|, i requires 0 <= i < |items| => Stable(items[i], le))
          == seq(|b.items|, i requires 0 <= i < |b.items| => Stable(b.items[i], le));
    case Object(entries) =>
      SortSame(Keys(entries), Keys(b.entries), le);
      forall i, m | 0 <= i < |entries| && 0 <= m < |b.entries| && entries[i].key == b.entries[m].key
        ensures Stable(entries[i].value, le) == Stable(b.entries[m].value, le)
      {
        SamePrints(entries[i].value, b.entries[m].value, le);
      }
      SameMembers(entries, b.entries, le);
    case _ =>
  }

  /** An object's members as printed, in the object's own order. */
  function Members(entries: seq<Entry>, le: (Str, Str) -> bool): (m: seq<string>)
    ensures |m| == |entries|
  {
    seq(|entries|, i requires 0 <= i < |entries| => Member(entries[i].key, Stable(entries[i].value, le)))
  }

  lemma SameMembers(a: seq<Entry>, b: seq<Entry>, le: (Str, Str) -> bool)
    requires Sort(Keys(a), le) == Sort(Keys(b), le)
    requires forall i, m :: 0 <= i < |a| && 0 <= m < |b| && a[i].key == b[m].key
                            ==> Stable(a[i].value, le) == Stable(b[m].value, le)
    ensures InKeyOrder(Keys(a), Members(a, le), le) == InKeyOrder(Keys(b), Members(b, le), le)
  {
    hide Stable, Member;
    SortPermutes(Keys(a), le);
    SortPermutes(Keys(b), le);
    var order := Sort(Keys(a), le);
    forall j | 0 <= j < |a|
      ensures InKeyOrder(Keys(a), Members(a, le), le)[j] == InKeyOrder(Keys(b), Members(b, le), le)[j]
    {
      assert order[j] in order;
      var i, m := IndexOf(Keys(a), order[j]), IndexOf(Keys(b), order[j]);
      assert a[i].key == b[m].key;
    }
  }

  /** Texts are equal only for values that are equal up to the order of object keys, whatever the comparison. */
  lemma EqualTexts(a: Json, b: Json, le: (Str, Str) -> bool)
    requires Wf(a) && Wf(b) && Stable(a, le) == Stable(b, le)
    ensures Same(a, b)
  {
    assert Stable(a, le) + "" == Stable(b, le) + "";
    Unique(a, b, le, "", "");
  }

  /**
   The text is a faithful key: if no keys of an object tie, it is equal exactly for values that are equal
   up to the order of object keys, at any depth.
   */
  lemma StableIsCanonical(a: Json, b: Json, le: (Str, Str) -> bool)
    requires Preorder(le) && Wf(a) && Wf(b) && TieFree(a, le)
    ensures Stable(a, le) == Stable(b, le) <==> Same(a, b)
  {
    if Same(a, b) {
      SamePrints(a, b, le);
    } else if Stable(a, le) == Stable(b, le) {
      EqualTexts(a, b, le);
    }
  }

  // ----- ties show

  lemma {:induction false} SameAsItself(v: Json)
    requires Wf(v)
    ensures Same(v, v)
  {
    match v
    case Array(items) =>
      forall i | 0 <= i < |items|
        ensures Same(items[i], items[i])
      {
        SameAsItself(items[i]);
      }
    case Object(entries) =>
      forall i, j | 0 <= i < |entries| && 0 <= j < |entries| && entries[i].key == entries[j].key
        ensures Same(entries[i].value, entries[j].value)
      {
        assert Keys(entries)[i] == Keys(entries)[j];
        SameAsItself(entries[i].value);
      }
    case _ =>
  }

  /** The members rearranged so that their keys are the given ones. */
  function Arranged(entries: seq<Entry>, keys: seq<Str>): (r: seq<Entry>)
    requires forall k :: k in keys ==> k in Keys(entries)
    ensures |r| == |keys| && Keys(r) == keys
  {
    seq(|keys|, j requires 0 <= j < |keys| => entries[IndexOf(Keys(entries), keys[j])])
  }

  lemma ArrangedSame(entries: seq<Entry>, keys: seq<Str>)
    requires Wf(Object(entries)) && Distinct(keys) && forall k :: k in keys <==> k in Keys(entries)
    ensures Wf(Object(Arranged(entries, keys))) && Same(Object(entries), Object(Arranged(entries, keys)))
  {
    var r := Arranged(entries, keys);
    forall i, j | 0 <= i < |entries| && 0 <= j < |r| && entries[i].key == r[j].key
      ensures Same(entries[i].value, r[j].value)
    {
      assert Keys(entries)[i] == entries[i].key;
      SameAsItself(entries[i].value);
    }
  }

  /** Two keys of an object tie: then some other order of its members prints differently. */
  lemma ObjectTieShows(entries: seq<Entry>, le: (Str, Str) -> bool) returns (b: Json)
    requires Preorder(le) && Wf(Object(entries)) && !NoTies(Keys(entries), le)
    ensures Wf(b) && Same(Object(entries), b) && Stable(Object(entries), le) != Stable(b, le)
  {
    var keys := Keys(entries);
    var q := Sort(keys, le);
    SortPermutes(keys, le);
    SortSorts(keys, le);
    SortDistinct(keys, le);
    var i := TiedNeighbours(q, le);
    var swapped := q[i := q[i + 1]][i + 1 := q[i]];
    SwappedNeighbours(q, i, le);
    SortOfSorted(swapped, le);
    var r := Arranged(entries, swapped);
    ArrangedSame(entries, swapped);
    b := Object(r);
    SlotKeyAt(Object(entries), le, i);
    SlotKeyAt(b, le, i);
    hide Stable, Slots, Tail, Sort, Arranged;
    if Stable(Object(entries), le) == Stable(b, le) {
      SameSlotKeys(Object(entries), b, le, i);
    }
  }

  lemma SlotKeyAt(v: Json, le: (Str, Str) -> bool, i: nat)
    requires v.Object? && i < |v.entries|
    ensures |Slots(v, le)| == |v.entries| == |Sort(Keys(v.entries), le)|
    ensures Slots(v, le)[i].key == Sort(Keys(v.entries), le)[i]
  {
    SortPermutes(Keys(v.entries), le);
    var k := Sort(Keys(v.entries), le)[i];
    assert k in Sort(Keys(v.entries), le);
    assert Keys(v.entries)[IndexOf(Keys(v.entries), k)] == k;
  }

  /** Objects with the same text have the same keys in printing order. */
  lemma SameSlotKeys(a: Json, b: Json, le: (Str, Str) -> bool, i: nat)
    requires Wf(a) && Wf(b) && a.Object? && b.Object? && Stable(a, le) == Stable(b, le) && i < |Slots(a, le)|
    ensures |Slots(a, le)| == |Slots(b, le)| && Slots(a, le)[i].key == Slots(b, le)[i].key
  {
    hide Stable, Slots, Tail, Wf;
    ObjectOpens(a, le);
    ObjectOpens(b, le);
    Strip("object:{", Tail(a, le, 0), Tail(b, le, 0));
    assert Tail(a, le, 0) + "" == Tail(b, le, 0) + "";
    SlotsUnique(a, b, le, 0, "", "");
    assert SameSlot(Slots(a, le)[i], Slots(b, le)[i]);
  }

  /** In a sorted list with a tie two neighbours tie. */
  lemma TiedNeighbours(q: seq<Str>, le: (Str, Str) -> bool) returns (i: nat)
    requires Preorder(le) && Sorted(q, le) && Distinct(q) && !NoTies(q, le)
    ensures i + 1 < |q| && le(q[i], q[i + 1]) && le(q[i + 1], q[i])
  {
    var a, b :| a in q && b in q && le(a, b) && le(b, a) && a != b;
    var m: nat :| m < |q| && q[m] == a;
    var n: nat :| n < |q| && q[n] == b;
    var j: nat;
    i, j := if m < n then m else n, if m < n then n else m;
    assert le(q[i], q[i + 1]);
    assert i + 1 < j ==> le(q[i + 1], q[j]);
    assert le(q[i + 1], q[i]);
  }

  lemma SwappedNeighbours(q: seq<Str>, i: nat, le: (Str, Str) -> bool)
    requires Preorder(le) && Sorted(q, le) && Distinct(q) && i + 1 < |q| && le(q[i + 1], q[i])
    ensures var r := q[i := q[i + 1]][i + 1 := q[i]];
      Sorted(r, le) && Distinct(r) && r[i] != q[i] && forall k :: k in r <==> k in q
  {
    var r := q[i := q[i + 1]][i + 1 := q[i]];
    assert r[i] in r && r[i + 1] in r;
    forall k
      ensures k in r <==> k in q
    {
      if k in q {
        var m: nat :| m < |q| && q[m] == k;
        assert r[if m == i then i + 1 else if m == i + 1 then i else m] == k;
      }
    }
  }

  /** If all parts but one are equal and the joined texts are, then so is that part. */
  lemma {:induction false} JoinDiffers(p: seq<string>, q: seq<string>, j: nat)
    requires |p| == |q| && j < |p| && (forall i :: 0 <= i < |p| && i != j ==> p[i] == q[i]) && Join(p) == Join(q)
    ensures p[j] == q[j]
  {
    if |p| > 1 {
      var s, t := "," + Join(p[1..]), "," + Join(q[1..]);
      Assoc(p[0], ",", Join(p[1..]));
      Assoc(q[0], ",", Join(q[1..]));
      if j == 0 {
        assert p[1..] == q[1..];
        StripEnd(p[0], q[0], s);
      } else {
        Strip(p[0], s, t);
        Strip(",", Join(p[1..]), Join(q[1..]));
        JoinDiffers(p[1..], q[1..], j - 1);
      }
    }
  }

  lemma StripEnd(x: string, y: string, s: string)
    requires x + s == y + s
    ensures x == y
  {
    assert (x + s)[..|x|] == x && (y + s)[..|y|] == y;
    assert |x| == |y|;
  }

  /** A nested value that prints differently makes the whole print differently. */
  lemma ItemShows(items: seq<Json>, i: nat, c: Json, le: (Str, Str) -> bool)
    requires i < |items| && Stable(items[i], le) != Stable(c, le)
    ensures Stable(Array(items), le) != Stable(Array(items[i := c]), le)
  {
    var p := seq(|items|, k requires 0 <= k < |items| => Stable(items[k], le));
    var r := items[i := c];
    var q := seq(|r|, k requires 0 <= k < |r| => Stable(r[k], le));
    assert Stable(Array(items), le) == "array:[" + Join(p) + "]";
    assert Stable(Array(r), le) == "array:[" + Join(q) + "]";
    hide Stable, Join;
    if Stable(Array(items), le) == Stable(Array(r), le) {
      InBrackets("array:[", "]", Join(p), Join(q));
      JoinDiffers(p, q, i);
    }
  }

  lemma InBrackets(open: string, close: string, x: string, y: string)
    requires open + x + close == open + y + close
    ensures x == y
  {
    Assoc(open, x, close);
    Assoc(open, y, close);
    Strip(open, x + close, y + close);
    StripEnd(x, y, close);
  }

  lemma MemberShows(entries: seq<Entry>, i: nat, c: Json, le: (Str, Str) -> bool)
    requires Distinct(Keys(entries)) && i < |entries| && Stable(entries[i].value, le) != Stable(c, le)
    ensures Stable(Object(entries), le) != Stable(Object(entries[i := Entry(entries[i].key, c)]), le)
  {
    var keys, r := Keys(entries), entries[i := Entry(entries[i].key, c)];
    assert Keys(r) == keys;
    var p, q := InKeyOrder(keys, Members(entries, le), le), InKeyOrder(keys, Members(r, le), le);
    SortPermutes(keys, le);
    assert keys[i] in Sort(keys, le);
    var j := IndexOf(Sort(keys, le), keys[i]);
    assert Stable(Object(entries), le) == "object:{" + Join(p) + "}" by { MembersPrinted(entries, le); }
    assert Stable(Object(r), le) == "object:{" + Join(q) + "}" by { MembersPrinted(r, le); }
    hide Stable, Join;
    forall k | 0 <= k < |p| && k != j
      ensures p[k] == q[k]
    {
      SortDistinct(keys, le);
      assert Sort(keys, le)[k] in Sort(keys, le) && Sort(keys, le)[k] != keys[i];
    }
    if Stable(Object(entries), le) == Stable(Object(r), le) {
      InBrackets("object:{", "}", Join(p), Join(q));
      JoinDiffers(p, q, j);
      MemberOf(keys[i], Stable(entries[i].value, le), Stable(c, le));
    }
  }

  lemma MembersPrinted(entries: seq<Entry>, le: (Str, Str) -> bool)
    ensures Stable(Object(entries), le) == "object:{" + Join(InKeyOrder(Keys(entries), Members(entries, le), le)) + "}"
  {
    hide Join, InKeyOrder, Member;
  }

  lemma MemberOf(key: Str, x: string, y: string)
    requires Member(key, x) == Member(key, y)
    ensures x == y
  {
    Strip(Quoted(key) + ":", x, y);
  }

  /** If two keys of an object tie, at any depth, then an equal value in another order has another text. */
  lemma {:induction false} TieShows(a: Json, le: (Str, Str) -> bool) returns (b: Json)
    requires Preorder(le) && Wf(a) && !TieFree(a, le)
    ensures Wf(b) && Same(a, b) && Stable(a, le) != Stable(b, le)
    decreases a
  {
    hide Stable, Preorder;
    match a {
      case Array(items) =>
        var i: nat :| i < |items| && !TieFree(items[i], le);
        var c := TieShows(items[i], le);
        ItemShows(items, i, c, le);
        b := Array(items[i := c]);
        forall k | 0 <= k < |items| && k != i
          ensures Same(items[k], items[k])
        {
          SameAsItself(items[k]);
        }
      case Object(entries) =>
        if !NoTies(Keys(entries), le) {
          b := ObjectTieShows(entries, le);
        } else {
          var i: nat :| i < |entries| && !TieFree(entries[i].value, le);
          var c := TieShows(entries[i].value, le);
          MemberShows(entries, i, c, le);
          b := Object(entries[i := Entry(entries[i].key, c)]);
          MemberReplaced(entries, i, c);
        }
    }
  }

  lemma MemberReplaced(entries: seq<Entry>, i: nat, c: Json)
    requires Wf(Object(entries)) && i < |entries| && Wf(c) && Same(entries[i].value, c)
    ensures var b := Object(entries[i := Entry(entries[i].key, c)]); Wf(b) && Same(Object(entries), b)
  {
    var r := entries[i := Entry(entries[i].key, c)];
    assert Keys(r) == Keys(entries);
    forall m, n | 0 <= m < |entries| && 0 <= n < |r| && entries[m].key == r[n].key
      ensures Same(entries[m].value, r[n].value)
    {
      assert Keys(entries)[m] == Keys(entries)[n];
      SameAsItself(entries[m].value);
    }
  }

  /** Exactly the values without ties have one text for all orders of their keys. */
  lemma CanonicalExactly(a: Json, le: (Str, Str) -> bool)
    requires Preorder(le) && Wf(a)
    ensures (forall b :: Wf(b) && Same(a, b) ==> Stable(a, le) == Stable(b, le)) <==> TieFree(a, le)
  {
    hide Stable, Same, Wf, Preorder, TieFree;
    if TieFree(a, le) {
      forall b | Wf(b) && Same(a, b)
        ensures Stable(a, le) == Stable(b, le)
      {
        SamePrints(a, b, le);
      }
    } else {
      var b := TieShows(a, le);
    }
  }
}
