/** Machine integers and the bit operations the decoder needs, over unbounded integers. */
module Machine {

  type Byte = x: int | 0 <= x < 0x100
  type U32 = x: int | 0 <= x < 0x1_0000_0000
  type I32 = x: int | -0x8000_0000 <= x < 0x8000_0000

  datatype Option<+T> = None | Some(value: T)

  /** The signed reading of a 32-bit word, after wrap-around. */
  function ToI32(x: int): I32 {
    var m := x % 0x1_0000_0000;
    if m < 0x8000_0000 then m else m - 0x1_0000_0000
  }

  function ToU32(x: int): U32 {
    x % 0x1_0000_0000
  }

  function Min(a: int, b: int): int {
    if a < b then a else b
  }

  function Pow2(n: nat): (p: int)
    ensures p >= 1
  {
    if n == 0 then 1 else 2 * Pow2(n - 1)
  }

  /** Logical shift right. */
  function Shr(v: nat, n: nat): (r: nat)
    ensures r <= v
    decreases n
  {
    if n == 0 then v else Shr(v / 2, n - 1)
  }

  /** Bitwise and of two naturals. */
  function And(a: nat, b: nat): (r: nat)
    ensures r <= a && r <= b
    decreases a
  {
    if a == 0 || b == 0 then 0 else 2 * And(a / 2, b / 2) + (if a % 2 == 1 && b % 2 == 1 then 1 else 0)
  }

  /** Masking with the all-ones value of n bits keeps exactly the low n bits. */
  lemma {:induction false} AndAllOnes(a: nat, n: nat)
    ensures And(a, Pow2(n) - 1) == a % Pow2(n)
    decreases n
  {
    if n > 0 {
      var q := Pow2(n - 1);
      AndAllOnes(a / 2, n - 1);
      assert (Pow2(n) - 1) / 2 == q - 1;
      assert a % (2 * q) == 2 * ((a / 2) % q) + a % 2 by { ModDouble(a, q); }
    }
  }

  lemma ModDouble(a: nat, q: nat)
    requires q > 0
    ensures a % (2 * q) == 2 * ((a / 2) % q) + a % 2
  {
    var k, r := (a / 2) / q, (a / 2) % q;
    assert a == (2 * q) * k + (2 * r + a % 2);
    ModUnique(a, 2 * q, k, 2 * r + a % 2);
  }

  lemma ModUnique(a: int, m: int, k: int, r: int)
    requires m > 0 && 0 <= r < m && a == m * k + r
    ensures a / m == k && a % m == r
  {
    var d := a / m - k;
    assert m * d == r - a % m;
    if d >= 1 {
      MulAtLeast(m, d);
    } else if d <= -1 {
      MulAtLeast(m, -d);
    }
  }

  lemma {:induction false} ShrIsDiv(v: nat, n: nat)
    ensures Shr(v, n) == v / Pow2(n)
    decreases n
  {
    if n > 0 {
      ShrIsDiv(v / 2, n - 1);
      DivTwice(v, Pow2(n - 1));
    }
  }

  lemma DivTwice(v: nat, p: int)
    requires p > 0
    ensures v / (2 * p) == v / 2 / p
  {
    var u := v / 2;
    DivMod(u, p);
    var q, r := u / p, u % p;
    assert v == 2 * u + v % 2;
    assert (2 * p) * q == 2 * (p * q);
    ModUnique(v, 2 * p, q, 2 * r + v % 2);
  }

  /** A shift and a mask pick one byte of a word. */
  function ByteOf(v: U32, n: nat): (b: Byte)
    ensures b == v / Pow2(n) % 0x100
  {
    BytePowers();
    AndAllOnes(Shr(v, n), 8);
    ShrIsDiv(v, n);
    And(Shr(v, n), 0xff)
  }

  /** Bitwise or of two naturals. */
  function Or(a: nat, b: nat): nat
    decreases a
  {
    if a == 0 then b else if b == 0 then a else 2 * Or(a / 2, b / 2) + (if a % 2 == 1 || b % 2 == 1 then 1 else 0)
  }

  lemma {:induction false} OrBelow(a: nat, b: nat, n: nat)
    requires a < Pow2(n) && b < Pow2(n)
    ensures Or(a, b) < Pow2(n)
    decreases n
  {
    if a != 0 && b != 0 {
      OrBelow(a / 2, b / 2, n - 1);
    }
  }

  lemma {:induction false} OrCommutes(a: nat, b: nat)
    ensures Or(a, b) == Or(b, a)
    decreases a
  {
    if a != 0 && b != 0 {
      OrCommutes(a / 2, b / 2);
    }
  }

  /** Where one operand is a multiple of 2^n and the other is below 2^n, the or is the sum. */
  lemma {:induction false} OrDisjoint(a: nat, b: nat, n: nat)
    requires a % Pow2(n) == 0 && b < Pow2(n)
    ensures Or(a, b) == a + b && Or(b, a) == a + b
    decreases n
  {
    if n > 0 && a != 0 && b != 0 {
      ModDouble(a, Pow2(n - 1));
      OrDisjoint(a / 2, b / 2, n - 1);
    }
    OrCommutes(a, b);
  }

  lemma BytePowers()
    ensures Pow2(8) == 0x100 && Pow2(16) == 0x1_0000 && Pow2(24) == 0x100_0000 && Pow2(32) == 0x1_0000_0000
  {
    assert Pow2(4) == 16;
    PowSplit(4, 4);
    PowSplit(8, 8);
    PowSplit(8, 16);
    PowSplit(16, 16);
  }

  /** Bitwise or of two 32-bit words. */
  function OrWords(a: U32, b: U32): U32 {
    BytePowers();
    OrBelow(a, b, 32);
    Or(a, b)
  }

  /** Shift left within a 32-bit word: bits shifted past the top are lost. */
  function Shl(v: U32, n: nat): U32
    requires n < 32
  {
    v * Pow2(n) % 0x1_0000_0000
  }

  lemma ShlByte(b: Byte)
    ensures Shl(b, 8) == b as int * 0x100 && Shl(b, 16) == b as int * 0x1_0000 && Shl(b, 24) == b as int * 0x100_0000
  {
    BytePowers();
  }

  /** Bytes shifted to places of their own do not overlap: lowest byte first. */
  lemma OrUpwards(a: Byte, b: Byte, c: Byte, d: Byte)
    ensures var x := OrWords(a, Shl(b, 8));
      && x == a + b as int * 0x100
      && OrWords(x, Shl(c, 16)) == x + c as int * 0x1_0000
      && OrWords(OrWords(x, Shl(c, 16)), Shl(d, 24)) == x + c as int * 0x1_0000 + d as int * 0x100_0000
  {
    BytePowers();
    ShlByte(b);
    ShlByte(c);
    ShlByte(d);
    hide Pow2, Or, Shl;
    OrDisjoint(b as int * 0x100, a, 8);
    OrDisjoint(c as int * 0x1_0000, a + b as int * 0x100, 16);
    OrDisjoint(d as int * 0x100_0000, a + b as int * 0x100 + c as int * 0x1_0000, 24);
  }

  /** The same, highest byte first. */
  lemma OrDownwards(a: Byte, b: Byte, c: Byte, d: Byte)
    ensures OrWords(Shl(a, 8), b) == a as int * 0x100 + b
    ensures OrWords(OrWords(Shl(a, 16), Shl(b, 8)), c) == a as int * 0x1_0000 + b as int * 0x100 + c
    ensures OrWords(OrWords(OrWords(Shl(a, 24), Shl(b, 16)), Shl(c, 8)), d)
         == a as int * 0x100_0000 + b as int * 0x1_0000 + c as int * 0x100 + d
  {
    BytePowers();
    ShlByte(a);
    ShlByte(b);
    ShlByte(c);
    hide Pow2, Or, Shl;
    OrDisjoint(a as int * 0x100, b, 8);
    OrDisjoint(a as int * 0x1_0000, b as int * 0x100, 16);
    OrDisjoint(a as int * 0x1_0000 + b as int * 0x100, c, 8);
    OrDisjoint(a as int * 0x100_0000, b as int * 0x1_0000, 24);
    OrDisjoint(a as int * 0x100_0000 + b as int * 0x1_0000, c as int * 0x100, 16);
    OrDisjoint(a as int * 0x100_0000 + b as int * 0x1_0000 + c as int * 0x100, d, 8);
  }

  /** A 16-bit number, most significant byte first. */
  function Word16(a: Byte, b: Byte): (r: nat)
    ensures r == a as int * 0x100 + b
  {
    OrDownwards(a, b, 0, 0);
    OrWords(Shl(a, 8), b)
  }

  /** A 32-bit number, most significant byte first. */
  function Word32(a: Byte, b: Byte, c: Byte, d: Byte): (r: U32)
    ensures r == a as int * 0x100_0000 + b as int * 0x1_0000 + c as int * 0x100 + d
  {
    OrDownwards(a, b, c, d);
    OrWords(OrWords(OrWords(Shl(a, 24), Shl(b, 16)), Shl(c, 8)), d)
  }

  lemma DivMod(a: int, m: int)
    requires m > 0
    ensures a == m * (a / m) + a % m && 0 <= a % m < m
  {
  }

  lemma DivMono(a: int, b: int, m: int)
    requires a <= b && m > 0
    ensures a / m <= b / m
  {
    DivMod(a, m);
    DivMod(b, m);
    var p, q := a / m, b / m;
    assert m * p - m * q == m * (p - q);
    if p > q {
      MulAtLeast(m, p - q);
    }
  }

  lemma MulAtLeast(m: int, d: int)
    requires m > 0 && d >= 1
    ensures m * d >= m
  {
  }

  /** x * y stays below a bound when both factors do. */
  lemma MulMono(a: int, b: int, c: int, d: int)
    requires 0 <= a <= c && 0 <= b <= d
    ensures 0 <= a * b <= c * d
  {
    assert a * b <= a * d;
    assert a * d <= c * d;
  }

  lemma Assoc<T>(a: seq<T>, b: seq<T>, c: seq<T>)
    ensures a + b + c == a + (b + c)
  {
  }

  lemma SliceOfSlice<T>(s: seq<T>, at: int, length: int, i: int, n: int)
    requires 0 <= at && at + length <= |s| && 0 <= i && 0 <= n && i + n <= length
    ensures s[at..at + length][i..i + n] == s[at + i..at + i + n]
  {
    var a, b := s[at..at + length][i..i + n], s[at + i..at + i + n];
    assert |a| == |b|;
    forall k | 0 <= k < n
      ensures a[k] == b[k]
    {
      assert a[k] == s[at..at + length][i + k];
    }
  }

  /** The bytes of src from c on begin with e. */
  predicate At(src: seq<Byte>, c: nat, e: seq<Byte>) {
    c + |e| <= |src| && src[c..c + |e|] == e
  }

  lemma AtConcat(src: seq<Byte>, c: nat, a: seq<Byte>, b: seq<Byte>)
    ensures At(src, c, a + b) <==> At(src, c, a) && At(src, c + |a|, b)
  {
    if c + |a| + |b| <= |src| {
      var s := src[c..c + |a| + |b|];
      assert s[..|a|] == src[c..c + |a|] && s[|a|..] == src[c + |a|..c + |a| + |b|];
      assert (a + b)[..|a|] == a && (a + b)[|a|..] == b;
      if At(src, c, a) && At(src, c + |a|, b) {
        assert s == s[..|a|] + s[|a|..];
      }
    }
  }

  lemma {:induction false} PowSplit(a: nat, b: nat)
    ensures Pow2(a + b) == Pow2(a) * Pow2(b)
    decreases a
  {
    if a > 0 {
      PowSplit(a - 1, b);
      var p, q := Pow2(a - 1), Pow2(b);
      assert 2 * (p * q) == (2 * p) * q;
    }
  }

  lemma {:induction false} PowMono(a: nat, b: nat)
    requires a <= b
    ensures Pow2(a) <= Pow2(b)
    decreases b - a
  {
    if a < b {
      PowMono(a, b - 1);
    }
  }
}
