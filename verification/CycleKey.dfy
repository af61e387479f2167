/** The key under which the import-cycle gate stores a cycle: its least rotation, written out. */
module CycleKey {
  import opened Sorting

  type File = string

  const SEPARATOR: char := '\0'

  predicate Named(f: File) {
    SEPARATOR !in f
  }

  predicate AllNamed(fs: seq<File>) {
    forall f :: f in fs ==> Named(f)
  }

  function Join(parts: seq<File>): string {
    if parts == [] then "" else if |parts| == 1 then parts[0] else parts[0] + [SEPARATOR] + Join(parts[1..])
  }

  /** A cycle may be given with its first file repeated at the end. */
  function WithoutTail(cycle: seq<File>): seq<File>
    requires cycle != []
  {
    if cycle[0] == cycle[|cycle| - 1] then cycle[..|cycle| - 1] else cycle
  }

  function Rotation(w: seq<File>, i: nat): seq<File>
    requires i <= |w|
  {
    w[i..] + w[..i]
  }

  function Closed(w: seq<File>): seq<File>
    requires w != []
  {
    w + [w[0]]
  }

  function Written(w: seq<File>): seq<string>
    requires w != []
  {
    seq(|w|, i requires 0 <= i < |w| => Join(Closed(Rotation(w, i))))
  }

  function CanonicalCycle(cycle: seq<File>, le: (string, string) -> bool): string
    requires cycle != [] && WithoutTail(cycle) != []
  {
    var w := WithoutTail(cycle);
    SortPermutes(Written(w), le);
    Sort(Written(w), le)[0]
  }

  ghost predicate IsRotation(a: seq<File>, b: seq<File>) {
    exists i :: 0 <= i < |a| && b == Rotation(a, i)
  }

  /** Joining is one-to-one on lists of file names. */
  lemma {:induction false} JoinInjective(a: seq<File>, b: seq<File>)
    requires a != [] && b != [] && AllNamed(a) && AllNamed(b) && Join(a) == Join(b)
    ensures a == b
  {
    FirstPart(a);
    FirstPart(b);
    if |a| > 1 {
      assert |a[0]| == |b[0]|;
      assert Join(a[1..]) == Join(a)[|a[0]| + 1..] == Join(b)[|b[0]| + 1..] == Join(b[1..]);
      JoinInjective(a[1..], b[1..]);
      assert a == [a[0]] + a[1..] && b == [b[0]] + b[1..];
    }
  }

  /** A list of one name joins to a string without separators; a longer one does not. */
  lemma FirstPart(a: seq<File>)
    requires a != [] && AllNamed(a)
    ensures SEPARATOR in Join(a) <==> |a| > 1
    ensures |a| > 1 ==> |Join(a)| > |a[0]| && Join(a)[|a[0]|] == SEPARATOR
    ensures |a| > 1 ==> Join(a)[..|a[0]|] == a[0] && Join(a)[|a[0]| + 1..] == Join(a[1..])
    ensures |a[0]| <= |Join(a)| && forall i :: 0 <= i < |a[0]| ==> Join(a)[i] != SEPARATOR
    ensures |a| == 1 ==> Join(a) == a[0]
  {
    assert a[0] in a && Named(a[0]);
    if |a| > 1 {
      assert Join(a)[|a[0]|] == SEPARATOR;
    }
    forall i | 0 <= i < |a[0]|
      ensures Join(a)[i] != SEPARATOR
    {
      assert a[0][i] in a[0];
    }
  }

  lemma RotationOfRotation(w: seq<File>, i: nat, j: nat)
    requires i < |w| && j < |w|
    ensures var k := if i + j < |w| then i + j else i + j - |w|;
            k < |w| && Rotation(Rotation(w, i), j) == Rotation(w, k)
  {
    var r := Rotation(w, i);
    if i + j < |w| {
      assert r[j..] == w[i + j..] + w[..i] && r[..j] == w[i..i + j];
    } else {
      var k := i + j - |w|;
      assert r[j..] == w[k..i] && r[..j] == w[i..] + w[..k];
    }
  }

  lemma RotationBack(w: seq<File>, i: nat)
    requires i < |w|
    ensures var j := if i == 0 then 0 else |w| - i; j < |w| && Rotation(Rotation(w, i), j) == w
  {
    var r := Rotation(w, i);
    if i > 0 {
      assert r[|w| - i..] == w[..i] && r[..|w| - i] == w[i..];
    }
  }

  lemma RotationSymmetric(a: seq<File>, b: seq<File>)
    requires IsRotation(a, b)
    ensures IsRotation(b, a)
  {
    var i :| 0 <= i < |a| && b == Rotation(a, i);
    RotationBack(a, i);
  }

  lemma RotationTransitive(a: seq<File>, b: seq<File>, c: seq<File>)
    requires IsRotation(a, b) && IsRotation(b, c)
    ensures IsRotation(a, c)
  {
    var i :| 0 <= i < |a| && b == Rotation(a, i);
    var j :| 0 <= j < |b| && c == Rotation(b, j);
    RotationOfRotation(a, i, j);
  }

  lemma ClosedTail(w: seq<File>)
    requires w != []
    ensures WithoutTail(Closed(w)) == w
  {
  }

  /** The key of a cycle is one of its written rotations, and no other is smaller. */
  lemma KeyIsLeast(w: seq<File>, le: (string, string) -> bool)
    requires w != []
    ensures WithoutTail(Closed(w)) == w
    ensures CanonicalCycle(Closed(w), le) in Written(w)
    ensures Preorder(le) ==> LeastWritten(w, le, CanonicalCycle(Closed(w), le))
  {
    SortPermutes(Written(w), le);
    assert Sort(Written(w), le)[0] in Sort(Written(w), le);
    if Preorder(le) {
      SortedFirst(Written(w), le);
    }
  }

  ghost predicate LeastWritten(w: seq<File>, le: (string, string) -> bool, s: string)
    requires w != []
  {
    s in Written(w) && forall t :: t in Written(w) ==> le(s, t)
  }

  /** Among the written rotations that none undercuts there are no two different ones. */
  ghost predicate LeastAlone(w: seq<File>, le: (string, string) -> bool)
    requires w != []
  {
    forall s, t :: LeastWritten(w, le, s) && LeastWritten(w, le, t) ==> s == t
  }

  lemma WrittenOfRotation(a: seq<File>, b: seq<File>, s: string)
    requires a != [] && b != [] && IsRotation(a, b) && s in Written(b)
    ensures s in Written(a)
  {
    var j :| 0 <= j < |b| && Written(b)[j] == s;
    var i :| 0 <= i < |a| && b == Rotation(a, i);
    RotationOfRotation(a, i, j);
    var k := if i + j < |a| then i + j else i + j - |a|;
    assert Written(a)[k] == s;
  }

  lemma RotationsWriteTheSame(a: seq<File>, b: seq<File>, le: (string, string) -> bool, s: string)
    requires a != [] && b != [] && IsRotation(a, b)
    ensures LeastWritten(a, le, s) <==> LeastWritten(b, le, s)
  {
    hide Written;
    RotationSymmetric(a, b);
    forall t
      ensures t in Written(a) <==> t in Written(b)
    {
      if t in Written(b) {
        WrittenOfRotation(a, b, t);
      }
      if t in Written(a) {
        WrittenOfRotation(b, a, t);
      }
    }
  }

  /** Whatever the comparison, cycles with the same key are rotations of each other. */
  lemma SameKeyRotates(a: seq<File>, b: seq<File>, le: (string, string) -> bool)
    requires a != [] && b != [] && AllNamed(a) && AllNamed(b)
    requires WithoutTail(Closed(a)) == a && WithoutTail(Closed(b)) == b
    requires CanonicalCycle(Closed(a), le) == CanonicalCycle(Closed(b), le)
    ensures IsRotation(a, b)
  {
    hide CanonicalCycle, Written;
    KeyIsLeast(a, le);
    KeyIsLeast(b, le);
    SharedRotation(a, b, CanonicalCycle(Closed(a), le));
  }

  /** Two cycles have the same key exactly when one is a rotation of the other, if the least writing is alone. */
  lemma SameKeyIffRotation(a: seq<File>, b: seq<File>, le: (string, string) -> bool)
    requires a != [] && b != [] && AllNamed(a) && AllNamed(b) && Preorder(le) && LeastAlone(a, le)
    ensures WithoutTail(Closed(a)) == a && WithoutTail(Closed(b)) == b
    ensures CanonicalCycle(Closed(a), le) == CanonicalCycle(Closed(b), le) <==> IsRotation(a, b)
  {
    hide CanonicalCycle, Written, LeastWritten;
    KeyIsLeast(a, le);
    KeyIsLeast(b, le);
    if IsRotation(a, b) {
      RotationsWriteTheSame(a, b, le, CanonicalCycle(Closed(b), le));
    }
    if CanonicalCycle(Closed(a), le) == CanonicalCycle(Closed(b), le) {
      SameKeyRotates(a, b, le);
    }
  }

  ghost predicate KeyOfRotations(a: seq<File>, le: (string, string) -> bool, key: string)
    requires a != []
  {
    forall b :: IsRotation(a, b) ==> b != [] && WithoutTail(Closed(b)) == b && CanonicalCycle(Closed(b), le) == key
  }

  lemma NonEmptyRotation(a: seq<File>, b: seq<File>)
    requires IsRotation(a, b)
    ensures b != [] && WithoutTail(Closed(b)) == b
  {
  }

  /** A rotation that starts at a least writing has that writing for its key. */
  lemma LeastIsKey(a: seq<File>, le: (string, string) -> bool, s: string)
    requires a != [] && LeastWritten(a, le, s)
    ensures exists b :: IsRotation(a, b) && b != [] && WithoutTail(Closed(b)) == b && CanonicalCycle(Closed(b), le) == s
  {
    var i :| 0 <= i < |a| && Written(a)[i] == s;
    var b := Rotation(a, i);
    assert IsRotation(a, b);
    RotationsWriteTheSame(a, b, le, s);
    assert Rotation(b, 0) == b;
    assert Written(b)[0] == s;
    LeastStaysFirst(Written(b), le);
    ClosedTail(b);
  }

  /** All rotations of a cycle share one key exactly when the least writing is alone. */
  lemma RotationsShareKeyIff(a: seq<File>, le: (string, string) -> bool)
    requires a != [] && Preorder(le)
    ensures (exists key :: KeyOfRotations(a, le, key)) <==> LeastAlone(a, le)
  {
    hide CanonicalCycle, Written, LeastWritten;
    if LeastAlone(a, le) {
      KeyIsLeast(a, le);
      var key := CanonicalCycle(Closed(a), le);
      forall b | IsRotation(a, b)
        ensures b != [] && WithoutTail(Closed(b)) == b && CanonicalCycle(Closed(b), le) == key
      {
        NonEmptyRotation(a, b);
        KeyIsLeast(b, le);
        RotationsWriteTheSame(a, b, le, CanonicalCycle(Closed(b), le));
      }
      assert KeyOfRotations(a, le, key);
    }
    if exists key :: KeyOfRotations(a, le, key) {
      var key :| KeyOfRotations(a, le, key);
      forall s, t | LeastWritten(a, le, s) && LeastWritten(a, le, t)
        ensures s == t
      {
        LeastIsKey(a, le, s);
        LeastIsKey(a, le, t);
      }
    }
  }

  lemma SharedRotation(a: seq<File>, b: seq<File>, s: string)
    requires a != [] && b != [] && AllNamed(a) && AllNamed(b) && s in Written(a) && s in Written(b)
    ensures IsRotation(a, b)
  {
    var i :| 0 <= i < |a| && Written(a)[i] == s;
    var j :| 0 <= j < |b| && Written(b)[j] == s;
    var ra, rb := Rotation(a, i), Rotation(b, j);
    assert AllNamed(Closed(ra)) && AllNamed(Closed(rb));
    JoinInjective(Closed(ra), Closed(rb));
    assert ra == Closed(ra)[..|a|] && rb == Closed(rb)[..|b|];
    assert |Closed(ra)| == |a| + 1 && |Closed(rb)| == |b| + 1;
    RotationBack(b, j);
    var back := if j == 0 then 0 else |b| - j;
    assert Rotation(ra, back) == b;
    assert IsRotation(ra, b);
    assert IsRotation(a, ra);
    RotationTransitive(a, ra, b);
  }
}
