/** A terminal that executes a sixel stream: the independent reading the emitter is proved against. */
module SixelTerminal {
  import opened Machine

  type Rgb = (int, int, int)

  const ESC: char := '\U{1b}'

  /**
   What the stream has drawn: registers with their colours (in percent), the current register, the
   column and band of the cursor, and the register each painted pixel shows.
   */
  datatype Term = Term(raster: Option<(nat, nat)>, palette: map<nat, Rgb>, colour: nat, x: nat, band: nat,
                       grid: map<(int, int), nat>)

  const BLANK: Term := Term(None, map[], 0, 0, 0, map[])

  // ----- numbers

  predicate Digit(c: char) {
    '0' <= c <= '9'
  }

  function DigitChar(d: nat): (c: char)
    requires d < 10
    ensures Digit(c) && c as int - '0' as int == d
  {
    (d + '0' as int) as char
  }

  function Dec(n: nat): (s: string)
    ensures s != [] && forall i :: 0 <= i < |s| ==> Digit(s[i])
  {
    if n < 10 then [DigitChar(n)] else Dec(n / 10) + [DigitChar(n % 10)]
  }

  /** Reads digits on top of those already read. */
  function Number(s: string, acc: nat): (r: (nat, string))
    ensures |r.1| <= |s|
  {
    if s == [] || !Digit(s[0]) then (acc, s) else Number(s[1..], 10 * acc + (s[0] as int - '0' as int))
  }

  /** What may follow a number: not a digit, and not a parameter separator. */
  predicate Clean(s: string) {
    s == [] || (!Digit(s[0]) && s[0] != ';')
  }

  predicate NoDigit(s: string) {
    s == [] || !Digit(s[0])
  }

  lemma {:induction false} NumberOfDec(n: nat, rest: string)
    ensures Number(Dec(n) + rest, 0) == if NoDigit(rest) then (n, rest) else Number(rest, n)
  {
    if n < 10 {
      assert (Dec(n) + rest)[1..] == rest;
    } else {
      var last := [DigitChar(n % 10)];
      assert Dec(n) + rest == Dec(n / 10) + (last + rest);
      NumberOfDec(n / 10, last + rest);
      assert (last + rest)[1..] == rest;
    }
  }

  // ----- drawing

  predicate Bit(bits: nat, dy: nat) {
    bits / Pow2(dy) % 2 == 1
  }

  ghost function Column(x: int, band: int, bits: nat): set<(int, int)> {
    set dy | 0 <= dy < 6 && Bit(bits, dy) :: (x, 6 * band + dy)
  }

  /** One sixel: six pixels of a column, where the bits are set. */
  ghost function Paint(t: Term, bits: nat): Term {
    t.(x := t.x + 1, grid := t.grid + map p | p in Column(t.x, t.band, bits) :: t.colour)
  }

  ghost function PaintRun(t: Term, bits: nat, n: nat): Term
    decreases n
  {
    if n == 0 then t else PaintRun(Paint(t, bits), bits, n - 1)
  }

  // ----- execution

  predicate Data(c: char) {
    '?' <= c <= '~'
  }

  function Bits(c: char): nat
    requires Data(c)
  {
    c as int - '?' as int
  }

  /** A separator and a number. */
  function Parameter(s: string): (r: Option<(nat, string)>)
    ensures r.Some? ==> |r.value.1| < |s|
  {
    if s == [] || s[0] != ';' || NoDigit(s[1..]) then None else Some(Number(s[1..], 0))
  }

  function ThreeParameters(s: string): (r: Option<((nat, nat, nat), string)>)
    ensures r.Some? ==> |r.value.1| < |s|
  {
    match Parameter(s)
    case None => None
    case Some((a, s)) =>
      match Parameter(s)
      case None => None
      case Some((b, s)) =>
        match Parameter(s)
        case None => None
        case Some((c, s)) => Some(((a, b, c), s))
  }

  /** The four parameters of a colour definition; the first names the colour space, 2 for RGB. */
  function Definition(s: string): (r: Option<(Rgb, string)>)
    ensures r.Some? ==> |r.value.1| < |s|
  {
    match Parameter(s)
    case None => None
    case Some((space, s)) => if space == 2 then ThreeParameters(s) else None
  }

  ghost function Exec(s: string, t: Term): Option<Term>
    decreases |s|, 0
  {
    if s == [] then Some(t)
    else if s[0] == ESC then (if s == [ESC, '\\', '\n'] then Some(t) else None)
    else if s[0] == '$' then Exec(s[1..], t.(x := 0))
    else if s[0] == '-' then Exec(s[1..], t.(x := 0, band := t.band + 1))
    else if Data(s[0]) then Exec(s[1..], Paint(t, Bits(s[0])))
    else if NoDigit(s[1..]) then None
    else ExecNumbered(s[0], Number(s[1..], 0).0, Number(s[1..], 0).1, t)
  }

  /** The commands that carry a number: colour register, repeat, raster attributes. */
  ghost function ExecNumbered(command: char, n: nat, rest: string, t: Term): Option<Term>
    decreases |rest|, 1
  {
    if command == '#' then
      if rest == [] || rest[0] != ';' then Exec(rest, t.(colour := n))
      else
        match Definition(rest)
        case None => None
        case Some((c, rest)) => Exec(rest, t.(colour := n, palette := t.palette[n := c]))
    else if command == '!' then
      if rest == [] || !Data(rest[0]) then None else Exec(rest[1..], PaintRun(t, Bits(rest[0]), n))
    else if command == '\"' then
      match ThreeParameters(rest)
      case None => None
      case Some(((_, w, h), rest)) => Exec(rest, t.(raster := Some((w, h))))
    else None
  }

  /** The stream: a device control string, then commands. */
  ghost function Decode(s: string): Option<Term> {
    if |s| < 3 || s[..3] != [ESC, 'P', 'q'] then None else Exec(s[3..], BLANK)
  }

  /** Whatever command comes next, executing s first takes the terminal from t to t'. */
  ghost predicate Draws(s: string, t: Term, t': Term) {
    forall rest :: Clean(rest) ==> Exec(s + rest, t) == Exec(rest, t')
  }

  lemma DrawsNothing(t: Term)
    ensures Draws([], t, t)
  {
    hide Exec;
    forall rest | Clean(rest)
      ensures Exec([] + rest, t) == Exec(rest, t)
    {
      assert [] + rest == rest;
    }
  }

  lemma DrawsThen(a: string, b: string, t: Term, t1: Term, t2: Term)
    requires Draws(a, t, t1) && Draws(b, t1, t2) && Clean(b)
    ensures Draws(a + b, t, t2)
  {
    hide Exec;
    forall rest | Clean(rest)
      ensures Exec(a + b + rest, t) == Exec(rest, t2)
    {
      CleanConcat(b, rest);
      assert a + b + rest == a + (b + rest);
      assert Exec(a + (b + rest), t) == Exec(b + rest, t1);
    }
  }

  lemma CleanConcat(b: string, rest: string)
    requires Clean(b) && Clean(rest)
    ensures Clean(b + rest)
  {
    if b == [] {
      assert b + rest == rest;
    }
  }

  lemma DrawsReturn(t: Term)
    ensures Draws("$", t, t.(x := 0))
  {
    forall rest | Clean(rest)
      ensures Exec("$" + rest, t) == Exec(rest, t.(x := 0))
    {
      assert ("$" + rest)[1..] == rest;
    }
  }

  lemma DrawsNextBand(t: Term)
    ensures Draws("-", t, t.(x := 0, band := t.band + 1))
  {
    forall rest | Clean(rest)
      ensures Exec("-" + rest, t) == Exec(rest, t.(x := 0, band := t.band + 1))
    {
      assert ("-" + rest)[1..] == rest;
    }
  }

  lemma DrawsSixel(c: char, t: Term)
    requires Data(c)
    ensures Draws([c], t, Paint(t, Bits(c)))
  {
    forall rest | Clean(rest)
      ensures Exec([c] + rest, t) == Exec(rest, Paint(t, Bits(c)))
    {
      assert ([c] + rest)[1..] == rest;
    }
  }

  /** A command with a number executes with that number. */
  lemma ExecCommand(command: char, n: nat, rest: string, t: Term)
    requires NoDigit(rest) && (command == '#' || command == '!' || command == '\"')
    ensures Exec([command] + Dec(n) + rest, t) == ExecNumbered(command, n, rest, t)
  {
    hide ExecNumbered;
    var s := [command] + Dec(n) + rest;
    assert s[1..] == Dec(n) + rest;
    NumberOfDec(n, rest);
    assert !NoDigit(s[1..]);
  }

  lemma DrawsSelect(n: nat, t: Term)
    ensures Draws("#" + Dec(n), t, t.(colour := n))
  {
    forall rest | Clean(rest)
      ensures Exec("#" + Dec(n) + rest, t) == Exec(rest, t.(colour := n))
    {
      ExecCommand('#', n, rest, t);
    }
  }

  lemma DrawsRepeat(c: char, n: nat, t: Term)
    requires Data(c)
    ensures Draws("!" + Dec(n) + [c], t, PaintRun(t, Bits(c), n))
  {
    forall rest | Clean(rest)
      ensures Exec("!" + Dec(n) + [c] + rest, t) == Exec(rest, PaintRun(t, Bits(c), n))
    {
      assert "!" + Dec(n) + [c] + rest == "!" + Dec(n) + ([c] + rest);
      ExecCommand('!', n, [c] + rest, t);
      assert ([c] + rest)[1..] == rest;
    }
  }

  function Parameters(a: nat, b: nat, c: nat): string {
    ";" + Dec(a) + (";" + Dec(b) + (";" + Dec(c)))
  }

  lemma ParameterRead(n: nat, rest: string)
    requires NoDigit(rest)
    ensures Parameter(";" + Dec(n) + rest) == Some((n, rest))
  {
    var s := ";" + Dec(n) + rest;
    assert s[1..] == Dec(n) + rest;
    NumberOfDec(n, rest);
  }

  lemma ParametersRead(a: nat, b: nat, c: nat, rest: string)
    requires NoDigit(rest)
    ensures ThreeParameters(Parameters(a, b, c) + rest) == Some(((a, b, c), rest))
  {
    hide Parameter, Dec;
    var sc := ";" + Dec(c) + rest;
    var sb := ";" + Dec(b) + sc;
    assert Parameters(a, b, c) + rest == ";" + Dec(a) + sb;
    ParameterRead(a, sb);
    ParameterRead(b, sc);
    ParameterRead(c, rest);
  }

  lemma DrawsDefinition(n: nat, c: (nat, nat, nat), t: Term)
    ensures Draws("#" + Dec(n) + (";2" + Parameters(c.0, c.1, c.2)), t, t.(colour := n, palette := t.palette[n := c]))
  {
    hide ThreeParameters, Parameters;
    var ps := Parameters(c.0, c.1, c.2);
    forall rest | Clean(rest)
      ensures Exec("#" + Dec(n) + (";2" + ps) + rest, t) == Exec(rest, t.(colour := n, palette := t.palette[n := c]))
    {
      assert "#" + Dec(n) + (";2" + ps) + rest == "#" + Dec(n) + (";2" + ps + rest);
      ExecCommand('#', n, ";2" + ps + rest, t);
      assert ";2" + ps + rest == ";" + Dec(2) + (ps + rest);
      ParametersStart(c.0, c.1, c.2);
      ParameterRead(2, ps + rest);
      ParametersRead(c.0, c.1, c.2, rest);
    }
  }

  lemma ParametersStart(a: nat, b: nat, c: nat)
    ensures Parameters(a, b, c) != [] && Parameters(a, b, c)[0] == ';'
  {
  }

  lemma DrawsRaster(a: nat, b: nat, w: nat, h: nat, t: Term)
    ensures Draws("\"" + Dec(a) + Parameters(b, w, h), t, t.(raster := Some((w, h))))
  {
    hide ThreeParameters, Parameters;
    var ps := Parameters(b, w, h);
    ParametersStart(b, w, h);
    forall rest | Clean(rest)
      ensures Exec("\"" + Dec(a) + ps + rest, t) == Exec(rest, t.(raster := Some((w, h))))
    {
      assert "\"" + Dec(a) + ps + rest == "\"" + Dec(a) + (ps + rest);
      ExecCommand('\"', a, ps + rest, t);
      ParametersRead(b, w, h, rest);
    }
  }
}
