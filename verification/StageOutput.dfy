/** Draining one stage of the native gate: two output pumps, the child's exit, and the grace timer. */
module StageOutput {
  import opened Machine

  const RESULT: string := "[isolated] RESULT "

  // ----- lines

  /** The newline-terminated lines of a text. */
  function Lines(s: string): seq<string> {
    if s == [] then []
    else if s[0] == '\n' then [[]] + Lines(s[1..])
    else
      var rest := Lines(s[1..]);
      if rest == [] then [] else [[s[0]] + rest[0]] + rest[1..]
  }

  /** What follows the last newline. */
  function Remainder(s: string): (r: string)
    ensures '\n' !in r
  {
    if s == [] then []
    else if s[0] == '\n' then Remainder(s[1..])
    else if Lines(s[1..]) == [] then [s[0]] + Remainder(s[1..]) else Remainder(s[1..])
  }

  /** Lines with a character put in front. */
  function Prepend(c: char, lines: seq<string>): seq<string> {
    if c == '\n' then [[]] + lines else if lines == [] then [] else [[c] + lines[0]] + lines[1..]
  }

  lemma LinesPrepend(c: char, t: string)
    ensures Lines([c] + t) == Prepend(c, Lines(t))
    ensures Remainder([c] + t) == if c != '\n' && Lines(t) == [] then [c] + Remainder(t) else Remainder(t)
  {
    assert ([c] + t)[1..] == t;
  }

  lemma PrependConcat(c: char, a: seq<string>, b: seq<string>)
    requires c == '\n' || a != []
    ensures Prepend(c, a + b) == Prepend(c, a) + b
  {
  }

  /** Cutting the text anywhere and carrying the remainder over gives the same lines. */
  lemma {:induction false} LinesCut(a: string, b: string)
    ensures Lines(a + b) == Lines(a) + Lines(Remainder(a) + b)
    ensures Remainder(a + b) == Remainder(Remainder(a) + b)
  {
    if a == [] {
      assert a + b == b;
    } else {
      var c, t := a[0], a[1..];
      assert a == [c] + t && a + b == [c] + (t + b);
      hide Lines, Remainder, Prepend;
      LinesCut(t, b);
      LinesPrepend(c, t);
      LinesPrepend(c, t + b);
      if c != '\n' && Lines(t) == [] {
        Assoc([c], Remainder(t), b);
        LinesPrepend(c, Remainder(t) + b);
        NothingPrepended(c);
        assert [] + Lines(Remainder(a) + b) == Lines(Remainder(a) + b);
        assert [] + Lines(Remainder(t) + b) == Lines(Remainder(t) + b);
      } else {
        PrependConcat(c, Lines(t), Lines(Remainder(t) + b));
      }
    }
  }

  lemma NothingPrepended(c: char)
    requires c != '\n'
    ensures Prepend(c, []) == []
  {
  }

  // ----- results

  predicate IsResult(line: string) {
    RESULT <= line
  }

  /** The results collected from lines, up to the first result line that does not parse. */
  datatype Collected<R> = Collected(results: seq<R>, failed: bool)

  function Collect<R>(lines: seq<string>, parse: string -> Option<R>): Collected<R> {
    if lines == [] then Collected([], false)
    else
      var front := Collect(lines[..|lines| - 1], parse);
      var line := lines[|lines| - 1];
      if front.failed || !IsResult(line) then front
      else
        match parse(line[|RESULT|..])
        case None => Collected(front.results, true)
        case Some(r) => Collected(front.results + [r], false)
  }

  function Then<R>(a: Collected<R>, b: Collected<R>): Collected<R> {
    if a.failed then a else Collected(a.results + b.results, b.failed)
  }

  lemma {:induction false} CollectConcat<R>(a: seq<string>, b: seq<string>, parse: string -> Option<R>)
    ensures Collect(a + b, parse) == Then(Collect(a, parse), Collect(b, parse))
  {
    if b == [] {
      assert a + b == a;
    } else {
      var n := |b| - 1;
      assert (a + b)[..|a + b| - 1] == a + b[..n];
      CollectConcat(a, b[..n], parse);
    }
  }

  // ----- events

  datatype Stream = Open | Ended | Broken

  datatype DrainEvent =
    | OutChunk(text: string) | OutEnd | OutFail
    | ErrChunk | ErrEnd | ErrFail
    | Exit(code: int)
    | Expire

  datatype Drain<R> = Drain(pending: string, results: seq<R>, out: Stream, err: Stream, exit: Option<int>,
                            expired: bool)

  function Fresh<R>(): Drain<R> {
    Drain("", [], Open, Open, None, false)
  }

  /** A chunk of standard output of a stage whose results are collected. */
  function Fed<R>(d: Drain<R>, text: string, parse: string -> Option<R>): Drain<R> {
    var c := Collect(Lines(d.pending + text), parse);
    d.(pending := Remainder(d.pending + text), results := d.results + c.results,
       out := if c.failed then Broken else Open)
  }

  function Drained<R>(d: Drain<R>, e: DrainEvent, collecting: bool, parse: string -> Option<R>): Drain<R> {
    match e
    case OutChunk(text) => if d.out.Open? && collecting then Fed(d, text, parse) else d
    case OutEnd => if d.out.Open? then d.(out := Ended) else d
    case OutFail => if d.out.Open? then d.(out := Broken) else d
    case ErrChunk => d
    case ErrEnd => if d.err.Open? then d.(err := Ended) else d
    case ErrFail => if d.err.Open? then d.(err := Broken) else d
    case Exit(code) => if d.exit.None? then d.(exit := Some(code)) else d
    case Expire => if d.exit.Some? then d.(expired := true) else d
  }

  datatype Outcome = Pending | Returned(code: int) | Threw

  /** After the exit, once both pumps have stopped or the timer has fired. */
  function OutcomeOf<R>(d: Drain<R>): Outcome {
    if d.exit.None? || (!d.expired && (d.out.Open? || d.err.Open?)) then Pending
    else if d.expired || d.out.Broken? || d.err.Broken? then Threw
    else Returned(d.exit.value)
  }

  // ----- all runs

  /** The drain after some events, the last of which may settle it. */
  ghost function DrainRun<R>(events: seq<DrainEvent>, collecting: bool, parse: string -> Option<R>): Drain<R> {
    if events == [] then Fresh()
    else
      var d := DrainRun(events[..|events| - 1], collecting, parse);
      if OutcomeOf(d).Pending? then Drained(d, events[|events| - 1], collecting, parse) else d
  }

  /** The standard output read before its pump stopped or the drain settled. */
  ghost function OutText<R>(events: seq<DrainEvent>, parse: string -> Option<R>): string {
    if events == [] then ""
    else
      var front := events[..|events| - 1];
      var d, e := DrainRun(front, true, parse), events[|events| - 1];
      OutText(front, parse) + if e.OutChunk? && d.out.Open? && OutcomeOf(d).Pending? then e.text else ""
  }

  /** Whatever the chunks, the pump has collected what the text read so far holds. */
  ghost predicate Follows<R>(d: Drain<R>, text: string, parse: string -> Option<R>) {
    && d.results == Collect(Lines(text), parse).results
    && (Collect(Lines(text), parse).failed ==> d.out.Broken?)
    && (d.out.Open? ==> d.pending == Remainder(text))
  }

  lemma FedFollows<R>(d: Drain<R>, text: string, more: string, parse: string -> Option<R>)
    requires Follows(d, text, parse) && d.out.Open?
    ensures Follows(Fed(d, more, parse), text + more, parse)
  {
    hide Collect, Lines, Remainder;
    LinesCut(text, more);
    CollectConcat(Lines(text), Lines(Remainder(text) + more), parse);
  }

  lemma StepFollows<R>(d: Drain<R>, e: DrainEvent, text: string, parse: string -> Option<R>)
    requires Follows(d, text, parse)
    ensures var more := if e.OutChunk? && d.out.Open? then e.text else "";
      Follows(Drained(d, e, true, parse), text + more, parse)
  {
    if e.OutChunk? && d.out.Open? {
      FedFollows(d, text, e.text, parse);
    } else {
      assert text + "" == text;
      hide Collect, Lines, Remainder;
    }
  }

  lemma {:induction false} RunFollows<R>(events: seq<DrainEvent>, parse: string -> Option<R>)
    ensures Follows(DrainRun(events, true, parse), OutText(events, parse), parse)
  {
    hide Follows, Drained, OutcomeOf;
    if events == [] {
      NothingFollows(parse);
    } else {
      var front, e := events[..|events| - 1], events[|events| - 1];
      RunFollows(front, parse);
      var d, text := DrainRun(front, true, parse), OutText(front, parse);
      StepFollows(d, e, text, parse);
      assert text + "" == text;
    }
  }

  lemma NothingFollows<R>(parse: string -> Option<R>)
    ensures Follows(Fresh<R>(), "", parse)
  {
  }

  /**
   A drain that returns saw the exit, both pumps end without a failure and no timer, and has collected
   exactly the parsed result lines of the whole standard output, in order, every one of which parsed.
   */
  lemma DrainReturnsAll<R>(events: seq<DrainEvent>, parse: string -> Option<R>)
    requires OutcomeOf(DrainRun(events, true, parse)).Returned?
    ensures var d := DrainRun(events, true, parse);
      d.out.Ended? && d.err.Ended? && !d.expired && d.exit == Some(OutcomeOf(d).code)
    ensures Collected(DrainRun(events, true, parse).results, false) == Collect(Lines(OutText(events, parse)), parse)
  {
    RunFollows(events, parse);
  }

  /** Cutting the same output differently, or interleaving it differently, changes nothing. */
  lemma ChunksDoNotShow<R>(one: seq<DrainEvent>, other: seq<DrainEvent>, parse: string -> Option<R>)
    requires OutText(one, parse) == OutText(other, parse)
    ensures DrainRun(one, true, parse).results == DrainRun(other, true, parse).results
  {
    RunFollows(one, parse);
    RunFollows(other, parse);
  }

  /** Lines with their newlines put back. */
  function Written(lines: seq<string>): string {
    if lines == [] then "" else lines[0] + "\n" + Written(lines[1..])
  }

  /** The lines and the remainder are the text, and no line contains a newline. */
  lemma {:induction false} LinesAre(s: string)
    ensures forall i :: 0 <= i < |Lines(s)| ==> '\n' !in Lines(s)[i]
    ensures Written(Lines(s)) + Remainder(s) == s
  {
    if s != [] {
      var c, t := s[0], s[1..];
      LinesAre(t);
      var rest, tail := Lines(t), Remainder(t);
      assert s == [c] + t;
      if c == '\n' {
        assert ([[]] + rest)[1..] == rest;
        assert Written(Lines(s)) == "\n" + Written(rest);
        hide Lines, Remainder, Written;
        Assoc("\n", Written(rest), tail);
      } else if rest != [] {
        assert ([[c] + rest[0]] + rest[1..])[1..] == rest[1..];
        assert Written(Lines(s)) == [c] + rest[0] + "\n" + Written(rest[1..]);
        assert Written(rest) == rest[0] + "\n" + Written(rest[1..]);
        hide Lines, Remainder, Written;
        Assoc([c], rest[0], "\n");
        Assoc([c], rest[0] + "\n", Written(rest[1..]));
        Assoc([c], Written(rest), tail);
      }
    }
  }

  // ----- the program

  class StageDrain<R> {
    const collecting: bool
    const parse: string -> Option<R>
    var pending: string
    var results: seq<R>
    var out: Stream
    var err: Stream
    var exit: Option<int>
    var expired: bool

    ghost function Now(): Drain<R>
      reads this
    {
      Drain(pending, results, out, err, exit, expired)
    }

    constructor (collecting: bool, parse: string -> Option<R>)
      ensures this.collecting == collecting && this.parse == parse && Now() == Fresh()
    {
      this.collecting := collecting;
      this.parse := parse;
      pending, results, out, err, exit, expired := "", [], Open, Open, None, false;
    }

    /** A chunk of standard output: complete lines are looked at, the rest waits for the next chunk. */
    method OnChunk(text: string)
      requires out.Open? && collecting
      modifies this`pending, this`results, this`out
      ensures Now() == Fed(old(Now()), text, parse)
    {
      hide Collect, Lines, Remainder;
      CollectNothing(parse);
      pending := pending + text;
      var lines := Lines(pending);
      pending := Remainder(pending);
      for i := 0 to |lines|
        invariant |old(results)| <= |results| && results[..|old(results)|] == old(results)
        invariant Collect(lines[..i], parse) == Collected(results[|old(results)|..], false)
        invariant unchanged(`out) && pending == Remainder(old(pending) + text)
      {
        CollectStep(lines, i, parse);
        if IsResult(lines[i]) {
          var parsed := parse(lines[i][|RESULT|..]);
          if parsed.None? {
            out := Broken;
            CollectStops(lines, i + 1, parse);
            assert old(results) + results[|old(results)|..] == results;
            return;
          }
          results := results + [parsed.value];
        }
      }
      assert lines[..|lines|] == lines;
      assert old(results) + results[|old(results)|..] == results;
    }

    method Handle(e: DrainEvent)
      modifies this
      ensures Now() == Drained(old(Now()), e, collecting, parse)
    {
      match e
      case OutChunk(text) => if out.Open? && collecting { OnChunk(text); }
      case OutEnd => if out.Open? { out := Ended; }
      case OutFail => if out.Open? { out := Broken; }
      case ErrChunk =>
      case ErrEnd => if err.Open? { err := Ended; }
      case ErrFail => if err.Open? { err := Broken; }
      case Exit(code) => if exit.None? { exit := Some(code); }
      case Expire => if exit.Some? { expired := true; }
    }
  }

  lemma CollectNothing<R>(parse: string -> Option<R>)
    ensures Collect([], parse) == Collected([], false)
  {
  }

  lemma CollectStep<R>(lines: seq<string>, i: nat, parse: string -> Option<R>)
    requires i < |lines| && !Collect(lines[..i], parse).failed
    ensures var c, line := Collect(lines[..i], parse), lines[i];
      Collect(lines[..i + 1], parse) ==
        if !IsResult(line) then c
        else if parse(line[|RESULT|..]).None? then Collected(c.results, true)
        else Collected(c.results + [parse(line[|RESULT|..]).value], false)
  {
    assert lines[..i + 1][..i] == lines[..i];
  }

  /** Once a line fails to parse, later lines are not looked at. */
  lemma {:induction false} CollectStops<R>(lines: seq<string>, n: nat, parse: string -> Option<R>)
    requires n <= |lines| && Collect(lines[..n], parse).failed
    ensures Collect(lines, parse) == Collect(lines[..n], parse)
    decreases |lines|
  {
    if n == |lines| {
      assert lines[..n] == lines;
    } else {
      assert lines[..|lines| - 1][..n] == lines[..n];
      CollectStops(lines[..|lines| - 1], n, parse);
    }
  }
}
