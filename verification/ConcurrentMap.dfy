/**
 The bounded-concurrency map as a transition system: several workers share one counter and one
 result array, and control moves from one to another only where a worker awaits its mapper call.
 */
module ConcurrentMap {
  import opened Machine

  /** Where a worker stands: awaiting its call for an index, out of its loop, or ended by a rejected call. */
  datatype Worker = Awaiting(index: nat) | Finished | Rejected(index: nat)

  /** The shared variables, the workers, and the mapper calls made so far, in order. */
  datatype State<R> = State(nextIndex: nat, results: seq<Option<R>>, workers: seq<Worker>, calls: seq<nat>)

  /** The values and what the mapper's promise for each of them settles to; None is a rejection. */
  datatype Job<!T, R> = Job(values: seq<T>, mapper: (T, nat) -> Option<R>) {
    function Answer(i: nat): Option<R>
      requires i < |values|
    {
      mapper(values[i], i)
    }
  }

  // ----- steps

  /** The head of a worker's loop: claim the next index and call the mapper, or leave. */
  function Resumed<R>(n: nat, s: State<R>, w: nat): State<R>
    requires w < |s.workers|
  {
    if s.nextIndex < n then
      s.(nextIndex := s.nextIndex + 1, workers := s.workers[w := Awaiting(s.nextIndex)],
          calls := s.calls + [s.nextIndex])
    else
      s.(workers := s.workers[w := Finished])
  }

  function Launched<R>(n: nat, s: State<R>): State<R> {
    Resumed(n, s.(workers := s.workers + [Finished]), |s.workers|)
  }

  /** The state once k workers have been created, each run up to its first await. */
  function Started<R>(n: nat, k: nat): State<R> {
    if k == 0 then State(0, seq(n, _ => None), [], []) else Launched(n, Started(n, k - 1))
  }

  predicate Enabled<R>(s: State<R>, w: nat) {
    w < |s.workers| && s.workers[w].Awaiting?
  }

  /** The call a worker awaits settles, and the worker runs on to its next await. */
  function Settled<T, R>(job: Job<T, R>, s: State<R>, w: nat): State<R>
    requires Enabled(s, w) && s.workers[w].index < |job.values| == |s.results|
  {
    var i := s.workers[w].index;
    match job.Answer(i)
    case None => s.(workers := s.workers[w := Rejected(i)])
    case Some(value) => Resumed(|job.values|, s.(results := s.results[i := Some(value)]), w)
  }

  function PoolSize(n: nat, concurrency: int): nat {
    if concurrency <= 0 then 0 else if concurrency < n then concurrency else n
  }

  // ----- what every step keeps

  /** The worker that made the call for index i and has not stored its value. */
  predicate Owns<R>(s: State<R>, w: nat, i: nat) {
    w < |s.workers| && (s.workers[w] == Awaiting(i) || s.workers[w] == Rejected(i))
  }

  ghost predicate Accounted<R>(s: State<R>, i: nat)
    requires i < |s.results|
  {
    s.results[i].Some? <==> !exists w :: Owns(s, w, i)
  }

  predicate OneOwner<R>(s: State<R>, v: nat, w: nat, i: nat) {
    Owns(s, v, i) && Owns(s, w, i) ==> v == w
  }

  /** A worker that left its loop found nothing to claim; a rejected one had a rejected call. */
  predicate WorkerSound<T, R>(job: Job<T, R>, s: State<R>, w: nat)
    requires w < |s.workers|
  {
    match s.workers[w]
    case Awaiting(i) => i < s.nextIndex
    case Finished => s.nextIndex == |job.values|
    case Rejected(i) => i < s.nextIndex && i < |job.values| && job.Answer(i).None?
  }

  /**
   The calls are for 0, 1, 2, ... in that order; each called index has its value stored or has
   exactly one worker responsible for it; what is stored is the mapper's answer. Worker `between`,
   if there is one, is at its loop head and owns nothing.
   */
  ghost predicate SoundBut<T, R>(job: Job<T, R>, s: State<R>, between: int) {
    && s.nextIndex <= |job.values| == |s.results|
    && |s.calls| == s.nextIndex && (forall i :: 0 <= i < |s.calls| ==> s.calls[i] == i)
    && (forall w :: 0 <= w < |s.workers| ==> if w == between then s.workers[w].Finished? else WorkerSound(job, s, w))
    && (forall v, w, i {:trigger Owns(s, v, i), Owns(s, w, i)} :: OneOwner(s, v, w, i))
    && (forall i {:trigger s.results[i]} :: 0 <= i < s.nextIndex ==> Accounted(s, i))
    && (forall i :: 0 <= i < |s.results| && s.results[i].Some? ==> i < s.nextIndex && s.results[i] == job.Answer(i))
  }

  /** The number of mapper calls in flight. */
  function InFlight(workers: seq<Worker>): (k: nat)
    ensures k <= |workers|
  {
    if workers == [] then 0
    else InFlight(workers[..|workers| - 1]) + if workers[|workers| - 1].Awaiting? then 1 else 0
  }

  lemma {:induction false} InFlightUpdate(workers: seq<Worker>, w: nat, x: Worker)
    requires w < |workers|
    ensures InFlight(workers[w := x])
         == InFlight(workers) - (if workers[w].Awaiting? then 1 else 0) + (if x.Awaiting? then 1 else 0)
  {
    var n := |workers| - 1;
    if w == n {
      assert workers[w := x][..n] == workers[..n];
    } else {
      assert workers[w := x][..n] == workers[..n][w := x];
      InFlightUpdate(workers[..n], w, x);
    }
  }

  lemma {:induction false} NoneInFlight(workers: seq<Worker>)
    ensures InFlight(workers) == 0 <==> forall w :: 0 <= w < |workers| ==> !workers[w].Awaiting?
  {
    if workers != [] {
      var n := |workers| - 1;
      var front := workers[..n];
      NoneInFlight(front);
      assert forall w :: 0 <= w < n ==> front[w] == workers[w];
      if InFlight(workers) == 0 {
        forall w | 0 <= w < |workers|
          ensures !workers[w].Awaiting?
        {
          assert w < n ==> !front[w].Awaiting?;
        }
      }
    }
  }

  /** The settlements still to come if no call rejects: calls in flight and indices not yet claimed. */
  function Remaining<T, R>(job: Job<T, R>, s: State<R>): int {
    |job.values| - s.nextIndex + InFlight(s.workers)
  }

  ghost predicate Sound<T, R>(job: Job<T, R>, s: State<R>) {
    SoundBut(job, s, -1)
  }

  lemma ResumeKeeps<T, R>(job: Job<T, R>, s: State<R>, w: nat)
    requires w < |s.workers| && SoundBut(job, s, w)
    ensures var t := Resumed(|job.values|, s, w);
      && Sound(job, t) && |t.workers| == |s.workers| && Remaining(job, t) == Remaining(job, s)
  {
    var n := |job.values|;
    var t := Resumed(n, s, w);
    InFlightUpdate(s.workers, w, t.workers[w]);
    forall v, i
      ensures Owns(t, v, i) <==> Owns(s, v, i) || (v == w && i == s.nextIndex < n)
    {
    }
    forall i | 0 <= i < t.nextIndex
      ensures Accounted(t, i)
    {
      if i == s.nextIndex {
        assert Owns(t, w, i);
      } else {
        assert Accounted(s, i);
      }
    }
    forall u, v, i
      ensures OneOwner(t, u, v, i)
    {
      assert OneOwner(s, u, v, i);
    }
  }

  /** One settlement keeps the invariant and uses up exactly one of the remaining ones. */
  lemma SettleKeeps<T, R>(job: Job<T, R>, s: State<R>, w: nat)
    requires Sound(job, s) && Enabled(s, w)
    ensures WorkerSound(job, s, w)
    ensures var t := Settled(job, s, w);
      && Sound(job, t) && |t.workers| == |s.workers| && Remaining(job, t) == Remaining(job, s) - 1
  {
    assert WorkerSound(job, s, w);
    var i := s.workers[w].index;
    assert Owns(s, w, i) && Accounted(s, i);
    match job.Answer(i)
    case None =>
      var t := Settled(job, s, w);
      InFlightUpdate(s.workers, w, Rejected(i));
      forall v, j
        ensures Owns(t, v, j) <==> Owns(s, v, j)
      {
      }
      SameOwners(job, s, t);
    case Some(value) =>
      var u := s.(results := s.results[i := Some(value)], workers := s.workers[w := Finished]);
      InFlightUpdate(s.workers, w, Finished);
      Stored(job, s, w, u);
      ResumeKeeps(job, u, w);
      assert u.workers[w := Awaiting(u.nextIndex)] == s.workers[w := Awaiting(u.nextIndex)];
      assert u.workers[w := Finished] == s.workers[w := Finished];
  }

  lemma SameOwners<T, R>(job: Job<T, R>, s: State<R>, t: State<R>)
    requires Sound(job, s) && t == s.(workers := t.workers)
    requires forall v, j :: Owns(t, v, j) <==> Owns(s, v, j)
    requires forall w :: 0 <= w < |t.workers| ==> WorkerSound(job, t, w)
    ensures Sound(job, t)
  {
    forall u, v, i
      ensures OneOwner(t, u, v, i)
    {
      assert OneOwner(s, u, v, i);
    }
    forall i | 0 <= i < t.nextIndex
      ensures Accounted(t, i)
    {
      assert Accounted(s, i);
    }
  }

  /** The answer is stored and its worker is between iterations. */
  lemma Stored<T, R>(job: Job<T, R>, s: State<R>, w: nat, u: State<R>)
    requires Sound(job, s) && Enabled(s, w) && s.workers[w].index < |job.values| && job.Answer(s.workers[w].index).Some?
    requires u == s.(results := s.results[s.workers[w].index := job.Answer(s.workers[w].index)],
        workers := s.workers[w := Finished])
    ensures SoundBut(job, u, w)
  {
    var i := s.workers[w].index;
    forall v, j
      ensures Owns(u, v, j) <==> Owns(s, v, j) && v != w
    {
    }
    forall j | 0 <= j < u.nextIndex
      ensures Accounted(u, j)
    {
      assert Accounted(s, j);
      if j == i {
        forall v
          ensures !Owns(u, v, i)
        {
          assert OneOwner(s, v, w, i);
        }
      } else if v :| Owns(s, v, j) {
        assert Owns(u, v, j);
      }
    }
    forall v, x, j
      ensures OneOwner(u, v, x, j)
    {
      assert OneOwner(s, v, x, j);
    }
  }

  lemma StartEmpty<T, R>(job: Job<T, R>)
    ensures Sound(job, Started<R>(|job.values|, 0))
  {
    var s := Started<R>(|job.values|, 0);
    assert forall i :: 0 <= i < |s.results| ==> s.results[i].None?;
    forall v, w, i
      ensures OneOwner(s, v, w, i)
    {
      assert !Owns(s, v, i);
    }
  }

  lemma {:induction false} StartSound<T, R>(job: Job<T, R>, k: nat)
    requires k <= |job.values|
    ensures var s := Started<R>(|job.values|, k);
      && Sound(job, s) && |s.workers| == k && s.nextIndex == k && Remaining(job, s) == |job.values|
  {
    if k == 0 {
      StartEmpty(job);
    } else {
      hide Sound, Launched, Remaining;
      StartSound(job, k - 1);
      LaunchKeeps(job, Started<R>(|job.values|, k - 1));
    }
  }

  lemma LaunchKeeps<T, R>(job: Job<T, R>, s: State<R>)
    requires Sound(job, s) && s.nextIndex < |job.values|
    ensures var t := Launched(|job.values|, s);
      && Sound(job, t) && |t.workers| == |s.workers| + 1 && t.nextIndex == s.nextIndex + 1
      && Remaining(job, t) == Remaining(job, s)
  {
    hide SoundBut;
    var u := s.(workers := s.workers + [Finished]);
    assert u.workers[..|s.workers|] == s.workers;
    forall v, j
      ensures Owns(u, v, j) <==> Owns(s, v, j)
    {
    }
    Recruited(job, s, u);
    ResumeKeeps(job, u, |s.workers|);
  }

  lemma Recruited<T, R>(job: Job<T, R>, s: State<R>, u: State<R>)
    requires Sound(job, s) && u == s.(workers := s.workers + [Finished])
    requires forall v, j :: Owns(u, v, j) <==> Owns(s, v, j)
    ensures SoundBut(job, u, |s.workers|)
  {
    forall w | 0 <= w < |s.workers|
      ensures WorkerSound(job, u, w)
    {
      assert WorkerSound(job, s, w);
    }
    forall j | 0 <= j < u.nextIndex
      ensures Accounted(u, j)
    {
      assert Accounted(s, j);
    }
    forall v, x, j
      ensures OneOwner(u, v, x, j)
    {
      assert OneOwner(s, v, x, j);
    }
  }

  // ----- runs

  /**
   The state after the calls awaited by the scheduled workers settle in that order; None if one of them
   awaits nothing.
   */
  ghost function Run<T, R>(job: Job<T, R>, concurrency: int, schedule: seq<nat>): (r: Option<State<R>>)
    ensures r.Some? ==> Sound(job, r.value) && |r.value.workers| == PoolSize(|job.values|, concurrency)
    ensures r.Some? ==> |schedule| + Remaining(job, r.value) == |job.values|
  {
    if schedule == [] then
      StartSound(job, PoolSize(|job.values|, concurrency));
      Some(Started(|job.values|, PoolSize(|job.values|, concurrency)))
    else
      var last := |schedule| - 1;
      match Run(job, concurrency, schedule[..last])
      case None => None
      case Some(s) =>
        if Enabled(s, schedule[last]) then
          SettleKeeps(job, s, schedule[last]);
          Some(Settled(job, s, schedule[last]))
        else None
  }

  /** No call is in flight, so nothing can happen any more. */
  ghost predicate Final<R>(s: State<R>) {
    forall w :: 0 <= w < |s.workers| ==> !Enabled(s, w)
  }

  /** In every run the calls go out in input order, each index once, and never more than the limit are in flight. */
  lemma CallsOnce<T, R>(job: Job<T, R>, concurrency: int, schedule: seq<nat>)
    ensures var r := Run(job, concurrency, schedule);
      r.Some? ==>
        && |r.value.calls| <= |job.values| && (forall i :: 0 <= i < |r.value.calls| ==> r.value.calls[i] == i)
        && InFlight(r.value.workers) <= PoolSize(|job.values|, concurrency)
  {
  }

  /** While an index is unclaimed no worker has left: each has a call in flight or was ended by a rejected one. */
  lemma Busy<T, R>(job: Job<T, R>, concurrency: int, schedule: seq<nat>, w: nat)
    requires Run(job, concurrency, schedule).Some? && w < |Run(job, concurrency, schedule).value.workers|
    ensures var s := Run(job, concurrency, schedule).value;
      s.nextIndex < |job.values| ==> !s.workers[w].Finished?
  {
    assert WorkerSound(job, Run(job, concurrency, schedule).value, w);
  }

  /** A run settles at most one call per value, and it is over exactly when every call made has settled. */
  lemma RunsEnd<T, R>(job: Job<T, R>, concurrency: int, schedule: seq<nat>)
    requires Run(job, concurrency, schedule).Some?
    ensures var s := Run(job, concurrency, schedule).value;
      && |schedule| <= |s.calls| <= |job.values| && (Final(s) <==> |schedule| == |s.calls|)
  {
    var s := Run(job, concurrency, schedule).value;
    NoneInFlight(s.workers);
    assert Final(s) <==> forall w :: 0 <= w < |s.workers| ==> !s.workers[w].Awaiting? by {
      forall w | 0 <= w < |s.workers|
        ensures Enabled(s, w) <==> s.workers[w].Awaiting?
      {
      }
    }
  }

  /** What the run's promise settles to: rejected once a worker is, else the results. */
  ghost predicate PoolRejects<R>(s: State<R>) {
    exists w :: 0 <= w < |s.workers| && s.workers[w].Rejected?
  }

  ghost predicate AllAnswered<T, R>(job: Job<T, R>) {
    forall i :: 0 <= i < |job.values| ==> job.Answer(i).Some?
  }

  ghost predicate Mapped<T, R>(job: Job<T, R>, results: seq<Option<R>>) {
    |results| == |job.values| && forall i :: 0 <= i < |results| ==> results[i].Some? && results[i] == job.Answer(i)
  }

  /**
   Every completed run, whatever the interleaving: it rejects exactly when there is a worker and some
   call rejects; it leaves the mapped values, in input order, exactly when every call resolves and
   there is a worker to make them.
   */
  lemma FinalState<T, R>(job: Job<T, R>, concurrency: int, schedule: seq<nat>)
    requires Run(job, concurrency, schedule).Some? && Final(Run(job, concurrency, schedule).value)
    ensures var s := Run(job, concurrency, schedule).value;
      && (PoolRejects(s) <==> concurrency >= 1 && !AllAnswered(job))
      && (Mapped(job, s.results) <==> AllAnswered(job) && (concurrency >= 1 || job.values == []))
  {
    var s := Run(job, concurrency, schedule).value;
    FinalSettles(job, s);
    if s.workers != [] {
      assert s.nextIndex < |job.values| ==> s.workers[0].Rejected?;
      if AllAnswered(job) {
        assert !PoolRejects(s);
      }
    } else {
      StartedAlone(job, s, schedule, concurrency);
    }
    if Mapped(job, s.results) {
      assert job.values != [] ==> s.results[0].Some?;
    }
  }

  /** Without workers nothing was ever called. */
  lemma StartedAlone<T, R>(job: Job<T, R>, s: State<R>, schedule: seq<nat>, concurrency: int)
    requires Run(job, concurrency, schedule) == Some(s) && s.workers == []
    ensures s.nextIndex == 0
  {
    if schedule == [] {
      StartSound(job, 0);
    }
  }

  lemma FinalSettles<T, R>(job: Job<T, R>, s: State<R>)
    requires Sound(job, s) && Final(s)
    ensures forall i {:trigger s.results[i]} :: 0 <= i < s.nextIndex ==> s.results[i] == job.Answer(i)
    ensures PoolRejects(s) <==> exists i :: 0 <= i < s.nextIndex && job.Answer(i).None?
    ensures s.nextIndex < |job.values| ==> forall w :: 0 <= w < |s.workers| ==> s.workers[w].Rejected?
  {
    forall i {:trigger s.results[i]} | 0 <= i < s.nextIndex
      ensures s.results[i] == job.Answer(i)
      ensures job.Answer(i).None? ==> PoolRejects(s)
    {
      assert Accounted(s, i);
      if w :| Owns(s, w, i) {
        assert !Enabled(s, w) && WorkerSound(job, s, w);
      }
    }
    forall w | 0 <= w < |s.workers|
      ensures s.nextIndex < |job.values| ==> s.workers[w].Rejected?
      ensures s.workers[w].Rejected? ==> exists i :: 0 <= i < s.nextIndex && job.Answer(i).None?
    {
      assert !Enabled(s, w) && WorkerSound(job, s, w);
      if s.workers[w].Rejected? {
        assert job.Answer(s.workers[w].index).None?;
      }
    }
  }

  /** The limit and the interleaving do not show in the results. */
  lemma OrderDoesNotShow<T, R>(job: Job<T, R>, c1: int, c2: int, run1: seq<nat>, run2: seq<nat>)
    requires c1 >= 1 && c2 >= 1 && AllAnswered(job)
    requires Run(job, c1, run1).Some? && Final(Run(job, c1, run1).value)
    requires Run(job, c2, run2).Some? && Final(Run(job, c2, run2).value)
    ensures Run(job, c1, run1).value.results == Run(job, c2, run2).value.results
  {
    FinalState(job, c1, run1);
    FinalState(job, c2, run2);
  }

  // ----- the program

  class Pool<T, R> {
    const values: seq<T>
    const mapper: (T, nat) -> Option<R>
    var nextIndex: nat
    var results: array<Option<R>>
    var workers: seq<Worker>
    ghost var calls: seq<nat>

    ghost function TheJob(): Job<T, R> {
      Job(values, mapper)
    }

    ghost function Now(): State<R>
      reads this, results
    {
      State(nextIndex, results[..], workers, calls)
    }

    /** Creates the workers one after another; each runs up to its first await. */
    constructor (values: seq<T>, concurrency: int, mapper: (T, nat) -> Option<R>)
      ensures this.values == values && this.mapper == mapper && fresh(results)
      ensures Now() == Started(|values|, PoolSize(|values|, concurrency))
    {
      this.values := values;
      this.mapper := mapper;
      nextIndex := 0;
      workers := [];
      calls := [];
      results := new Option<R>[|values|](_ => None);
      new;
      var size: int := if concurrency < |values| then concurrency else |values|;
      var k := 0;
      while k < size
        invariant k == |workers| && (k <= size || k == 0)
        invariant Now() == Started(|values|, k)
        modifies this`nextIndex, this`workers, this`calls
      {
        workers := workers + [Finished];
        Resume(k);
        k := k + 1;
      }
    }

    /** The loop of a worker, from its head to its next await. */
    method Resume(w: nat)
      requires w < |workers|
      modifies this`nextIndex, this`workers, this`calls
      ensures Now() == Resumed(|values|, old(Now()), w)
    {
      if nextIndex < |values| {
        var index := nextIndex;
        nextIndex := nextIndex + 1;
        workers := workers[w := Awaiting(index)];
        calls := calls + [index];
      } else {
        workers := workers[w := Finished];
      }
    }

    /** The mapper call a worker awaits settles. */
    method Settle(w: nat)
      requires Enabled(Now(), w) && workers[w].index < |values| == results.Length
      modifies this`nextIndex, this`workers, this`calls, results
      ensures Now() == Settled(TheJob(), old(Now()), w)
    {
      var index := workers[w].index;
      match mapper(values[index], index)
      case None =>
        workers := workers[w := Rejected(index)];
      case Some(value) =>
        results[index] := Some(value);
        Resume(w);
    }
  }

  /**
   The whole map. Which pending call settles next is not determined. The outcome is: a rejection
   exactly when there is a worker and some call rejects; otherwise the mapped values in input order
   if there is a worker, and an array of holes if there is none.
   */
  method MapWithConcurrency<T, R>(values: seq<T>, concurrency: int, mapper: (T, nat) -> Option<R>)
    returns (outcome: Option<seq<Option<R>>>)
    ensures outcome.None? <==> concurrency >= 1 && !AllAnswered(Job(values, mapper))
    ensures outcome.Some? && concurrency >= 1 ==> Mapped(Job(values, mapper), outcome.value)
    ensures concurrency < 1 ==> outcome == Some(seq(|values|, _ => None))
  {
    var pool := new Pool(values, concurrency, mapper);
    ghost var job := Job(values, mapper);
    ghost var schedule: seq<nat> := [];
    while exists w :: 0 <= w < |pool.workers| && pool.workers[w].Awaiting?
      invariant pool.values == values && pool.mapper == mapper && fresh(pool) && fresh(pool.results)
      invariant Run(job, concurrency, schedule) == Some(pool.Now())
      decreases Remaining(job, pool.Now())
    {
      var w :| 0 <= w < |pool.workers| && pool.workers[w].Awaiting?;
      ghost var before := pool.Now();
      SettleKeeps(job, before, w);
      pool.Settle(w);
      assert (schedule + [w])[..|schedule|] == schedule;
      schedule := schedule + [w];
    }
    var s := pool.Now();
    FinalState(job, concurrency, schedule);
    if exists w :: 0 <= w < |pool.workers| && pool.workers[w].Rejected? {
      return None;
    }
    outcome := Some(pool.results[..]);
  }
}
