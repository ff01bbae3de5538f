/** Model of Argon2Helper: calibrating the Argon2 iteration count against a time budget.

    The Argon2 hash call and the logger are external collaborators. Every call made to them is
    recorded, in order, as an Event; the wall clock is a sequence of System.nanoTime readings
    supplied up front and consumed two per trial. */
module Argon2Helper {

  /** Java `int` and `long`. */
  const Int32Max: int := 0x7fff_ffff
  type Int32 = x: int | -0x8000_0000 <= x <= 0x7fff_ffff
  type Long = x: int | -0x8000_0000_0000_0000 <= x <= 0x7fff_ffff_ffff_ffff

  /** Nanoseconds in a millisecond. */
  const MillisInNanos: int := 1000000

  /** The fixed password every trial hashes. */
  const Password: string := "password"

  datatype Option<T> = None | Some(value: T)

  /** One call the calibration makes to a collaborator, in the order it makes them. */
  datatype Event =
    | Hash(iterations: Int32, memory: Int32, parallelism: Int32, password: string)
    | Log(iterations: Int32, millisecs: Long)

  // ---------------------------------------------------------------------------------------------
  // Timing
  // ---------------------------------------------------------------------------------------------

  /** A nanosecond reading converted to milliseconds by Java's long division, which truncates
      toward zero (the reading may be negative). */
  function ToMillis(nanos: Long): (millis: Long)
    ensures 0 <= nanos ==> 0 <= millis * MillisInNanos <= nanos < millis * MillisInNanos + MillisInNanos
    ensures nanos < 0 ==> millis * MillisInNanos - MillisInNanos < nanos <= millis * MillisInNanos <= 0
  {
    if nanos >= 0 then nanos / MillisInNanos else -((-(nanos as int)) / MillisInNanos)
  }

  /** Truncating to milliseconds never reverses the order of two readings. */
  lemma ToMillisMonotone(a: Long, b: Long)
    requires a <= b
    ensures ToMillis(a) <= ToMillis(b)
  {
  }

  /** Milliseconds taken by trial `i` (trials are numbered from 1): the clock is read once before
      and once after the hash call, and each reading is truncated before they are subtracted. */
  function Took(clock: seq<Long>, i: int): (took: Long)
    requires 1 <= i && 2 * i <= |clock|
    // within two milliseconds of the nanoseconds that passed, and within one when no reading is negative
    ensures clock[2 * i - 1] - clock[2 * i - 2] - 2 * MillisInNanos < took * MillisInNanos
                                                              < clock[2 * i - 1] - clock[2 * i - 2] + 2 * MillisInNanos
    ensures 0 <= clock[2 * i - 2] && 0 <= clock[2 * i - 1] ==>
              clock[2 * i - 1] - clock[2 * i - 2] - MillisInNanos < took * MillisInNanos
                                                              < clock[2 * i - 1] - clock[2 * i - 2] + MillisInNanos
  {
    ToMillis(clock[2 * i - 1]) - ToMillis(clock[2 * i - 2])
  }

  ghost predicate NonDecreasing(clock: seq<Long>)
  {
    forall i, j :: 0 <= i <= j < |clock| ==> clock[i] <= clock[j]
  }

  /** With a clock that never runs backwards, no trial takes a negative time. */
  lemma TookNonNegative(clock: seq<Long>, i: int)
    requires NonDecreasing(clock)
    requires 1 <= i && 2 * i <= |clock|
    ensures Took(clock, i) >= 0
  {
  }

  // ---------------------------------------------------------------------------------------------
  // What the search is looking for
  // ---------------------------------------------------------------------------------------------

  /** Trials 1..n all stayed within the budget. */
  ghost predicate WithinBudget(clock: seq<Long>, maxMillisecs: Long, n: int)
    requires 2 * n <= |clock|
  {
    forall j :: 1 <= j <= n ==> Took(clock, j) <= maxMillisecs
  }

  /** Some trial covered by the readings, with an iteration count a Java int can hold, exceeds the
      budget. Without it the loop of findIterations never stops (or its counter overflows). */
  ghost predicate Overruns(clock: seq<Long>, maxMillisecs: Long)
  {
    exists k :: 1 <= k <= Int32Max && 2 * k <= |clock| && Took(clock, k) > maxMillisecs
  }

  /** Reference search: the first trial from `i` on that exceeds the budget, if the readings
      cover one. */
  function FirstOverrun(clock: seq<Long>, maxMillisecs: Long, i: int): (r: Option<int>)
    requires 1 <= i
    decreases |clock| - 2 * i
    ensures r.Some? ==> i <= r.value && 2 * r.value <= |clock| && Took(clock, r.value) > maxMillisecs
    ensures r.Some? ==> forall j :: i <= j < r.value ==> Took(clock, j) <= maxMillisecs
    ensures r.None? ==> forall j :: i <= j && 2 * j <= |clock| ==> Took(clock, j) <= maxMillisecs
  {
    if |clock| < 2 * i then None
    else if Took(clock, i) > maxMillisecs then Some(i)
    else FirstOverrun(clock, maxMillisecs, i + 1)
  }

  /** The iteration count calibration settles on: one less than the first trial over budget. */
  function Calibrated(clock: seq<Long>, maxMillisecs: Long): (r: Int32)
    requires Overruns(clock, maxMillisecs)
    ensures 0 <= r < Int32Max && 2 * (r + 1) <= |clock|
    ensures WithinBudget(clock, maxMillisecs, r)
    ensures Took(clock, r + 1) > maxMillisecs
  {
    FirstOverrun(clock, maxMillisecs, 1).value - 1
  }

  /** The boundary property pins the result down: only one count has every trial up to it within
      budget and the next one over. */
  lemma BoundaryUnique(clock: seq<Long>, maxMillisecs: Long, n: int)
    requires 0 <= n && 2 * (n + 1) <= |clock|
    requires WithinBudget(clock, maxMillisecs, n) && Took(clock, n + 1) > maxMillisecs
    ensures n < Int32Max ==> Overruns(clock, maxMillisecs) && n == Calibrated(clock, maxMillisecs)
  {
  }

  // ---------------------------------------------------------------------------------------------
  // The calls made to the collaborators
  // ---------------------------------------------------------------------------------------------

  /** The calls of trials 1..n: for each, its hash call and then its log call. */
  function Trace(clock: seq<Long>, memory: Int32, parallelism: Int32, n: int): seq<Event>
    requires 0 <= n <= Int32Max && 2 * n <= |clock|
  {
    if n == 0 then []
    else Trace(clock, memory, parallelism, n - 1)
         + [Hash(n, memory, parallelism, Password), Log(n, Took(clock, n))]
  }

  /** Trial i owns positions 2i-2 and 2i-1 of the trace: one hash call with the caller's memory
      and parallelism and the fixed password, then one log call with its count and its time. */
  lemma {:induction false} TraceAt(clock: seq<Long>, memory: Int32, parallelism: Int32, n: int, i: int)
    requires 0 <= n <= Int32Max && 2 * n <= |clock|
    requires 1 <= i <= n
    ensures |Trace(clock, memory, parallelism, n)| == 2 * n
    ensures Trace(clock, memory, parallelism, n)[2 * i - 2] == Hash(i, memory, parallelism, Password)
    ensures Trace(clock, memory, parallelism, n)[2 * i - 1] == Log(i, Took(clock, i))
  {
    if i < n {
      TraceAt(clock, memory, parallelism, n - 1, i);
    } else if n > 1 {
      TraceAt(clock, memory, parallelism, n - 1, 1);
    }
  }

  /** The (iterations, millisecs) pairs a logger is given, in order. */
  function Logged(events: seq<Event>): seq<(Int32, Long)>
  {
    if events == [] then []
    else Logged(events[..|events| - 1])
         + (match events[|events| - 1]
            case Log(iterations, millisecs) => [(iterations, millisecs)]
            case Hash(_, _, _, _) => [])
  }

  /** The logger hears about trials 1..n, once each, in increasing order, each with its time. */
  lemma {:induction false} LoggedTrials(clock: seq<Long>, memory: Int32, parallelism: Int32, n: int)
    requires 0 <= n <= Int32Max && 2 * n <= |clock|
    ensures |Logged(Trace(clock, memory, parallelism, n))| == n
    ensures forall j :: 1 <= j <= n ==> Logged(Trace(clock, memory, parallelism, n))[j - 1] == (j, Took(clock, j))
  {
    if n > 0 {
      var prev := Trace(clock, memory, parallelism, n - 1);
      var trial := [Hash(n, memory, parallelism, Password), Log(n, Took(clock, n))];
      LoggedTrials(clock, memory, parallelism, n - 1);
      assert (prev + trial)[..|prev + trial| - 1] == prev + [trial[0]];
      assert (prev + [trial[0]])[..|prev + [trial[0]]| - 1] == prev;
      assert Logged(prev + [trial[0]]) == Logged(prev);
      assert Logged(prev + trial) == Logged(prev) + [(n, Took(clock, n))];
    }
  }

  // ---------------------------------------------------------------------------------------------
  // Loggers
  // ---------------------------------------------------------------------------------------------

  /** A logger given the pairs `entries`, one call each, in order. */
  function Replay<S>(logger: (S, Int32, Long) -> S, s: S, entries: seq<(Int32, Long)>): S
  {
    if entries == [] then s
    else
      var (iterations, millisecs) := entries[|entries| - 1];
      logger(Replay(logger, s, entries[..|entries| - 1]), iterations, millisecs)
  }

  /** The logger is any state machine over a state of its own, stepped by each log call of a trace
      and left alone by each hash call. */
  function Notify<S>(logger: (S, Int32, Long) -> S, s: S, events: seq<Event>): S
  {
    if events == [] then s
    else
      var before := Notify(logger, s, events[..|events| - 1]);
      match events[|events| - 1]
      case Log(iterations, millisecs) => logger(before, iterations, millisecs)
      case Hash(_, _, _, _) => before
  }

  /** So a logger ends where the logged pairs alone, given to it one call each in order, take it. */
  lemma {:induction false} NotifyReplaysLogged<S>(logger: (S, Int32, Long) -> S, s: S, events: seq<Event>)
    ensures Notify(logger, s, events) == Replay(logger, s, Logged(events))
  {
    if events != [] {
      var prefix := events[..|events| - 1];
      NotifyReplaysLogged(logger, s, prefix);
      match events[|events| - 1]
      case Log(iterations, millisecs) =>
        var prior := Logged(prefix);
        assert (prior + [(iterations, millisecs)])[..|prior|] == prior;
      case Hash(_, _, _, _) =>
        assert Logged(events) == Logged(prefix);
    }
  }

  /** A trial's hash call leaves the logger alone; its log call steps it once. */
  lemma NotifyTrial<S>(logger: (S, Int32, Long) -> S, s: S, events: seq<Event>, hash: Event, iterations: Int32, took: Long)
    requires hash.Hash?
    ensures Notify(logger, s, events + [hash] + [Log(iterations, took)])
         == logger(Notify(logger, s, events), iterations, took)
  {
    var hashed := events + [hash];
    var logged := hashed + [Log(iterations, took)];
    assert hashed[..|hashed| - 1] == events;
    assert logged[..|logged| - 1] == hashed;
  }

  /** NoopLogger: logs nothing. */
  function NoopLog<S>(s: S, iterations: Int32, millisecs: Long): (after: S)
    ensures after == s
  {
    s
  }

  /** Whatever calls it receives, the no-op logger ends in the state it started in. */
  lemma {:induction false} NotifyNoop<S>(s: S, events: seq<Event>)
    ensures Notify((t: S, i: Int32, m: Long) => NoopLog(t, i, m), s, events) == s
  {
    if events != [] {
      NotifyNoop(s, events[..|events| - 1]);
    }
  }

  // ---------------------------------------------------------------------------------------------
  // findIterations
  // ---------------------------------------------------------------------------------------------

  /** One pass of the do-while body: read the clock, hash with `n` iterations, read the clock
      again, and report the elapsed milliseconds to the logger. The trace grows by exactly that
      trial's hash call and log call, and the logger is stepped once. */
  method Trial<S>(clock: seq<Long>, n: Int32, memory: Int32, parallelism: Int32,
                  logger: (S, Int32, Long) -> S, ghost state0: S, events: seq<Event>, state: S)
    returns (took: Long, events': seq<Event>, state': S)
    requires 1 <= n && 2 * n <= |clock|
    requires events == Trace(clock, memory, parallelism, n - 1)
    requires state == Notify(logger, state0, events)
    ensures took == Took(clock, n)
    ensures events' == Trace(clock, memory, parallelism, n)
    ensures state' == Notify(logger, state0, events')
  {
    var password := Password;
    var start := ToMillis(clock[2 * n - 2]);
    var hashed := events + [Hash(n, memory, parallelism, password)];
    var end := ToMillis(clock[2 * n - 1]);
    took := end - start;
    events' := hashed + [Log(n, took)];
    state' := logger(state, n, took);
    NotifyTrial(logger, state0, events, Hash(n, memory, parallelism, password), n, took);
  }

  /** findIterations with a logger: runs trials 1, 2, 3, ... until one takes longer than
      `maxMillisecs`, and returns the count before it. */
  method FindIterationsWithLogger<S>(clock: seq<Long>, maxMillisecs: Long, memory: Int32, parallelism: Int32,
                                     logger: (S, Int32, Long) -> S, state0: S)
    returns (r: Int32, events: seq<Event>, state: S)
    requires Overruns(clock, maxMillisecs)
    ensures 0 <= r < Int32Max && 2 * (r + 1) <= |clock|
    ensures WithinBudget(clock, maxMillisecs, r) && Took(clock, r + 1) > maxMillisecs
    ensures r == Calibrated(clock, maxMillisecs)
    ensures events == Trace(clock, memory, parallelism, r + 1)
    ensures state == Notify(logger, state0, events)
  {
    ghost var c := Calibrated(clock, maxMillisecs);
    var took: Long := 0;
    var iterations: Int32 := 0;
    events, state := [], state0;
    // do { ... } while (took <= maxMillisecs): the first pass always runs
    while iterations == 0 || took <= maxMillisecs
      invariant 0 <= iterations <= c + 1
      invariant iterations > 0 ==> took == Took(clock, iterations)
      invariant events == Trace(clock, memory, parallelism, iterations)
      invariant state == Notify(logger, state0, events)
      decreases c + 1 - iterations
    {
      // a trial at c + 1 would have gone over the budget and ended the loop
      assert iterations <= c;
      iterations := iterations + 1;
      took, events, state := Trial(clock, iterations, memory, parallelism, logger, state0, events, state);
    }
    r := iterations - 1;
  }

  /** findIterations without a logger: the same search, reporting to a NoopLogger. */
  method FindIterations(clock: seq<Long>, maxMillisecs: Long, memory: Int32, parallelism: Int32)
    returns (r: Int32, events: seq<Event>)
    requires Overruns(clock, maxMillisecs)
    ensures 0 <= r < Int32Max
    ensures r == Calibrated(clock, maxMillisecs)
    ensures events == Trace(clock, memory, parallelism, r + 1)
  {
    var state;
    r, events, state := FindIterationsWithLogger(clock, maxMillisecs, memory, parallelism,
                                                 (t: (), i: Int32, m: Long) => NoopLog(t, i, m), ());
  }

  // ---------------------------------------------------------------------------------------------
  // Consequences
  // ---------------------------------------------------------------------------------------------

  /** If the very first trial is over budget, calibration runs exactly that one trial and
      settles on 0. */
  lemma FirstTrialOverrun(clock: seq<Long>, maxMillisecs: Long, memory: Int32, parallelism: Int32)
    requires 2 <= |clock| && Took(clock, 1) > maxMillisecs
    ensures Overruns(clock, maxMillisecs) && Calibrated(clock, maxMillisecs) == 0
    ensures Trace(clock, memory, parallelism, 1)
         == [Hash(1, memory, parallelism, Password), Log(1, Took(clock, 1))]
  {
  }

  /** A hash whose trial i takes exactly i milliseconds calibrates to the budget itself. */
  lemma LinearCost(clock: seq<Long>, maxMillisecs: Long)
    requires 0 <= maxMillisecs < Int32Max && 2 * (maxMillisecs + 1) <= |clock|
    requires forall i :: 1 <= i && 2 * i <= |clock| ==> Took(clock, i) == i
    ensures Overruns(clock, maxMillisecs) && Calibrated(clock, maxMillisecs) == maxMillisecs
  {
    BoundaryUnique(clock, maxMillisecs, maxMillisecs);
  }
}
