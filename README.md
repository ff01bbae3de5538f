# Argon2Helper iteration calibration, in Dafny

This project models `Argon2Helper.findIterations` from argon2-jvm. The routine calibrates Argon2's
iteration count against a time budget. It hashes the fixed password "password" with iteration counts
1, 2, 3, … and times each hash call with `System.nanoTime`, truncated to milliseconds. After each
trial it tells an `IterationLogger` the count and the elapsed milliseconds. It stops at the first
trial that takes longer than `maxMillisecs` and returns that trial's count minus one.

The model lives in one module, `Argon2Helper` (`argon2_helper.dfy`):

- **Clock.** The clock is a sequence of `System.nanoTime` readings, two per trial, read in order.
  `ToMillis` reproduces Java's `long` division by 1000000, which truncates toward zero, so negative
  readings are handled. `Took(clock, i)` is the elapsed time of trial `i`.
- **Collaborators.** Every call to the Argon2 hash and to the logger is recorded, in order, as an
  `Event` (`Hash(iterations, memory, parallelism, password)` or `Log(iterations, millisecs)`).
- **Logger.** A logger is any state machine `(S, int, long) -> S` over a state of its own. The
  method returns the logger's final state. `Notify` steps a logger through the log calls of a
  trace. `Replay` steps it through a list of `(iterations, millisecs)` pairs. `NoopLog` is the
  `NoopLogger`.
- **Reference search.** `FirstOverrun` is a recursive search for the first over-budget trial.
  `Calibrated` is that trial's count minus one.
- **Methods.** `Trial` is one pass of the do-while body. `FindIterationsWithLogger` is the
  five-argument overload: the do-while loop, with its invariants. `FindIterations` is the
  four-argument overload, which passes a `NoopLogger`.
- **Termination.** The loop stops only when a trial goes over budget. So both methods require
  `Overruns`: some trial that the readings cover, with a count a Java `int` can hold, exceeds
  `maxMillisecs`.

## Model

| member | source | states |
|---|---|---|
| `Argon2Helper.ToMillis` | src/main/java/de/mkammerer/argon2/Argon2Helper.java:48-50 | a nanosecond reading becomes milliseconds truncated toward zero: for a non-negative reading `millis*1000000 <= nanos < (millis+1)*1000000`, for a negative one the mirror image |
| `Argon2Helper.ToMillisMonotone` | src/main/java/de/mkammerer/argon2/Argon2Helper.java:48-50 | truncating two readings to milliseconds keeps their order |
| `Argon2Helper.Took` | src/main/java/de/mkammerer/argon2/Argon2Helper.java:48-51 | a trial's `took` is the difference of its two truncated readings, so `took*1000000` is within 2 ms of the nanoseconds that passed, and within 1 ms when neither reading is negative |
| `Argon2Helper.TookNonNegative` | src/main/java/de/mkammerer/argon2/Argon2Helper.java:48-51 | with a non-decreasing clock every trial's `took` is at least 0 |
| `Argon2Helper.FirstOverrun` | src/main/java/de/mkammerer/argon2/Argon2Helper.java:46-54 | reference search: if it finds a trial, that trial exceeds the budget and every earlier trial from the start point stays within it; if it finds none, every trial the readings cover stays within budget |
| `Argon2Helper.Calibrated` | src/main/java/de/mkammerer/argon2/Argon2Helper.java:45-56 | the calibrated count `r` is in `0 .. Integer.MAX_VALUE-1`, trials `1..r` all took at most `maxMillisecs`, and trial `r+1` took more |
| `Argon2Helper.BoundaryUnique` | src/main/java/de/mkammerer/argon2/Argon2Helper.java:46-56 | any `n` with trials `1..n` within budget and trial `n+1` over it equals the calibrated count, so the boundary property determines the result |
| `Argon2Helper.TraceAt` | src/main/java/de/mkammerer/argon2/Argon2Helper.java:45-53 | trials run with counts 1, 2, …, n with no gaps or repeats; the trace has exactly `2n` calls; trial `i` makes one hash call with `(i, memory, parallelism, "password")`, followed directly by one log call with `(i, took_i)` |
| `Argon2Helper.LoggedTrials` | src/main/java/de/mkammerer/argon2/Argon2Helper.java:53-54 | the logger receives exactly `n` calls: `(1, took_1), …, (n, took_n)`, in that order |
| `Argon2Helper.NotifyTrial` | src/main/java/de/mkammerer/argon2/Argon2Helper.java:49-53 | the `IterationLogger` is called only for log calls: a trial's hash call leaves the logger state alone and its log call steps the logger once with `(iterations, took)` |
| `Argon2Helper.NotifyReplaysLogged` | src/main/java/de/mkammerer/argon2/Argon2Helper.java:62-69 | the logger state after a trace equals the state reached by calling `log` once for each logged `(iterations, millisecs)` pair, in order, and for nothing else |
| `Argon2Helper.NoopLog` | src/main/java/de/mkammerer/argon2/Argon2Helper.java:75-79 | `NoopLogger.log` returns the logger state it was given, whatever the count and time |
| `Argon2Helper.NotifyNoop` | src/main/java/de/mkammerer/argon2/Argon2Helper.java:75-79 | `NoopLogger.log` changes nothing: after any sequence of calls its state is the state it started in |
| `Argon2Helper.Trial` | src/main/java/de/mkammerer/argon2/Argon2Helper.java:46-53 | one pass of the loop body: `took` is trial `n`'s elapsed time; the calls grow from those of trials `1..n-1` to those of trials `1..n`; the logger state is stepped through the new log call |
| `Argon2Helper.FindIterationsWithLogger` | src/main/java/de/mkammerer/argon2/Argon2Helper.java:41-57 | the do-while loop returns `r >= 0` with trials `1..r` within budget and trial `r+1` over it, which equals `Calibrated`; the calls it makes are exactly those of trials `1..r+1`, in order; the logger's final state is the result of stepping it through those log calls, which by `NotifyReplaysLogged` and `LoggedTrials` are `(1, took_1), …, (r+1, took_{r+1})` |
| `Argon2Helper.FindIterations` | src/main/java/de/mkammerer/argon2/Argon2Helper.java:27-29 | the four-argument overload returns the same count as the five-argument one, `Calibrated`, and makes the same calls |
| `Argon2Helper.FirstTrialOverrun` | src/main/java/de/mkammerer/argon2/Argon2Helper.java:45-56 | if trial 1 already exceeds the budget, the result is 0 after exactly one hash call and one log call |
| `Argon2Helper.LinearCost` | src/main/java/de/mkammerer/argon2/Argon2Helper.java:46-56 | if trial `i` takes exactly `i` ms, the result equals `maxMillisecs` (for example, a budget of 5 gives 5, after trials 1..6) |

## Left out

- The Argon2 hash itself is not modelled. It is a native library; only the call and its arguments are recorded.
- `System.nanoTime` is not a real clock here. Its readings are a parameter, consumed two per trial.
- Exceptions thrown by `argon2.hash` or by a logger are not modelled. The source does not catch them; they would end the search with no result. The model has hash calls and loggers that always return.
- FindIterationsWithLogger: requires `Overruns`. A trial within the readings and within `int` range must exceed the budget. Without one, the source loops forever, or `iterations` overflows past `Integer.MAX_VALUE`. The model does not capture that wrap-around.
- FindIterations: also returns the sequence of calls made, which the Java method does not return. The sequence is what the model uses to describe the calls, not an extra result of the source.
- `IterationLogger` is an interface with caller-supplied implementations. Here it is a function on a logger state of the caller's choosing. A logger's other side effects can be represented through that state.
- The `char[]` password buffer is modelled as the constant string "password". It is never modified.
- The private constructor is not modelled. It only prevents instantiation; the model uses a module of free functions and methods.
