# watch-and-run, modelled in Dafny

watch-and-run is a small supervisor written in Kotlin/Native. It keeps at most one
background process, `sh -c <command>`. It polls every 500 ms for a trigger file.
When the file appears, it deletes it and replaces the background process with a
fresh one. A reaper thread per child waits for the child to exit. When it does,
the reaper clears the shared handle `sharedBg` if that handle still names its child.
Reaper threads are kept in `watcherMap` until they are joined. `-n N` runs a bounded
number of ticks and then shuts down: it stops the child and joins every reaper.

The model has four modules:

- `Options` (options.dfy): the `Option` type standing for Kotlin's nullable values.
- `KotlinLong` (kotlin_long.dfy): `String.toLong()` as the `-n` value is parsed.
  It comes with the decimal rendering `Decimal` and the round trip between the two.
- `Cli` (cli.dfy): the argument loop of `main`. `ParseArgs` is the index-driven
  `while` loop. `ParseFrom` is the specification it is proved against. The
  lemmas state what each flag does. The outcome is `Run(Config(file, cmd, cycles))`,
  `Help` or `Exit(2)`.
- `Supervisor` (supervisor.dfy): the class `Supervisor` with the fields `slot`
  (`sharedBg`) and `watchers` (`watcherMap`). Its methods are the operations that
  update them, plus the poll loop `Run`. Two more fields record the state of the
  world around the program:
  - `children`: the children forked and not yet reaped, with their command lines;
  - `doneReapers`: the registered reapers that have run to completion.

  `Valid()` ties these fields to the real ones. `AtMostOne()` says that every
  unreaped child is the one the slot holds. `Run` keeps both as loop invariants.

The operating system's answers are inputs:

- the value `fork` returns in the parent;
- whether `pthread_create` succeeds, and the handle it yields;
- in `stopProcess`, the monotonic clock readings at each test of the loop
  condition, each at least 100 ms after the last;
- in `stopProcess`, the result of each `waitpid(pid, WNOHANG)` poll;
- whether the trigger file exists on a tick;
- whether the current child dies on its own before a tick;
- whether a newly started child dies before the poll loop stores its handle.

The reaper's step after its blocking `waitpid` returns is one atomic event, `ReaperExit`.

Two behaviours of the code worth knowing:

- When `fork` fails, `startProcess` returns `BgProc(0)` without touching `sharedBg`.
  The poll loop then stores that pid-0 handle in `sharedBg`, so the slot becomes
  non-null rather than staying empty. A later stop treats it as a no-op.
  `Supervisor.Replace` states this.
- The tick counter is incremented before it is compared with `cycles`, so `-n 0`
  runs one tick, not zero. In general `-n N` runs `max(N, 1)` ticks.
  `Supervisor.TickCount` and `Supervisor.Supervisor.Run` state this.

Three consequences of the code that the model keeps visible:

- When the reaper's blocking `waitpid` reaps the child before a poll of `stopProcess`
  does, those polls return -1 and never the pid. `stopProcess` then sends SIGKILL
  once the window has elapsed. In the model, such a poll sequence has no element
  equal to the pid, and `Stop` sends `[SIGTERM, SIGKILL]`.
- A reaper whose child exits on its own stays registered. `ReaperExit` leaves
  `watchers` unchanged, and the next stop acts on the pid-less slot. Such a reaper
  is joined only at shutdown, so a run with no cycle limit never joins it.
- A new child that dies at once (for instance when `execvp` fails and it calls
  `_exit(127)`) can be reaped before the poll loop stores its handle. The slot
  then names a child that is already reaped. The next trigger's stop sends
  SIGTERM to that stale pid, and then SIGKILL unless a poll returns the pid.
  `Replace` models this with its `exitsAtOnce` input.

## Model

| member | source | states |
|---|---|---|
| `KotlinLong.ToLong` | src/nativeMain/kotlin/Main.kt:186-191 | A successful parse yields a value in the 64-bit signed range, ends in a digit, and is negative only when the text starts with '-'; any other string is a failure |
| `KotlinLong.NatDecimalValue` | src/nativeMain/kotlin/Main.kt:188 | The decimal rendering of a natural number is a non-empty digit string whose value is that number |
| `KotlinLong.ToLongDecimal` | src/nativeMain/kotlin/Main.kt:188 | Every 64-bit value, rendered in decimal and parsed back, gives itself |
| `KotlinLong.ToLongOutOfRange` | src/nativeMain/kotlin/Main.kt:188-191 | A value outside the 64-bit range, written in decimal, fails to parse |
| `KotlinLong.LeadingZerosValue` | src/nativeMain/kotlin/Main.kt:188 | Leading zeros do not change the value of a digit string |
| `KotlinLong.ToLongPadded` | src/nativeMain/kotlin/Main.kt:188 | An explicit '+' on a non-negative value and any number of leading zeros parse to the same value as the canonical text |
| `KotlinLong.ToLongRejects` | src/nativeMain/kotlin/Main.kt:187-191 | A non-digit after the optional sign, or a lone sign, makes the parse fail |
| `Cli.CyclesValue` | src/nativeMain/kotlin/Main.kt:185-191 | The `-n` value is -1 when parsing fails, else the parsed value; it is non-negative exactly when the text parses to a non-negative number |
| `Cli.ParseFrom` | src/nativeMain/kotlin/Main.kt:160-210 | Every exit has code 2, and a completed parse leaves `cycles` as it was or sets it to a value in 0..Long.MAX_VALUE, so -1 stays the only negative count |
| `Cli.ParseArgs` | src/nativeMain/kotlin/Main.kt:155-210 | The index-driven loop returns exactly the outcome the specification gives for the whole argument list; exits have code 2; `cycles` is -1 or a non-negative 64-bit value |
| `Cli.ParseAppend` | src/nativeMain/kotlin/Main.kt:160-199 | Parsing a prefix that completes and then the rest is the same as parsing the concatenation |
| `Cli.NoArguments` | src/nativeMain/kotlin/Main.kt:156-158 | With no arguments the result is trigger "./trigger", command "sleep 10", cycles -1 |
| `Cli.ConsumesTwo` | src/nativeMain/kotlin/Main.kt:162-179 | `-f`/`-c` take the next argument verbatim, even if it looks like a flag, and parsing resumes two positions later |
| `Cli.MissingValue` | src/nativeMain/kotlin/Main.kt:162-184 | A value flag in the last position yields exit code 2 |
| `Cli.BadCycles` | src/nativeMain/kotlin/Main.kt:185-195 | A `-n` value that does not parse or is negative yields exit code 2, whatever follows |
| `Cli.GoodCycles` | src/nativeMain/kotlin/Main.kt:185-198 | A `-n` value that parses to N >= 0 sets `cycles` to N and leaves the other settings unchanged |
| `Cli.CyclesDecimal` | src/nativeMain/kotlin/Main.kt:180-198 | `-n` followed by the decimal text of any N in 0..Long.MAX_VALUE gives the defaults with `cycles` = N |
| `Cli.HelpStops` | src/nativeMain/kotlin/Main.kt:200-203 | `-h`/`--help` in flag position ends parsing with the help outcome, whatever follows |
| `Cli.UnknownRejected` | src/nativeMain/kotlin/Main.kt:204-208 | Any other argument in flag position yields exit code 2, whatever follows |
| `Cli.Untouched` | src/nativeMain/kotlin/Main.kt:160-199 | Arguments that contain no flag of a kind leave the setting of that kind unchanged |
| `Cli.LastOccurrenceWins` | src/nativeMain/kotlin/Main.kt:162-199 | With a flag repeated, the value after its last occurrence is the one in the result |
| `Cli.ValuesFromArgs` | src/nativeMain/kotlin/Main.kt:156-199 | Each resulting setting is its default or the argument right after a flag of its kind, and for cycles the parse of it |
| `Supervisor.ClockGrows` | src/nativeMain/kotlin/Main.kt:56-60 | With at least 100 ms of sleep per iteration, the clock advances at least 100 ms per poll |
| `Supervisor.GracePoll` | src/nativeMain/kotlin/Main.kt:51-62 | The polling loop makes at most 30 polls, all before 3000 ms have elapsed; it reports an exit exactly when some poll inside the window returned the pid, it stops at the first such poll, and otherwise it stops when the window has elapsed |
| `Supervisor.Pids` | src/nativeMain/kotlin/Main.kt:46-48 | A handle names a process to stop only when it is non-null with a positive pid |
| `Supervisor.ClearIfOwned` | src/nativeMain/kotlin/Main.kt:98-102 | The reaper's step clears the slot exactly when the slot is non-null and holds its child's pid; otherwise the slot is unchanged |
| `Supervisor.ReapersCommute` | src/nativeMain/kotlin/Main.kt:98-102 | Two reapers finishing in either order leave the same slot |
| `Supervisor.TickCount` | src/nativeMain/kotlin/Main.kt:212-229 | With cycles >= 0, the loop stops at the first positive tick count that reaches cycles, i.e. after max(cycles, 1) ticks |
| `Supervisor.ThreadList` | src/nativeMain/kotlin/Main.kt:115 | The list has one entry per registered pid, each pid exactly once, and entry i is the thread registered for pid i |
| `Supervisor.Supervisor.constructor` | src/nativeMain/kotlin/Main.kt:87-110 | Initially the slot is null, the registry is empty and no child exists |
| `Supervisor.Supervisor.Settled` | src/nativeMain/kotlin/Main.kt:212-226 | Between ticks there is at most one unreaped child, it is the slot's, and every registered reaper other than the slot child's has finished |
| `Supervisor.Supervisor.StartWatcher` | src/nativeMain/kotlin/Main.kt:124-142 | The registry gains the entry pid -> thread only when thread creation succeeds; nothing else changes |
| `Supervisor.Supervisor.Start` | src/nativeMain/kotlin/Main.kt:14-42 | A failed fork returns the pid-0 handle and changes nothing; otherwise the new child is recorded, its handle is in the slot, and its reaper is registered exactly when thread creation succeeded |
| `Supervisor.Supervisor.ReaperExit` | src/nativeMain/kotlin/Main.kt:91-107 | The reaper's child is reaped, the slot is cleared only if it still holds that child, the registry is unchanged, and at most one child remains alive |
| `Supervisor.Supervisor.Stop` | src/nativeMain/kotlin/Main.kt:45-78 | Null or pid <= 0 changes nothing and sends nothing; otherwise SIGTERM, then SIGKILL only if no poll in the 3000 ms window saw the child exit; on return the child is reaped, its reaper is removed and joined, and every other registry entry and the slot are unchanged |
| `Supervisor.Supervisor.JoinAll` | src/nativeMain/kotlin/Main.kt:113-121 | The registry becomes empty and every registered thread is joined exactly once; a reaper still waiting has reaped its child (and cleared the slot if it held it) before its join returns |
| `Supervisor.Supervisor.Replace` | src/nativeMain/kotlin/Main.kt:214-226 | The old child is stopped with the escalation rule and its reaper removed; the slot then holds the new child's handle (or the pid-0 handle when fork failed); the new child is the only unreaped one unless it died at once and its reaper ran before the store, in which case none is left and the slot names the reaped pid; the registry and the finished-reaper set are given in full |
| `Supervisor.Supervisor.Shutdown` | src/nativeMain/kotlin/Main.kt:229-238 | After shutdown the slot is null, no child is left, and the registry is empty, every remaining reaper having finished before it is joined |
| `Supervisor.Supervisor.Run` | src/nativeMain/kotlin/Main.kt:212-239 | At most one child is alive at every tick; with cycles = N >= 0 the loop ends after exactly max(N, 1) ticks with a null slot, an empty registry and no child; with cycles = -1 it never ends |

## Left out

- The child side of `fork` (`execvp` of `sh -c`, `perror`, `_exit(127)`) is outside the model. It runs in the child and never returns to the supervisor. `Start` therefore requires a fork result other than 0.
- `Start` requires a fork result that is not the pid of an unreaped child. The kernel guarantees this; the model does not derive it.
- The OS calls `kill`, `waitpid` and `usleep`, and the monotonic clock, are inputs: the escalation shows up as the list of signals sent. The blocking `waitpid` after SIGKILL is taken to return, as a SIGKILL cannot be ignored.
- Thread creation, `pthread_join` and the mutex are not modelled as concurrency. Each operation is atomic, and so is each reaper's slot-clearing step.
- Within `Stop`, the reaper of the stopped child finishes concurrently. Its slot-clearing step is a no-op there, because both callers empty the slot first, so `Stop` leaves the slot unchanged.
- In `Run`, the only reaper event offered between ticks is the current child's. `Settled` shows that no other reaper can still be waiting.
- Inside a replace, the new child's reaper is offered only after `startProcess` returns and before the loop stores the handle. A reaper that runs between `startWatcherThread` and the store inside `startProcess` leaves the same final state, so it is not offered separately.
- `fileExists` and `deleteFile` (`access`, `remove`, `errno`) are filesystem I/O. The existence of the trigger file is a per-tick input. Its deletion, and the report of a failed deletion, are not modelled.
- The 500 ms sleep between ticks is not modelled.
- All `perror`/`fprintf` messages, including the usage text, are not modelled.
- Foreign memory handling (`memScoped`, `nativeHeap` allocation and freeing of the pid argument, `cstr`) is not modelled.
- `KotlinLong.ToLong`: Kotlin also accepts non-ASCII Unicode decimal digits; the model accepts only '0'..'9'.
- `Supervisor.Supervisor.Run`: the unbounded loop is run over a finite sequence of tick inputs. For cycles = -1 it states that every given tick runs and the loop never ends. The 64-bit tick counter is unbounded, so its overflow after 2^63 ticks is not modelled.
- build.gradle.kts is build configuration and is not part of this model.
