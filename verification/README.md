# KWinIdleTime in Dafny

A model of the core of KWinIdleTime. A KWin script reports user interaction
over D-Bus to an idle detector. The detector tracks `(last_interaction,
is_idle)`, emits `UserIdle` once the user has been inactive for longer than a
threshold, and emits `UserActive(idle seconds)` on the next interaction. On
each transition a listener loader/dispatcher runs every executable in a
listener directory with `idle` or `active <seconds>`.

Modules, one per component:

- `Detector` (`detector.dfy`): the state machine of `python/daemon.py`, which
  `python/combined.py` shares. `MarkInteraction` and the loop tick are pure
  step functions. Clock readings are parameters, and `Run` replays a sequence
  of interactions and ticks.
- `Loading` (`loading.dfy`): `load_listeners` in both versions. The
  `combined.py` version gates the directory on owner and the `0o7277` mask,
  then gates each file. The `listener.py` version only checks "regular file"
  and "readable and executable", and exits with status 1 when nothing is
  found. `stat`, `isfile` and `access` results are inputs, and so is the
  directory listing, or the failure of `os.listdir`.
- `Filter` (`filter.dfy`): an order-preserving selection from a sequence,
  with a characterisation by listing positions. Both loaders are built on it.
- `Dispatch` (`dispatch.dfy`): `on_user_idle` / `on_user_active`. It builds
  argument vectors and runs the loop over listeners. The loop takes the
  predicate its `except` clause catches:
  - `combined.py` catches `SubprocessError`: a non-zero exit or a timeout.
  - `listener.py` catches only `CalledProcessError`: a non-zero exit.
- `FixedPoint` (`fixed_point.dfy`): the `:.2f` rendering of the idle time, on
  exact reals with round-half-even. It comes with a parser for the rendered
  text.
- `Combined` (`combined.dfy`): `combined.py`'s detector, which dispatches
  inline before emitting each signal.
- `KWinScript` (`kwin_script.dfy`): the cursor-event throttle of the KWin
  script.
- `Base` (`base.dfy`): `Option` and `Result`.

Behaviour of the code worth knowing, some of it unlike what a reader might
expect from a hardened design:

- The code fires the idle transition when elapsed time is strictly greater
  than the threshold, not when it is greater or equal.
- Interactions are not debounced. The threshold is not clamped.
- `combined.py` loads listeners once, at startup, not before every dispatch.
- Listeners run one after another, in listing order, and are not sorted.
- Files are not executed through a pinned descriptor, and there is no
  symlink-escape check. As a side effect of the mask, a symbolic link is
  never loaded by `combined.py`, because its own `lstat` mode carries every
  permission bit (`SymlinkNeverAdmitted`).
- The `0o7277` mask admits directory modes without owner read (`0o100`, `0o000`). For a process that is not root, `os.listdir` then raises and the daemon does not start (`Loading.LoadListeners` returns the listing error).
- The `0o7277` mask rejects owner write. So a `0o700` listener is refused by
  `combined.py`; only subsets of `0o500` pass.
- The per-file owner test at `python/combined.py:47` reads the directory's
  `stat`, not the file's. It is modelled as written. `FileOwnerNeverChecked`
  shows that it never rejects a file once the directory has been accepted.
- `subprocess.run` raises `OSError`, not a `SubprocessError`, when a listener
  loaded at startup can no longer be started. This is modelled as the outcome
  `SpawnFailed`. It escapes both loops. In `combined.py` it then suppresses
  the signal about to be emitted (`SpawnFailureSwallowsUserActive`). On a
  tick, it also ends the daemon's `run` (`TickSpawnFailureStops`); on an
  interaction the daemon carries on (`InteractionSpawnFailureContinues`).

## Model

| member | source | states |
|---|---|---|
| `Detector.Init` | python/daemon.py:23-24 | the detector starts active, with the last interaction at the startup clock reading |
| `Detector.MarkInteraction` | python/daemon.py:32-43 | the stamp reading always becomes `last_interaction` and the state becomes active; when the state was active no signal is emitted; when it was idle exactly one `UserActive` is emitted, carrying the delta reading minus the previous `last_interaction` |
| `Detector.Tick` | python/daemon.py:78-84 | `UserIdle` is emitted, and the state becomes idle, iff the state was active and elapsed time is strictly greater than the threshold; `last_interaction` never moves; while idle a tick changes nothing |
| `Detector.Apply` | python/daemon.py:32-84 | an interaction or tick emits a signal exactly when it flips the idle flag, and the signal names the new flag: `UserIdle` iff the state became idle |
| `Detector.Run` | python/daemon.py:32-84 | each interaction or tick emits at most one signal; a run that emits nothing leaves the idle flag as it was |
| `Detector.SignalsAlternate` | python/daemon.py:36-84 | over any sequence of interactions and ticks, the emitted signals strictly alternate `UserIdle`/`UserActive`; the final idle flag is the initial one flipped once per signal |
| `Detector.StartsWithIdle` | python/daemon.py:23-84 | from startup, the first signal ever emitted is `UserIdle` and the signals alternate from there |
| `Detector.ActiveDeltaExceedsThreshold` | python/combined.py:108-157 | on a non-decreasing clock, every `UserActive` idle time is strictly greater than the threshold, from any state that satisfies this bound |
| `Detector.ActiveDeltaFromStart` | python/combined.py:95-157 | from startup on the monotonic clock, every reported idle time is strictly greater than the threshold |
| `Detector.TicksIdleAtMostOnce` | python/combined.py:152-160 | ticks alone emit at most one signal, and it is `UserIdle` from an active state; they never move `last_interaction`; from an idle state they change nothing |
| `Filter.Keep` | python/combined.py:41-54 | every kept element comes from the input and passes the gate |
| `Filter.KeepIsSelection` | python/combined.py:39-54 | the kept elements are exactly the input positions that pass the gate, each once, in increasing position order |
| `Loading.RestrictiveMeansOwnerReadExecOnly` | python/combined.py:36-37 | `mode & 0o7277 == 0` iff the permission bits are a subset of owner read and owner execute |
| `Loading.JoinInjective` | python/combined.py:42 | joining distinct listing names onto the directory gives distinct paths |
| `Loading.Join` | python/combined.py:42 | the path is the directory, then one `/` (not doubled when the directory already ends in one), then the name |
| `Loading.FileAdmitted` | python/combined.py:43-52 | an admitted file's permission bits are a subset of `0o500`; for an entry on which the following and the no-follow access checks agree, `combined.py` admits only what `listener.py` would |
| `Loading.LoadListeners` | python/combined.py:33-41 | loading succeeds iff the directory's uid and gid are the process's, its mode passes the mask, and `os.listdir` succeeds; otherwise it fails with the owner error (checked first), the permission error carrying `mode & 0o7777`, or the listing error, and no listener is loaded; at most one listener per listing entry |
| `Loading.FileOwnerNeverChecked` | python/combined.py:46-49 | once the directory is accepted, a file is admitted iff it is a file, passes the no-follow R and X access check, and its own mode passes the mask; its owner never matters |
| `Loading.LoadedInListingOrder` | python/combined.py:39-54 | the loaded listeners are the joined paths of exactly the admitted entries, in listing order |
| `Loading.LoadedOnce` | python/combined.py:39-54 | with the distinct names of one listing, no listener path is loaded twice |
| `Loading.SymlinkNeverAdmitted` | python/combined.py:43-52 | an entry whose `lstat` mode carries all of `0o777`, as a symbolic link does, is never admitted |
| `Loading.PlainFound` | python/listener.py:29-37 | at most one listener per listing entry, and every found path is the joined name of a regular, readable and executable entry |
| `Loading.LoadListenersPlain` | python/listener.py:23-43 | a missing directory, or one with no regular, readable and executable entry, ends in `sys.exit(1)`; otherwise the found listeners, at least one, are loaded |
| `Loading.PlainFoundEmpty` | python/listener.py:39-43 | nothing is found exactly when no entry is a regular, readable and executable file |
| `Loading.PlainFoundInListingOrder` | python/listener.py:29-37 | the listeners `listener.py` finds are the joined paths of exactly the regular, readable and executable entries, in listing order, with no mode or owner check |
| `Dispatch.Argv` | python/combined.py:65-76 | the argument vector starts with the listener path; it is `[listener, "idle"]` for `UserIdle` and `[listener, "active", delta as :.2f]` for `UserActive(delta)` |
| `Dispatch.ActiveArgvExample` | python/listener.py:66 | a listener told about 12.34 idle seconds gets exactly `[listener, "active", "12.34"]` |
| `Dispatch.Run` | python/combined.py:63-68 | the loop makes at most one attempt per listener; it attempts every listener when nothing escapes |
| `Dispatch.RunAttemptsInOrder` | python/combined.py:62-81 | attempt k runs listener k with the signal's argument vector; every attempt but the last was caught or succeeded; an escaping outcome is the last attempt's, and nothing escapes iff every attempt was caught or succeeded |
| `Dispatch.CombinedIsolatesSubprocessErrors` | python/combined.py:64-68 | in `combined.py` non-zero exits and timeouts never stop the loop; only a failure to start a process escapes; without one, every listener runs once |
| `Dispatch.PlainTimeoutSkipsRest` | python/listener.py:50-55 | in `listener.py`, when listener k is the first to time out, the loop stops after it and the timeout propagates; the later listeners are not run |
| `Dispatch.NarrowerCatchRunsPrefix` | python/listener.py:64-69 | catching fewer exceptions only cuts the loop short: its attempts are a prefix of the wider loop's, and equal when nothing escapes |
| `Dispatch.PlainRunsPrefixOfCombined` | python/listener.py:50-69 | for every signal, `listener.py` runs a prefix of what `combined.py` runs, and the same when nothing escapes it |
| `FixedPoint.RoundHalfEven` | python/combined.py:76 | the rounded integer is within one half of its argument; exact ties go to the even neighbour |
| `FixedPoint.NumeralRoundTrip` | python/combined.py:76 | the decimal numeral of a whole part reads back as that number |
| `FixedPoint.Fixed2` | python/combined.py:76 | the text is shaped `[-]digits.dd`, with a leading `-` exactly for a negative time (kept even when the magnitude rounds to zero) and a whole part without leading zeros |
| `FixedPoint.Fixed2Denotes` | python/combined.py:76 | the `:.2f` text always parses as `[-]digits.dd`, to exactly the magnitude rounded half-to-even to hundredths with the time's sign, which is within 0.005 of the idle time |
| `Combined.React` | python/combined.py:111-117 | a transition runs the dispatch loop for its signal before emitting it; the state is the detector's; the attempts and the escaping exception are exactly the loop's; the signal is emitted iff nothing escaped, and only a start failure can escape |
| `Combined.OnMarkInteraction` | python/combined.py:104-117 | the state becomes active with the new stamp; after idle, the dispatch loop runs with `UserActive(delta)` and its escaping exception is the method's; `UserActive` is emitted iff nothing escaped, and only a start failure can escape |
| `Combined.OnTick` | python/combined.py:152-160 | on crossing the threshold the state becomes idle and the dispatch loop runs with `UserIdle`, its escaping exception being the tick's; `UserIdle` is emitted iff nothing escaped, and only a start failure can escape; otherwise nothing happens |
| `Combined.RunDaemon` | python/combined.py:104-173 | each input emits at most one signal; the daemon stops only right after an attempt that could not start its listener |
| `Combined.DispatchAllLength` | python/combined.py:62-81 | when every listener can be started, dispatching n signals makes n times as many attempts as there are listeners |
| `Combined.ReactWithoutSpawnFailure` | python/combined.py:111-117 | when every listener can be started, a transition emits its signal and runs every listener once |
| `Combined.DaemonAgreesWithDetector` | python/combined.py:104-160 | when every listener can be started, the daemon never stops; it ends in the detector's state, emits exactly the detector's signals, and its attempts are, signal after signal, the dispatch loop's attempts for that signal, one per listener |
| `Combined.TickSpawnFailureStops` | python/combined.py:146-173 | when a listener cannot be started on the tick that crosses the threshold, the daemon stops there: the state is idle, no signal is emitted, and only that tick's attempts are made |
| `Combined.InteractionSpawnFailureContinues` | python/combined.py:103-117 | when a listener cannot be started on return from idle, `UserActive` is not emitted but the daemon goes on with the remaining inputs from the active state |
| `Combined.SpawnFailureSwallowsUserActive` | python/combined.py:111-117 | when the first listener cannot be started on return from idle, the state still becomes active but `UserActive` is not emitted |
| `KWinScript.Handle` | kwin_script/contents/code/main.js:8-25 | a cursor move advances the counter by one and calls `MarkInteraction` iff the counter before it is a multiple of 25; window, desktop and activity changes always call it and leave the counter alone |
| `KWinScript.HandleAll` | kwin_script/contents/code/main.js:7-25 | a sequence of workspace events calls `MarkInteraction` at most once per event |
| `KWinScript.MultiplesStep` | kwin_script/contents/code/main.js:9-12 | advancing the counter past a multiple of 25 adds one more marking value |
| `KWinScript.MarksFromCounter` | kwin_script/contents/code/main.js:7-25 | from any counter value, cursor moves call `MarkInteraction` once per multiple of 25 among the counter values they see; every other event calls it once |
| `KWinScript.MarksFromStart` | kwin_script/contents/code/main.js:1-25 | from startup, after n cursor moves and m other events, `MarkInteraction` has been called ceil(n/25) + m times |
| `KWinScript.FirstCursorMoveMarks` | kwin_script/contents/code/main.js:7-10 | the first cursor move calls `MarkInteraction` |

## Left out

- D-Bus is not modelled: connection, name request and release, export, introspection, proxies and signal delivery. Signals are values the step functions return.
- `argparse`, `print` logging, and the error and success messages are not modelled.
- `os.umask`, `os.makedirs` and `os.mkdir` are not modelled. For `combined.py`, the directory `stat` is the one read after any creation. For `listener.py`, a missing directory is one that lists nothing.
- Processes are not modelled: spawning, `start_new_session`, stream redirection and enforcement of the 15-second timeout. Each run is an abstract outcome from an input function of the argument vector. That function is fixed for a whole daemon trace, so `Combined.RunDaemon` cannot express a listener that runs at one idle episode and has vanished by the next; `Dispatch.Run` and `Combined.React` are unaffected, since each covers one dispatch.
- The asyncio loop, its one-second sleep and cancellation are not modelled. The loop is a sequence of tick inputs. The last tick after a cancellation is not distinguished.
- Float arithmetic is not modelled: times are exact reals. `Fixed2` rounds the exact value half-to-even, which is what Python does to a float's exact binary value.
- Detector.ActiveDeltaExceedsThreshold: requires a non-decreasing clock. `daemon.py` reads the wall clock (`time.time()`), which can go backwards, so there the bound holds only while the wall clock does not step back.
- KWinScript.Handle: the counter is an unbounded `nat`. JavaScript's `c++` on a double stops increasing at 2^53, which no session reaches.
- The concurrency of KWin signal handlers and D-Bus calls is not modelled, because each runs to completion on a single thread.
