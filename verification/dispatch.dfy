/**
 * `on_user_idle` / `on_user_active` of `python/combined.py` and
 * `python/listener.py`: run every loaded listener, in list order, with the
 * argument vector of the detector signal being handled (`combined.py` runs
 * them before emitting it, `listener.py` on receiving it). A run is an
 * abstract outcome chosen by the environment; the two files differ only in
 * which outcomes they catch.
 */
module Dispatch {
  import opened Base
  import FixedPoint
  import Detector

  /**
   * How one `subprocess.run(..., check=True, timeout=15.0)` ends: normally;
   * with `CalledProcessError` (non-zero exit); with `TimeoutExpired`; or with
   * an `OSError` from starting the process (the file vanished or lost its
   * permissions after loading), which is not a `SubprocessError`.
   */
  datatype RunOutcome = Completed | NonZeroExit | TimedOut | SpawnFailed

  datatype Attempt = Attempt(argv: seq<string>, outcome: RunOutcome)

  /**
   * The attempts made, in order, and the outcome that escaped the loop's
   * `except` clause and ended it, if any.
   */
  datatype Dispatched = Dispatched(attempts: seq<Attempt>, raised: Option<RunOutcome>)

  /** The argument vector: `[listener, "idle"]` or `[listener, "active", f"{delta:.2f}"]`. */
  function Argv(listener: string, ev: Detector.Signal): (argv: seq<string>)
    ensures 2 <= |argv| <= 3 && argv[0] == listener
    ensures ev.UserIdle? ==> argv[1..] == ["idle"]
    ensures ev.UserActive? ==> argv[1..] == ["active", FixedPoint.Fixed2(ev.idleTime)]
  {
    match ev
    case UserIdle => [listener, "idle"]
    case UserActive(delta) => [listener, "active", FixedPoint.Fixed2(delta)]
  }

  /** `except subprocess.SubprocessError` in `combined.py`. */
  predicate CatchesSubprocessError(o: RunOutcome) {
    o.NonZeroExit? || o.TimedOut?
  }

  /** `except subprocess.CalledProcessError` in `listener.py`. */
  predicate CatchesCalledProcessError(o: RunOutcome) {
    o.NonZeroExit?
  }

  /** The loop goes on after an attempt ending this way. */
  predicate Survives(o: RunOutcome, caught: RunOutcome -> bool) {
    o.Completed? || caught(o)
  }

  /**
   * The dispatch loop: each listener is run once with its argument vector;
   * a caught outcome is logged and the loop continues, any other exception
   * ends it and skips the remaining listeners.
   */
  function Run(listeners: seq<string>, ev: Detector.Signal, outcomeOf: seq<string> -> RunOutcome, caught: RunOutcome -> bool): (r: Dispatched)
    ensures |r.attempts| <= |listeners|
    ensures r.raised.None? ==> |r.attempts| == |listeners|
    ensures r.raised.Some? ==> |r.attempts| > 0
    decreases |listeners|
  {
    if |listeners| == 0 then Dispatched([], None)
    else
      var argv := Argv(listeners[0], ev);
      var first := Attempt(argv, outcomeOf(argv));
      if !Survives(first.outcome, caught) then Dispatched([first], Some(first.outcome))
      else
        var rest := Run(listeners[1..], ev, outcomeOf, caught);
        Dispatched([first] + rest.attempts, rest.raised)
  }

  /**
   * Attempt `k` runs listener `k` with the signal's argument vector; every
   * attempt but the last survived; the loop ended early exactly when an
   * outcome escaped, and that outcome is the last attempt's.
   */
  lemma {:induction false} RunAttemptsInOrder(listeners: seq<string>, ev: Detector.Signal, outcomeOf: seq<string> -> RunOutcome, caught: RunOutcome -> bool)
    ensures var r := Run(listeners, ev, outcomeOf, caught);
            forall k :: 0 <= k < |r.attempts| ==>
              r.attempts[k].argv == Argv(listeners[k], ev) && r.attempts[k].outcome == outcomeOf(r.attempts[k].argv)
    ensures var r := Run(listeners, ev, outcomeOf, caught);
            forall k :: 0 <= k < |r.attempts| - 1 ==> Survives(r.attempts[k].outcome, caught)
    ensures var r := Run(listeners, ev, outcomeOf, caught);
            r.raised.None? <==> forall k :: 0 <= k < |r.attempts| ==> Survives(r.attempts[k].outcome, caught)
    ensures var r := Run(listeners, ev, outcomeOf, caught);
            r.raised.Some? ==> r.raised.value == r.attempts[|r.attempts| - 1].outcome
    decreases |listeners|
  {
    if |listeners| > 0 {
      RunAttemptsInOrder(listeners[1..], ev, outcomeOf, caught);
    }
  }

  /** `combined.py`'s loop. */
  function RunCombined(listeners: seq<string>, ev: Detector.Signal, outcomeOf: seq<string> -> RunOutcome): Dispatched {
    Run(listeners, ev, outcomeOf, CatchesSubprocessError)
  }

  /** `listener.py`'s loop. */
  function RunPlain(listeners: seq<string>, ev: Detector.Signal, outcomeOf: seq<string> -> RunOutcome): Dispatched {
    Run(listeners, ev, outcomeOf, CatchesCalledProcessError)
  }

  /**
   * In `combined.py` a non-zero exit or a timeout never stops the loop: only
   * a failure to start a process can escape. When none occurs, every listener
   * is run exactly once, in list order.
   */
  lemma CombinedIsolatesSubprocessErrors(listeners: seq<string>, ev: Detector.Signal, outcomeOf: seq<string> -> RunOutcome)
    ensures RunCombined(listeners, ev, outcomeOf).raised.Some? ==> RunCombined(listeners, ev, outcomeOf).raised.value == SpawnFailed
    ensures (forall k :: 0 <= k < |listeners| ==> outcomeOf(Argv(listeners[k], ev)) != SpawnFailed) ==>
              && RunCombined(listeners, ev, outcomeOf).raised.None?
              && |RunCombined(listeners, ev, outcomeOf).attempts| == |listeners|
  {
    var r := RunCombined(listeners, ev, outcomeOf);
    RunAttemptsInOrder(listeners, ev, outcomeOf, CatchesSubprocessError);
    if r.raised.Some? {
      assert !Survives(r.attempts[|r.attempts| - 1].outcome, CatchesSubprocessError);
    }
  }

  /**
   * In `listener.py` a timeout is not caught: when listener `k` is the first
   * to time out and none before it failed to start, the loop stops right
   * there, and listeners after `k` are not run for this event.
   */
  lemma PlainTimeoutSkipsRest(listeners: seq<string>, ev: Detector.Signal, outcomeOf: seq<string> -> RunOutcome, k: nat)
    requires k < |listeners|
    requires outcomeOf(Argv(listeners[k], ev)) == TimedOut
    requires forall j :: 0 <= j < k ==> outcomeOf(Argv(listeners[j], ev)) in {Completed, NonZeroExit}
    ensures |RunPlain(listeners, ev, outcomeOf).attempts| == k + 1
    ensures RunPlain(listeners, ev, outcomeOf).raised == Some(TimedOut)
  {
    var r := RunPlain(listeners, ev, outcomeOf);
    RunAttemptsInOrder(listeners, ev, outcomeOf, CatchesCalledProcessError);
    assert forall j :: 0 <= j < |r.attempts| && j < k ==> Survives(r.attempts[j].outcome, CatchesCalledProcessError);
    assert |r.attempts| > k ==> !Survives(r.attempts[k].outcome, CatchesCalledProcessError);
  }

  /** The first listener's attempt; `Run` continues past it or stops on it. */
  lemma RunUnfold(listeners: seq<string>, ev: Detector.Signal, outcomeOf: seq<string> -> RunOutcome, caught: RunOutcome -> bool)
    requires |listeners| > 0
    ensures var argv := Argv(listeners[0], ev);
            var first := Attempt(argv, outcomeOf(argv));
            var rest := Run(listeners[1..], ev, outcomeOf, caught);
            Run(listeners, ev, outcomeOf, caught) ==
              if Survives(first.outcome, caught) then Dispatched([first] + rest.attempts, rest.raised)
              else Dispatched([first], Some(first.outcome))
  {
  }

  /**
   * Catching less can only cut the loop short: with `narrow` catching a
   * subset of what `wide` catches, the attempts under `narrow` are a prefix of
   * those under `wide`, and the same when nothing escapes `narrow`. So
   * `listener.py` runs a prefix of what `combined.py` runs for each event.
   */
  lemma {:induction false} NarrowerCatchRunsPrefix(listeners: seq<string>, ev: Detector.Signal, outcomeOf: seq<string> -> RunOutcome,
                                                   narrow: RunOutcome -> bool, wide: RunOutcome -> bool)
    requires forall o :: narrow(o) ==> wide(o)
    ensures |Run(listeners, ev, outcomeOf, narrow).attempts| <= |Run(listeners, ev, outcomeOf, wide).attempts|
    ensures Run(listeners, ev, outcomeOf, narrow).attempts ==
            Run(listeners, ev, outcomeOf, wide).attempts[..|Run(listeners, ev, outcomeOf, narrow).attempts|]
    ensures Run(listeners, ev, outcomeOf, narrow).raised.None? ==> Run(listeners, ev, outcomeOf, narrow) == Run(listeners, ev, outcomeOf, wide)
    decreases |listeners|
  {
    if |listeners| > 0 {
      var argv := Argv(listeners[0], ev);
      var first := Attempt(argv, outcomeOf(argv));
      RunUnfold(listeners, ev, outcomeOf, narrow);
      RunUnfold(listeners, ev, outcomeOf, wide);
      if Survives(first.outcome, narrow) {
        NarrowerCatchRunsPrefix(listeners[1..], ev, outcomeOf, narrow, wide);
        var nr := Run(listeners[1..], ev, outcomeOf, narrow).attempts;
        var wr := Run(listeners[1..], ev, outcomeOf, wide).attempts;
        assert ([first] + wr)[..1 + |nr|] == [first] + wr[..|nr|];
      }
    }
  }

  /** `NarrowerCatchRunsPrefix` for the two source files. */
  lemma PlainRunsPrefixOfCombined(listeners: seq<string>, ev: Detector.Signal, outcomeOf: seq<string> -> RunOutcome)
    ensures |RunPlain(listeners, ev, outcomeOf).attempts| <= |RunCombined(listeners, ev, outcomeOf).attempts|
    ensures RunPlain(listeners, ev, outcomeOf).attempts ==
            RunCombined(listeners, ev, outcomeOf).attempts[..|RunPlain(listeners, ev, outcomeOf).attempts|]
    ensures RunPlain(listeners, ev, outcomeOf).raised.None? ==> RunPlain(listeners, ev, outcomeOf) == RunCombined(listeners, ev, outcomeOf)
  {
    NarrowerCatchRunsPrefix(listeners, ev, outcomeOf, CatchesCalledProcessError, CatchesSubprocessError);
  }

  /** A listener told about 12.34 idle seconds receives exactly `active 12.34`. */
  lemma ActiveArgvExample(listener: string)
    ensures Argv(listener, Detector.UserActive(12.34)) == [listener, "active", "12.34"]
  {
    assert FixedPoint.Abs(12.34) * 100.0 == 1234.0;
    assert (1234.0).Floor == 1234;
    assert FixedPoint.RoundHalfEven(1234.0) == 1234;
    assert FixedPoint.DigitChar(1) == '1' && FixedPoint.DigitChar(2) == '2';
    assert FixedPoint.DigitChar(3) == '3' && FixedPoint.DigitChar(4) == '4';
    assert FixedPoint.Numeral(12) == "12" by {
      assert FixedPoint.Numeral(1) == "1";
    }
    assert FixedPoint.Fixed2(12.34) == "12" + "." + "34";
    assert "12" + "." + "34" == "12.34";
  }
}
