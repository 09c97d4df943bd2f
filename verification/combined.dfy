/**
 * `python/combined.py`: the idle detector with listener dispatch run inline,
 * before the matching D-Bus signal is emitted.
 */
module Combined {
  import opened Base
  import Detector
  import Dispatch

  /**
   * The effect of one detector operation: the new state, the signal actually
   * emitted on the bus, the listener runs, and the exception that escaped the
   * dispatch loop, if any (it prevents the signal from being emitted).
   */
  datatype Reaction = Reaction(
    state: Detector.IdleState,
    emitted: Option<Detector.Signal>,
    attempts: seq<Dispatch.Attempt>,
    raised: Option<Dispatch.RunOutcome>)

  /** Dispatch the transition `step` reports, then emit its signal unless dispatch raised. */
  function React(step: Detector.Step, listeners: seq<string>, outcomeOf: seq<string> -> Dispatch.RunOutcome): (r: Reaction)
    ensures r.state == step.state
    ensures step.signal.None? ==> r.emitted.None? && r.attempts == [] && r.raised.None?
    ensures step.signal.Some? ==> r.attempts == Dispatch.RunCombined(listeners, step.signal.value, outcomeOf).attempts
    ensures step.signal.Some? ==> r.raised == Dispatch.RunCombined(listeners, step.signal.value, outcomeOf).raised
    ensures r.raised.None? ==> r.emitted == step.signal
    ensures r.raised.Some? ==> r.raised.value == Dispatch.SpawnFailed && r.emitted.None?
  {
    match step.signal
    case None => Reaction(step.state, None, [], None)
    case Some(sig) =>
      var d := Dispatch.RunCombined(listeners, sig, outcomeOf);
      Dispatch.CombinedIsolatesSubprocessErrors(listeners, sig, outcomeOf);
      Reaction(step.state, if d.raised.None? then Some(sig) else None, d.attempts, d.raised)
  }

  /**
   * `MarkInteraction` in `combined.py`: after idle, every listener runs with
   * `active` and the idle time, then `UserActive` is emitted. A non-zero exit
   * or a timeout is logged; a listener that cannot be started raises out of
   * the method, after the state has already become active, and the signal is
   * not emitted.
   */
  function OnMarkInteraction(s: Detector.IdleState, readForDelta: real, readForStamp: real,
                             listeners: seq<string>, outcomeOf: seq<string> -> Dispatch.RunOutcome): (r: Reaction)
    ensures r.state == Detector.IdleState(readForStamp, false)
    ensures !s.isIdle ==> r == Reaction(r.state, None, [], None)
    ensures s.isIdle ==> r.attempts == Dispatch.RunCombined(listeners, Detector.UserActive(readForDelta - s.lastInteraction), outcomeOf).attempts
    ensures s.isIdle ==> r.raised == Dispatch.RunCombined(listeners, Detector.UserActive(readForDelta - s.lastInteraction), outcomeOf).raised
    ensures s.isIdle && r.raised.None? ==> r.emitted == Some(Detector.UserActive(readForDelta - s.lastInteraction))
    ensures r.raised.Some? ==> r.raised.value == Dispatch.SpawnFailed && r.emitted.None?
  {
    React(Detector.MarkInteraction(s, readForDelta, readForStamp), listeners, outcomeOf)
  }

  /**
   * The loop body of `run` in `combined.py`: on crossing the threshold the
   * state becomes idle, every listener runs with `idle`, then `UserIdle` is
   * emitted.
   */
  function OnTick(s: Detector.IdleState, threshold: real, now: real,
                  listeners: seq<string>, outcomeOf: seq<string> -> Dispatch.RunOutcome): (r: Reaction)
    ensures r.state.lastInteraction == s.lastInteraction
    ensures r.state.isIdle <==> s.isIdle || now - s.lastInteraction > threshold
    ensures s.isIdle || now - s.lastInteraction <= threshold ==> r == Reaction(s, None, [], None)
    ensures !s.isIdle && now - s.lastInteraction > threshold ==>
              r.attempts == Dispatch.RunCombined(listeners, Detector.UserIdle, outcomeOf).attempts
    ensures !s.isIdle && now - s.lastInteraction > threshold ==>
              r.raised == Dispatch.RunCombined(listeners, Detector.UserIdle, outcomeOf).raised
    ensures !s.isIdle && now - s.lastInteraction > threshold && r.raised.None? ==> r.emitted == Some(Detector.UserIdle)
    ensures r.raised.Some? ==> r.raised.value == Dispatch.SpawnFailed && r.emitted.None?
  {
    React(Detector.Tick(s, threshold, now), listeners, outcomeOf)
  }

  /**
   * The daemon over a sequence of inputs. An exception escaping a tick ends
   * `run` (`asyncio.run` does not catch it), so nothing after it happens; one
   * escaping `MarkInteraction` is returned to the D-Bus caller and the daemon
   * carries on.
   */
  datatype DaemonTrace = DaemonTrace(
    state: Detector.IdleState,
    emitted: seq<Detector.Signal>,
    attempts: seq<Dispatch.Attempt>,
    stopped: bool)

  function RunDaemon(s: Detector.IdleState, threshold: real, listeners: seq<string>,
                     outcomeOf: seq<string> -> Dispatch.RunOutcome, inputs: seq<Detector.Input>): (t: DaemonTrace)
    ensures |t.emitted| <= |inputs|
    ensures t.stopped ==> |t.attempts| > 0 && t.attempts[|t.attempts| - 1].outcome == Dispatch.SpawnFailed
    decreases |inputs|
  {
    if |inputs| == 0 then DaemonTrace(s, [], [], false)
    else
      // `OnMarkInteraction` for an interaction, `OnTick` for a tick
      var step := Detector.Apply(s, threshold, inputs[0]);
      var r := React(step, listeners, outcomeOf);
      if r.raised.Some? && inputs[0].TickAt? then
        Dispatch.RunAttemptsInOrder(listeners, step.signal.value, outcomeOf, Dispatch.CatchesSubprocessError);
        DaemonTrace(r.state, [], r.attempts, true)
      else
        var rest := RunDaemon(r.state, threshold, listeners, outcomeOf, inputs[1..]);
        DaemonTrace(rest.state, Detector.SignalList(r.emitted) + rest.emitted, r.attempts + rest.attempts, rest.stopped)
  }

  /** With every listener startable, a reaction emits its step's signal and runs every listener once for it. */
  lemma ReactWithoutSpawnFailure(step: Detector.Step, listeners: seq<string>, outcomeOf: seq<string> -> Dispatch.RunOutcome)
    requires forall argv :: outcomeOf(argv) != Dispatch.SpawnFailed
    ensures React(step, listeners, outcomeOf).raised.None?
    ensures React(step, listeners, outcomeOf).emitted == step.signal
    ensures |React(step, listeners, outcomeOf).attempts| == |Detector.SignalList(step.signal)| * |listeners|
  {
    if step.signal.Some? {
      Dispatch.CombinedIsolatesSubprocessErrors(listeners, step.signal.value, outcomeOf);
    }
  }

  /** The listener runs of dispatching each of `sigs` in turn, every run completing. */
  function DispatchAll(sigs: seq<Detector.Signal>, listeners: seq<string>,
                       outcomeOf: seq<string> -> Dispatch.RunOutcome): seq<Dispatch.Attempt>
    decreases |sigs|
  {
    if |sigs| == 0 then []
    else Dispatch.RunCombined(listeners, sigs[0], outcomeOf).attempts + DispatchAll(sigs[1..], listeners, outcomeOf)
  }

  /** Dispatching the signal a step reports, then `later`, is dispatching `later` after that step's runs. */
  lemma DispatchAllCons(o: Option<Detector.Signal>, later: seq<Detector.Signal>, listeners: seq<string>,
                        outcomeOf: seq<string> -> Dispatch.RunOutcome)
    ensures DispatchAll(Detector.SignalList(o) + later, listeners, outcomeOf) ==
              (if o.Some? then Dispatch.RunCombined(listeners, o.value, outcomeOf).attempts else []) +
              DispatchAll(later, listeners, outcomeOf)
  {
    if o.Some? {
      var sigs := [o.value] + later;
      assert sigs[0] == o.value && sigs[1..] == later;
    } else {
      assert Detector.SignalList(o) + later == later;
    }
  }

  /** When every listener can be started, each signal runs every listener exactly once. */
  lemma {:induction false} DispatchAllLength(sigs: seq<Detector.Signal>, listeners: seq<string>,
                                             outcomeOf: seq<string> -> Dispatch.RunOutcome)
    requires forall argv :: outcomeOf(argv) != Dispatch.SpawnFailed
    ensures |DispatchAll(sigs, listeners, outcomeOf)| == |sigs| * |listeners|
    decreases |sigs|
  {
    if |sigs| > 0 {
      Dispatch.CombinedIsolatesSubprocessErrors(listeners, sigs[0], outcomeOf);
      DispatchAllLength(sigs[1..], listeners, outcomeOf);
      var n, k := |sigs| - 1, |listeners|;
      assert (n + 1) * k == k + n * k;
    }
  }

  /** One input of the daemon whose reaction raised nothing: the trace continues with the rest. */
  lemma RunDaemonStep(s: Detector.IdleState, threshold: real, listeners: seq<string>,
                      outcomeOf: seq<string> -> Dispatch.RunOutcome, inputs: seq<Detector.Input>)
    requires |inputs| > 0
    requires React(Detector.Apply(s, threshold, inputs[0]), listeners, outcomeOf).raised.None?
    ensures var r := React(Detector.Apply(s, threshold, inputs[0]), listeners, outcomeOf);
            var rest := RunDaemon(r.state, threshold, listeners, outcomeOf, inputs[1..]);
            RunDaemon(s, threshold, listeners, outcomeOf, inputs) ==
              DaemonTrace(rest.state, Detector.SignalList(r.emitted) + rest.emitted, r.attempts + rest.attempts, rest.stopped)
  {
  }

  /**
   * When every listener can be started, dispatch never disturbs the
   * detector: the daemon keeps running, ends in the detector's state, emits
   * exactly the detector's signals, and runs the listeners for each signal
   * in turn, every listener once per signal.
   */
  lemma {:induction false} DaemonAgreesWithDetector(s: Detector.IdleState, threshold: real, listeners: seq<string>,
                                                    outcomeOf: seq<string> -> Dispatch.RunOutcome, inputs: seq<Detector.Input>)
    requires forall argv :: outcomeOf(argv) != Dispatch.SpawnFailed
    ensures !RunDaemon(s, threshold, listeners, outcomeOf, inputs).stopped
    ensures RunDaemon(s, threshold, listeners, outcomeOf, inputs).state == Detector.Run(s, threshold, inputs).state
    ensures RunDaemon(s, threshold, listeners, outcomeOf, inputs).emitted == Detector.Run(s, threshold, inputs).signals
    ensures RunDaemon(s, threshold, listeners, outcomeOf, inputs).attempts ==
              DispatchAll(Detector.Run(s, threshold, inputs).signals, listeners, outcomeOf)
    ensures |RunDaemon(s, threshold, listeners, outcomeOf, inputs).attempts| == |Detector.Run(s, threshold, inputs).signals| * |listeners|
    decreases |inputs|
  {
    if |inputs| > 0 {
      var step := Detector.Apply(s, threshold, inputs[0]);
      ReactWithoutSpawnFailure(step, listeners, outcomeOf);
      RunDaemonStep(s, threshold, listeners, outcomeOf, inputs);
      DaemonAgreesWithDetector(step.state, threshold, listeners, outcomeOf, inputs[1..]);
      DispatchAllCons(step.signal, Detector.Run(step.state, threshold, inputs[1..]).signals, listeners, outcomeOf);
    }
    DispatchAllLength(Detector.Run(s, threshold, inputs).signals, listeners, outcomeOf);
  }

  /**
   * A listener that cannot be started on the tick that crosses the threshold
   * ends the daemon: the state is already idle, `UserIdle` is never emitted,
   * and no later input is handled.
   */
  lemma TickSpawnFailureStops(s: Detector.IdleState, threshold: real, listeners: seq<string>,
                              outcomeOf: seq<string> -> Dispatch.RunOutcome, inputs: seq<Detector.Input>)
    requires |inputs| > 0 && inputs[0].TickAt?
    requires !s.isIdle && inputs[0].now - s.lastInteraction > threshold
    requires Dispatch.RunCombined(listeners, Detector.UserIdle, outcomeOf).raised.Some?
    ensures RunDaemon(s, threshold, listeners, outcomeOf, inputs).stopped
    ensures RunDaemon(s, threshold, listeners, outcomeOf, inputs).emitted == []
    ensures RunDaemon(s, threshold, listeners, outcomeOf, inputs).state == Detector.IdleState(s.lastInteraction, true)
    ensures RunDaemon(s, threshold, listeners, outcomeOf, inputs).attempts ==
              Dispatch.RunCombined(listeners, Detector.UserIdle, outcomeOf).attempts
  {
    var r := OnTick(s, threshold, inputs[0].now, listeners, outcomeOf);
    assert r.raised.Some?;
  }

  /**
   * A listener that cannot be started when the user returns does not end the
   * daemon: the exception goes back to the D-Bus caller, `UserActive` is not
   * emitted, and the remaining inputs are handled from the active state.
   */
  lemma InteractionSpawnFailureContinues(s: Detector.IdleState, threshold: real, listeners: seq<string>,
                                         outcomeOf: seq<string> -> Dispatch.RunOutcome, inputs: seq<Detector.Input>)
    requires |inputs| > 0 && inputs[0].Interaction? && s.isIdle
    requires Dispatch.RunCombined(listeners, Detector.UserActive(inputs[0].readForDelta - s.lastInteraction), outcomeOf).raised.Some?
    ensures var rest := RunDaemon(Detector.IdleState(inputs[0].readForStamp, false), threshold, listeners, outcomeOf, inputs[1..]);
            RunDaemon(s, threshold, listeners, outcomeOf, inputs) ==
              DaemonTrace(rest.state, rest.emitted,
                          Dispatch.RunCombined(listeners, Detector.UserActive(inputs[0].readForDelta - s.lastInteraction), outcomeOf).attempts
                            + rest.attempts,
                          rest.stopped)
  {
    var ev := Detector.UserActive(inputs[0].readForDelta - s.lastInteraction);
    var step := Detector.Apply(s, threshold, inputs[0]);
    assert step == Detector.Step(Detector.IdleState(inputs[0].readForStamp, false), Some(ev));
    var r := React(step, listeners, outcomeOf);
    assert r.raised.Some? && r.emitted.None?;
    assert r.attempts == Dispatch.RunCombined(listeners, ev, outcomeOf).attempts;
    var rest := RunDaemon(r.state, threshold, listeners, outcomeOf, inputs[1..]);
    assert Detector.SignalList(r.emitted) + rest.emitted == rest.emitted;
  }

  /**
   * A listener that cannot be started when the user returns swallows the
   * `UserActive` signal while the state still becomes active, so the bus sees
   * `UserIdle` without its matching `UserActive`.
   */
  lemma SpawnFailureSwallowsUserActive(s: Detector.IdleState, readForDelta: real, readForStamp: real,
                                       listeners: seq<string>, outcomeOf: seq<string> -> Dispatch.RunOutcome)
    requires s.isIdle && |listeners| > 0
    requires outcomeOf(Dispatch.Argv(listeners[0], Detector.UserActive(readForDelta - s.lastInteraction))) == Dispatch.SpawnFailed
    ensures !OnMarkInteraction(s, readForDelta, readForStamp, listeners, outcomeOf).state.isIdle
    ensures OnMarkInteraction(s, readForDelta, readForStamp, listeners, outcomeOf).emitted.None?
    ensures |OnMarkInteraction(s, readForDelta, readForStamp, listeners, outcomeOf).attempts| == 1
  {
    var ev := Detector.UserActive(readForDelta - s.lastInteraction);
    Dispatch.RunUnfold(listeners, ev, outcomeOf, Dispatch.CatchesSubprocessError);
  }
}
