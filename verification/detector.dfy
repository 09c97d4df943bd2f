/**
 * The idle detector of `python/daemon.py` and `python/combined.py`: the state
 * `(last_interaction, is_idle)`, the D-Bus method `MarkInteraction` and the
 * body of the once-a-second loop in `run`. Clock readings are parameters.
 */
module Detector {
  import opened Base

  /** The two D-Bus signals the detector emits. */
  datatype Signal = UserIdle | UserActive(idleTime: real)

  datatype IdleState = IdleState(lastInteraction: real, isIdle: bool)

  /** The state after one operation, with the signal it emitted, if any. */
  datatype Step = Step(state: IdleState, signal: Option<Signal>)

  /** The state at startup: active, with the last interaction at the startup clock reading. */
  function Init(start: real): (s: IdleState)
    ensures !s.isIdle && s.lastInteraction == start
  {
    IdleState(start, false)
  }

  /**
   * `MarkInteraction`. The clock is read twice: once for the elapsed time and
   * once, later, for the new `last_interaction`.
   */
  function MarkInteraction(s: IdleState, readForDelta: real, readForStamp: real): (r: Step)
    ensures r.state.lastInteraction == readForStamp
    ensures !r.state.isIdle
    ensures !s.isIdle ==> r.signal.None?
    ensures s.isIdle ==> r.signal == Some(UserActive(readForDelta - s.lastInteraction))
  {
    var state := IdleState(readForStamp, false);
    if s.isIdle then Step(state, Some(UserActive(readForDelta - s.lastInteraction)))
    else Step(state, None)
  }

  /** One pass of the loop body after its one-second sleep. */
  function Tick(s: IdleState, threshold: real, now: real): (r: Step)
    ensures r.state.lastInteraction == s.lastInteraction
    ensures r.signal.Some? <==> !s.isIdle && now - s.lastInteraction > threshold
    ensures r.signal.Some? ==> r.signal.value == UserIdle
    ensures r.state.isIdle <==> s.isIdle || r.signal.Some?
    ensures s.isIdle ==> r == Step(s, None)
  {
    if !s.isIdle && now - s.lastInteraction > threshold then
      Step(IdleState(s.lastInteraction, true), Some(UserIdle))
    else
      Step(s, None)
  }

  /** What happens to the detector, in order: inbound calls and loop ticks. */
  datatype Input = Interaction(readForDelta: real, readForStamp: real) | TickAt(now: real)

  /**
   * A signal is emitted exactly when the idle flag flips, and it names the
   * flag's new value.
   */
  function Apply(s: IdleState, threshold: real, i: Input): (r: Step)
    ensures r.signal.Some? <==> r.state.isIdle != s.isIdle
    ensures r.signal.Some? ==> (r.signal.value.UserIdle? <==> r.state.isIdle)
  {
    match i
    case Interaction(d, t) => MarkInteraction(s, d, t)
    case TickAt(now) => Tick(s, threshold, now)
  }

  /** The final state and the emitted signals after a sequence of inputs. */
  datatype Trace = Trace(state: IdleState, signals: seq<Signal>)

  function SignalList(o: Option<Signal>): seq<Signal> {
    match o
    case None => []
    case Some(sig) => [sig]
  }

  function Run(s: IdleState, threshold: real, inputs: seq<Input>): (r: Trace)
    ensures |r.signals| <= |inputs|
    ensures |r.signals| == 0 ==> r.state.isIdle == s.isIdle
    decreases |inputs|
  {
    if |inputs| == 0 then Trace(s, [])
    else
      var step := Apply(s, threshold, inputs[0]);
      var rest := Run(step.state, threshold, inputs[1..]);
      Trace(rest.state, SignalList(step.signal) + rest.signals)
  }

  /**
   * `sigs` strictly alternates between `UserIdle` and `UserActive`, starting
   * with the signal that leaves a state whose idle flag is `idle`.
   */
  predicate Alternating(sigs: seq<Signal>, idle: bool)
    decreases |sigs|
  {
    |sigs| == 0 || (sigs[0].UserIdle? == !idle && Alternating(sigs[1..], !idle))
  }

  /**
   * Signals strictly alternate, and the final idle flag is the starting one
   * flipped once per emitted signal.
   */
  lemma {:induction false} SignalsAlternate(s: IdleState, threshold: real, inputs: seq<Input>)
    ensures Alternating(Run(s, threshold, inputs).signals, s.isIdle)
    ensures Run(s, threshold, inputs).state.isIdle == (s.isIdle != (|Run(s, threshold, inputs).signals| % 2 == 1))
    decreases |inputs|
  {
    if |inputs| > 0 {
      var step := Apply(s, threshold, inputs[0]);
      SignalsAlternate(step.state, threshold, inputs[1..]);
      var rest := Run(step.state, threshold, inputs[1..]);
      assert step.signal.Some? ==> step.state.isIdle == !s.isIdle && step.signal.value.UserIdle? == !s.isIdle;
      assert step.signal.None? ==> step.state.isIdle == s.isIdle;
      assert Run(s, threshold, inputs).signals == SignalList(step.signal) + rest.signals;
      if step.signal.Some? {
        var sigs := [step.signal.value] + rest.signals;
        assert sigs[1..] == rest.signals;
        assert Alternating(sigs, s.isIdle);
      } else {
        assert SignalList(step.signal) + rest.signals == rest.signals;
      }
    }
  }

  /** From startup, the first signal ever emitted is `UserIdle`, and the signals alternate. */
  lemma StartsWithIdle(start: real, threshold: real, inputs: seq<Input>)
    ensures Alternating(Run(Init(start), threshold, inputs).signals, false)
    ensures |Run(Init(start), threshold, inputs).signals| > 0 ==> Run(Init(start), threshold, inputs).signals[0] == UserIdle
  {
    SignalsAlternate(Init(start), threshold, inputs);
  }

  /**
   * The inputs read a clock that never goes backwards, starting from `clock`:
   * each reading is at least the previous one, and inside `MarkInteraction`
   * the stamp reading follows the delta reading.
   */
  predicate ClockOrdered(inputs: seq<Input>, clock: real)
    decreases |inputs|
  {
    |inputs| == 0 ||
    match inputs[0]
    case Interaction(d, t) => clock <= d <= t && ClockOrdered(inputs[1..], t)
    case TickAt(now) => clock <= now && ClockOrdered(inputs[1..], now)
  }

  /**
   * On a non-decreasing clock the idle time reported by `UserActive` is
   * strictly greater than the threshold: `last_interaction` is untouched
   * while idle and the idle transition needed more than `threshold` to pass.
   */
  lemma {:induction false} ActiveDeltaExceedsThreshold(s: IdleState, threshold: real, clock: real, inputs: seq<Input>)
    requires ClockOrdered(inputs, clock)
    requires s.isIdle ==> clock - s.lastInteraction > threshold
    ensures forall k :: 0 <= k < |Run(s, threshold, inputs).signals| && Run(s, threshold, inputs).signals[k].UserActive? ==>
              Run(s, threshold, inputs).signals[k].idleTime > threshold
    decreases |inputs|
  {
    if |inputs| > 0 {
      var step := Apply(s, threshold, inputs[0]);
      var next := match inputs[0] case Interaction(_, t) => t case TickAt(now) => now;
      ActiveDeltaExceedsThreshold(step.state, threshold, next, inputs[1..]);
    }
  }

  /** From startup, every reported idle time exceeds the threshold. */
  lemma ActiveDeltaFromStart(start: real, threshold: real, inputs: seq<Input>)
    requires ClockOrdered(inputs, start)
    ensures forall k :: 0 <= k < |Run(Init(start), threshold, inputs).signals| && Run(Init(start), threshold, inputs).signals[k].UserActive? ==>
              Run(Init(start), threshold, inputs).signals[k].idleTime > threshold
  {
    ActiveDeltaExceedsThreshold(Init(start), threshold, start, inputs);
  }

  predicate OnlyTicks(inputs: seq<Input>) {
    forall k :: 0 <= k < |inputs| ==> inputs[k].TickAt?
  }

  /**
   * Without interactions, ticks emit at most one `UserIdle` (one per idle
   * episode), never move `last_interaction`, and change nothing once idle.
   */
  lemma {:induction false} TicksIdleAtMostOnce(s: IdleState, threshold: real, inputs: seq<Input>)
    requires OnlyTicks(inputs)
    ensures |Run(s, threshold, inputs).signals| <= 1
    ensures Run(s, threshold, inputs).state.lastInteraction == s.lastInteraction
    ensures s.isIdle ==> Run(s, threshold, inputs) == Trace(s, [])
    ensures |Run(s, threshold, inputs).signals| == 1 ==> !s.isIdle && Run(s, threshold, inputs).signals[0] == UserIdle
    decreases |inputs|
  {
    if |inputs| > 0 {
      var step := Apply(s, threshold, inputs[0]);
      assert OnlyTicks(inputs[1..]) by {
        forall k | 0 <= k < |inputs[1..]| ensures inputs[1..][k].TickAt? {
          assert inputs[1..][k] == inputs[k + 1];
        }
      }
      TicksIdleAtMostOnce(step.state, threshold, inputs[1..]);
    }
  }
}
