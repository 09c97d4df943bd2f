/**
 * `kwin_script/contents/code/main.js`: which workspace events call the
 * detector's `MarkInteraction`. Cursor moves are throttled by the counter
 * `c`; window, desktop and activity changes always call it.
 */
module KWinScript {

  /** `CURSOR_INTERVAL`: cursor events per `MarkInteraction`. */
  const CursorInterval: nat := 25

  datatype WorkspaceEvent =
    | CursorPosChanged
    | WindowActivated
    | CurrentDesktopChanged
    | CurrentActivityChanged

  /** The counter after one handler, and whether it called `MarkInteraction`. */
  datatype Handled = Handled(counter: nat, marked: bool)

  function Handle(c: nat, e: WorkspaceEvent): (r: Handled)
    ensures e.CursorPosChanged? ==> r.counter == c + 1 && (r.marked <==> c % CursorInterval == 0)
    ensures !e.CursorPosChanged? ==> r.counter == c && r.marked
  {
    match e
    case CursorPosChanged => Handled(c + 1, c % CursorInterval == 0)
    case _ => Handled(c, true)
  }

  /** The counter after a sequence of events and the number of `MarkInteraction` calls made. */
  datatype Tally = Tally(counter: nat, marks: nat)

  function HandleAll(c: nat, es: seq<WorkspaceEvent>): (t: Tally)
    ensures t.marks <= |es|
    decreases |es|
  {
    if |es| == 0 then Tally(c, 0)
    else
      var h := Handle(c, es[0]);
      var rest := HandleAll(h.counter, es[1..]);
      Tally(rest.counter, rest.marks + if h.marked then 1 else 0)
  }

  function CursorMoves(es: seq<WorkspaceEvent>): (n: nat)
    ensures n <= |es|
    decreases |es|
  {
    if |es| == 0 then 0
    else CursorMoves(es[1..]) + if es[0].CursorPosChanged? then 1 else 0
  }

  /** The multiples of `CursorInterval` in `[0, c)`. */
  function MultiplesBelow(c: nat): nat {
    (c + CursorInterval - 1) / CursorInterval
  }

  lemma MultiplesStep(c: nat)
    ensures MultiplesBelow(c + 1) == MultiplesBelow(c) + if c % CursorInterval == 0 then 1 else 0
  {
  }

  /**
   * Starting from counter `c`, the cursor moves call `MarkInteraction` once
   * per multiple of `CursorInterval` among the counter values they see, and
   * every other event calls it once; only cursor moves advance the counter.
   */
  lemma {:induction false} MarksFromCounter(c: nat, es: seq<WorkspaceEvent>)
    ensures HandleAll(c, es).counter == c + CursorMoves(es)
    ensures HandleAll(c, es).marks ==
              MultiplesBelow(c + CursorMoves(es)) - MultiplesBelow(c) + (|es| - CursorMoves(es))
    decreases |es|
  {
    if |es| > 0 {
      var h := Handle(c, es[0]);
      MarksFromCounter(h.counter, es[1..]);
      if es[0].CursorPosChanged? {
        MultiplesStep(c);
      }
    }
  }

  /**
   * From the script's start (`c = 0`), after `n` cursor moves and `m` other
   * events, `MarkInteraction` has been called `ceil(n / 25) + m` times.
   */
  lemma MarksFromStart(es: seq<WorkspaceEvent>)
    ensures HandleAll(0, es).counter == CursorMoves(es)
    ensures HandleAll(0, es).marks == (CursorMoves(es) + 24) / 25 + (|es| - CursorMoves(es))
  {
    MarksFromCounter(0, es);
  }

  /** The very first cursor move calls `MarkInteraction`, as `0 % 25 == 0`. */
  lemma FirstCursorMoveMarks()
    ensures Handle(0, CursorPosChanged).marked
  {
  }
}
