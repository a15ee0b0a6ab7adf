/** The input-read side of the demo: each call drains the window system's
    event queue, folds the mouse events into one pointer report (position and
    pressed state) and hands it to the GUI library's pointer device. The last
    reported position is remembered between calls. */
module Mouse {

  /** A pointer position in window coordinates. */
  datatype Point = Point(x: int, y: int)

  /** The bit of a motion event's button state that means "left button held"
      (SDL_BUTTON_LMASK, button 1). */
  const ButtonLMask: bv32 := 1

  /** The events the callback reacts to; every other event type is Other. */
  datatype Event =
    | ButtonDown(x: int, y: int)
    | ButtonUp(x: int, y: int)
    | Motion(x: int, y: int, state: bv32)
    | Quit
    | Other

  /** Button and motion events are the ones that set the report. */
  predicate IsPointer(e: Event)
  {
    e.ButtonDown? || e.ButtonUp? || e.Motion?
  }

  /** The values passed to the pointer device: position and pressed state. */
  datatype Report = Report(point: Point, pressed: bool)

  /** What one call does: the process exits on a quit event, otherwise the
      pointer device receives a report. */
  datatype Outcome = Exit | SetData(report: Report)

  /** The report a single pointer event sets. */
  function EventReport(e: Event): (r: Report)
    requires IsPointer(e)
  {
    match e
    case ButtonDown(x, y) => Report(Point(x, y), true)
    case ButtonUp(x, y) => Report(Point(x, y), false)
    case Motion(x, y, state) => Report(Point(x, y), state & ButtonLMask != 0)
  }

  /** One turn of the polling loop on the running report. */
  function Step(acc: Report, e: Event): Report
  {
    if IsPointer(e) then EventReport(e) else acc
  }

  /** The running report after the loop has processed `events` in order,
      starting from `start`. */
  function Fold(events: seq<Event>, start: Report): Report
  {
    if events == [] then start
    else Step(Fold(events[..|events| - 1], start), events[|events| - 1])
  }

  /** The outcome of one call on a batch of events when the previous call
      left `lastPoint`. The report starts at `lastPoint`, released. */
  function HandleBatch(events: seq<Event>, lastPoint: Point): Outcome
  {
    if Quit in events then Exit else SetData(Fold(events, Report(lastPoint, false)))
  }

  /** The index of the last pointer event in `events`, or -1 if there is none. */
  function LastPointerIndex(events: seq<Event>): (k: int)
    ensures -1 <= k < |events|
    ensures k >= 0 ==> IsPointer(events[k])
    ensures forall j :: k < j < |events| ==> !IsPointer(events[j])
  {
    if events == [] then -1
    else if IsPointer(events[|events| - 1]) then |events| - 1
    else LastPointerIndex(events[..|events| - 1])
  }

  /** Reference definition of the report: the last pointer event decides
      everything; with none, the point is the previous one and the state
      is released. */
  function LastWins(events: seq<Event>, lastPoint: Point): Report
  {
    var k := LastPointerIndex(events);
    if k < 0 then Report(lastPoint, false) else EventReport(events[k])
  }

  /** The fold only keeps the last pointer event, whatever the start. */
  lemma {:induction false} FoldKeepsLast(events: seq<Event>, start: Report)
    ensures Fold(events, start) ==
      (var k := LastPointerIndex(events); if k < 0 then start else EventReport(events[k]))
  {
    if events != [] {
      var prefix := events[..|events| - 1];
      FoldKeepsLast(prefix, start);
      if !IsPointer(events[|events| - 1]) {
        var k := LastPointerIndex(prefix);
        assert k >= 0 ==> events[k] == prefix[k];
      }
    }
  }

  /** The polling loop computes the last-event-wins report. */
  lemma FoldIsLastWins(events: seq<Event>, lastPoint: Point)
    ensures Fold(events, Report(lastPoint, false)) == LastWins(events, lastPoint)
  {
    FoldKeepsLast(events, Report(lastPoint, false));
  }

  /** The point reported after a batch without quit: the coordinates of the
      last pointer event, or the point left by the previous call if there is
      none. */
  lemma ReportedPoint(events: seq<Event>, lastPoint: Point)
    requires Quit !in events
    ensures HandleBatch(events, lastPoint).SetData?
    ensures var k := LastPointerIndex(events);
      HandleBatch(events, lastPoint).report.point ==
        if k < 0 then lastPoint else Point(events[k].x, events[k].y)
  {
    FoldIsLastWins(events, lastPoint);
  }

  /** The pressed state reported after a batch without quit: pressed exactly
      when the last pointer event is a button press, or a motion with the
      left button held. With no pointer event it is released. */
  lemma ReportedPressed(events: seq<Event>, lastPoint: Point)
    requires Quit !in events
    ensures var k := LastPointerIndex(events);
      HandleBatch(events, lastPoint).report.pressed <==>
        k >= 0 && (events[k].ButtonDown? || (events[k].Motion? && events[k].state & ButtonLMask != 0))
  {
    FoldIsLastWins(events, lastPoint);
  }

  /** The pressed state is not carried over between calls: a batch with no
      pointer event reports released, at the point the previous call
      reported, whatever that call's pressed state was. */
  lemma PressedNotCarriedOver(first: seq<Event>, second: seq<Event>, lastPoint: Point)
    requires HandleBatch(first, lastPoint).SetData?
    requires Quit !in second && forall j :: 0 <= j < |second| ==> !IsPointer(second[j])
    ensures HandleBatch(second, HandleBatch(first, lastPoint).report.point) ==
      SetData(Report(HandleBatch(first, lastPoint).report.point, false))
  {
    FoldIsLastWins(second, HandleBatch(first, lastPoint).report.point);
  }

  /** Processing two batches in a row is processing their concatenation. */
  lemma {:induction false} FoldConcat(s: seq<Event>, t: seq<Event>, start: Report)
    ensures Fold(s + t, start) == Fold(t, Fold(s, start))
  {
    if t == [] {
      assert s + t == s;
    } else {
      var t' := t[..|t| - 1];
      assert (s + t)[..|s + t| - 1] == s + t';
      FoldConcat(s, t', start);
    }
  }

  /** An event of another type, wherever it falls in the batch, changes
      neither the point nor the pressed state. */
  lemma OtherIgnored(events: seq<Event>, i: nat, lastPoint: Point)
    requires i <= |events|
    ensures HandleBatch(events[..i] + [Other] + events[i..], lastPoint) == HandleBatch(events, lastPoint)
  {
    var start := Report(lastPoint, false);
    var s, t := events[..i], events[i..];
    FoldConcat(s + [Other], t, start);
    FoldConcat(s, [Other], start);
    FoldConcat(s, t, start);
    assert s + t == events;
    assert Quit in s + [Other] + t <==> Quit in events;
  }

  /** The input-read glue, with the static state it keeps between calls. */
  class MouseInput {
    /** The point reported by the previous call. */
    var lastPoint: Point
    /** The pressed state reported by the previous call; stored, never read. */
    var lastPressed: bool

    constructor ()
      ensures lastPoint == Point(0, 0) && !lastPressed
    {
      lastPoint := Point(0, 0);
      lastPressed := false;
    }

    /** Drains `events` in order. On a quit event the process exits and
        nothing is reported; otherwise the folded report is passed on and
        remembered for the next call. */
    method HandleMouseEvents(events: seq<Event>) returns (out: Outcome)
      modifies this
      ensures out == HandleBatch(events, old(lastPoint))
      ensures out.SetData? ==> lastPoint == out.report.point && lastPressed == out.report.pressed
      ensures out.Exit? ==> lastPoint == old(lastPoint) && lastPressed == old(lastPressed)
    {
      var pressed := false;
      var point := lastPoint;
      var i := 0;
      while i < |events|
        invariant 0 <= i <= |events|
        invariant lastPoint == old(lastPoint) && lastPressed == old(lastPressed)
        invariant Quit !in events[..i]
        invariant Report(point, pressed) == Fold(events[..i], Report(old(lastPoint), false))
      {
        match events[i] {
          case ButtonDown(x, y) =>
            pressed := true;
            point := Point(x, y);
          case ButtonUp(x, y) =>
            pressed := false;
            point := Point(x, y);
          case Motion(x, y, state) =>
            point := Point(x, y);
            pressed := state & ButtonLMask != 0;
          case Quit =>
            return Exit;
          case Other =>
        }
        assert events[..i + 1] == events[..i] + [events[i]];
        i := i + 1;
      }
      assert events[..i] == events;
      lastPoint := point;
      lastPressed := pressed;
      out := SetData(Report(point, pressed));
    }
  }
}
