/** The pointer gesture state machine of oui/include/oui.h: raw move, press,
    long-press and release events update a state of three optionals, and the
    application queries that state per frame against rectangles. Clock reads
    (`now()`) become an explicit `now` argument in seconds, and durations are
    plain differences of those times. Consuming queries return the answer
    together with the pointer's next state. */
module Gestures {
  import opened Optional
  import opened Layout

  /** A snapshot taken when an event fires. */
  datatype Context = Context(time: real, position: Point)

  /** One button cycle: the press, and the release once it has happened. */
  datatype Down = Down(time: real, position: Point, up: Option<Context>)

  datatype Pointer = Pointer(current: Option<Context>, delta: Option<Vector>, button: Option<Down>)

  /** The state a default-constructed pointer starts in. */
  const Initial: Pointer := Pointer(None, None, None)

  /** Tap and long press are told apart at exactly this many seconds. */
  const LongPressSeconds: real := 1.0

  /** `duration(press, release)`: the seconds between the two events. */
  function Duration(d: Down): (s: real)
    requires d.up.Some?
    ensures d.time + s == d.up.value.time
  {
    d.up.value.time - d.time
  }

  /** The movement not yet consumed, starting from zero when there is none. */
  function Pending(delta: Option<Vector>): Vector { ValueOr(delta, Zero) }

  // ---------------------------------------------------------------- events

  /** `move`: the new position always becomes current; the displacement from
      the previous current position is added to the pending delta, but only
      when there was a previous position. The button is untouched. */
  function Move(p: Pointer, now: real, position: Point): (q: Pointer)
    ensures q.current == Some(Context(now, position))
    ensures q.button == p.button
    ensures p.current.None? ==> q.delta == p.delta
    ensures p.current.Some? ==>
      q.delta.Some? && Pending(q.delta) == Plus(Pending(p.delta), Diff(position, p.current.value.position))
  {
    var delta :=
      if p.current.Some? then Some(Plus(Pending(p.delta), Diff(position, p.current.value.position)))
      else p.delta;
    Pointer(Some(Context(now, position)), delta, p.button)
  }

  /** `press`: a new, still-held cycle replaces any outstanding one. */
  function Press(p: Pointer, now: real, position: Point): (q: Pointer)
    ensures q.button == Some(Down(now, position, None))
    ensures q.current == p.current && q.delta == p.delta
  {
    p.(button := Some(Down(now, position, None)))
  }

  /** `longPress`: a press back-dated by one second, so that whatever release
      follows it is already long. */
  function LongPress(p: Pointer, now: real, position: Point): (q: Pointer)
    ensures q.button.Some? && q.button.value.up.None?
    ensures q.button.value.position == position
    ensures q.button.value.time == now - LongPressSeconds
    ensures q.current == p.current && q.delta == p.delta
  {
    p.(button := Some(Down(now - LongPressSeconds, position, None)))
  }

  /** `release`: completes the outstanding cycle, if any; with no cycle it
      changes nothing. A second release overwrites the first one's record. */
  function Release(p: Pointer, now: real, position: Point): (q: Pointer)
    ensures p.button.None? ==> q == p
    ensures p.button.Some? ==>
      && q.button.Some?
      && q.button.value.time == p.button.value.time
      && q.button.value.position == p.button.value.position
      && q.button.value.up == Some(Context(now, position))
    ensures q.current == p.current && q.delta == p.delta
  {
    if p.button.Some? then p.(button := Some(p.button.value.(up := Some(Context(now, position)))))
    else p
  }

  /** `takeAll`, the end-of-frame reset: pending movement is always dropped;
      a completed cycle is dropped and a still-held press survives. */
  function TakeAll(p: Pointer): (q: Pointer)
    ensures q.delta.None?
    ensures q.current == p.current
    ensures q.button.None? <==> p.button.None? || p.button.value.up.Some?
    ensures q.button.Some? ==> q.button == p.button
  {
    var button := if p.button.Some? && p.button.value.up.Some? then None else p.button;
    Pointer(p.current, None, button)
  }

  // --------------------------------------------------------------- queries

  /** `hovering`: there is a current position and it lies in the area. */
  predicate Hovering(p: Pointer, area: Rect)
  {
    p.current.Some? && In(p.current.value.position, area)
  }

  /** `holding` as written: when the press lies in the area it returns the
      current position without checking that there is one. A press before the
      first move makes that an undefined read. */
  function HoldingAsWritten(p: Pointer, area: Rect): (r: Behaviour<Option<Point>>)
    ensures r.Undefined? <==> p.button.Some? && In(p.button.value.position, area) && p.current.None?
    ensures r.Defined? ==> (r.value.Some? <==> p.button.Some? && In(p.button.value.position, area))
    ensures r.Defined? && r.value.Some? ==> r.value.value == p.current.value.position
  {
    if p.button.Some? && In(p.button.value.position, area) then
      if p.current.Some? then Defined(Some(p.current.value.position)) else Undefined
    else Defined(None)
  }

  /** `holding` with the missing check added (the older copy of this API gets
      it through `hovering`): there is a current position and the PRESS
      position, not the current one, lies in the area. */
  function Holding(p: Pointer, area: Rect): (r: Option<Point>)
    ensures r.Some? <==> p.current.Some? && p.button.Some? && In(p.button.value.position, area)
    ensures r.Some? ==> r.value == p.current.value.position
  {
    if p.button.Some? && In(p.button.value.position, area) && p.current.Some? then
      Some(p.current.value.position)
    else None
  }

  /** Pressing before the pointer has ever moved and asking whether the press
      area is held reads an absent current position. */
  lemma PressBeforeMoveIsUndefined(now: real, position: Point, area: Rect)
    requires In(position, area)
    ensures HoldingAsWritten(Press(Initial, now, position), area).Undefined?
    ensures Holding(Press(Initial, now, position), area).None?
  {
  }

  /** The guarded `holding` agrees with the original wherever the original is
      defined, and the original is undefined exactly where the guard fires. */
  lemma HoldingAgreesWhereDefined(p: Pointer, area: Rect)
    ensures HoldingAsWritten(p, area).Defined? ==> HoldingAsWritten(p, area).value == Holding(p, area)
    ensures HoldingAsWritten(p, area).Undefined? <==>
      p.current.None? && p.button.Some? && In(p.button.value.position, area)
  {
  }

  /** Result of a consuming query: the answer and the pointer state afterwards
      (shared with the older copy of the API, whose state differs). */
  datatype Answer<R, S> = Answer(result: R, next: S)

  /** `dragging`: while the area is held, the pending movement is handed out
      and emptied (through `pop`); otherwise nothing is returned and nothing
      changes. */
  function Dragging(p: Pointer, area: Rect): (a: Answer<Option<Vector>, Pointer>)
    ensures Holding(p, area).Some? ==>
      a.result == p.delta && a.next == p.(delta := None)
    ensures Holding(p, area).None? ==> a.result.None? && a.next == p
  {
    if Holding(p, area).Some? then
      var t := Pop(p.delta);
      Answer(t.result, p.(delta := t.slot))
    else Answer(None, p)
  }

  /** The conditions shared by `pressed` and `longPressed`: the area is held,
      the cycle is complete, and the release lies in the area too. */
  predicate Completed(p: Pointer, area: Rect)
  {
    Holding(p, area).Some? && p.button.value.up.Some? && In(p.button.value.up.value.position, area)
  }

  /** `pressed`: a completed cycle inside the area that lasted less than a
      second is consumed, and the release position is returned. Otherwise the
      state is left as it was. */
  function Pressed(p: Pointer, area: Rect): (a: Answer<Option<Point>, Pointer>)
    ensures a.result.Some? <==>
      && p.current.Some? && p.button.Some?
      && In(p.button.value.position, area)
      && p.button.value.up.Some?
      && In(p.button.value.up.value.position, area)
      && p.button.value.up.value.time - p.button.value.time < LongPressSeconds
    ensures a.result.Some? ==>
      a.result.value == p.button.value.up.value.position && a.next == p.(button := None)
    ensures a.result.None? ==> a.next == p
  {
    if Completed(p, area) && Duration(p.button.value) < LongPressSeconds then
      Answer(Some(p.button.value.up.value.position), p.(button := None))
    else Answer(None, p)
  }

  /** `longPressed`: the same, for a cycle that lasted at least a second. */
  function LongPressed(p: Pointer, area: Rect): (a: Answer<bool, Pointer>)
    ensures a.result <==>
      && p.current.Some? && p.button.Some?
      && In(p.button.value.position, area)
      && p.button.value.up.Some?
      && In(p.button.value.up.value.position, area)
      && p.button.value.up.value.time - p.button.value.time >= LongPressSeconds
    ensures a.result ==> a.next == p.(button := None)
    ensures !a.result ==> a.next == p
  {
    if Completed(p, area) && Duration(p.button.value) >= LongPressSeconds then
      Answer(true, p.(button := None))
    else Answer(false, p)
  }

  /** The three consuming queries as written, each starting from the unchecked
      `holding`: when that read is undefined, so is the query; otherwise the
      engaged `holding` takes the place of the guarded one. */
  function DraggingAsWritten(p: Pointer, area: Rect): Behaviour<Answer<Option<Vector>, Pointer>>
  {
    match HoldingAsWritten(p, area)
    case Undefined => Undefined
    case Defined(h) =>
      if h.Some? then
        var t := Pop(p.delta);
        Defined(Answer(t.result, p.(delta := t.slot)))
      else Defined(Answer(None, p))
  }

  function PressedAsWritten(p: Pointer, area: Rect): Behaviour<Answer<Option<Point>, Pointer>>
  {
    match HoldingAsWritten(p, area)
    case Undefined => Undefined
    case Defined(h) =>
      if h.Some? && p.button.value.up.Some? && In(p.button.value.up.value.position, area)
         && Duration(p.button.value) < LongPressSeconds
      then Defined(Answer(Some(p.button.value.up.value.position), p.(button := None)))
      else Defined(Answer(None, p))
  }

  function LongPressedAsWritten(p: Pointer, area: Rect): Behaviour<Answer<bool, Pointer>>
  {
    match HoldingAsWritten(p, area)
    case Undefined => Undefined
    case Defined(h) =>
      if h.Some? && p.button.value.up.Some? && In(p.button.value.up.value.position, area)
         && Duration(p.button.value) >= LongPressSeconds
      then Defined(Answer(true, p.(button := None)))
      else Defined(Answer(false, p))
  }

  /** Building the queries on the guarded `holding` changes nothing where the
      originals are defined, and the originals are undefined exactly where the
      unchecked read is. */
  lemma QueriesAgreeWhereDefined(p: Pointer, area: Rect)
    ensures DraggingAsWritten(p, area).Defined? <==> HoldingAsWritten(p, area).Defined?
    ensures PressedAsWritten(p, area).Defined? <==> HoldingAsWritten(p, area).Defined?
    ensures LongPressedAsWritten(p, area).Defined? <==> HoldingAsWritten(p, area).Defined?
    ensures HoldingAsWritten(p, area).Defined? ==>
      && DraggingAsWritten(p, area).value == Dragging(p, area)
      && PressedAsWritten(p, area).value == Pressed(p, area)
      && LongPressedAsWritten(p, area).value == LongPressed(p, area)
  {
  }

  // ------------------------------------------------------------ properties

  /** After a move the pointer hovers exactly the areas holding the new position. */
  lemma HoveringFollowsMove(p: Pointer, now: real, position: Point, area: Rect)
    ensures Hovering(Move(p, now, position), area) <==> In(position, area)
  {
  }

  /** The pointer folded over a sequence of moves, one timestamp per position. */
  function MoveAll(p: Pointer, times: seq<real>, positions: seq<Point>): Pointer
    requires |times| == |positions|
    decreases |positions|
  {
    if |positions| == 0 then p
    else MoveAll(Move(p, times[0], positions[0]), times[1..], positions[1..])
  }

  function Last<T>(s: seq<T>): T
    requires |s| > 0
  {
    s[|s| - 1]
  }

  /** Moves from a pointer with a known position accumulate the telescoping sum
      of their displacements: the pending delta grows by exactly the distance
      from the old position to the last new one, and the last move is current. */
  lemma {:induction false} MovesTelescope(p: Pointer, times: seq<real>, positions: seq<Point>)
    requires |times| == |positions| > 0
    requires p.current.Some?
    ensures MoveAll(p, times, positions).current == Some(Context(Last(times), Last(positions)))
    ensures MoveAll(p, times, positions).delta.Some?
    ensures Pending(MoveAll(p, times, positions).delta) ==
      Plus(Pending(p.delta), Diff(Last(positions), p.current.value.position))
    ensures MoveAll(p, times, positions).button == p.button
    decreases |positions|
  {
    var q := Move(p, times[0], positions[0]);
    if |positions| > 1 {
      MovesTelescope(q, times[1..], positions[1..]);
      assert Last(times[1..]) == Last(times);
      assert Last(positions[1..]) == Last(positions);
    }
  }

  /** From the initial state, moves through p0 .. pn leave a pending delta of
      pn - p0 (none at all after a single move). */
  lemma MovesFromInitial(times: seq<real>, positions: seq<Point>)
    requires |times| == |positions| > 0
    ensures |positions| == 1 ==> MoveAll(Initial, times, positions).delta.None?
    ensures |positions| > 1 ==>
      MoveAll(Initial, times, positions).delta == Some(Diff(Last(positions), positions[0]))
  {
    var q := Move(Initial, times[0], positions[0]);
    if |positions| > 1 {
      MovesTelescope(q, times[1..], positions[1..]);
      assert Last(positions[1..]) == Last(positions);
      assert Plus(Zero, Diff(Last(positions), positions[0])) == Diff(Last(positions), positions[0]);
    }
  }

  /** A press inside the area keeps holding it however far the pointer moves
      afterwards: the press position decides, not the current one. */
  lemma {:induction false} HoldingSurvivesMoves(p: Pointer, now: real, position: Point, area: Rect,
                                                times: seq<real>, positions: seq<Point>)
    requires |times| == |positions| > 0
    requires In(position, area)
    ensures Holding(MoveAll(Press(p, now, position), times, positions), area) == Some(Last(positions))
    decreases |positions|
  {
    var q := Move(Press(p, now, position), times[0], positions[0]);
    assert q == Press(Move(p, times[0], positions[0]), now, position);
    if |positions| > 1 {
      HoldingSurvivesMoves(Move(p, times[0], positions[0]), now, position, area, times[1..], positions[1..]);
      assert Last(positions[1..]) == Last(positions);
    }
  }

  /** Dragging reports pending movement at most once: a second call with no
      move in between returns nothing. */
  lemma DraggingConsumesOnce(p: Pointer, area: Rect)
    ensures Dragging(Dragging(p, area).next, area).result.None?
  {
  }

  /** A tap and a long press are exclusive: on any state at most one of
      `pressed` and `longPressed` fires, and once one has fired the other finds
      nothing left on the same cycle. */
  lemma PressedAndLongPressedExclusive(p: Pointer, area: Rect)
    ensures !(Pressed(p, area).result.Some? && LongPressed(p, area).result)
    ensures Pressed(p, area).result.Some? ==> !LongPressed(Pressed(p, area).next, area).result
    ensures LongPressed(p, area).result ==> Pressed(LongPressed(p, area).next, area).result.None?
    ensures Pressed(p, area).result.Some? ==> Pressed(Pressed(p, area).next, area).result.None?
  {
  }

  /** A long press released no earlier than it was made is never a tap; it is a
      long press exactly when the pointer has a position and both the press and
      the release lie in the area. */
  lemma LongPressIsNeverATap(p: Pointer, t0: real, at: Point, t1: real, to: Point, area: Rect)
    requires t0 <= t1
    ensures Pressed(Release(LongPress(p, t0, at), t1, to), area).result.None?
    ensures LongPressed(Release(LongPress(p, t0, at), t1, to), area).result <==>
      p.current.Some? && In(at, area) && In(to, area)
  {
  }

  /** A full press-release cycle: it is a tap exactly when the pointer has a
      position, both ends lie in the area and it took under a second, and a
      long press when the same holds but it took a second or more. */
  lemma PressReleaseCycle(p: Pointer, t0: real, at: Point, t1: real, to: Point, area: Rect)
    ensures Pressed(Release(Press(p, t0, at), t1, to), area).result == (
      if p.current.Some? && In(at, area) && In(to, area) && t1 - t0 < 1.0 then Some(to) else None)
    ensures LongPressed(Release(Press(p, t0, at), t1, to), area).result <==>
      p.current.Some? && In(at, area) && In(to, area) && t1 - t0 >= 1.0
  {
  }

  /** A release with no press outstanding leaves nothing for the click queries. */
  lemma ReleaseWithoutPressIsIgnored(p: Pointer, now: real, position: Point, area: Rect)
    requires p.button.None?
    ensures Release(p, now, position) == p
    ensures Pressed(Release(p, now, position), area).result.None?
    ensures !LongPressed(Release(p, now, position), area).result
  {
  }

  /** The end-of-frame reset is idempotent, and a press still held at the end
      of a frame is still held (and still completes) in the next one. */
  lemma TakeAllKeepsHeldPress(p: Pointer, area: Rect, now: real, to: Point)
    ensures TakeAll(TakeAll(p)) == TakeAll(p)
    ensures p.button.Some? && p.button.value.up.None? ==>
      Holding(TakeAll(p), area) == Holding(p, area) &&
      Pressed(Release(TakeAll(p), now, to), area).result == Pressed(Release(p, now, to), area).result
    ensures Pressed(TakeAll(Release(p, now, to)), area).result.None?
  {
  }
}
