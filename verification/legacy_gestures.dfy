/** The older copy of the pointer API in relaunch/oui.h. Its state is two
    public optionals (no pending movement, hence no `dragging`), it has no
    event members of its own, and its `holding` demands that the CURRENT
    position lies in the area as well as the press position. The snapshot
    and button-cycle records are the same as in the newer copy. */
module LegacyGestures {
  import opened Optional
  import opened Layout
  import G = Gestures

  datatype LegacyPointer = LegacyPointer(current: Option<G.Context>, button: Option<G.Down>)

  predicate Hovering(p: LegacyPointer, area: Rect)
  {
    p.current.Some? && In(p.current.value.position, area)
  }

  predicate Holding(p: LegacyPointer, area: Rect)
  {
    Hovering(p, area) && p.button.Some? && In(p.button.value.position, area)
  }

  /** `pressed`: a held, completed cycle whose release lies in the area and
      that lasted under a second is consumed. */
  function Pressed(p: LegacyPointer, area: Rect): (a: G.Answer<bool, LegacyPointer>)
    ensures a.result <==>
      && p.current.Some? && In(p.current.value.position, area)
      && p.button.Some? && In(p.button.value.position, area)
      && p.button.value.up.Some? && In(p.button.value.up.value.position, area)
      && p.button.value.up.value.time - p.button.value.time < G.LongPressSeconds
    ensures a.result ==> a.next == p.(button := None)
    ensures !a.result ==> a.next == p
  {
    if Holding(p, area) && p.button.value.up.Some? && In(p.button.value.up.value.position, area)
       && G.Duration(p.button.value) < G.LongPressSeconds
    then G.Answer(true, p.(button := None))
    else G.Answer(false, p)
  }

  /** `longPressed`: the same for a cycle that lasted a second or more. */
  function LongPressed(p: LegacyPointer, area: Rect): (a: G.Answer<bool, LegacyPointer>)
    ensures a.result <==>
      && p.current.Some? && In(p.current.value.position, area)
      && p.button.Some? && In(p.button.value.position, area)
      && p.button.value.up.Some? && In(p.button.value.up.value.position, area)
      && p.button.value.up.value.time - p.button.value.time >= G.LongPressSeconds
    ensures a.result ==> a.next == p.(button := None)
    ensures !a.result ==> a.next == p
  {
    if Holding(p, area) && p.button.value.up.Some? && In(p.button.value.up.value.position, area)
       && G.Duration(p.button.value) >= G.LongPressSeconds
    then G.Answer(true, p.(button := None))
    else G.Answer(false, p)
  }

  /** The newer pointer with the same current position and button and nothing pending. */
  function Lift(p: LegacyPointer): G.Pointer
  {
    G.Pointer(p.current, None, p.button)
  }

  /** The two copies agree on `hovering`. The older `holding` is the newer one
      strengthened by hovering: it holds
      exactly when the newer one does AND the current position is inside. In
      particular it never reads an absent current position. */
  lemma HoldingIsNewerHoldingWhileHovering(p: LegacyPointer, area: Rect)
    ensures Hovering(p, area) <==> G.Hovering(Lift(p), area)
    ensures Holding(p, area) <==> G.Holding(Lift(p), area).Some? && Hovering(p, area)
    ensures Holding(p, area) ==> G.HoldingAsWritten(Lift(p), area).Defined?
  {
  }

  /** Dragging out of the area ends the older `holding` but not the newer one. */
  lemma DragOutsideDiffers(area: Rect, t0: real, at: Point, t1: real, to: Point)
    requires In(at, area) && !In(to, area)
    ensures var p := LegacyPointer(Some(G.Context(t1, to)), Some(G.Down(t0, at, None)));
            !Holding(p, area) && G.Holding(Lift(p), area) == Some(to)
  {
  }

  /** Every click the older queries report, the newer ones report too, with the
      same next state; the converse fails only when the current position has
      left the area. */
  lemma ClicksRefineNewer(p: LegacyPointer, area: Rect)
    ensures Pressed(p, area).result ==>
      G.Pressed(Lift(p), area).result.Some? && G.Pressed(Lift(p), area).next == Lift(Pressed(p, area).next)
    ensures LongPressed(p, area).result ==>
      G.LongPressed(Lift(p), area).result && G.LongPressed(Lift(p), area).next == Lift(LongPressed(p, area).next)
    ensures Hovering(p, area) ==>
      (Pressed(p, area).result <==> G.Pressed(Lift(p), area).result.Some?) &&
      (LongPressed(p, area).result <==> G.LongPressed(Lift(p), area).result)
  {
  }

  /** For one button cycle the two click queries cannot both fire, whichever is
      asked first. */
  lemma PressedAndLongPressedExclusive(p: LegacyPointer, area: Rect)
    ensures !(Pressed(p, area).result && LongPressed(p, area).result)
    ensures Pressed(p, area).result ==> !LongPressed(Pressed(p, area).next, area).result
    ensures LongPressed(p, area).result ==> !Pressed(LongPressed(p, area).next, area).result
  {
  }
}
