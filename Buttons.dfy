/** The menu button's hover state machine (lab2/main.py:32-37, 46-51): pointer motion sets the
    hover flag to whether the pointer lies on the button; a mouse press reports a click only
    while the button is already hovered. */
module Buttons {
  import opened Rects
  import opened Events

  /** The hover flag after one event. */
  function NextHover(rect: Rect, hovered: bool, e: Event): bool {
    if e.MouseMotion? then ContainsPoint(rect, e.px, e.py) else hovered
  }

  /** Whether `handle_event` returns True for e, given the hover flag before it. */
  predicate Reports(hovered: bool, e: Event) {
    e.MouseButtonDown? && hovered
  }

  class Button {
    const rect: Rect
    const text: string
    var isHovered: bool

    constructor (x: int, y: int, w: nat, h: nat, text: string)
      ensures rect == Rect(x, y, w, h) && this.text == text && !isHovered
    {
      rect := Rect(x, y, w, h);
      this.text := text;
      isHovered := false;
    }

    method HandleEvent(e: Event) returns (clicked: bool)
      modifies this`isHovered
      ensures isHovered == NextHover(rect, old(isHovered), e)
      ensures clicked == Reports(old(isHovered), e)
    {
      if e.MouseMotion? {
        isHovered := ContainsPoint(rect, e.px, e.py);
      } else if e.MouseButtonDown? && isHovered {
        return true;
      }
      return false;
    }
  }

  /** The hover flag after a run of events, starting from hovered. */
  function HoverAfter(rect: Rect, hovered: bool, events: seq<Event>): bool
    decreases |events|
  {
    if events == [] then hovered
    else NextHover(rect, HoverAfter(rect, hovered, events[..|events| - 1]), events[|events| - 1])
  }

  /** Some event of the run is a pointer motion. */
  predicate HasMotion(events: seq<Event>) {
    exists i :: 0 <= i < |events| && events[i].MouseMotion?
  }

  /** The index of the last pointer motion of a run that has one. */
  function LastMotion(events: seq<Event>): (k: nat)
    requires HasMotion(events)
    ensures k < |events| && events[k].MouseMotion?
    ensures forall i :: k < i < |events| ==> !events[i].MouseMotion?
    decreases |events|
  {
    var n := |events| - 1;
    if events[n].MouseMotion? then n
    else
      var i :| 0 <= i < |events| && events[i].MouseMotion?;
      assert i < n && events[..n][i] == events[i];
      LastMotion(events[..n])
  }

  /** The hover flag depends only on the last pointer motion: it is whether that motion's point
      lies on the button, or the starting flag when the pointer never moved. */
  lemma {:induction false} HoverIsLastMotion(rect: Rect, hovered: bool, events: seq<Event>)
    ensures !HasMotion(events) ==> HoverAfter(rect, hovered, events) == hovered
    ensures HasMotion(events) ==>
      var e := events[LastMotion(events)];
      HoverAfter(rect, hovered, events) == ContainsPoint(rect, e.px, e.py)
    decreases |events|
  {
    if events != [] {
      var n := |events| - 1;
      var front := events[..n];
      HoverIsLastMotion(rect, hovered, front);
      assert forall i :: 0 <= i < n ==> front[i] == events[i];
      if !events[n].MouseMotion? {
        if HasMotion(front) {
          assert HasMotion(events) && LastMotion(events) == LastMotion(front);
        } else {
          assert !HasMotion(events);
        }
      }
    }
  }

  /** A button that starts unhovered reports a click at event i only when an earlier motion put
      the pointer on it and no motion since has moved it off. */
  lemma ClickNeedsPointerOnButton(rect: Rect, events: seq<Event>, i: nat)
    requires i < |events|
    requires Reports(HoverAfter(rect, false, events[..i]), events[i])
    ensures events[i].MouseButtonDown?
    ensures HasMotion(events[..i])
    ensures var e := events[..i][LastMotion(events[..i])];
      ContainsPoint(rect, e.px, e.py)
  {
    HoverIsLastMotion(rect, false, events[..i]);
  }
}
