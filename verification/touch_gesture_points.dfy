/**
 What a gesture area shows of its touches: which statuses its clients and its timer tell apart,
 where a touch point is and when it drags, and which signals close an event.
 */
module TouchGesturePoints {
  import opened Touches
  import opened TouchGestureSpec

  /** What the statuses mean to clients, to the timer and to the registry. */
  lemma StatusMeaning(s: Status)
    ensures GestureStatus(s) == PublicWaitingForTouch <==> s == WaitingForTouch
    ensures GestureStatus(s) == PublicUndecided <==> s == WaitingForMoreTouches || s == WaitingForOwnership
    ensures GestureStatus(s) == PublicRecognized <==> s == Recognized || s == WaitingForRejection
    ensures GestureStatus(s) == PublicRejected <==> s == Rejected
    ensures TimerRuns(s) <==> s == WaitingForMoreTouches || s == WaitingForRejection
    ensures Requesting(s) <==> s == WaitingForOwnership || s == Recognized || s == WaitingForRejection
  {
  }

  /** No step of more than the threshold in either direction, nor, where velocity counts, a faster one. */
  predicate WithinThreshold(p: EventPoint, style: Style) {
    var t, v := style.dragThreshold as real, style.dragVelocity as real;
    && -t <= p.scenePos.x - p.startScenePos.x <= t && -t <= p.scenePos.y - p.startScenePos.y <= t
    && (style.deviceHasVelocity && style.dragVelocity != 0 ==>
          -v <= p.velocity.x <= v && -v <= p.velocity.y <= v)
  }

  /** The point of a listed touch after an event: gone, new, moved or as it was. */
  lemma PointAfter(live: Points, ps: seq<EventPoint>, style: Style, p: EventPoint)
    requires DistinctPoints(ps) && p in ps
    ensures var after := LiveAfter(live, ps, style);
            && (p.id !in after <==> p.state == Released)
            && (p.id !in live && p.state != Released ==> after[p.id] == GesturePoint(true, p.pos, false))
            && (p.id in live && p.state == Moved ==>
                  && after[p.id].pos == p.pos && after[p.id].pressed == live[p.id].pressed
                  && (after[p.id].dragging <==> live[p.id].dragging || !WithinThreshold(p, style)))
            && (p.id in live && (p.state == Stationary || p.state == Pressed) ==> after[p.id] == live[p.id])
  {
    LiveListed(live, ps, style, p);
  }

  ghost function LiveAfterAll(live: Points, events: seq<seq<EventPoint>>, style: Style): Points
    decreases events
  {
    if events == [] then live else LiveAfterAll(LiveAfter(live, events[0], style), events[1..], style)
  }

  /** One of the events moved the touch over a threshold. */
  ghost predicate MovedOver(events: seq<seq<EventPoint>>, style: Style, x: TouchId) {
    exists ps <- events, p <- ps :: p.id == x && p.state == Moved && !WithinThreshold(p, style)
  }

  /** Over every run of events a touch that stays down drags exactly after one of them moved it over a threshold. */
  lemma {:induction false} DragsIff(live: Points, events: seq<seq<EventPoint>>, style: Style, x: TouchId)
    requires x in live
    requires forall ps <- events :: DistinctPoints(ps) && forall p <- ps :: p.id == x ==> p.state != Released
    ensures x in LiveAfterAll(live, events, style)
    ensures LiveAfterAll(live, events, style)[x].dragging <==> live[x].dragging || MovedOver(events, style, x)
    decreases events
  {
    if events != [] {
      var ps, rest := events[0], events[1..];
      assert ps in events && forall qs <- rest :: qs in events;
      OneEventDrags(live, ps, style, x);
      DragsIff(LiveAfter(live, ps, style), rest, style, x);
      assert forall qs <- events :: qs == ps || qs in rest;
    }
  }

  lemma OneEventDrags(live: Points, ps: seq<EventPoint>, style: Style, x: TouchId)
    requires x in live && DistinctPoints(ps) && forall p <- ps :: p.id == x ==> p.state != Released
    ensures var after := LiveAfter(live, ps, style);
            x in after && (after[x].dragging <==> live[x].dragging || MovedOver([ps], style, x))
  {
    if x in Listed(ps) {
      var p :| p in ps && p.id == x;
      PointAfter(live, ps, style, p);
      OnePoint(ps, p);
      assert ps in [ps];
    } else {
      LiveFrame(live, ps, style, x);
    }
  }

  /** Dragging starts with the event after which the gesture is recognised and no touch is left that does not drag. */
  lemma DragStartsIff(status: Status, live: Points)
    ensures WantsDrag(false, status, live)
            <==> status == Recognized && live.Keys != {} && live.Keys == set x <- live | live[x].dragging
    ensures WantsDrag(true, status, live)
  {
    var dragged := set x <- live | live[x].dragging;
    assert dragged <= live.Keys;
    assert live == map[] <==> live.Keys == {};
  }

  /**
   The signals that close an event, in their order: a click or the end of dragging with the last
   touch, what went, came and moved, each only if there is any, and that there was something.
   */
  lemma SignalsMean(dragging: bool, ended: set<TouchId>, last: bool, begun: Points, moved: Points)
    ensures PointSignals(dragging, ended, last, begun, moved)
            == (if last && ended != {} then [if dragging then DraggingChanged(false) else ClickedSignal] else [])
               + (if ended != {} then [ReleasedSignal(ended)] else [])
               + (if begun != map[] then [PressedSignal(begun)] else [])
               + (if moved != map[] then [UpdatedSignal(moved)] else [])
               + (if ended == {} && begun == map[] && moved == map[] then [] else [TouchPointsUpdatedSignal])
  {
  }

  /** Which touches came, went and moved with an event, by what was live before and after it. */
  lemma WhoCameAndWent(live: Points, ps: seq<EventPoint>, style: Style, x: TouchId)
    requires DistinctPoints(ps)
    ensures var after := LiveAfter(live, ps, style);
            && (x in Ended(live, ps) <==> x in live && x !in after)
            && (x in Begun(live, ps) <==> x !in live && x in after)
            && (x in MovedIds(live, ps) <==> x in live && exists p <- ps :: p.id == x && p.state == Moved)
  {
    if p :| p in ps && p.id == x {
      PointAfter(live, ps, style, p);
      OnePoint(ps, p);
    } else {
      LiveFrame(live, ps, style, x);
    }
  }

  /** The touches of an event in a state, one by one. */
  lemma InState(ps: seq<EventPoint>, state: PointState, x: TouchId)
    ensures x in WithState(ps, state) <==> exists p <- ps :: p.id == x && p.state == state
  {
  }
}
