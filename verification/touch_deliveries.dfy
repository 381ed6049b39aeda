/**
 What the target item gets of one touch stream, delivery by delivery and point by point,
 said in terms of the events of the stream and of the target's answers alone.
 */
module TouchDeliveries {
  import opened Touches
  import opened TouchDispatchSpec
  import opened Wrappers

  /** Some touch is down all the time, so the stream ends with its last event if at all. */
  ghost predicate Unbroken(down: set<TouchId>, es: seq<TouchEvent>)
    decreases es
  {
    es == [] || (down != {} && Unbroken(After(down, es[0]), es[1..]))
  }

  /** Every event goes to the target with all of its points; the one that lifts the last touch is the end. */
  ghost function PassedOn(down: set<TouchId>, es: seq<TouchEvent>): seq<Delivery>
    decreases es
  {
    if es == [] then []
    else
      var now := After(down, es[0]);
      [Touch(if now == {} then TouchEnd else TouchUpdate, es[0].points)] + PassedOn(now, es[1..])
  }

  /**
   The mouse follows one finger through the stream: a move or a release for each event, with
   the finger's own point. Once it is lifted the next touch that is pressed takes over, the
   first one listed if there are several; until then nothing is delivered.
   */
  ghost predicate Follows(finger: Option<TouchId>, es: seq<TouchEvent>, log: seq<Delivery>)
    decreases es
  {
    if es == [] then log == []
    else
      var points, rest := es[0].points, es[1..];
      match finger
      case Some(x) =>
        && log != []
        && (exists p <- points :: p.id == x && log[0] == Mouse(if p.state == Released then ButtonRelease else Move, p))
        && Follows(if x in IdsIn(points, Released) then None else Some(x), rest, log[1..])
      case None =>
        if IdsIn(points, Pressed) == {} then Follows(None, rest, log)
        else
          && log != []
          && exists i | 0 <= i < |points| ::
               && points[i].state == Pressed && (forall j :: 0 <= j < i ==> points[j].state != Pressed)
               && log[0] == Mouse(ButtonPress, points[i])
               && Follows(Some(points[i].id), rest, log[1..])
  }

  /** One event behind the beginning of a stream: how it is delivered, and what the dispatcher then does next. */
  lemma OneEvent(s: State, down: set<TouchId>, e: TouchEvent, target: Target)
    requires GoodEvent(down, e) && e.points != [] && down != {}
    ensures var t, now := Dispatch(s, e, target), After(down, e);
            && t.received == (match s.status
                              case DeliveringTouchEvents =>
                                s.received + [Touch(if now == {} then TouchEnd else TouchUpdate, e.points)]
                              case DeliveringMouseEvents => DispatchAsMouse(s, e).received
                              case _ => s.received)
            && (now != {} ==>
                  && t.status == s.status
                  && t.touchMouseId == if s.status == DeliveringMouseEvents then DispatchAsMouse(s, e).touchMouseId
                                       else s.touchMouseId)
  {
    EventTypeMeaning(down, e);
    MouseStatus(s, e);
  }

  lemma MouseStatus(s: State, e: TouchEvent)
    requires e.points != []
    ensures DispatchAsMouse(s, e).status == s.status
  {
  }

  lemma {:induction false} TouchContinues(s: State, down: set<TouchId>, since: nat, es: seq<TouchEvent>, target: Target)
    requires Inv(s, down, since) && s.status == DeliveringTouchEvents
    requires GoodStream(down, es) && Unbroken(down, es)
    ensures forall e <- es :: e.points != []
    ensures DispatchAll(s, es, target).received == s.received + PassedOn(down, es)
    decreases es
  {
    hide Inv, Dispatch, GoodEvent;
    if es != [] {
      var e, rest := es[0], es[1..];
      DispatchKeepsInv(s, down, since, e, target);
      OneEvent(s, down, e, target);
      var t := Dispatch(s, e, target);
      if rest != [] {
        TouchContinues(t, After(down, e), since, rest, target);
      }
      assert es == [e] + rest;
      assert s.received + PassedOn(down, es) == t.received + PassedOn(After(down, e), rest);
    }
  }

  lemma {:induction false} RejectedContinues(s: State, down: set<TouchId>, since: nat, es: seq<TouchEvent>,
                                             target: Target)
    requires Inv(s, down, since) && s.status == TargetRejectedTouches
    requires GoodStream(down, es) && Unbroken(down, es)
    ensures forall e <- es :: e.points != []
    ensures DispatchAll(s, es, target).received == s.received
    decreases es
  {
    hide Inv, Dispatch, GoodEvent;
    if es != [] {
      var e, rest := es[0], es[1..];
      DispatchKeepsInv(s, down, since, e, target);
      OneEvent(s, down, e, target);
      if rest != [] {
        RejectedContinues(Dispatch(s, e, target), After(down, e), since, rest, target);
      }
      assert es == [e] + rest;
    }
  }

  function FingerOf(touchMouseId: int): Option<TouchId> {
    if touchMouseId < 0 then None else Some(touchMouseId)
  }

  /** One event while a finger emulates the mouse. */
  lemma FingerMoves(s: State, down: set<TouchId>, e: TouchEvent)
    requires e.points != [] && GoodEvent(down, e) && s.touchMouseId >= 0 && s.touchMouseId in down
    ensures var t := DispatchAsMouse(s, e);
            var x := s.touchMouseId;
            && FingerOf(t.touchMouseId) == (if x in IdsIn(e.points, Released) then None else Some(x))
            && exists p <- e.points :: p.id == x
                 && t.received == s.received + [Mouse(if p.state == Released then ButtonRelease else Move, p)]
  {
    var x := s.touchMouseId;
    assert x in Ids(e.points);
    var q :| q in e.points && q.id == x;
    var j :| 0 <= j < |e.points| && e.points[j] == q;
    var i := TouchForMouse(x, e.points);
    assert i < |e.points| && e.points[i].id == x;
    assert i == j;
    OneState(e.points, q, Released);
  }

  /** One event while no finger emulates the mouse. */
  lemma FingerSought(s: State, e: TouchEvent) returns (i: nat)
    requires e.points != [] && s.touchMouseId == -1
    ensures i <= |e.points| && (forall j :: 0 <= j < i ==> e.points[j].state != Pressed)
    ensures i == |e.points| <==> IdsIn(e.points, Pressed) == {}
    ensures i == |e.points| ==> DispatchAsMouse(s, e) == s
    ensures i < |e.points| ==>
              && e.points[i].state == Pressed
              && DispatchAsMouse(s, e)
                 == s.(touchMouseId := e.points[i].id, received := s.received + [Mouse(ButtonPress, e.points[i])])
  {
    i := TouchForMouse(-1, e.points);
    if i < |e.points| {
      assert e.points[i].id in IdsIn(e.points, Pressed);
    } else {
      assert forall p <- e.points :: p.state != Pressed;
    }
  }

  lemma {:induction false} MouseContinues(s: State, down: set<TouchId>, since: nat, es: seq<TouchEvent>, target: Target)
    returns (log: seq<Delivery>)
    requires Inv(s, down, since) && s.status == DeliveringMouseEvents
    requires GoodStream(down, es) && Unbroken(down, es)
    ensures forall e <- es :: e.points != []
    ensures Follows(FingerOf(s.touchMouseId), es, log)
    ensures DispatchAll(s, es, target).received == s.received + log
    decreases es
  {
    hide Inv, Dispatch, DispatchAsMouse, GoodEvent;
    log := [];
    if es != [] {
      var e, rest := es[0], es[1..];
      DispatchKeepsInv(s, down, since, e, target);
      OneEvent(s, down, e, target);
      MouseIds(s, down, since);
      assert es == [e] + rest;
      var more := [];
      if rest != [] {
        more := MouseContinues(Dispatch(s, e, target), After(down, e), since, rest, target);
      }
      if s.touchMouseId == -1 {
        log := SoughtFirst(s, e, rest, more);
      } else {
        log := MovedFirst(s, down, e, rest, more);
      }
    }
  }

  lemma SoughtFirst(s: State, e: TouchEvent, rest: seq<TouchEvent>, more: seq<Delivery>) returns (log: seq<Delivery>)
    requires e.points != [] && s.touchMouseId == -1
    requires rest != [] ==> Follows(FingerOf(DispatchAsMouse(s, e).touchMouseId), rest, more)
    requires rest == [] ==> more == []
    ensures Follows(None, [e] + rest, log)
    ensures s.received + log == DispatchAsMouse(s, e).received + more
  {
    hide DispatchAsMouse;
    var i := FingerSought(s, e);
    log := (if i < |e.points| then [Mouse(ButtonPress, e.points[i])] else []) + more;
    assert ([e] + rest)[0] == e && ([e] + rest)[1..] == rest;
    if i < |e.points| {
      assert log[1..] == more;
    } else {
      assert log == more;
    }
  }

  lemma MovedFirst(s: State, down: set<TouchId>, e: TouchEvent, rest: seq<TouchEvent>, more: seq<Delivery>)
    returns (log: seq<Delivery>)
    requires e.points != [] && GoodEvent(down, e) && s.touchMouseId >= 0 && s.touchMouseId in down
    requires rest != [] ==> Follows(FingerOf(DispatchAsMouse(s, e).touchMouseId), rest, more)
    requires rest == [] ==> more == []
    ensures Follows(Some(s.touchMouseId), [e] + rest, log)
    ensures s.received + log == DispatchAsMouse(s, e).received + more
  {
    hide DispatchAsMouse, GoodEvent;
    FingerMoves(s, down, e);
    var d := DispatchAsMouse(s, e).received[|s.received|];
    log := [d] + more;
    assert ([e] + rest)[0] == e && ([e] + rest)[1..] == rest;
    assert log[1..] == more;
  }

  lemma MouseIds(s: State, down: set<TouchId>, since: nat)
    requires Inv(s, down, since) && s.status == DeliveringMouseEvents
    ensures s.touchMouseId == -1 || (s.touchMouseId >= 0 && s.touchMouseId in down)
  {
  }

  /** The double click that may come with the first press of a stream. */
  function SecondPress(s: State, e: TouchEvent, target: Target): seq<Delivery>
    requires e.points != []
  {
    if s.pressTimestamp != 0 && SoonAfter(s.pressTimestamp, e.timestamp, target.doubleClickInterval)
    then [Mouse(DoubleClick, e.points[0])] else []
  }

  lemma StreamBegins(s: State, since: nat, e: TouchEvent, target: Target)
    requires Inv(s, {}, since) && GoodEvent({}, e) && e.points != []
    ensures var t, log := Dispatch(s, e, target), s.received;
            var refused := log + [RefusedTouch(e.points)];
            if target.acceptsTouch(log) then
              t.status == DeliveringTouchEvents && t.received == log + [Touch(TouchBegin, e.points)]
            else if !target.acceptsLeftButton(refused) then
              t.status == TargetRejectedTouches && t.received == refused
            else if !target.acceptsPress(refused) then
              t.status == TargetRejectedTouches && t.received == refused + [RefusedPress(e.points[0])]
            else
              && t.status == DeliveringMouseEvents && t.touchMouseId == e.points[0].id
              && t.received == refused + [Mouse(ButtonPress, e.points[0])] + SecondPress(s, e, target)
  {
    EventTypeMeaning({}, e);
    TimeBetweenSoon(s.pressTimestamp, e.timestamp, target.doubleClickInterval);
  }

  /**
   A whole touch stream, for every target: as touch the target gets all points of all events;
   as mouse the first point of the first event and then what the finger does; otherwise only
   the offers it refused.
   */
  lemma StreamDelivered(s: State, since: nat, es: seq<TouchEvent>, target: Target)
    requires Inv(s, {}, since) && es != [] && GoodStream({}, es) && Unbroken(After({}, es[0]), es[1..])
    ensures forall e <- es :: e.points != []
    ensures var final, log, first := DispatchAll(s, es, target).received, s.received, es[0].points;
            var refused := log + [RefusedTouch(first)];
            if target.acceptsTouch(log) then
              final == log + [Touch(TouchBegin, first)] + PassedOn(After({}, es[0]), es[1..])
            else if !target.acceptsLeftButton(refused) then final == refused
            else if !target.acceptsPress(refused) then final == refused + [RefusedPress(first[0])]
            else exists rest ::
                   && Follows(Some(first[0].id), es[1..], rest)
                   && final == refused + [Mouse(ButtonPress, first[0])] + SecondPress(s, es[0], target) + rest
  {
    hide Inv, Dispatch, GoodEvent, Follows, PassedOn;
    var e, t := es[0], Dispatch(s, es[0], target);
    StreamBegins(s, since, e, target);
    DispatchKeepsInv(s, {}, since, e, target);
    assert es == [e] + es[1..];
    if t.status == DeliveringTouchEvents {
      TouchContinues(t, After({}, e), since, es[1..], target);
    } else if t.status == DeliveringMouseEvents {
      var rest := MouseContinues(t, After({}, e), since, es[1..], target);
    } else {
      RejectedContinues(t, After({}, e), since, es[1..], target);
    }
  }

  /** A stream passed on as touch, delivery by delivery. */
  lemma {:induction false} PassedOnWhole(down: set<TouchId>, es: seq<TouchEvent>, k: nat)
    requires k < |es|
    ensures |PassedOn(down, es)| == |es| && PassedOn(down, es)[k].Touch?
    ensures PassedOn(down, es)[k].points == es[k].points
    ensures PassedOn(down, es)[k].eventType == if AfterAll(down, es[..k + 1]) == {} then TouchEnd else TouchUpdate
    decreases es
  {
    var now := After(down, es[0]);
    assert es[..k + 1][0] == es[0] && es[..k + 1][1..] == es[1..][..k];
    if k > 0 {
      PassedOnWhole(now, es[1..], k - 1);
    } else if |es| > 1 {
      PassedOnWhole(now, es[1..], 0);
    }
  }

  /** After a reset the log goes on, nothing is being delivered, and the next emulated press is no double click. */
  lemma ResetForgets(s: State, e: TouchEvent, target: Target)
    requires e.points != []
    ensures Reset(s).received == s.received && Inv(Reset(s), {}, |s.received|)
    ensures SecondPress(Reset(s), e, target) == []
  {
    assert s.received[|s.received|..] == [];
  }

  /** A finger that the event does not list, which no good stream does: the first listed touch takes over. */
  lemma LostFinger(s: State, e: TouchEvent)
    requires e.points != [] && s.touchMouseId != -1 && forall p <- e.points :: p.id != s.touchMouseId
    ensures var t, p := DispatchAsMouse(s, e), e.points[0];
            && t.touchMouseId == (if p.state == Released then -1 else p.id)
            && t.received == s.received + [Mouse(match p.state
                                                 case Pressed => ButtonPress
                                                 case Released => ButtonRelease
                                                 case _ => Move, p)]
  {
  }

  /** With all listed touches lifted the dispatcher is idle and no finger emulates the mouse, whatever went before. */
  lemma LiftedAll(s: State, e: TouchEvent, target: Target)
    requires e.points != [] && forall p <- e.points :: p.state == Released
    ensures var t := Dispatch(s, e, target);
            t.status == NoActiveTouch && t.touchMouseId == -1 && t.pressTimestamp == s.pressTimestamp
  {
    StatesOf(e.points, Released);
  }
}
