/** The touch gate itself: it updates its buffer and its table of touches in place. */
module TouchGating {
  import opened Touches
  import opened TouchGateSpec
  import opened TouchDispatching
  import D = TouchDispatchSpec
  import Runs = TouchGateRuns

  lemma {:induction false} DispatchAllSnoc(d: D.State, es: seq<TouchEvent>, e: TouchEvent, target: D.Target)
    requires e.points != [] && forall f <- es :: f.points != []
    ensures forall f <- es + [e] :: f.points != []
    ensures D.DispatchAll(d, es + [e], target) == D.Dispatch(D.DispatchAll(d, es, target), e, target)
    decreases es
  {
    if es == [] {
      assert [] + [e] == [e] && [e][1..] == [];
    } else {
      assert (es + [e])[0] == es[0] && (es + [e])[1..] == es[1..] + [e];
      DispatchAllSnoc(D.Dispatch(d, es[0], target), es[1..], e, target);
    }
  }

  /** Sending `sent` took the dispatcher from `d` to `d'` and the delivered touches from `down` to `down'`. */
  ghost predicate Carried(d: D.State, down: set<TouchId>, sent: seq<TouchEvent>, target: D.Target, d': D.State,
                          down': set<TouchId>) {
    && (forall e <- sent :: e.points != [])
    && d' == D.DispatchAll(d, sent, target)
    && down' == AfterAll(down, sent)
  }

  lemma CarriedSnoc(d: D.State, down: set<TouchId>, sent: seq<TouchEvent>, target: D.Target,
                    d': D.State, down': set<TouchId>, e: TouchEvent)
    requires Carried(d, down, sent, target, d', down') && e.points != []
    ensures Carried(d, down, sent + [e], target, D.Dispatch(d', e, target), After(down', e))
  {
    DispatchAllSnoc(d, sent, e, target);
    StreamAppend(down, sent, [e]);
    assert [e][1..] == [];
  }

  lemma EraseAt(es: seq<TouchEvent>, i: nat, xs: set<TouchId>)
    requires i < |es|
    ensures var e := Erased(es[i], xs);
            var cut, replaced := es[..i] + es[i + 1..], es[i := e];
            && (e.points == [] && es[i].points != [] ==>
                  es[..i] + Erase(es[i..], xs) == cut[..i] + Erase(cut[i..], xs))
            && (!(e.points == [] && es[i].points != []) ==>
                  es[..i] + Erase(es[i..], xs) == replaced[..i + 1] + Erase(replaced[i + 1..], xs))
  {
    var e := Erased(es[i], xs);
    var cut, replaced := es[..i] + es[i + 1..], es[i := e];
    assert es[i..][0] == es[i] && es[i..][1..] == es[i + 1..];
    assert cut[..i] == es[..i] && cut[i..] == es[i + 1..];
    assert replaced[..i + 1] == es[..i] + [e] && replaced[i + 1..] == es[i + 1..];
  }

  lemma {:induction false} WithoutOne(points: seq<TouchPoint>, i: nat)
    requires DistinctIds(points) && i < |points|
    ensures Without(points, {points[i].id}) == points[..i] + points[i + 1..]
  {
    var rest := points[1..];
    if i == 0 {
      WithoutNothing(rest, {points[0].id});
    } else {
      assert rest[i - 1] == points[i];
      WithoutOne(rest, i - 1);
      assert [points[0]] + rest[..i - 1] == points[..i];
      assert rest[i..] == points[i + 1..];
    }
  }

  lemma {:induction false} StreamDistinct(down: set<TouchId>, es: seq<TouchEvent>)
    requires GoodStream(down, es)
    ensures forall e <- es :: DistinctIds(e.points)
    decreases es
  {
    if es != [] {
      StreamDistinct(After(down, es[0]), es[1..]);
      assert es == [es[0]] + es[1..];
    }
  }

  /** Midway through an event: what is known of each touch in the table. */
  lemma AdmittedPrefix(s: Sys, e: TouchEvent, now: map<TouchId, bool>, i: nat)
    requires Inv(s) && Legal(s, TouchOp(e, now))
    requires i <= |e.points|
    ensures Admitted(s.gate.info, e.points[..i], now, Admit(s.gate.info, e.points[..i], now).info)
  {
    var before := e.points[..i];
    assert forall p <- before :: p in e.points;
    assert IdsIn(before, Pressed) <= IdsIn(e.points, Pressed);
    AdmitMeaning(s.gate.info, before, now);
  }

  /** A press met while taking in an event is of a touch the gate knows nothing about. */
  lemma PressIsNew(s: Sys, e: TouchEvent, now: map<TouchId, bool>, i: nat)
    requires Inv(s) && Legal(s, TouchOp(e, now))
    requires i < |e.points| && e.points[i].state == Pressed
    ensures e.points[i].id !in Admit(s.gate.info, e.points[..i], now).info
    ensures e.points[i].id !in s.gate.info
    ensures !Mentions(s.gate.stored, e.points[i].id)
  {
    var before, x := e.points[..i], e.points[i].id;
    assert e.points[..i + 1] == before + [e.points[i]];
    assert DistinctIds(e.points[..i + 1]);
    IdsSnoc(before, e.points[i]);
    assert x in IdsIn(e.points, Pressed);
    assert IdsIn(before, Pressed) <= Ids(before);
    AdmittedPrefix(s, e, now, i);
  }

  /** A touch that can be entered in the table without disturbing the stored events. */
  ghost predicate MayRequest(g: Gate, delivered: set<TouchId>, x: TouchId) {
    var h := g.(info := g.info[x := TouchInfo(OwnershipRequested, false)]);
    x !in g.info && !Mentions(g.stored, x) && Sound(h, delivered) && Blocked(h)
  }

  lemma PressReady(s: Sys, e: TouchEvent, now: map<TouchId, bool>, i: nat)
    requires Inv(s) && Legal(s, TouchOp(e, now))
    requires i < |e.points|
    ensures e.points[i].state == Pressed ==>
              MayRequest(Gate(s.gate.stored, Admit(s.gate.info, e.points[..i], now).info), s.delivered, e.points[i].id)
  {
    if e.points[i].state == Pressed {
      PressIsNew(s, e, now, i);
      AdmittedPrefix(s, e, now, i);
      var info := Admit(s.gate.info, e.points[..i], now).info;
      Runs.GrownSound(s.gate, s.delivered, info[e.points[i].id := TouchInfo(OwnershipRequested, false)]);
    }
  }

  lemma PassReady(s: Sys, e: TouchEvent, now: map<TouchId, bool>)
    requires Inv(s) && Legal(s, TouchOp(e, now))
    requires s.gate.stored == [] && Admit(s.gate.info, e.points, now).ownsAll
    ensures var a := Admit(s.gate.info, e.points, now);
            ReleaseAssertions(a.info, a.valid) && GoodEvent(s.delivered, e.(points := a.valid))
  {
    Runs.PassedReleases(s, e, now);
    Runs.KeptEvent(s, e, now);
  }

  /** An answer for a touch no stored event mentions releases nothing. */
  lemma AnswerForNew(g: Gate, x: TouchId, gained: bool)
    requires Blocked(g) && !Mentions(g.stored, x)
    requires x in g.info && g.info[x] == TouchInfo(OwnershipRequested, false)
    ensures Answer(g, x, gained)
            == Outcome(g.(info := if gained then g.info[x := TouchInfo(OwnershipGranted, false)] else g.info - {x}), [])
  {
    EraseNothing(g.stored, {x});
    if g.stored != [] {
      var p :| p in g.stored[0].points && p.id in g.info && g.info[p.id].ownership == OwnershipRequested;
      MentionsHead(g.stored, x);
      assert p.id != x by {
        assert p.id in Ids(g.stored[0].points);
      }
      assert !Owned(Answered(g, x, gained).info, p.id);
    }
  }

  class TouchGate {
    var storedEvents: seq<TouchEvent>
    var touchInfoMap: InfoMap
    const dispatcher: TouchDispatcher

    // What the surroundings know.
    ghost var down: set<TouchId>
    ghost var pending: set<TouchId>
    ghost var delivered: set<TouchId>
    ghost var since: nat

    ghost function State(): Gate
      reads this
    {
      Gate(storedEvents, touchInfoMap)
    }

    ghost function Around(): Sys
      reads this
    {
      Sys(State(), down, pending, delivered)
    }

    ghost predicate DispatcherInv()
      reads this, dispatcher
    {
      D.Inv(dispatcher.State(), delivered, since)
    }

    /** Holds between steps. */
    ghost predicate Valid()
      reads this, dispatcher
    {
      Inv(Around()) && DispatcherInv()
    }

    /** Holds even while an event is being taken in. */
    ghost predicate Coherent()
      reads this, dispatcher
    {
      Sound(State(), delivered) && Blocked(State()) && DispatcherInv()
    }

    /** The events of `sent`, all of them, went to the dispatcher and nothing else did. */
    twostate predicate Forwarded(sent: seq<TouchEvent>)
      reads this, dispatcher
    {
      Carried(old(dispatcher.State()), old(delivered), sent, dispatcher.target, dispatcher.State(), delivered)
    }

    constructor (target: D.Target)
      ensures Valid() && Around() == FRESH && fresh(dispatcher)
      ensures dispatcher.State() == D.FRESH && dispatcher.target == target
    {
      storedEvents, touchInfoMap := [], map[];
      down, pending, delivered, since := {}, {}, {}, 0;
      dispatcher := new TouchDispatcher(target);
      new;
      Runs.FreshInv();
      assert dispatcher.received[0..] == [];
    }

    method TouchEvent(e: Touches.TouchEvent, now: map<TouchId, bool>)
      requires Valid()
      requires Legal(Around(), TouchOp(e, now))
      modifies this, dispatcher
      ensures Valid()
      ensures Around() == Step(old(Around()), TouchOp(e, now)).0
      ensures Forwarded(Step(old(Around()), TouchOp(e, now)).1)
    {
      hide Inv, D.Inv, Admit, After, IdsIn, ReleaseAssertions, GoodEvent, Erase;
      ghost var s := Around();
      Runs.StepKeepsInv(s, TouchOp(e, now));
      var validTouchPoints, ownsAllTouches := AdmitPoints(e, now);
      down := After(down, e);
      pending := s.pending + IdsIn(e.points, Pressed) - now.Keys;
      if validTouchPoints == [] {
        return;
      }
      var kept := e.(points := validTouchPoints);
      if ownsAllTouches && storedEvents == [] {
        PassReady(s, e, now);
        CarriedSnoc(dispatcher.State(), delivered, [], dispatcher.target, dispatcher.State(), delivered, kept);
        assert [] + [kept] == [kept];
        DispatchTouchEventToTarget(kept);
      } else {
        storedEvents := storedEvents + [kept];
      }
    }

    /** The loop over the points of an event; the registry may answer a request while it is made. */
    method AdmitPoints(e: Touches.TouchEvent, now: map<TouchId, bool>)
      returns (validTouchPoints: seq<TouchPoint>, ownsAllTouches: bool)
      requires Valid()
      requires Legal(Around(), TouchOp(e, now))
      modifies this, dispatcher
      ensures Admission(touchInfoMap, validTouchPoints, ownsAllTouches) == Admit(old(touchInfoMap), e.points, now)
      ensures storedEvents == old(storedEvents) && down == old(down)
      ensures since == old(since) && delivered == old(delivered)
      ensures dispatcher.State() == old(dispatcher.State())
    {
      hide Inv, D.Inv, Sound, Blocked, GoodEvent, MayRequest;
      ghost var s, d := Around(), dispatcher.State();
      var touchPoints := e.points;
      validTouchPoints, ownsAllTouches := [], true;
      assert touchPoints[..0] == [];
      for i := 0 to |touchPoints|
        invariant dispatcher.State() == d && since == old(since)
        invariant delivered == s.delivered && down == s.down && storedEvents == s.gate.stored
        invariant Admission(touchInfoMap, validTouchPoints, ownsAllTouches) == Admit(s.gate.info, touchPoints[..i], now)
      {
        PressReady(s, e, now, i);
        assert touchPoints[..i + 1][..i] == touchPoints[..i];
        ghost var a := Admission(touchInfoMap, validTouchPoints, ownsAllTouches);
        var valid, owned := AdmitPoint(touchPoints[i], now, a);
        validTouchPoints := if valid then validTouchPoints + [touchPoints[i]] else validTouchPoints;
        ownsAllTouches := ownsAllTouches && (valid ==> owned);
      }
      assert touchPoints[..|touchPoints|] == touchPoints;
    }

    /** One point of an event: whether it is let in, and if so whether its touch is owned. */
    method AdmitPoint(touchPoint: TouchPoint, now: map<TouchId, bool>, ghost a: Admission)
      returns (valid: bool, owned: bool)
      requires a.info == touchInfoMap
      requires DispatcherInv()
      requires touchPoint.state == Pressed ==> MayRequest(State(), delivered, touchPoint.id)
      modifies this, dispatcher
      ensures TouchGateSpec.AdmitPoint(a, touchPoint, now)
              == Admission(touchInfoMap, if valid then a.valid + [touchPoint] else a.valid,
                           a.ownsAll && (valid ==> owned))
      ensures storedEvents == old(storedEvents) && down == old(down)
      ensures since == old(since) && delivered == old(delivered)
      ensures dispatcher.State() == old(dispatcher.State())
    {
      var id := touchPoint.id;
      if touchPoint.state == Pressed {
        RequestOwnership(id, now);
      }
      valid := id in touchInfoMap;
      owned := valid && touchInfoMap[id].ownership == OwnershipGranted;
      if valid && touchPoint.state == Released {
        touchInfoMap := touchInfoMap[id := touchInfoMap[id].(ended := true)];
      }
    }

    /** Enters a new touch and asks the registry for it; an answer on the spot comes back through the event handler. */
    method RequestOwnership(x: TouchId, now: map<TouchId, bool>)
      requires DispatcherInv()
      requires MayRequest(State(), delivered, x)
      modifies this, dispatcher
      ensures touchInfoMap == if x !in now then old(touchInfoMap)[x := TouchInfo(OwnershipRequested, false)]
                              else if now[x] then old(touchInfoMap)[x := TouchInfo(OwnershipGranted, false)]
                              else old(touchInfoMap)
      ensures storedEvents == old(storedEvents) && down == old(down)
      ensures since == old(since) && delivered == old(delivered)
      ensures dispatcher.State() == old(dispatcher.State())
    {
      hide GoodStream, NoReuse, Tabled, Mentions, D.Inv, DispatchFullyOwned, Erase;
      touchInfoMap := touchInfoMap[x := TouchInfo(OwnershipRequested, false)];
      if x in now {
        AnswerForNew(State(), x, now[x]);
        TouchOwnershipEvent(x, now[x]);
      }
    }

    method TouchOwnershipEvent(x: TouchId, gained: bool)
      requires Coherent()
      requires x in touchInfoMap ==> touchInfoMap[x].ownership == OwnershipRequested
      modifies this, dispatcher
      ensures Coherent()
      ensures State() == Answer(old(State()), x, gained).gate
      ensures Forwarded(Answer(old(State()), x, gained).sent)
      ensures down == old(down) && since == old(since) && pending == old(pending) - {x}
      ensures old(Inv(Around())) && x in old(pending) ==>
                Valid() && Around() == Step(old(Around()), AnswerOp(x, gained)).0
    {
      hide GoodStream, NoReuse, Mentions, Releases, Erase, D.Inv, DispatchFullyOwned;
      ghost var s := Around();
      if Inv(s) && x in s.pending {
        Runs.StepKeepsInv(s, AnswerOp(x, gained));
      }
      pending := pending - {x};
      if x in touchInfoMap {
        if gained {
          touchInfoMap := touchInfoMap[x := touchInfoMap[x].(ownership := OwnershipGranted)];
        } else {
          Runs.DeniedSound(State(), delivered, x);
          touchInfoMap := touchInfoMap - {x};
          StreamDistinct(delivered, storedEvents);
          RemoveTouchFromStoredEvents(x);
        }
        assert State() == Answered(s.gate, x, gained);
        DispatchFullyOwnedEvents();
      }
    }

    method RemoveTouchFromStoredEvents(x: TouchId)
      requires forall e <- storedEvents :: DistinctIds(e.points)
      modifies this`storedEvents
      ensures storedEvents == Erase(old(storedEvents), {x})
    {
      var i := 0;
      while i < |storedEvents|
        invariant 0 <= i <= |storedEvents|
        invariant Erase(old(storedEvents), {x}) == storedEvents[..i] + Erase(storedEvents[i..], {x})
        invariant forall j :: i <= j < |storedEvents| ==> DistinctIds(storedEvents[j].points)
        decreases |storedEvents| - i
      {
        EraseAt(storedEvents, i, {x});
        var event, removed := RemoveTouch(storedEvents[i], x);
        if removed && event.points == [] {
          storedEvents := storedEvents[..i] + storedEvents[i + 1..];
        } else {
          storedEvents := storedEvents[i := event];
          i := i + 1;
        }
      }
      assert storedEvents[..i] == storedEvents;
    }

    /** Takes the first point of a touch out of an event. */
    static method RemoveTouch(e: Touches.TouchEvent, x: TouchId) returns (event: Touches.TouchEvent, removed: bool)
      requires DistinctIds(e.points)
      ensures event == Erased(e, {x})
      ensures removed <==> x in Ids(e.points)
    {
      var points := e.points;
      removed := false;
      var i := 0;
      WithoutNothing(e.points[..0], {x});
      while i < |points| && !removed
        invariant 0 <= i <= |points|
        invariant !removed ==> points == e.points && x !in Ids(points[..i])
        invariant removed ==> x in Ids(e.points) && points == Without(e.points, {x})
        decreases |points| - i, !removed
      {
        if points[i].id == x {
          WithoutOne(points, i);
          points := points[..i] + points[i + 1..];
          removed := true;
        } else {
          assert points[..i + 1] == points[..i] + [points[i]];
        }
        i := if removed then i else i + 1;
      }
      if !removed {
        assert points[..i] == e.points;
        WithoutNothing(e.points, {x});
      }
      event := e.(points := points);
    }

    method DispatchFullyOwnedEvents()
      requires Sound(State(), delivered) && DispatcherInv()
      modifies this`storedEvents, this`touchInfoMap, this`delivered, dispatcher
      ensures Coherent()
      ensures State() == DispatchFullyOwned(old(State())).gate
      ensures Forwarded(DispatchFullyOwned(old(State())).sent)
    {
      ghost var all := DispatchFullyOwned(State());
      ghost var sent: seq<Touches.TouchEvent> := [];
      var more := FirstIsFullyOwned();
      while more
        invariant more <==> storedEvents != [] && FullyOwned(touchInfoMap, storedEvents[0])
        invariant Sound(State(), delivered) && DispatcherInv()
        invariant all.gate == DispatchFullyOwned(State()).gate
        invariant all.sent == sent + DispatchFullyOwned(State()).sent
        invariant Forwarded(sent)
        decreases |storedEvents|
      {
        ghost var event := storedEvents[0];
        ghost var d, down' := dispatcher.State(), delivered;
        SendFirst();
        CarriedSnoc(old(dispatcher.State()), old(delivered), sent, dispatcher.target, d, down', event);
        assert sent + ([event] + DispatchFullyOwned(State()).sent) == sent + [event] + DispatchFullyOwned(State()).sent;
        sent := sent + [event];
        more := FirstIsFullyOwned();
      }
      assert DispatchFullyOwned(State()) == Outcome(State(), []);
      assert all == Outcome(State(), sent);
      HeadBlocks(State(), delivered);
    }

    /** The body of the loop: take the first event and dispatch it. */
    method SendFirst()
      requires storedEvents != [] && FullyOwned(touchInfoMap, storedEvents[0])
      requires Sound(State(), delivered) && DispatcherInv()
      modifies this`storedEvents, this`touchInfoMap, this`delivered, dispatcher
      ensures Sound(State(), delivered) && DispatcherInv()
      ensures old(storedEvents[0]).points != []
      ensures storedEvents == old(storedEvents)[1..]
      ensures touchInfoMap == old(touchInfoMap) - IdsIn(old(storedEvents[0]).points, Released)
      ensures dispatcher.State() == D.Dispatch(old(dispatcher.State()), old(storedEvents[0]), dispatcher.target)
      ensures delivered == After(old(delivered), old(storedEvents[0]))
    {
      var event := storedEvents[0];
      SendHead(State(), delivered);
      storedEvents := storedEvents[1..];
      DispatchTouchEventToTarget(event);
    }

    method FirstIsFullyOwned() returns (owned: bool)
      ensures owned <==> storedEvents != [] && FullyOwned(touchInfoMap, storedEvents[0])
    {
      if storedEvents == [] {
        owned := false;
      } else {
        owned := EventIsFullyOwned(storedEvents[0]);
      }
    }

    method DispatchTouchEventToTarget(e: Touches.TouchEvent)
      requires e.points != [] && GoodEvent(delivered, e)
      requires ReleaseAssertions(touchInfoMap, e.points)
      requires DispatcherInv()
      modifies this`touchInfoMap, this`delivered, dispatcher
      ensures touchInfoMap == old(touchInfoMap) - IdsIn(e.points, Released)
      ensures D.AssertionsHold(old(dispatcher.State()), e)
      ensures dispatcher.State() == D.Dispatch(old(dispatcher.State()), e, dispatcher.target)
      ensures delivered == After(old(delivered), e)
      ensures DispatcherInv()
    {
      RemoveTouchInfoForEndedTouches(e.points);
      D.DispatchKeepsInv(dispatcher.State(), delivered, since, e, dispatcher.target);
      dispatcher.Dispatch(e);
      delivered := After(delivered, e);
    }

    method EventIsFullyOwned(e: Touches.TouchEvent) returns (owned: bool)
      ensures owned <==> FullyOwned(touchInfoMap, e)
    {
      for i := 0 to |e.points|
        invariant forall j :: 0 <= j < i ==> Owned(touchInfoMap, e.points[j].id)
      {
        if !Owned(touchInfoMap, e.points[i].id) {
          return false;
        }
      }
      return true;
    }

    method RemoveTouchInfoForEndedTouches(points: seq<TouchPoint>)
      requires DistinctIds(points)
      requires ReleaseAssertions(touchInfoMap, points)
      modifies this`touchInfoMap
      ensures touchInfoMap == old(touchInfoMap) - IdsIn(points, Released)
    {
      for i := 0 to |points|
        invariant touchInfoMap == old(touchInfoMap) - IdsIn(points[..i], Released)
        invariant ReleaseAssertions(touchInfoMap, points[i..])
      {
        var p := points[i];
        assert points[i..][0] == p;
        assert points[..i + 1] == points[..i] + [p];
        IdsSnoc(points[..i], p);
        if p.state == Released {
          assert p.id in touchInfoMap;
          assert touchInfoMap[p.id].ended;
          assert touchInfoMap[p.id].ownership == OwnershipGranted;
          touchInfoMap := touchInfoMap - {p.id};
        }
        assert forall q <- points[i + 1..] :: q.id != p.id;
      }
      assert points[..|points|] == points;
    }

    method Reset()
      requires Valid()
      modifies this, dispatcher
      ensures Valid()
      ensures Around() == Step(old(Around()), ResetOp).0
      ensures dispatcher.State() == D.Reset(old(dispatcher.State()))
    {
      Runs.StepKeepsInv(Around(), ResetOp);
      storedEvents := [];
      touchInfoMap := map[];
      dispatcher.Reset();
      delivered, since := {}, |dispatcher.received|;
      assert dispatcher.received[since..] == [];
    }
  }
}
