/**
 The dispatcher behind the gate. It offers each new touch stream to the target item,
 falls back to emulating a mouse with one of the touches, and otherwise keeps the
 stream from the target.

 The target item is an arbitrary function of what it has received so far.
 */
module TouchDispatchSpec {
  import opened Touches

  datatype Status = NoActiveTouch | DeliveringTouchEvents | DeliveringMouseEvents | TargetRejectedTouches

  datatype EventType = TouchBegin | TouchUpdate | TouchEnd

  datatype MouseType = ButtonPress | ButtonRelease | DoubleClick | Move

  /** What the target item received; the two `Refused` forms are offers it did not accept. */
  datatype Delivery =
    | RefusedTouch(refusedPoints: seq<TouchPoint>)
    | RefusedPress(refusedPoint: TouchPoint)
    | Touch(eventType: EventType, points: seq<TouchPoint>)
    | Mouse(mouseType: MouseType, point: TouchPoint)

  datatype Target = Target(
    acceptsTouch: seq<Delivery> -> bool,
    acceptsLeftButton: seq<Delivery> -> bool,
    acceptsPress: seq<Delivery> -> bool,
    doubleClickInterval: Timestamp)

  datatype State = State(status: Status, touchMouseId: int, pressTimestamp: Timestamp, received: seq<Delivery>)

  const FRESH := State(NoActiveTouch, -1, 0, [])

  // ---------- what one call does ----------

  function States(points: seq<TouchPoint>): set<PointState> {
    set p <- points :: p.state
  }

  function ResolveEventType(points: seq<TouchPoint>): EventType {
    var states := States(points);
    if states == {Pressed} then TouchBegin
    else if states == {Released} then TouchEnd
    else TouchUpdate
  }

  function FirstIndex(points: seq<TouchPoint>, wanted: TouchPoint -> bool): (i: nat)
    ensures i <= |points|
    ensures forall j :: 0 <= j < i ==> !wanted(points[j])
    ensures i < |points| ==> wanted(points[i])
  {
    if points == [] || wanted(points[0]) then 0 else 1 + FirstIndex(points[1..], wanted)
  }

  /** The unsigned difference wraps when the clock went backwards. */
  function TimeBetween(earlier: Timestamp, later: Timestamp): Timestamp {
    (later - earlier) % ULONG_MODULUS
  }

  /** Less than the interval later, on a clock that starts over after 2^64 milliseconds. */
  predicate SoonAfter(earlier: Timestamp, later: Timestamp, interval: Timestamp) {
    if earlier <= later then later - earlier < interval
    else later + 0x1_0000_0000_0000_0000 - earlier < interval
  }

  function CheckIfDoubleClicked(last: Timestamp, now: Timestamp, interval: Timestamp): (r: (bool, Timestamp)) {
    if last == 0 then (false, now)
    else if TimeBetween(last, now) < interval then (true, 0)
    else (false, now)
  }

  function DispatchTouchBegin(s: State, e: TouchEvent, target: Target): State
    requires e.points != []
  {
    var p := e.points[0];
    if target.acceptsTouch(s.received) then
      s.(status := DeliveringTouchEvents, received := s.received + [Touch(TouchBegin, e.points)])
    else
      var refused := s.received + [RefusedTouch(e.points)];
      if !target.acceptsLeftButton(refused) then
        s.(status := TargetRejectedTouches, received := refused)
      else if !target.acceptsPress(refused) then
        s.(status := TargetRejectedTouches, received := refused + [RefusedPress(p)])
      else
        var pressed := refused + [Mouse(ButtonPress, p)];
        var (doubled, last) := CheckIfDoubleClicked(s.pressTimestamp, e.timestamp, target.doubleClickInterval);
        State(DeliveringMouseEvents, p.id, last, if doubled then pressed + [Mouse(DoubleClick, p)] else pressed)
  }

  function MouseTypeOf(state: PointState): MouseType {
    match state
    case Pressed => ButtonPress
    case Released => ButtonRelease
    case Moved => Move
    case Stationary => Move
  }

  /** The touch that moves the pointer; |points| when there is none. */
  function TouchForMouse(touchMouseId: int, points: seq<TouchPoint>): (i: nat)
    requires points != []
    ensures i <= |points|
  {
    if touchMouseId == -1 then FirstIndex(points, (p: TouchPoint) => p.state == Pressed)
    else
      var i := FirstIndex(points, (p: TouchPoint) => p.id == touchMouseId);
      if i < |points| then i else 0
  }

  function DispatchAsMouse(s: State, e: TouchEvent): State
    requires e.points != []
  {
    var i := TouchForMouse(s.touchMouseId, e.points);
    if i == |e.points| then s
    else
      var p := e.points[i];
      s.(touchMouseId := if p.state == Released then -1 else p.id,
         received := s.received + [Mouse(MouseTypeOf(p.state), p)])
  }

  function Dispatch(s: State, e: TouchEvent, target: Target): State
    requires e.points != []
  {
    var t := ResolveEventType(e.points);
    if t == TouchBegin then DispatchTouchBegin(s, e, target)
    else
      var s' :=
        if s.status == DeliveringTouchEvents then s.(received := s.received + [Touch(t, e.points)])
        else if s.status == DeliveringMouseEvents then DispatchAsMouse(s, e)
        else s;
      if t == TouchEnd then s'.(status := NoActiveTouch, touchMouseId := -1) else s'
  }

  function Reset(s: State): State {
    s.(status := NoActiveTouch, touchMouseId := -1, pressTimestamp := 0)
  }

  ghost function DispatchAll(s: State, es: seq<TouchEvent>, target: Target): State
    requires forall e <- es :: e.points != []
    decreases es
  {
    if es == [] then s else DispatchAll(Dispatch(s, es[0], target), es[1..], target)
  }

  // ---------- the assertions in the code ----------

  /** The facts the code asserts about its input during one call. */
  predicate AssertionsHold(s: State, e: TouchEvent) {
    && e.points != []
    && (ResolveEventType(e.points) == TouchBegin ==>
          s.status == NoActiveTouch && e.points[0].state == Pressed)
    && (ResolveEventType(e.points) != TouchBegin ==>
          && s.status != NoActiveTouch
          && (s.status == DeliveringMouseEvents && s.touchMouseId != -1 ==>
                exists p <- e.points :: p.id == s.touchMouseId))
  }

  ghost predicate AssertionsHoldThroughout(s: State, es: seq<TouchEvent>, target: Target)
    decreases es
  {
    es == [] ||
    (AssertionsHold(s, es[0]) && AssertionsHoldThroughout(Dispatch(s, es[0], target), es[1..], target))
  }

  // ---------- the protocol as the target sees it ----------

  /** Where the target stands: nothing held, a touch stream, or the button held by one touch. */
  datatype Phase = Idle | Touching | JustPressed(finger: TouchId) | Held(finger: TouchId) | Broken

  function NextPhase(ph: Phase, d: Delivery): Phase {
    match d
    case RefusedTouch(_) => if ph == Idle then Idle else Broken
    case RefusedPress(_) => if ph == Idle then Idle else Broken
    case Touch(TouchBegin, _) => if ph == Idle then Touching else Broken
    case Touch(TouchUpdate, _) => if ph == Touching then Touching else Broken
    case Touch(TouchEnd, _) => if ph == Touching then Idle else Broken
    case Mouse(ButtonPress, p) => if ph == Idle then JustPressed(p.id) else Broken
    case Mouse(DoubleClick, p) => if ph == JustPressed(p.id) then Held(p.id) else Broken
    case Mouse(Move, p) => if ph == JustPressed(p.id) || ph == Held(p.id) then Held(p.id) else Broken
    case Mouse(ButtonRelease, p) => if ph == JustPressed(p.id) || ph == Held(p.id) then Idle else Broken
  }

  function PhaseAfter(log: seq<Delivery>): Phase {
    if log == [] then Idle else NextPhase(PhaseAfter(log[..|log| - 1]), log[|log| - 1])
  }

  /** The dispatcher's own idea of where the target stands. */
  predicate Agrees(s: State, ph: Phase) {
    match s.status
    case NoActiveTouch => ph == Idle && s.touchMouseId == -1
    case TargetRejectedTouches => ph == Idle && s.touchMouseId == -1
    case DeliveringTouchEvents => ph == Touching && s.touchMouseId == -1
    case DeliveringMouseEvents =>
      if s.touchMouseId == -1 then ph == Idle
      else s.touchMouseId >= 0 && (ph == JustPressed(s.touchMouseId) || ph == Held(s.touchMouseId))
  }

  /** The invariant, given the touches that are down in the stream and the log since the last reset. */
  predicate Inv(s: State, down: set<TouchId>, since: nat) {
    && since <= |s.received|
    && (s.status == NoActiveTouch <==> down == {})
    && (s.touchMouseId != -1 ==> s.touchMouseId in down)
    && Agrees(s, PhaseAfter(s.received[since..]))
  }

  lemma PhaseSnoc(log: seq<Delivery>, since: nat, d: Delivery)
    requires since <= |log|
    ensures PhaseAfter((log + [d])[since..]) == NextPhase(PhaseAfter(log[since..]), d)
  {
    var l := (log + [d])[since..];
    assert l == log[since..] + [d];
    assert l[..|l| - 1] == log[since..];
  }

  lemma StatesOf(points: seq<TouchPoint>, state: PointState)
    requires points != []
    ensures States(points) == {state} <==> forall p <- points :: p.state == state
  {
    assert points[0].state in States(points);
    assert forall p <- points :: p.state in States(points);
  }

  lemma BeginMeaning(down: set<TouchId>, e: TouchEvent)
    requires GoodEvent(down, e) && e.points != []
    ensures (forall p <- e.points :: p.state == Pressed) <==> down == {}
  {
    if down != {} {
      var x :| x in down;
      var p :| p in e.points && p.id == x;
      assert p.state != Pressed;
    }
  }

  lemma EndMeaning(down: set<TouchId>, e: TouchEvent)
    requires GoodEvent(down, e)
    ensures (forall p <- e.points :: p.state == Released) <==> After(down, e) == {}
  {
    if forall p <- e.points :: p.state == Released {
      assert IdsIn(e.points, Released) == Ids(e.points);
    }
    if After(down, e) == {} {
      forall p <- e.points ensures p.state == Released {
        assert p.id in Ids(e.points) && p.id !in After(down, e);
        var q :| q in e.points && q.state == Released && q.id == p.id;
        assert p == q;
      }
    }
  }

  lemma EventTypeMeaning(down: set<TouchId>, e: TouchEvent)
    requires GoodEvent(down, e) && e.points != []
    ensures ResolveEventType(e.points) == TouchBegin <==> down == {}
    ensures ResolveEventType(e.points) == TouchEnd <==> After(down, e) == {}
    ensures ResolveEventType(e.points) == TouchBegin ==> forall p <- e.points :: p.state == Pressed
  {
    StatesOf(e.points, Pressed);
    StatesOf(e.points, Released);
    BeginMeaning(down, e);
    EndMeaning(down, e);
  }

  /** One dispatched event of a good stream: no assertion fails and the invariant moves on with the stream. */
  lemma DispatchKeepsInv(s: State, down: set<TouchId>, since: nat, e: TouchEvent, target: Target)
    requires Inv(s, down, since)
    requires GoodEvent(down, e) && e.points != []
    ensures AssertionsHold(s, e)
    ensures Inv(Dispatch(s, e, target), After(down, e), since)
  {
    EventTypeMeaning(down, e);
    var t := ResolveEventType(e.points);
    assert e.points[0] in e.points;
    if t == TouchBegin {
      BeginKeepsInv(s, since, e, target);
      assert s.status == NoActiveTouch;
    } else {
      assert s.touchMouseId != -1 ==> s.touchMouseId in Ids(e.points);
      if s.status == DeliveringTouchEvents {
        PhaseSnoc(s.received, since, Touch(t, e.points));
      } else if s.status == DeliveringMouseEvents {
        MouseKeepsInv(s, down, since, e);
      }
    }
  }

  lemma BeginKeepsInv(s: State, since: nat, e: TouchEvent, target: Target)
    requires Inv(s, {}, since) && GoodEvent({}, e) && e.points != []
    ensures Inv(DispatchTouchBegin(s, e, target), After({}, e), since)
  {
    hide PhaseAfter;
    EventTypeMeaning({}, e);
    var p := e.points[0];
    assert p in e.points && p.id in Ids(e.points) && IdsIn(e.points, Released) == {};
    PhaseSnoc(s.received, since, Touch(TouchBegin, e.points));
    var refused := s.received + [RefusedTouch(e.points)];
    PhaseSnoc(s.received, since, RefusedTouch(e.points));
    PhaseSnoc(refused, since, RefusedPress(p));
    PhaseSnoc(refused, since, Mouse(ButtonPress, p));
    PhaseSnoc(refused + [Mouse(ButtonPress, p)], since, Mouse(DoubleClick, p));
  }

  lemma MouseKeepsInv(s: State, down: set<TouchId>, since: nat, e: TouchEvent)
    requires Inv(s, down, since) && s.status == DeliveringMouseEvents
    requires GoodEvent(down, e) && e.points != []
    ensures var r := DispatchAsMouse(s, e);
            && r.status == DeliveringMouseEvents
            && since <= |r.received|
            && (r.touchMouseId != -1 ==> r.touchMouseId in After(down, e))
            && Agrees(r, PhaseAfter(r.received[since..]))
            && (After(down, e) == {} ==> PhaseAfter(r.received[since..]) == Idle)
  {
    hide PhaseAfter;
    var i := TouchForMouse(s.touchMouseId, e.points);
    if s.touchMouseId != -1 {
      assert s.touchMouseId in Ids(e.points);
      var q :| q in e.points && q.id == s.touchMouseId;
      var j :| 0 <= j < |e.points| && e.points[j] == q;
      assert i < |e.points| && e.points[i].id == s.touchMouseId;
    }
    if i < |e.points| {
      var p := e.points[i];
      assert p in e.points && p.id in Ids(e.points);
      PhaseSnoc(s.received, since, Mouse(MouseTypeOf(p.state), p));
      OneState(e.points, p, Released);
    }
  }

  /** Over a whole stream. */
  lemma {:induction false} StreamKeepsInv(s: State, down: set<TouchId>, since: nat, es: seq<TouchEvent>, target: Target)
    requires Inv(s, down, since)
    requires GoodStream(down, es)
    ensures forall e <- es :: e.points != []
    ensures AssertionsHoldThroughout(s, es, target)
    ensures Inv(DispatchAll(s, es, target), AfterAll(down, es), since)
    decreases es
  {
    if es != [] {
      DispatchKeepsInv(s, down, since, es[0], target);
      StreamKeepsInv(Dispatch(s, es[0], target), After(down, es[0]), since, es[1..], target);
      assert es == [es[0]] + es[1..];
    }
  }

  /** No assertion fails and the target sees an unbroken protocol, for every good stream and every target. */
  lemma TargetSeesProtocol(es: seq<TouchEvent>, target: Target)
    requires GoodStream({}, es)
    ensures AssertionsHoldThroughout(FRESH, es, target)
    ensures forall e <- es :: e.points != []
    ensures var s := DispatchAll(FRESH, es, target);
            && (s.status == NoActiveTouch <==> AfterAll({}, es) == {})
            && (s.touchMouseId != -1 ==> s.touchMouseId in AfterAll({}, es))
            && Agrees(s, PhaseAfter(s.received))
  {
    assert FRESH.received[0..] == [];
    StreamKeepsInv(FRESH, {}, 0, es, target);
    var s := DispatchAll(FRESH, es, target);
    assert s.received[0..] == s.received;
  }

  /**
   A reset does not tell the target: afterwards the dispatcher's idea of the target is
   right exactly when nothing was being delivered as touch and no button was held.
   */
  lemma ResetAgreesIff(s: State, since: nat)
    requires since <= |s.received| && Agrees(s, PhaseAfter(s.received[since..]))
    ensures Agrees(Reset(s), PhaseAfter(Reset(s).received[since..]))
            <==> s.status != DeliveringTouchEvents && s.touchMouseId == -1
  {
  }

  lemma EmulatedPress(s: State, p: TouchPoint, time: Timestamp, target: Target)
    requires p.state == Pressed && s.pressTimestamp == 0
    requires !target.acceptsTouch(s.received)
    requires var refused := s.received + [RefusedTouch([p])];
             target.acceptsLeftButton(refused) && target.acceptsPress(refused)
    ensures Dispatch(s, TouchEvent([p], time, 0), target)
            == State(DeliveringMouseEvents, p.id, time, s.received + [RefusedTouch([p])] + [Mouse(ButtonPress, p)])
  {
    assert States([p]) == {Pressed};
  }

  /** The failing family is inhabited: press, reset, press again, with no release in between. */
  lemma ResetCanLoseRelease(p: TouchPoint, q: TouchPoint, target: Target)
    requires p.state == Pressed && q.state == Pressed
    requires forall log :: !target.acceptsTouch(log) && target.acceptsLeftButton(log) && target.acceptsPress(log)
    ensures var s := Dispatch(FRESH, TouchEvent([p], 1, 0), target);
            PhaseAfter(Dispatch(Reset(s), TouchEvent([q], 2, 0), target).received) == Broken
  {
    EmulatedPress(FRESH, p, 1, target);
    var s := Reset(Dispatch(FRESH, TouchEvent([p], 1, 0), target));
    EmulatedPress(s, q, 2, target);
    PhaseAppend([], RefusedTouch([p]));
    PhaseAppend([] + [RefusedTouch([p])], Mouse(ButtonPress, p));
    PhaseAppend(s.received, RefusedTouch([q]));
    PhaseAppend(s.received + [RefusedTouch([q])], Mouse(ButtonPress, q));
  }

  lemma PhaseAppend(log: seq<Delivery>, d: Delivery)
    ensures PhaseAfter(log + [d]) == NextPhase(PhaseAfter(log), d)
  {
    assert (log + [d])[..|log|] == log;
  }

  // ---------- double clicks ----------

  /** The verdicts for a run of accepted emulated presses, with the remembered timestamp at the end. */
  function DoubleClicks(times: seq<Timestamp>, interval: Timestamp): (r: (seq<bool>, Timestamp))
    ensures |r.0| == |times|
  {
    if times == [] then ([], 0)
    else
      var n := |times| - 1;
      var (before, last) := DoubleClicks(times[..n], interval);
      var (doubled, last') := CheckIfDoubleClicked(last, times[n], interval);
      (before + [doubled], last')
  }

  lemma RememberedTimestamp(times: seq<Timestamp>, interval: Timestamp)
    requires times != []
    ensures var (verdicts, last) := DoubleClicks(times, interval);
            last == if verdicts[|times| - 1] then 0 else times[|times| - 1]
  {
  }

  lemma {:induction false} DoubleClicksPrefix(times: seq<Timestamp>, interval: Timestamp, k: nat)
    requires k <= |times|
    ensures DoubleClicks(times[..k], interval).0 == DoubleClicks(times, interval).0[..k]
  {
    if k < |times| {
      var n := |times| - 1;
      DoubleClicksPrefix(times[..n], interval, k);
      assert times[..n][..k] == times[..k];
    } else {
      assert times[..k] == times;
    }
  }

  lemma TimeBetweenSoon(earlier: Timestamp, later: Timestamp, interval: Timestamp)
    ensures TimeBetween(earlier, later) < interval <==> SoonAfter(earlier, later, interval)
  {
  }

  /**
   A press is the second half of a double click exactly when the press before it was not
   one, came soon enough before it and did not carry timestamp 0.
   */
  lemma DoubleClickMeaning(times: seq<Timestamp>, interval: Timestamp, i: nat)
    requires i < |times|
    ensures var verdicts := DoubleClicks(times, interval).0;
            verdicts[i] <==> i > 0 && !verdicts[i - 1] && times[i - 1] != 0
                             && SoonAfter(times[i - 1], times[i], interval)
  {
    DoubleClicksPrefix(times, interval, i + 1);
    DoubleClicksPrefix(times, interval, i);
    var now := times[..i + 1];
    assert now[..|now| - 1] == times[..i];
    if i > 0 {
      RememberedTimestamp(times[..i], interval);
      TimeBetweenSoon(times[i - 1], times[i], interval);
    }
  }

  /** A press is emulated at the beginning of a stream. */
  predicate EmulatesPress(s: State, e: TouchEvent, target: Target)
    requires e.points != []
  {
    ResolveEventType(e.points) == TouchBegin && Dispatch(s, e, target).status == DeliveringMouseEvents
  }

  /** The target gets a double click from this event. */
  predicate GetsDoubleClick(s: State, e: TouchEvent, target: Target)
    requires e.points != []
  {
    var before, after := s.received, Dispatch(s, e, target).received;
    |before| < |after| && after[|after| - 1].Mouse? && after[|after| - 1].mouseType == DoubleClick
  }

  /** The timestamps of the presses emulated at the beginning of streams. */
  ghost function PressTimes(s: State, es: seq<TouchEvent>, target: Target): seq<Timestamp>
    requires forall e <- es :: e.points != []
    decreases es
  {
    if es == [] then []
    else
      (if EmulatesPress(s, es[0], target) then [es[0].timestamp] else [])
      + PressTimes(Dispatch(s, es[0], target), es[1..], target)
  }

  /** For each of these presses whether the target gets a double click with it. */
  ghost function Doubled(s: State, es: seq<TouchEvent>, target: Target): seq<bool>
    requires forall e <- es :: e.points != []
    decreases es
  {
    if es == [] then []
    else
      (if EmulatesPress(s, es[0], target) then [GetsDoubleClick(s, es[0], target)] else [])
      + Doubled(Dispatch(s, es[0], target), es[1..], target)
  }

  /** Only a press emulated at the beginning of a stream touches the remembered timestamp or gives a double click. */
  lemma OneDoubleClick(s: State, e: TouchEvent, target: Target)
    requires e.points != []
    ensures var t := Dispatch(s, e, target);
            if EmulatesPress(s, e, target) then
              (GetsDoubleClick(s, e, target), t.pressTimestamp)
              == CheckIfDoubleClicked(s.pressTimestamp, e.timestamp, target.doubleClickInterval)
            else t.pressTimestamp == s.pressTimestamp && !GetsDoubleClick(s, e, target)
  {
  }

  lemma DoubleClicksSnoc(times: seq<Timestamp>, now: Timestamp, interval: Timestamp)
    ensures var (verdicts, last) := DoubleClicks(times, interval);
            var (doubled, last') := CheckIfDoubleClicked(last, now, interval);
            DoubleClicks(times + [now], interval) == (verdicts + [doubled], last')
  {
    assert (times + [now])[..|times|] == times;
  }

  /** Later events continue the verdicts of earlier ones. */
  lemma {:induction false} DoubledFrom(times: seq<Timestamp>, s: State, es: seq<TouchEvent>, target: Target)
    requires forall e <- es :: e.points != []
    requires s.pressTimestamp == DoubleClicks(times, target.doubleClickInterval).1
    ensures DoubleClicks(times, target.doubleClickInterval).0 + Doubled(s, es, target)
            == DoubleClicks(times + PressTimes(s, es, target), target.doubleClickInterval).0
    ensures |Doubled(s, es, target)| == |PressTimes(s, es, target)|
    decreases es
  {
    hide EmulatesPress, GetsDoubleClick, Dispatch, DoubleClicks;
    var interval := target.doubleClickInterval;
    if es == [] {
      assert times + [] == times && DoubleClicks(times, interval).0 + [] == DoubleClicks(times, interval).0;
    } else {
      var e, t, rest := es[0], Dispatch(s, es[0], target), es[1..];
      assert e in es && forall f <- rest :: f in es;
      OneDoubleClick(s, e, target);
      if EmulatesPress(s, e, target) {
        DoubleClicksSnoc(times, e.timestamp, interval);
        DoubledFrom(times + [e.timestamp], t, rest, target);
        assert times + PressTimes(s, es, target) == times + [e.timestamp] + PressTimes(t, rest, target);
        assert DoubleClicks(times, interval).0 + Doubled(s, es, target)
            == DoubleClicks(times, interval).0 + [GetsDoubleClick(s, e, target)] + Doubled(t, rest, target);
      } else {
        DoubledFrom(times, t, rest, target);
        assert PressTimes(s, es, target) == PressTimes(t, rest, target);
        assert Doubled(s, es, target) == Doubled(t, rest, target);
      }
    }
  }

  /**
   Over every sequence of events since the start or a reset, and every target: the target gets
   a double click with an emulated press exactly when it got none with the press before, and
   that one came soon enough before it and did not carry timestamp 0.
   */
  lemma TargetDoubleClicks(s: State, es: seq<TouchEvent>, target: Target, i: nat)
    requires s.pressTimestamp == 0 && forall e <- es :: e.points != []
    requires i < |PressTimes(s, es, target)|
    ensures var times, doubled := PressTimes(s, es, target), Doubled(s, es, target);
            && |doubled| == |times|
            && (doubled[i] <==> i > 0 && !doubled[i - 1] && times[i - 1] != 0
                                && SoonAfter(times[i - 1], times[i], target.doubleClickInterval))
  {
    DoubledFrom([], s, es, target);
    assert [] + PressTimes(s, es, target) == PressTimes(s, es, target);
    assert [] + Doubled(s, es, target) == Doubled(s, es, target);
    DoubleClickMeaning(PressTimes(s, es, target), target.doubleClickInterval, i);
  }
}

/** The dispatcher itself, updated in place by every call. */
module TouchDispatching {
  import opened Touches
  import opened Spec = TouchDispatchSpec

  class TouchDispatcher {
    const target: Target
    var status: Status
    var touchMouseId: int
    var touchMousePressTimestamp: Timestamp
    var received: seq<Delivery>

    ghost function State(): State
      reads this
    {
      Spec.State.State(status, touchMouseId, touchMousePressTimestamp, received)
    }

    constructor (target: Target)
      ensures State() == FRESH && this.target == target
    {
      this.target := target;
      status, touchMouseId, touchMousePressTimestamp, received := NoActiveTouch, -1, 0, [];
    }

    method Dispatch(e: TouchEvent)
      requires e.points != []
      modifies this
      ensures State() == Spec.Dispatch(old(State()), e, target)
    {
      var eventType := ResolveEventType(e.points);
      if eventType == TouchBegin {
        DispatchTouchBegin(e);
      } else {
        if status == DeliveringTouchEvents {
          received := received + [Touch(eventType, e.points)];
        } else if status == DeliveringMouseEvents {
          DispatchAsMouse(e);
        }
        if eventType == TouchEnd {
          status := NoActiveTouch;
          touchMouseId := -1;
        }
      }
    }

    method ResolveEventType(points: seq<TouchPoint>) returns (t: EventType)
      ensures t == Spec.ResolveEventType(points)
    {
      var eventStates: set<PointState> := {};
      for i := 0 to |points|
        invariant eventStates == States(points[..i])
      {
        assert points[..i + 1] == points[..i] + [points[i]];
        eventStates := eventStates + {points[i].state};
      }
      assert points[..|points|] == points;
      t := if eventStates == {Pressed} then TouchBegin
           else if eventStates == {Released} then TouchEnd
           else TouchUpdate;
    }

    method DispatchTouchBegin(e: TouchEvent)
      requires e.points != []
      modifies this
      ensures State() == Spec.DispatchTouchBegin(old(State()), e, target)
    {
      if target.acceptsTouch(received) {
        received := received + [Touch(TouchBegin, e.points)];
        status := DeliveringTouchEvents;
        return;
      }
      received := received + [RefusedTouch(e.points)];
      if target.acceptsLeftButton(received) {
        if target.acceptsPress(received) {
          received := received + [Mouse(ButtonPress, e.points[0])];
          status := DeliveringMouseEvents;
          touchMouseId := e.points[0].id;
          var doubleClicked := CheckIfDoubleClicked(e.timestamp);
          if doubleClicked {
            received := received + [Mouse(DoubleClick, e.points[0])];
          }
        } else {
          received := received + [RefusedPress(e.points[0])];
          status := TargetRejectedTouches;
        }
      } else {
        status := TargetRejectedTouches;
      }
    }

    method DispatchAsMouse(e: TouchEvent)
      requires e.points != []
      modifies this`touchMouseId, this`received
      ensures State() == Spec.DispatchAsMouse(old(State()), e)
    {
      var n := |e.points|;
      var touchMouse := n;
      var i := 0;
      if touchMouseId != -1 {
        ghost var wanted := touchMouseId;
        while i < n && touchMouse == n
          invariant 0 <= i <= n
          invariant touchMouse == n || (0 <= touchMouse == i - 1 && e.points[touchMouse].id == touchMouseId)
          invariant forall j :: 0 <= j < (if touchMouse == n then i else touchMouse) ==> e.points[j].id != touchMouseId
          decreases n - i
        {
          if e.points[i].id == touchMouseId {
            touchMouse := i;
          }
          i := i + 1;
        }
        ghost var found := FirstIndex(e.points, (p: TouchPoint) => p.id == wanted);
        assert found == touchMouse;
        if touchMouse == n {
          touchMouse := 0;
          touchMouseId := e.points[0].id;
        }
      } else {
        while i < n && touchMouse == n
          invariant 0 <= i <= n
          invariant touchMouse == n || (0 <= touchMouse == i - 1 && e.points[touchMouse].state == Pressed)
          invariant forall j :: 0 <= j < (if touchMouse == n then i else touchMouse) ==> e.points[j].state != Pressed
          decreases n - i
        {
          if e.points[i].state == Pressed {
            touchMouse := i;
          }
          i := i + 1;
        }
        ghost var found := FirstIndex(e.points, (p: TouchPoint) => p.state == Pressed);
        assert found == touchMouse;
        if touchMouse < n {
          touchMouseId := e.points[touchMouse].id;
        }
      }
      if touchMouse < n {
        var p := e.points[touchMouse];
        if p.state == Released {
          touchMouseId := -1;
        }
        received := received + [Mouse(MouseTypeOf(p.state), p)];
      }
    }

    method CheckIfDoubleClicked(now: Timestamp) returns (doubleClicked: bool)
      modifies this`touchMousePressTimestamp
      ensures (doubleClicked, touchMousePressTimestamp)
              == Spec.CheckIfDoubleClicked(old(touchMousePressTimestamp), now, target.doubleClickInterval)
    {
      if touchMousePressTimestamp == 0 {
        touchMousePressTimestamp := now;
        doubleClicked := false;
      } else {
        doubleClicked := TimeBetween(touchMousePressTimestamp, now) < target.doubleClickInterval;
        touchMousePressTimestamp := if doubleClicked then 0 else now;
      }
    }

    method Reset()
      modifies this
      ensures State() == Spec.Reset(old(State()))
    {
      status := NoActiveTouch;
      touchMouseId := -1;
      touchMousePressTimestamp := 0;
    }
  }
}
