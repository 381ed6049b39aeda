/** The gesture area itself, with the touch points it tracks and the copy its clients see. */
module TouchGestures {
  import opened Touches
  import opened TouchGestureSpec

  class TouchGestureArea {
    const limits: Limits
    const style: Style
    var status: Status
    var candidates: set<TouchId>
    var watched: set<TouchId>
    var timerRunning: bool
    var dragging: bool
    var live: Points
    var cached: Points
    var emitted: seq<Signal>

    ghost function Core(): Core
      reads this
    {
      TouchGestureSpec.Core.Core(status, candidates, watched)
    }

    /** What a client sees through the properties. */
    ghost function Visible(): Client
      reads this
    {
      Client(cached, dragging, GestureStatus(status))
    }

    /** Clients that only listen know what is visible; the copy lags behind only while waiting for rejection. */
    ghost predicate Synced()
      reads this
    {
      && (status != WaitingForRejection ==> cached == live)
      && Replay(emitted) == Visible()
      && (dragging ==> cached != map[])
    }

    ghost predicate Valid()
      reads this
    {
      && SoundLimits(limits)
      && Settled(Core(), limits)
      && timerRunning == TimerRuns(status)
      && Synced()
    }

    constructor (limits: Limits, style: Style)
      requires SoundLimits(limits)
      ensures Valid() && Core() == START && live == map[] && this.limits == limits && this.style == style
    {
      this.limits, this.style := limits, style;
      status, candidates, watched := WaitingForTouch, {}, {};
      timerRunning, dragging, live, cached, emitted := false, false, map[], map[], [];
    }

    method Emit(s: Signal)
      modifies this`emitted
      ensures emitted == old(emitted) + [s]
      ensures Replay(emitted) == Heard(old(Replay(emitted)), s)
    {
      ReplaySnoc(emitted, s);
      emitted := emitted + [s];
    }

    method SetDragging(d: bool)
      modifies this`dragging, this`emitted
      ensures dragging == d
      ensures Replay(emitted)
              == old(Replay(emitted)).(dragging := if d == old(dragging) then old(Replay(emitted)).dragging else d)
      ensures emitted == old(emitted) + if d == old(dragging) then [] else [DraggingChanged(d)]
    {
      if dragging == d {
        return;
      }
      dragging := d;
      Emit(DraggingChanged(d));
    }

    // ---------- status ----------

    method SetInternalStatus(newStatus: Status)
      requires Synced()
      requires status == WaitingForRejection ==> newStatus !in {WaitingForMoreTouches, WaitingForOwnership}
      requires timerRunning ==> TimerRuns(status)
      modifies this`status, this`timerRunning, this`dragging, this`cached, this`emitted
      ensures Synced() && status == newStatus
      ensures timerRunning == if newStatus == old(status) then old(timerRunning) else TimerRuns(newStatus)
      ensures newStatus == old(status) ==> dragging == old(dragging) && cached == old(cached) && emitted == old(emitted)
      ensures newStatus != old(status) ==> old(emitted) + [StatusChanged(GestureStatus(newStatus))] <= emitted
    {
      hide Replay;
      if newStatus == status {
        return;
      }
      var oldStatus := status;
      status := newStatus;
      Emit(StatusChanged(GestureStatus(status)));
      if oldStatus == WaitingForMoreTouches || oldStatus == WaitingForRejection {
        timerRunning := false;
      }
      EnterStatus();
    }

    /** What happens on entering a status: clients catch up, or a timer starts. */
    method EnterStatus()
      requires Replay(emitted) == Visible() && (dragging ==> cached != map[]) && !timerRunning
      requires status in {WaitingForMoreTouches, WaitingForOwnership} ==> cached == live
      modifies this`timerRunning, this`dragging, this`cached, this`emitted
      ensures Synced() && timerRunning == TimerRuns(status) && old(emitted) <= emitted
    {
      hide Replay;
      match status {
        case WaitingForTouch => ResyncCachedTouchPoints();
        case WaitingForMoreTouches => timerRunning := true;
        case Recognized => ResyncCachedTouchPoints();
        case WaitingForRejection => timerRunning := true;
        case Rejected => ResyncCachedTouchPoints();
        case WaitingForOwnership =>
      }
    }

    /** Brings the clients' copy up to date and tells them what changed. */
    method ResyncCachedTouchPoints()
      requires Replay(emitted) == Visible()
      requires dragging ==> cached != map[]
      modifies this`dragging, this`cached, this`emitted
      ensures cached == live
      ensures Replay(emitted) == Visible()
      ensures dragging == (old(dragging) && live != map[]) && old(emitted) <= emitted
    {
      hide Replay, Told;
      var ended, begun := cached.Keys - live.Keys, live.Keys - cached.Keys;
      var moved := set x <- live | x in cached && cached[x] != live[x];
      ResyncTellsClient(cached, live);
      if cached != map[] && live == map[] {
        var x :| x in cached;
        assert x in ended;
      }
      cached := live;
      TellClients(ended, cached == map[], Only(live, begun), Only(live, moved));
    }

    /** The signals at the end of an event or a resynchronisation. */
    method TellClients(ended: set<TouchId>, last: bool, begun: Points, moved: Points)
      requires Replay(emitted).dragging == dragging
      modifies this`dragging, this`emitted
      ensures emitted == old(emitted) + PointSignals(old(dragging), ended, last, begun, moved)
      ensures dragging == StillDragging(old(dragging), ended, last)
      ensures Replay(emitted)
              == Client(Told(old(Replay(emitted)).points, ended, begun, moved), dragging, old(Replay(emitted)).status)
    {
      hide Told, Replay;
      PointSignalsTell(emitted, ended, last, begun, moved);
      if ended != {} {
        if last {
          if !dragging {
            emitted := emitted + [ClickedSignal];
          }
          if dragging {
            dragging := false;
            emitted := emitted + [DraggingChanged(false)];
          }
        }
        emitted := emitted + [ReleasedSignal(ended)];
      }
      assert emitted == old(emitted) + EndSignals(old(dragging), ended, last);
      if begun != map[] {
        emitted := emitted + [PressedSignal(begun)];
      }
      if moved != map[] {
        emitted := emitted + [UpdatedSignal(moved)];
      }
      if begun != map[] || ended != {} || moved != map[] {
        emitted := emitted + [TouchPointsUpdatedSignal];
      }
    }

    method RejectGesture()
      requires Synced()
      requires timerRunning ==> TimerRuns(status)
      requires !TimerRuns(status) ==> !timerRunning
      modifies this
      ensures Synced() && Core() == Reject(old(Core())) && live == old(live)
      ensures timerRunning == TimerRuns(status)
    {
      var watchedNow := watched + candidates;
      candidates := {};
      watched := watchedNow;
      if watched == {} {
        SetInternalStatus(WaitingForTouch);
      } else {
        SetInternalStatus(Rejected);
      }
    }

    /** The timer is single-shot: it has stopped by the time its signal arrives. */
    method OnTimeout()
      requires Valid() && Legal(Core(), TimeoutOp)
      modifies this
      ensures Valid() && Core() == Next(old(Core()), TimeoutOp, limits) && live == old(live)
    {
      NextKeepsInv(Core(), TimeoutOp, limits);
      timerRunning := false;
      RejectGesture();
    }

    method TouchOwnershipEvent(x: TouchId, gained: bool)
      requires Valid() && Legal(Core(), if gained then GainedOp(x) else LostOp(x))
      modifies this
      ensures Valid() && live == old(live)
      ensures Core() == Next(old(Core()), if gained then GainedOp(x) else LostOp(x), limits)
    {
      NextKeepsInv(Core(), if gained then GainedOp(x) else LostOp(x), limits);
      if gained {
        candidates := candidates - {x};
        watched := watched + {x};
        if |watched| >= limits.min {
          SetInternalStatus(Recognized);
        }
      } else {
        RejectGesture();
      }
    }

    // ---------- events ----------

    /** `answers` are what the registry says while ownership is being requested. */
    method TouchEvent(ps: seq<EventPoint>, enabledAndVisible: bool, answers: seq<Op>) returns (accepted: bool)
      requires Valid() && DistinctPoints(ps)
      requires forall op <- answers :: op.GainedOp? || op.LostOp?
      requires LegalRun(Touched(Core(), WithState(ps, Pressed), limits), answers, limits)
      modifies this
      ensures Valid()
      ensures !enabledAndVisible ==> !accepted && Core() == old(Core()) && live == old(live) && emitted == old(emitted)
      ensures enabledAndVisible ==>
                var c := Touched(old(Core()), WithState(ps, Pressed), limits);
                && Core() == Run(c, answers, limits)
                && live == LiveAfter(old(live), ps, style)
                && (accepted <==> old(status) in {WaitingForOwnership, Recognized, WaitingForRejection}
                                  || c.status == WaitingForOwnership)
    {
      hide Synced, Settled, CoreInv, WithState, LiveAfter, Replay, Touched, Begun, Ended, MovedIds, Only,
           PointSignals, WantsDrag, Run, LegalRun, TimerRuns, Requesting, Visible, DistinctPoints;
      if !enabledAndVisible {
        return false;
      }
      accepted := TouchEventByStatus(ps);
      TakeAnswers(answers);
      UpdateTouchPoints(ps);
    }

    method TakeAnswers(answers: seq<Op>)
      requires Valid() && LegalRun(Core(), answers, limits)
      requires forall op <- answers :: op.GainedOp? || op.LostOp?
      modifies this
      ensures Valid() && live == old(live)
      ensures Core() == Run(old(Core()), answers, limits)
    {
      hide Synced, Settled, CoreInv, Replay;
      for i := 0 to |answers|
        invariant Valid() && live == old(live)
        invariant LegalRun(Core(), answers[i..], limits)
        invariant Run(Core(), answers[i..], limits) == Run(old(Core()), answers, limits)
      {
        assert answers[i..][0] == answers[i] && answers[i..][1..] == answers[i + 1..];
        var op := answers[i];
        assert op in answers;
        TouchOwnershipEvent(op.touch, op.GainedOp?);
      }
    }

    method TouchEventByStatus(ps: seq<EventPoint>) returns (accepted: bool)
      requires Valid()
      modifies this
      ensures Valid() && live == old(live)
      ensures Core() == Touched(old(Core()), WithState(ps, Pressed), limits)
      ensures accepted <==> old(status) in {WaitingForOwnership, Recognized, WaitingForRejection}
                            || status == WaitingForOwnership
    {
      hide Settled, CoreInv, Replay, WithState;
      NextKeepsInv(Core(), TouchedOp(WithState(ps, Pressed)), limits);
      match status {
        case WaitingForTouch => accepted := TouchEventWaiting(ps);
        case WaitingForMoreTouches => accepted := TouchEventWaiting(ps);
        case WaitingForOwnership =>
          WatchPressed(ps);
          accepted := true;
        case Recognized =>
          TouchEventRecognized(ps);
          accepted := true;
        case WaitingForRejection =>
          TouchEventRecognized(ps);
          accepted := true;
        case Rejected =>
          WatchPressed(ps);
          accepted := false;
      }
    }

    /** Presses become candidates; with enough of them ownership is requested, with too many the gesture is off. */
    method TouchEventWaiting(ps: seq<EventPoint>) returns (accepted: bool)
      requires Valid() && status in {WaitingForTouch, WaitingForMoreTouches}
      modifies this
      ensures Synced() && live == old(live) && timerRunning == TimerRuns(status)
      ensures Core() == Touched(old(Core()), WithState(ps, Pressed), limits)
      ensures accepted <==> status == WaitingForOwnership
    {
      CollectCandidates(ps);
      accepted := false;
      if |candidates| > limits.max {
        RejectGesture();
      } else if |candidates| >= limits.min {
        SetInternalStatus(WaitingForOwnership);
        accepted := true;
      } else if |candidates| > 0 {
        SetInternalStatus(WaitingForMoreTouches);
      }
    }

    method CollectCandidates(ps: seq<EventPoint>)
      modifies this`candidates
      ensures candidates == old(candidates) + WithState(ps, Pressed)
    {
      assert ps[..0] == [];
      for i := 0 to |ps|
        invariant candidates == old(candidates) + WithState(ps[..i], Pressed)
      {
        assert ps[..i + 1] == ps[..i] + [ps[i]];
        if ps[i].state == Pressed {
          if ps[i].id !in candidates {
            candidates := candidates + {ps[i].id};
          }
        }
      }
      assert ps[..|ps|] == ps;
    }

    /** Presses become watched touches. */
    method WatchPressed(ps: seq<EventPoint>)
      modifies this`watched
      ensures watched == old(watched) + WithState(ps, Pressed)
    {
      assert ps[..0] == [];
      for i := 0 to |ps|
        invariant watched == old(watched) + WithState(ps[..i], Pressed)
      {
        assert ps[..i + 1] == ps[..i] + [ps[i]];
        if ps[i].state == Pressed {
          if ps[i].id !in watched {
            watched := watched + {ps[i].id};
          }
        }
      }
      assert ps[..|ps|] == ps;
    }

    method TouchEventRecognized(ps: seq<EventPoint>)
      requires Valid() && status in {Recognized, WaitingForRejection}
      modifies this
      ensures Synced() && live == old(live) && timerRunning == TimerRuns(status)
      ensures Core() == Touched(old(Core()), WithState(ps, Pressed), limits)
    {
      WatchPressed(ps);
      if |watched| > limits.max {
        RejectGesture();
      } else if |watched| >= limits.min && status == WaitingForRejection {
        SetInternalStatus(Recognized);
      }
    }

    method UnownedTouchEvent(ps: seq<EventPoint>)
      requires Valid() && DistinctPoints(ps)
      modifies this
      ensures Valid()
      ensures Core() == Next(old(Core()), UnownedOp(WithState(ps, Pressed), WithState(ps, Released)), limits)
      ensures live == if WithState(ps, Pressed) + WithState(ps, Released) == {} then old(live)
                      else LiveAfter(old(live), ps, style)
    {
      hide Synced, Settled, CoreInv, WithState, LiveAfter, Replay, Unowned, Begun, Ended, MovedIds, Only,
           PointSignals, WantsDrag, TimerRuns, Visible, DistinctPoints;
      if WithState(ps, Pressed) + WithState(ps, Released) == {} {
        NothingAppeared(Core(), WithState(ps, Pressed), WithState(ps, Released), limits);
        return;
      }
      UnownedTouchEventByStatus(ps);
      UpdateTouchPoints(ps);
    }

    method UnownedTouchEventByStatus(ps: seq<EventPoint>)
      requires Valid() && DistinctPoints(ps)
      requires WithState(ps, Pressed) + WithState(ps, Released) != {}
      modifies this
      ensures Valid() && live == old(live)
      ensures Core() == Unowned(old(Core()), WithState(ps, Pressed), WithState(ps, Released), limits)
    {
      hide Settled, CoreInv, Replay, WithState;
      Apart(ps);
      NextKeepsInv(Core(), UnownedOp(WithState(ps, Pressed), WithState(ps, Released)), limits);
      match status {
        case WaitingForTouch =>
        case WaitingForMoreTouches => UnownedTouchEventWaitingForMoreTouches(ps);
        case WaitingForOwnership => UnownedTouchEventWaitingForOwnership(ps);
        case Recognized => UnownedTouchEventRecognized(ps);
        case WaitingForRejection => UnownedTouchEventRecognized(ps);
        case Rejected => UnownedTouchEventRejected(ps);
      }
    }

    method DropReleasedCandidates(ps: seq<EventPoint>)
      modifies this`candidates
      ensures candidates == old(candidates) - WithState(ps, Released)
    {
      assert ps[..0] == [];
      for i := 0 to |ps|
        invariant candidates == old(candidates) - WithState(ps[..i], Released)
      {
        assert ps[..i + 1] == ps[..i] + [ps[i]];
        if ps[i].state == Released {
          if ps[i].id in candidates {
            candidates := candidates - {ps[i].id};
          }
        }
      }
      assert ps[..|ps|] == ps;
    }

    method UnownedTouchEventWaitingForMoreTouches(ps: seq<EventPoint>)
      requires Valid() && status == WaitingForMoreTouches
      modifies this
      ensures Synced() && live == old(live) && timerRunning == TimerRuns(status)
      ensures candidates == old(candidates) - WithState(ps, Released) && watched == old(watched)
      ensures status == if candidates == {} then WaitingForTouch else WaitingForMoreTouches
    {
      hide Replay;
      DropReleasedCandidates(ps);
      if candidates == {} {
        SetInternalStatus(WaitingForTouch);
      }
    }

    method UnownedTouchEventWaitingForOwnership(ps: seq<EventPoint>)
      requires Valid() && status == WaitingForOwnership
      modifies this
      ensures Synced() && live == old(live) && timerRunning == TimerRuns(status)
      ensures candidates == old(candidates) - WithState(ps, Released)
      ensures watched == old(watched) - WithState(ps, Released)
      ensures status == if |candidates| + |watched| == 0 then WaitingForTouch else WaitingForOwnership
    {
      ForgetReleased(ps);
      if |candidates| + |watched| == 0 {
        SetInternalStatus(WaitingForTouch);
      }
    }

    method ForgetReleased(ps: seq<EventPoint>)
      modifies this`candidates, this`watched
      ensures candidates == old(candidates) - WithState(ps, Released)
      ensures watched == old(watched) - WithState(ps, Released)
    {
      assert ps[..0] == [];
      for i := 0 to |ps|
        invariant candidates == old(candidates) - WithState(ps[..i], Released)
        invariant watched == old(watched) - WithState(ps[..i], Released)
      {
        assert ps[..i + 1] == ps[..i] + [ps[i]];
        if ps[i].state == Released {
          if ps[i].id in candidates {
            candidates := candidates - {ps[i].id};
          }
          if ps[i].id in watched {
            watched := watched - {ps[i].id};
          }
        }
      }
      assert ps[..|ps|] == ps;
    }

    method UnwatchReleased(ps: seq<EventPoint>)
      modifies this`watched
      ensures watched == old(watched) - WithState(ps, Released)
    {
      assert ps[..0] == [];
      for i := 0 to |ps|
        invariant watched == old(watched) - WithState(ps[..i], Released)
      {
        assert ps[..i + 1] == ps[..i] + [ps[i]];
        if ps[i].state == Released {
          if ps[i].id in watched {
            watched := watched - {ps[i].id};
          }
        }
      }
      assert ps[..|ps|] == ps;
    }

    method UnownedTouchEventRecognized(ps: seq<EventPoint>)
      requires Valid() && status in {Recognized, WaitingForRejection}
      modifies this
      ensures Synced() && live == old(live) && timerRunning == TimerRuns(status)
      ensures watched == old(watched) - WithState(ps, Released) && candidates == old(candidates)
      ensures status == if |watched| < limits.min then WaitingForRejection else old(status)
    {
      hide Replay, WithState;
      UnwatchReleased(ps);
      if |watched| < limits.min && status == Recognized {
        SetInternalStatus(WaitingForRejection);
      }
      if old(status) == WaitingForRejection {
        SubsetSize(watched, old(watched));
      }
    }

    /** In an event a touch is pressed, released or neither, so the order of the points does not matter. */
    method FollowTouches(ps: seq<EventPoint>)
      requires DistinctPoints(ps)
      modifies this`watched
      ensures watched == old(watched) + WithState(ps, Pressed) - WithState(ps, Released)
    {
      assert ps[..0] == [];
      for i := 0 to |ps|
        invariant watched == old(watched) + WithState(ps[..i], Pressed) - WithState(ps[..i], Released)
      {
        assert ps[..i + 1] == ps[..i] + [ps[i]];
        NotYetListed(ps, i);
        if ps[i].state == Pressed {
          if ps[i].id !in watched {
            watched := watched + {ps[i].id};
          }
        }
        if ps[i].state == Released {
          if ps[i].id in watched {
            watched := watched - {ps[i].id};
          }
        }
      }
      assert ps[..|ps|] == ps;
    }

    method UnownedTouchEventRejected(ps: seq<EventPoint>)
      requires Valid() && status == Rejected && DistinctPoints(ps)
      modifies this
      ensures Synced() && live == old(live) && timerRunning == TimerRuns(status)
      ensures watched == old(watched) + WithState(ps, Pressed) - WithState(ps, Released)
      ensures candidates == old(candidates)
      ensures status == if watched == {} then WaitingForTouch else Rejected
    {
      hide Replay;
      FollowTouches(ps);
      if watched == {} {
        SetInternalStatus(WaitingForTouch);
      }
    }

    // ---------- touch points ----------

    method UpdateTouchPoints(ps: seq<EventPoint>)
      requires Synced() && DistinctPoints(ps)
      modifies this`live, this`cached, this`dragging, this`emitted
      ensures Synced()
      ensures live == LiveAfter(old(live), ps, style)
      ensures cached == if status == WaitingForRejection then old(cached) else live
      ensures status == WaitingForRejection ==> dragging == old(dragging) && emitted == old(emitted)
      ensures status != WaitingForRejection ==>
                var wants := WantsDrag(old(dragging), status, live);
                && dragging == StillDragging(wants, Ended(old(live), ps), live == map[])
                && emitted == old(emitted)
                              + (if wants && !old(dragging) then [DraggingChanged(true)] else [])
                              + PointSignals(wants, Ended(old(live), ps), live == map[],
                                             Only(live, Begun(old(live), ps)), Only(live, MovedIds(old(live), ps)))
    {
      hide Ended, Begun, MovedIds, Only, Told, PointSignals, LiveAfter, Replay;
      var updateable := status != WaitingForRejection;
      ghost var before := live;
      assert cached == before || !updateable;
      var ended, begun, moved := TrackPoints(ps, updateable);
      if updateable {
        if !dragging && status == Recognized {
          var allWantDrag := live != map[] && forall x <- live :: live[x].dragging;
          if allWantDrag {
            SetDragging(true);
          }
        }
        EventTellsClient(before, ps, style);
        if live == map[] {
          LastEnded(before, ps, style);
        }
        TellClients(ended, live == map[], Only(live, begun), Only(live, moved));
      }
    }

    /** The loop over the points of an event; the clients' copy follows unless it is frozen. */
    method TrackPoints(ps: seq<EventPoint>, updateable: bool)
      returns (ended: set<TouchId>, begun: set<TouchId>, moved: set<TouchId>)
      requires DistinctPoints(ps) && (updateable ==> cached == live)
      modifies this`live, this`cached
      ensures live == LiveAfter(old(live), ps, style)
      ensures cached == if updateable then live else old(cached)
      ensures ended == Ended(old(live), ps) && begun == Begun(old(live), ps) && moved == MovedIds(old(live), ps)
    {
      hide LiveAfter, Ended, Begun, MovedIds;
      ended, begun, moved := {}, {}, {};
      assert ps[..0] == [];
      NothingTracked(live, style);
      for i := 0 to |ps|
        invariant live == LiveAfter(old(live), ps[..i], style)
        invariant cached == if updateable then live else old(cached)
        invariant ended == Ended(old(live), ps[..i]) && begun == Begun(old(live), ps[..i])
        invariant moved == MovedIds(old(live), ps[..i])
      {
        var p := ps[i];
        assert ps[..i + 1] == ps[..i] + [p];
        TrackedSnoc(old(live), ps[..i], p, style);
        NotYetListed(ps, i);
        LiveFrame(old(live), ps[..i], style, p.id);
        if p.state == Released {
          if p.id in live {
            live := live - {p.id};
            ended := ended + {p.id};
            if updateable {
              if p.id in cached {
                cached := cached - {p.id};
              }
            }
          } else {
            assert live - {p.id} == live;
          }
        } else {
          if p.id !in live {
            live := live[p.id := GesturePoint(true, p.pos, false)];
            begun := begun + {p.id};
            if updateable {
              if p.id in cached {
                cached := cached[p.id := cached[p.id].(pos := p.pos)];
              } else {
                cached := cached[p.id := live[p.id]];
              }
            }
          } else if p.state == Moved {
            live := live[p.id := live[p.id].(pos := p.pos)];
            moved := moved + {p.id};
            var over := OverDragThreshold(p, style);
            if over {
              live := live[p.id := live[p.id].(dragging := true)];
            }
            if updateable {
              if p.id in cached {
                cached := cached[p.id := cached[p.id].(pos := p.pos)];
                if over {
                  cached := cached[p.id := cached[p.id].(dragging := true)];
                }
              }
            }
          }
        }
      }
      assert ps[..|ps|] == ps;
    }
  }

  lemma NothingAppeared(c: Core, appeared: set<TouchId>, released: set<TouchId>, limits: Limits)
    requires appeared + released == {}
    ensures Unowned(c, appeared, released, limits) == c
  {
  }

  lemma Apart(ps: seq<EventPoint>)
    requires DistinctPoints(ps)
    ensures WithState(ps, Pressed) !! WithState(ps, Released)
  {
    forall x <- WithState(ps, Pressed) ensures x !in WithState(ps, Released) {
      var p :| p in ps && p.state == Pressed && p.id == x;
      OnePoint(ps, p);
    }
  }

  lemma NothingTracked(before: Points, style: Style)
    ensures LiveAfter(before, [], style) == before
    ensures Ended(before, []) == Begun(before, []) == MovedIds(before, []) == {}
  {
  }

  lemma TrackedSnoc(before: Points, ps: seq<EventPoint>, p: EventPoint, style: Style)
    ensures LiveAfter(before, ps + [p], style) == LivePoint(LiveAfter(before, ps, style), p, style)
    ensures Ended(before, ps + [p]) == Ended(before, ps) + if p.state == Released && p.id in before then {p.id} else {}
    ensures Begun(before, ps + [p]) == Begun(before, ps) + if p.state != Released && p.id !in before then {p.id} else {}
    ensures MovedIds(before, ps + [p])
            == MovedIds(before, ps) + if p.state == Moved && p.id in before then {p.id} else {}
  {
    assert (ps + [p])[..|ps|] == ps;
  }

  /** When the last touch is gone, this event ended it or there was none. */
  lemma LastEnded(before: Points, ps: seq<EventPoint>, style: Style)
    requires DistinctPoints(ps) && LiveAfter(before, ps, style) == map[]
    ensures before != map[] ==> Ended(before, ps) != {}
  {
    if before != map[] {
      var x :| x in before;
      if x in Listed(ps) {
        var p :| p in ps && p.id == x;
        LiveListed(before, ps, style, p);
        assert x in Ended(before, ps);
      } else {
        LiveFrame(before, ps, style, x);
      }
    }
  }

  lemma NotYetListed(ps: seq<EventPoint>, i: nat)
    requires DistinctPoints(ps) && i < |ps|
    ensures ps[i].id !in Listed(ps[..i])
    ensures forall state :: ps[i].id !in WithState(ps[..i], state)
  {
    assert ps[..i + 1] == ps[..i] + [ps[i]];
    assert DistinctPoints(ps[..i + 1]);
    ListedSnoc(ps[..i], ps[i]);
    forall state ensures WithState(ps[..i], state) <= Listed(ps[..i]) {}
  }
}
