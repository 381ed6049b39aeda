/**
 The multi-finger gesture recogniser: how its status and its two sets of touches change,
 how the touch points follow an event, and what a client that only listens to the
 signals knows.
 */
module TouchGestureSpec {
  import opened Touches

  datatype Status =
    | WaitingForTouch | WaitingForMoreTouches | WaitingForOwnership
    | Recognized | WaitingForRejection | Rejected

  datatype PublicStatus = PublicWaitingForTouch | PublicUndecided | PublicRecognized | PublicRejected

  function GestureStatus(s: Status): PublicStatus {
    match s
    case WaitingForTouch => PublicWaitingForTouch
    case WaitingForMoreTouches => PublicUndecided
    case WaitingForOwnership => PublicUndecided
    case Recognized => PublicRecognized
    case WaitingForRejection => PublicRecognized
    case Rejected => PublicRejected
  }

  // ---------- status and id sets ----------

  datatype Limits = Limits(min: int, max: int)

  datatype Core = Core(status: Status, candidates: set<TouchId>, watched: set<TouchId>)

  datatype Op =
    | TouchedOp(pressed: set<TouchId>)
    | UnownedOp(appeared: set<TouchId>, released: set<TouchId>)
    | GainedOp(touch: TouchId)
    | LostOp(touch: TouchId)
    | TimeoutOp

  const START := Core(WaitingForTouch, {}, {})

  /** Every candidate becomes a watched touch; the gesture is over once none is left. */
  function Reject(c: Core): Core {
    var watched := c.watched + c.candidates;
    Core(if watched == {} then WaitingForTouch else Rejected, {}, watched)
  }

  function Touched(c: Core, pressed: set<TouchId>, limits: Limits): Core {
    match c.status
    case WaitingForTouch =>
      var candidates := c.candidates + pressed;
      if |candidates| > limits.max then Reject(c.(candidates := candidates))
      else if |candidates| >= limits.min then Core(WaitingForOwnership, candidates, c.watched)
      else if |candidates| > 0 then Core(WaitingForMoreTouches, candidates, c.watched)
      else c.(candidates := candidates)
    case WaitingForMoreTouches =>
      var candidates := c.candidates + pressed;
      if |candidates| > limits.max then Reject(c.(candidates := candidates))
      else if |candidates| >= limits.min then Core(WaitingForOwnership, candidates, c.watched)
      else c.(candidates := candidates)
    case WaitingForOwnership => c.(watched := c.watched + pressed)
    case Recognized => TouchedWhileRecognized(c.(watched := c.watched + pressed), limits)
    case WaitingForRejection => TouchedWhileRecognized(c.(watched := c.watched + pressed), limits)
    case Rejected => c.(watched := c.watched + pressed)
  }

  function TouchedWhileRecognized(c: Core, limits: Limits): Core {
    if |c.watched| > limits.max then Reject(c)
    else if |c.watched| >= limits.min then c.(status := Recognized)
    else c
  }

  function Unowned(c: Core, appeared: set<TouchId>, released: set<TouchId>, limits: Limits): Core {
    if appeared + released == {} then c
    else match c.status
      case WaitingForTouch => c
      case WaitingForMoreTouches =>
        var candidates := c.candidates - released;
        Core(if candidates == {} then WaitingForTouch else c.status, candidates, c.watched)
      case WaitingForOwnership =>
        var candidates, watched := c.candidates - released, c.watched - released;
        Core(if |candidates| + |watched| == 0 then WaitingForTouch else c.status, candidates, watched)
      case Recognized =>
        var watched := c.watched - released;
        Core(if |watched| < limits.min then WaitingForRejection else c.status, c.candidates, watched)
      case WaitingForRejection => c.(watched := c.watched - released)
      case Rejected =>
        var watched := c.watched + appeared - released;
        Core(if watched == {} then WaitingForTouch else c.status, c.candidates, watched)
  }

  function Gained(c: Core, x: TouchId, limits: Limits): Core {
    var watched := c.watched + {x};
    Core(if |watched| >= limits.min then Recognized else c.status, c.candidates - {x}, watched)
  }

  function Next(c: Core, op: Op, limits: Limits): Core {
    match op
    case TouchedOp(pressed) => Touched(c, pressed, limits)
    case UnownedOp(appeared, released) => Unowned(c, appeared, released, limits)
    case GainedOp(x) => Gained(c, x, limits)
    case LostOp(_) => Reject(c)
    case TimeoutOp => Reject(c)
  }

  predicate TimerRuns(s: Status) {
    s == WaitingForMoreTouches || s == WaitingForRejection
  }

  predicate Requesting(s: Status) {
    s == WaitingForOwnership || s == Recognized || s == WaitingForRejection
  }

  /**
   The registry answers only for candidates whose ownership was requested, which is the
   case from WaitingForOwnership on; the timer fires only while it runs; a touch has one
   state in an event.
   */
  predicate Legal(c: Core, op: Op) {
    match op
    case TouchedOp(_) => true
    case UnownedOp(appeared, released) => appeared !! released
    case GainedOp(x) => x in c.candidates && Requesting(c.status)
    case LostOp(x) => x in c.candidates && Requesting(c.status)
    case TimeoutOp => TimerRuns(c.status)
  }

  predicate CoreInv(c: Core, limits: Limits) {
    match c.status
    case WaitingForTouch => c.candidates == {} && c.watched == {}
    case WaitingForMoreTouches => 0 < |c.candidates| < limits.min && c.watched == {}
    case WaitingForOwnership => c.candidates + c.watched != {}
    case Recognized => |c.watched| >= limits.min
    case WaitingForRejection => |c.watched| < limits.min
    case Rejected => c.candidates == {} && c.watched != {}
  }

  lemma SubsetSize(a: set<TouchId>, b: set<TouchId>)
    requires a <= b
    ensures |a| <= |b|
  {
    assert b == a + (b - a);
  }

  lemma RejectInv(c: Core, limits: Limits)
    ensures CoreInv(Reject(c), limits)
  {
  }

  lemma TouchedInv(c: Core, pressed: set<TouchId>, limits: Limits)
    requires limits.min >= 1 && CoreInv(c, limits)
    ensures CoreInv(Touched(c, pressed, limits), limits)
  {
    match c.status
    case WaitingForTouch =>
    case WaitingForMoreTouches => SubsetSize(c.candidates, c.candidates + pressed);
    case WaitingForOwnership => assert c.candidates + c.watched <= c.candidates + (c.watched + pressed);
    case Recognized => SubsetSize(c.watched, c.watched + pressed);
    case WaitingForRejection =>
    case Rejected => assert c.watched <= c.watched + pressed;
  }

  lemma UnownedInv(c: Core, appeared: set<TouchId>, released: set<TouchId>, limits: Limits)
    requires limits.min >= 1 && CoreInv(c, limits)
    ensures CoreInv(Unowned(c, appeared, released, limits), limits)
  {
    if c.status == WaitingForRejection {
      SubsetSize(c.watched - released, c.watched);
    } else if c.status == WaitingForMoreTouches {
      SubsetSize(c.candidates - released, c.candidates);
    }
  }

  lemma GainedInv(c: Core, x: TouchId, limits: Limits)
    requires CoreInv(c, limits) && Requesting(c.status)
    ensures CoreInv(Gained(c, x, limits), limits)
  {
    assert x in c.watched + {x};
    SubsetSize(c.watched, c.watched + {x});
  }

  /** A minimum of at least one touch, or a maximum that no touch event can meet. */
  predicate SoundLimits(limits: Limits) {
    limits.min >= 1 || limits.max < 0
  }

  /** Without a proper minimum every touch event is one touch too many, so nothing is ever requested. */
  predicate Settled(c: Core, limits: Limits) {
    CoreInv(c, limits) && (limits.min < 1 ==> c.status == WaitingForTouch || c.status == Rejected)
  }

  /** Every legal step keeps the status and the id sets in agreement. */
  lemma NextKeepsInv(c: Core, op: Op, limits: Limits)
    requires SoundLimits(limits)
    requires Settled(c, limits) && Legal(c, op)
    ensures Settled(Next(c, op, limits), limits)
  {
    match op
    case TouchedOp(pressed) =>
      if limits.min >= 1 {
        TouchedInv(c, pressed, limits);
      }
    case UnownedOp(appeared, released) =>
      if limits.min >= 1 {
        UnownedInv(c, appeared, released, limits);
      }
    case GainedOp(x) => GainedInv(c, x, limits);
    case LostOp(_) => RejectInv(c, limits);
    case TimeoutOp => RejectInv(c, limits);
  }

  ghost predicate LegalRun(c: Core, ops: seq<Op>, limits: Limits)
    decreases ops
  {
    ops == [] || (Legal(c, ops[0]) && LegalRun(Next(c, ops[0], limits), ops[1..], limits))
  }

  ghost function Run(c: Core, ops: seq<Op>, limits: Limits): Core
    decreases ops
  {
    if ops == [] then c else Run(Next(c, ops[0], limits), ops[1..], limits)
  }

  lemma {:induction false} RunKeepsInv(c: Core, ops: seq<Op>, limits: Limits)
    requires SoundLimits(limits)
    requires Settled(c, limits) && LegalRun(c, ops, limits)
    ensures Settled(Run(c, ops, limits), limits)
    decreases ops
  {
    if ops != [] {
      NextKeepsInv(c, ops[0], limits);
      RunKeepsInv(Next(c, ops[0], limits), ops[1..], limits);
    }
  }

  /** With a minimum of no touches at all the recogniser claims a gesture while nothing is touched. */
  lemma ZeroMinimumBreaksInv(limits: Limits)
    requires limits.min <= 0 <= limits.max
    ensures !CoreInv(Next(START, TouchedOp({}), limits), limits)
  {
  }

  /** Status and id sets agree after every run from the start exactly when the limits are sound. */
  lemma RunsKeepInvIff(limits: Limits)
    ensures (forall ops :: LegalRun(START, ops, limits) ==> CoreInv(Run(START, ops, limits), limits))
            <==> SoundLimits(limits)
  {
    if SoundLimits(limits) {
      forall ops | LegalRun(START, ops, limits) ensures CoreInv(Run(START, ops, limits), limits) {
        RunKeepsInv(START, ops, limits);
      }
    } else {
      var ops := [TouchedOp({})];
      ZeroMinimumBreaksInv(limits);
      assert ops[1..] == [];
      assert Legal(START, ops[0]) && LegalRun(START, ops, limits);
      assert Run(Next(START, ops[0], limits), [], limits) == Next(START, ops[0], limits);
      assert !CoreInv(Run(START, ops, limits), limits);
    }
  }

  // ---------- touch points ----------

  datatype Vec = Vec(x: real, y: real)

  datatype EventPoint = EventPoint(id: TouchId, state: PointState, pos: Vec, scenePos: Vec, startScenePos: Vec,
                                   velocity: Vec)

  datatype GesturePoint = GesturePoint(pressed: bool, pos: Vec, dragging: bool)

  type Points = map<TouchId, GesturePoint>

  datatype Style = Style(dragThreshold: int, dragVelocity: int, deviceHasVelocity: bool)

  function Abs(r: real): real {
    if r < 0.0 then -r else r
  }

  predicate OverDragThreshold(p: EventPoint, style: Style) {
    || Abs(p.scenePos.x - p.startScenePos.x) > style.dragThreshold as real
    || Abs(p.scenePos.y - p.startScenePos.y) > style.dragThreshold as real
    || (style.deviceHasVelocity && style.dragVelocity != 0
        && (Abs(p.velocity.x) > style.dragVelocity as real || Abs(p.velocity.y) > style.dragVelocity as real))
  }

  predicate DistinctPoints(ps: seq<EventPoint>) {
    forall i, j :: 0 <= i < j < |ps| ==> ps[i].id != ps[j].id
  }

  function WithState(ps: seq<EventPoint>, state: PointState): set<TouchId> {
    set p <- ps | p.state == state :: p.id
  }

  function Listed(ps: seq<EventPoint>): set<TouchId> {
    set p <- ps :: p.id
  }

  /** One point's effect on the live touch points. */
  function LivePoint(live: Points, p: EventPoint, style: Style): Points {
    if p.state == Released then live - {p.id}
    else if p.id !in live then live[p.id := GesturePoint(true, p.pos, false)]
    else if p.state == Moved then
      live[p.id := live[p.id].(pos := p.pos, dragging := live[p.id].dragging || OverDragThreshold(p, style))]
    else live
  }

  function LiveAfter(live: Points, ps: seq<EventPoint>, style: Style): Points {
    if ps == [] then live
    else LivePoint(LiveAfter(live, ps[..|ps| - 1], style), ps[|ps| - 1], style)
  }

  function Ended(live: Points, ps: seq<EventPoint>): set<TouchId> {
    set p <- ps | p.state == Released && p.id in live :: p.id
  }

  function Begun(live: Points, ps: seq<EventPoint>): set<TouchId> {
    set p <- ps | p.state != Released && p.id !in live :: p.id
  }

  function MovedIds(live: Points, ps: seq<EventPoint>): set<TouchId> {
    set p <- ps | p.state == Moved && p.id in live :: p.id
  }

  function Only(m: Points, ids: set<TouchId>): Points {
    map x <- ids | x in m :: m[x]
  }

  lemma ListedSnoc(before: seq<EventPoint>, p: EventPoint)
    ensures Listed(before + [p]) == Listed(before) + {p.id}
    ensures DistinctPoints(before + [p]) ==> DistinctPoints(before) && p.id !in Listed(before)
  {
    var ps := before + [p];
    assert forall q <- before :: q in ps;
    assert ps[|before|] == p && p in ps;
    if DistinctPoints(ps) {
      forall j | 0 <= j < |before| ensures before[j].id != p.id {
        assert ps[j] == before[j];
      }
      forall i, j | 0 <= i < j < |before| ensures before[i].id != before[j].id {
        assert ps[i] == before[i] && ps[j] == before[j];
      }
    }
  }

  /** Touches an event does not list keep their point. */
  lemma {:induction false} LiveFrame(live: Points, ps: seq<EventPoint>, style: Style, x: TouchId)
    requires x !in Listed(ps)
    ensures x in LiveAfter(live, ps, style) <==> x in live
    ensures x in live ==> LiveAfter(live, ps, style)[x] == live[x]
  {
    if ps != [] {
      var before, p := ps[..|ps| - 1], ps[|ps| - 1];
      assert ps == before + [p];
      ListedSnoc(before, p);
      LiveFrame(live, before, style, x);
    }
  }

  /** A listed touch is treated as if the event listed nothing else. */
  lemma {:induction false} LiveListed(live: Points, ps: seq<EventPoint>, style: Style, p: EventPoint)
    requires DistinctPoints(ps) && p in ps
    ensures p.id in LiveAfter(live, ps, style) <==> p.id in LivePoint(live, p, style)
    ensures p.id in LivePoint(live, p, style) ==> LiveAfter(live, ps, style)[p.id] == LivePoint(live, p, style)[p.id]
  {
    var before, last := ps[..|ps| - 1], ps[|ps| - 1];
    assert ps == before + [last];
    ListedSnoc(before, last);
    if p == last {
      LiveFrame(live, before, style, p.id);
    } else {
      assert p in before && p.id in Listed(before);
      LiveListed(live, before, style, p);
    }
  }

  // ---------- what a client knows from the signals ----------

  datatype Signal =
    | StatusChanged(status: PublicStatus)
    | DraggingChanged(dragging: bool)
    | ClickedSignal
    | ReleasedSignal(released: set<TouchId>)
    | PressedSignal(pressed: Points)
    | UpdatedSignal(updated: Points)
    | TouchPointsUpdatedSignal

  datatype Client = Client(points: Points, dragging: bool, status: PublicStatus)

  function Heard(c: Client, s: Signal): Client {
    match s
    case StatusChanged(status) => c.(status := status)
    case DraggingChanged(d) => c.(dragging := d)
    case ClickedSignal => c
    case ReleasedSignal(ids) => c.(points := c.points - ids)
    case PressedSignal(ps) => c.(points := c.points + ps)
    case UpdatedSignal(ps) => c.(points := c.points + ps)
    case TouchPointsUpdatedSignal => c
  }

  function Replay(log: seq<Signal>): Client {
    if log == [] then Client(map[], false, PublicWaitingForTouch)
    else Heard(Replay(log[..|log| - 1]), log[|log| - 1])
  }

  lemma ReplaySnoc(log: seq<Signal>, s: Signal)
    ensures Replay(log + [s]) == Heard(Replay(log), s)
  {
    assert (log + [s])[..|log|] == log;
  }

  function Told(known: Points, ended: set<TouchId>, begun: Points, moved: Points): Points {
    known - ended + begun + moved
  }

  lemma ToldAbout(live: Points, ps: seq<EventPoint>, style: Style, x: TouchId)
    requires DistinctPoints(ps)
    ensures var after := LiveAfter(live, ps, style);
            var told := Told(live, Ended(live, ps), Only(after, Begun(live, ps)), Only(after, MovedIds(live, ps)));
            && (x in told <==> x in after)
            && (x in told ==> told[x] == after[x])
  {
    if x in Listed(ps) {
      var p :| p in ps && p.id == x;
      LiveListed(live, ps, style, p);
      OnePoint(ps, p);
      assert x in Ended(live, ps) <==> p.state == Released && x in live;
      assert x in Begun(live, ps) <==> p.state != Released && x !in live;
      assert x in MovedIds(live, ps) <==> p.state == Moved && x in live;
    } else {
      LiveFrame(live, ps, style, x);
      assert x !in Begun(live, ps) && x !in MovedIds(live, ps) && x !in Ended(live, ps);
    }
  }

  /** What the three point signals of one event tell a client that knew the live points before. */
  lemma EventTellsClient(live: Points, ps: seq<EventPoint>, style: Style)
    requires DistinctPoints(ps)
    ensures var after := LiveAfter(live, ps, style);
            Told(live, Ended(live, ps), Only(after, Begun(live, ps)), Only(after, MovedIds(live, ps))) == after
  {
    var after := LiveAfter(live, ps, style);
    var told := Told(live, Ended(live, ps), Only(after, Begun(live, ps)), Only(after, MovedIds(live, ps)));
    forall x
      ensures x in told <==> x in after
      ensures x in told ==> told[x] == after[x]
    {
      ToldAbout(live, ps, style, x);
    }
  }

  lemma OnePoint(ps: seq<EventPoint>, p: EventPoint)
    requires DistinctPoints(ps) && p in ps
    ensures forall q <- ps :: q.id == p.id ==> q == p
  {
    var i :| 0 <= i < |ps| && ps[i] == p;
    forall q <- ps | q.id == p.id ensures q == p {
      var j :| 0 <= j < |ps| && ps[j] == q;
      assert i == j;
    }
  }

  /** A resynchronisation tells the client exactly what it missed. */
  lemma ResyncTellsClient(cached: Points, live: Points)
    ensures var ended := cached.Keys - live.Keys;
            var begun := live.Keys - cached.Keys;
            var moved := set x <- live | x in cached && cached[x] != live[x];
            Told(cached, ended, Only(live, begun), Only(live, moved)) == live
  {
  }

  /**
   The signals that close an event or a resynchronisation, in order. `last` says that no touch
   is left: then a click is reported unless the touches were dragging, and dragging ends.
   */
  function PointSignals(dragging: bool, ended: set<TouchId>, last: bool, begun: Points, moved: Points): seq<Signal> {
    EndSignals(dragging, ended, last)
    + (if begun != map[] then [PressedSignal(begun)] else [])
    + (if moved != map[] then [UpdatedSignal(moved)] else [])
    + (if begun != map[] || ended != {} || moved != map[] then [TouchPointsUpdatedSignal] else [])
  }

  function EndSignals(dragging: bool, ended: set<TouchId>, last: bool): seq<Signal> {
    if ended == {} then []
    else if !last then [ReleasedSignal(ended)]
    else if dragging then [DraggingChanged(false), ReleasedSignal(ended)]
    else [ClickedSignal, ReleasedSignal(ended)]
  }

  predicate StillDragging(dragging: bool, ended: set<TouchId>, last: bool) {
    dragging && !(ended != {} && last)
  }

  /** Whether dragging is on once an event was worked in, before the last touch may have ended. */
  predicate WantsDrag(dragging: bool, status: Status, live: Points) {
    dragging || (status == Recognized && live != map[] && forall x <- live :: live[x].dragging)
  }

  lemma ReplayTwo(log: seq<Signal>, a: Signal, b: Signal)
    ensures Replay(log + [a, b]) == Heard(Heard(Replay(log), a), b)
  {
    assert log + [a, b] == log + [a] + [b];
    ReplaySnoc(log + [a], b);
    ReplaySnoc(log, a);
  }

  lemma EndSignalsTell(log: seq<Signal>, ended: set<TouchId>, last: bool)
    ensures var c := Replay(log);
            Replay(log + EndSignals(c.dragging, ended, last))
            == Client(c.points - ended, StillDragging(c.dragging, ended, last), c.status)
  {
    var c := Replay(log);
    if ended == {} {
      assert log + [] == log && c.points - {} == c.points;
    } else if !last {
      ReplaySnoc(log, ReleasedSignal(ended));
    } else {
      ReplayTwo(log, DraggingChanged(false), ReleasedSignal(ended));
      ReplayTwo(log, ClickedSignal, ReleasedSignal(ended));
    }
  }

  lemma MaybeTell(log: seq<Signal>, ps: Points)
    ensures Replay(log + if ps != map[] then [PressedSignal(ps)] else [])
            == Replay(log).(points := Replay(log).points + ps)
    ensures Replay(log + if ps != map[] then [UpdatedSignal(ps)] else [])
            == Replay(log).(points := Replay(log).points + ps)
  {
    if ps == map[] {
      assert log + [] == log && Replay(log).points + map[] == Replay(log).points;
    } else {
      ReplaySnoc(log, PressedSignal(ps));
      ReplaySnoc(log, UpdatedSignal(ps));
    }
  }

  lemma TouchPointsUpdatedTells(log: seq<Signal>, any: bool)
    ensures Replay(log + if any then [TouchPointsUpdatedSignal] else []) == Replay(log)
  {
    ReplaySnoc(log, TouchPointsUpdatedSignal);
    assert log + [] == log;
  }

  lemma Regroup(log: seq<Signal>, a: seq<Signal>, b: seq<Signal>, c: seq<Signal>, d: seq<Signal>)
    ensures log + (a + b + c + d) == log + a + b + c + d
  {
  }

  /** A client that hears the closing signals knows the new points and whether dragging goes on. */
  lemma PointSignalsTell(log: seq<Signal>, ended: set<TouchId>, last: bool, begun: Points, moved: Points)
    ensures var c := Replay(log);
            Replay(log + PointSignals(c.dragging, ended, last, begun, moved))
            == Client(Told(c.points, ended, begun, moved), StillDragging(c.dragging, ended, last), c.status)
  {
    hide Replay, EndSignals, StillDragging;
    var c := Replay(log);
    var e := EndSignals(c.dragging, ended, last);
    var b := if begun != map[] then [PressedSignal(begun)] else [];
    var m := if moved != map[] then [UpdatedSignal(moved)] else [];
    EndSignalsTell(log, ended, last);
    MaybeTell(log + e, begun);
    MaybeTell(log + e + b, moved);
    var any := begun != map[] || ended != {} || moved != map[];
    TouchPointsUpdatedTells(log + e + b + m, any);
    Regroup(log, e, b, m, if any then [TouchPointsUpdatedSignal] else []);
  }
}
