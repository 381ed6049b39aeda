/**
 What the touch gate does to its state in each step, and what it sends on.

 The gate holds back touch events until the registry has answered its request for
 every touch in them. `Sys` puts the gate together with what its surroundings know:
 the touches physically down, the requests still unanswered and the touches that are
 down in the stream already sent on.
 */
module TouchGateSpec {
  import opened Touches

  datatype Ownership = OwnershipUndefined | OwnershipRequested | OwnershipGranted

  datatype TouchInfo = TouchInfo(ownership: Ownership, ended: bool)

  type InfoMap = map<TouchId, TouchInfo>

  datatype Gate = Gate(stored: seq<TouchEvent>, info: InfoMap)

  /** The gate after a step and the events it sent on, in order. */
  datatype Outcome = Outcome(gate: Gate, sent: seq<TouchEvent>)

  // ---------- releasing stored events ----------

  /** A missing key reads as a default entry, which is not owned. */
  predicate Owned(info: InfoMap, x: TouchId) {
    x in info && info[x].ownership == OwnershipGranted
  }

  predicate FullyOwned(info: InfoMap, e: TouchEvent) {
    forall p <- e.points :: Owned(info, p.id)
  }

  function DispatchFullyOwned(g: Gate): Outcome
    decreases |g.stored|
  {
    if g.stored != [] && FullyOwned(g.info, g.stored[0]) then
      var e := g.stored[0];
      var r := DispatchFullyOwned(Gate(g.stored[1..], g.info - IdsIn(e.points, Released)));
      Outcome(r.gate, [e] + r.sent)
    else
      Outcome(g, [])
  }

  function Answer(g: Gate, x: TouchId, gained: bool): Outcome {
    if x !in g.info then Outcome(g, [])
    else DispatchFullyOwned(Answered(g, x, gained))
  }

  function Answered(g: Gate, x: TouchId, gained: bool): Gate
    requires x in g.info
  {
    if gained then g.(info := g.info[x := g.info[x].(ownership := OwnershipGranted)])
    else Gate(Erase(g.stored, {x}), g.info - {x})
  }

  // ---------- taking in an event ----------

  datatype Admission = Admission(info: InfoMap, valid: seq<TouchPoint>, ownsAll: bool)

  function Request(info: InfoMap, p: TouchPoint): InfoMap {
    if p.state == Pressed then info[p.id := TouchInfo(OwnershipRequested, false)] else info
  }

  /** `now` holds the answers the registry gives while it is being asked. */
  function AnsweredNow(info: InfoMap, p: TouchPoint, now: map<TouchId, bool>): InfoMap {
    if p.state == Pressed && p.id in now then
      if now[p.id] then info[p.id := TouchInfo(OwnershipGranted, false)] else info - {p.id}
    else info
  }

  function AdmitPoint(a: Admission, p: TouchPoint, now: map<TouchId, bool>): Admission {
    var info := AnsweredNow(Request(a.info, p), p, now);
    if p.id !in info then a.(info := info)
    else Admission(
        if p.state == Released then info[p.id := info[p.id].(ended := true)] else info,
        a.valid + [p],
        a.ownsAll && info[p.id].ownership == OwnershipGranted)
  }

  function Admit(info: InfoMap, points: seq<TouchPoint>, now: map<TouchId, bool>): Admission {
    if points == [] then Admission(info, [], true)
    else AdmitPoint(Admit(info, points[..|points| - 1], now), points[|points| - 1], now)
  }

  function Touch(g: Gate, e: TouchEvent, now: map<TouchId, bool>): Outcome {
    var a := Admit(g.info, e.points, now);
    var kept := e.(points := a.valid);
    if a.valid == [] then Outcome(g.(info := a.info), [])
    else if a.ownsAll && g.stored == [] then
      Outcome(Gate([], a.info - IdsIn(a.valid, Released)), [kept])
    else Outcome(Gate(g.stored + [kept], a.info), [])
  }

  // ---------- the gate among its surroundings ----------

  datatype Op =
    | TouchOp(event: TouchEvent, now: map<TouchId, bool>)
    | AnswerOp(touch: TouchId, gained: bool)
    | ResetOp

  datatype Sys = Sys(gate: Gate, down: set<TouchId>, pending: set<TouchId>, delivered: set<TouchId>)

  const FRESH := Sys(Gate([], map[]), {}, {}, {})

  /**
   What the surroundings promise: events describe the touches really down, nobody
   presses a touch whose previous life the gate still tracks, and the registry answers
   only requests that are open.
   */
  predicate Legal(s: Sys, op: Op) {
    match op
    case TouchOp(e, now) =>
      && GoodEvent(s.down, e)
      && now.Keys <= IdsIn(e.points, Pressed)
      && IdsIn(e.points, Pressed) !! s.gate.info.Keys
    case AnswerOp(x, _) => x in s.pending
    case ResetOp => true
  }

  ghost function Step(s: Sys, op: Op): (Sys, seq<TouchEvent>) {
    match op
    case TouchOp(e, now) =>
      var r := Touch(s.gate, e, now);
      var pending := s.pending + IdsIn(e.points, Pressed) - now.Keys;
      (Sys(r.gate, After(s.down, e), pending, AfterAll(s.delivered, r.sent)), r.sent)
    case AnswerOp(x, gained) =>
      var r := Answer(s.gate, x, gained);
      (Sys(r.gate, s.down, s.pending - {x}, AfterAll(s.delivered, r.sent)), r.sent)
    case ResetOp => (Sys(Gate([], map[]), s.down, s.pending, {}), [])
  }

  // ---------- invariants ----------

  /** What releasing events relies on, whether or not the first stored event is still blocked. */
  ghost predicate Sound(g: Gate, delivered: set<TouchId>) {
    && GoodStream(delivered, g.stored)
    && NoReuse(g.stored)
    && Tabled(g, delivered)
  }

  /** The table knows every stored point, every stored release and every delivered touch. */
  ghost predicate Tabled(g: Gate, delivered: set<TouchId>) {
    && (forall x :: Mentions(g.stored, x) ==> x in g.info)
    && (forall x :: Releases(g.stored, x) ==> x in g.info && g.info[x].ended)
    && (forall x <- delivered :: Owned(g.info, x))
    && (forall x <- g.info :: g.info[x].ownership != OwnershipUndefined)
  }

  predicate Blocked(g: Gate) {
    g.stored != [] ==> exists p <- g.stored[0].points :: p.id in g.info && g.info[p.id].ownership == OwnershipRequested
  }

  ghost predicate Inv(s: Sys) {
    Consistent(s) && Blocked(s.gate)
  }

  ghost predicate Consistent(s: Sys) {
    && Sound(s.gate, s.delivered)
    && (forall x <- s.gate.info :: s.gate.info[x].ended <==> x !in s.down)
    && (forall x <- s.gate.info :: s.gate.info[x].ended ==> Releases(s.gate.stored, x))
    && AfterAll(s.delivered, s.gate.stored) == Alive(s.gate.info)
    && (forall x <- s.gate.info :: s.gate.info[x].ownership == OwnershipRequested <==> x in s.pending)
  }

  function Alive(info: InfoMap): set<TouchId> {
    set x <- info | !info[x].ended
  }

  /** The three assertions made for every released point of an event that is sent on. */
  predicate ReleaseAssertions(info: InfoMap, points: seq<TouchPoint>) {
    forall p <- points | p.state == Released ::
      p.id in info && info[p.id].ended && info[p.id].ownership == OwnershipGranted
  }

  // ---------- releasing stored events keeps things sound ----------

  lemma MentionsHead(es: seq<TouchEvent>, x: TouchId)
    requires es != []
    ensures Mentions(es, x) <==> x in Ids(es[0].points) || Mentions(es[1..], x)
    ensures Releases(es, x) <==> x in IdsIn(es[0].points, Released) || Releases(es[1..], x)
  {
    assert es == [es[0]] + es[1..];
    MentionsCons(es[0], es[1..], x);
  }

  lemma SendHead(g: Gate, delivered: set<TouchId>)
    requires Sound(g, delivered) && g.stored != [] && FullyOwned(g.info, g.stored[0])
    ensures Sound(Gate(g.stored[1..], g.info - IdsIn(g.stored[0].points, Released)), After(delivered, g.stored[0]))
    ensures ReleaseAssertions(g.info, g.stored[0].points)
  {
    var e := g.stored[0];
    var info := g.info - IdsIn(e.points, Released);
    forall x | Mentions(g.stored[1..], x) ensures x in info {
      MentionsHead(g.stored, x);
    }
    forall x | Releases(g.stored[1..], x) ensures x in info && info[x].ended {
      MentionsHead(g.stored, x);
      assert Mentions(g.stored[1..], x);
    }
    forall p <- e.points | p.state == Released
      ensures p.id in g.info && g.info[p.id].ended && g.info[p.id].ownership == OwnershipGranted
    {
      assert p.id in IdsIn(e.points, Released);
      MentionsHead(g.stored, p.id);
    }
    assert NoReuse(g.stored[1..]);
  }

  lemma HeadBlocks(g: Gate, delivered: set<TouchId>)
    requires Sound(g, delivered)
    requires g.stored != [] ==> !FullyOwned(g.info, g.stored[0])
    ensures Blocked(g)
  {
    if g.stored != [] {
      var p :| p in g.stored[0].points && !Owned(g.info, p.id);
      assert p.id in Ids(g.stored[0].points);
      MentionsHead(g.stored, p.id);
    }
  }

  /** The stored events split, in order, into those sent on and those still held. */
  lemma {:induction false} DispatchSplits(g: Gate, delivered: set<TouchId>)
    requires Sound(g, delivered)
    ensures g.stored == DispatchFullyOwned(g).sent + DispatchFullyOwned(g).gate.stored
    ensures GoodStream(delivered, DispatchFullyOwned(g).sent)
    ensures Sound(DispatchFullyOwned(g).gate, AfterAll(delivered, DispatchFullyOwned(g).sent))
    ensures Blocked(DispatchFullyOwned(g).gate)
    decreases |g.stored|
  {
    if g.stored != [] && FullyOwned(g.info, g.stored[0]) {
      var e := g.stored[0];
      var rest := Gate(g.stored[1..], g.info - IdsIn(e.points, Released));
      SendHead(g, delivered);
      DispatchSplits(rest, After(delivered, e));
      SentCons(delivered, e, DispatchFullyOwned(rest).sent);
    } else {
      HeadBlocks(g, delivered);
    }
  }

  lemma SentCons(delivered: set<TouchId>, e: TouchEvent, sent: seq<TouchEvent>)
    ensures GoodStream(delivered, [e] + sent)
            <==> e.points != [] && GoodEvent(delivered, e) && GoodStream(After(delivered, e), sent)
    ensures AfterAll(delivered, [e] + sent) == AfterAll(After(delivered, e), sent)
  {
    assert ([e] + sent)[0] == e && ([e] + sent)[1..] == sent;
  }

  /** Only touches whose release was sent on are forgotten, and only owned touches are sent on. */
  lemma {:induction false} DispatchForgets(g: Gate, delivered: set<TouchId>, x: TouchId)
    requires Sound(g, delivered)
    ensures var r := DispatchFullyOwned(g);
            && (x in r.gate.info <==> x in g.info && !Releases(r.sent, x))
            && (x in r.gate.info ==> r.gate.info[x] == g.info[x])
            && (Mentions(r.sent, x) ==> Owned(g.info, x))
            && (Releases(r.sent, x) ==> x in g.info && g.info[x].ended)
    decreases |g.stored|
  {
    var r := DispatchFullyOwned(g);
    if g.stored != [] && FullyOwned(g.info, g.stored[0]) {
      var e := g.stored[0];
      var rest := Gate(g.stored[1..], g.info - IdsIn(e.points, Released));
      SendHead(g, delivered);
      DispatchForgets(rest, After(delivered, e), x);
      assert r.sent[0] == e && r.sent[1..] == DispatchFullyOwned(rest).sent;
      MentionsHead(r.sent, x);
    }
  }

  // ---------- taking in an event ----------

  /** Who is tracked once the points of an event have been admitted, and in what state. */
  ghost predicate Admitted(info: InfoMap, points: seq<TouchPoint>, now: map<TouchId, bool>, after: InfoMap) {
    && (forall x :: x in after <==> x in info || (x in IdsIn(points, Pressed) && (x !in now || now[x])))
    && (forall x <- info :: x in after && after[x] == info[x].(ended := info[x].ended || x in IdsIn(points, Released)))
    && (forall x <- after | x !in info ::
          after[x] == TouchInfo(if x in now then OwnershipGranted else OwnershipRequested, false))
  }

  lemma IdsSnoc(before: seq<TouchPoint>, p: TouchPoint)
    ensures Ids(before + [p]) == Ids(before) + {p.id}
    ensures forall state ::
              IdsIn(before + [p], state) == IdsIn(before, state) + (if p.state == state then {p.id} else {})
    ensures DistinctIds(before + [p]) ==> DistinctIds(before) && p.id !in Ids(before)
  {
    var points := before + [p];
    assert forall q <- before :: q in points;
    assert p in points;
    assert points[|before|] == p;
    forall j | 0 <= j < |before| && DistinctIds(points) ensures before[j].id != p.id {
      assert points[j] == before[j];
    }
    if DistinctIds(points) {
      forall i, j | 0 <= i < j < |before| ensures before[i].id != before[j].id {
        assert points[i] == before[i] && points[j] == before[j];
      }
    }
  }

  lemma AdmitPointMeaning(info: InfoMap, before: seq<TouchPoint>, p: TouchPoint, now: map<TouchId, bool>, a: Admission)
    requires p.id !in Ids(before)
    requires p.state == Pressed ==> p.id !in info
    requires Admitted(info, before, now, a.info)
    ensures Admitted(info, before + [p], now, AdmitPoint(a, p, now).info)
  {
    IdsSnoc(before, p);
    var b := AdmitPoint(a, p, now);
    assert forall state :: p.id !in IdsIn(before, state);
    forall x | x != p.id
      ensures x in b.info <==> x in a.info
      ensures x in b.info ==> b.info[x] == a.info[x]
    {
    }
  }

  lemma AdmitPointValid(before: seq<TouchPoint>, p: TouchPoint, now: map<TouchId, bool>, a: Admission)
    requires p.id !in Ids(before)
    requires a.valid == Without(before, Ids(before) - a.info.Keys)
    ensures var b := AdmitPoint(a, p, now);
            b.valid == Without(before + [p], Ids(before + [p]) - b.info.Keys)
  {
    hide Without, DistinctIds;
    KnownSnoc(before, p, a.info.Keys, AdmitPoint(a, p, now).info.Keys);
  }

  /** Letting in the points of known touches, one point later. */
  lemma KnownSnoc(before: seq<TouchPoint>, p: TouchPoint, known: set<TouchId>, known': set<TouchId>)
    requires forall q <- before :: q.id in known <==> q.id in known'
    ensures Without(before + [p], Ids(before + [p]) - known')
            == Without(before, Ids(before) - known) + if p.id in known' then [p] else []
  {
    hide Without, DistinctIds, IdsIn;
    var xs := Ids(before + [p]) - known';
    IdsSnoc(before, p);
    assert forall q <- before :: q.id in Ids(before);
    WithoutAlike(before, xs, Ids(before) - known);
    WithoutAppend(before, [p], xs);
    WithoutSingle(p, xs);
  }

  lemma WithoutSingle(p: TouchPoint, xs: set<TouchId>)
    ensures Without([p], xs) == if p.id in xs then [] else [p]
  {
    assert [p][1..] == [];
  }

  lemma AdmitPointOwns(before: seq<TouchPoint>, p: TouchPoint, now: map<TouchId, bool>, a: Admission)
    requires p.id !in Ids(before)
    requires forall q <- a.valid :: q in before
    requires a.ownsAll <==> forall q <- a.valid :: Owned(a.info, q.id)
    ensures var b := AdmitPoint(a, p, now);
            b.ownsAll <==> forall q <- b.valid :: Owned(b.info, q.id)
  {
    var b := AdmitPoint(a, p, now);
    forall q <- a.valid ensures Owned(b.info, q.id) <==> Owned(a.info, q.id) {
      assert q.id in Ids(before);
    }
    assert p.id in b.info ==> b.valid == a.valid + [p];
  }

  /** Admission of a whole event: who is tracked, and exactly the points of tracked touches are let in. */
  lemma {:induction false} AdmitMeaning(info: InfoMap, points: seq<TouchPoint>, now: map<TouchId, bool>)
    requires DistinctIds(points)
    requires IdsIn(points, Pressed) !! info.Keys
    ensures var a := Admit(info, points, now);
            && Admitted(info, points, now, a.info)
            && a.valid == Without(points, Ids(points) - a.info.Keys)
            && (a.ownsAll <==> forall p <- a.valid :: Owned(a.info, p.id))
  {
    if points != [] {
      var before, p := points[..|points| - 1], points[|points| - 1];
      assert points == before + [p];
      IdsSnoc(before, p);
      AdmitMeaning(info, before, now);
      AdmitPointMeaning(info, before, p, now, Admit(info, before, now));
      AdmitPointValid(before, p, now, Admit(info, before, now));
      AdmitPointOwns(before, p, now, Admit(info, before, now));
    }
  }

  lemma {:induction false} WithoutAlike(points: seq<TouchPoint>, xs: set<TouchId>, ys: set<TouchId>)
    requires forall p <- points :: p.id in xs <==> p.id in ys
    ensures Without(points, xs) == Without(points, ys)
  {
    if points != [] {
      assert points[0] in points;
      WithoutAlike(points[1..], xs, ys);
    }
  }
}
