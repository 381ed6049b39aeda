/**
 The gate over whole runs: the invariant every step keeps, conservation of the input
 stream, absence of stuck events, and what the dispatcher behind the gate can rely on.
 */
module TouchGateRuns {
  import opened Touches
  import opened TouchGateSpec
  import D = TouchDispatchSpec

  // ---------- an answer from the registry ----------

  lemma AppendMentions(a: seq<TouchEvent>, b: seq<TouchEvent>, x: TouchId)
    ensures Mentions(a + b, x) <==> Mentions(a, x) || Mentions(b, x)
    ensures Releases(a + b, x) <==> Releases(a, x) || Releases(b, x)
  {
    assert forall e <- a :: e in a + b;
    assert forall e <- b :: e in a + b;
  }

  lemma ReleaseKeepsInv(s: Sys)
    requires Consistent(s)
    ensures var r := DispatchFullyOwned(s.gate);
            Inv(Sys(r.gate, s.down, s.pending, AfterAll(s.delivered, r.sent)))
  {
    var g, r := s.gate, DispatchFullyOwned(s.gate);
    DispatchSplits(g, s.delivered);
    forall x
      ensures x in r.gate.info <==> x in g.info && !Releases(r.sent, x)
      ensures x in r.gate.info ==> r.gate.info[x] == g.info[x]
      ensures Releases(r.sent, x) ==> x in g.info && g.info[x].ended
    {
      DispatchForgets(g, s.delivered, x);
    }
    StreamAppend(s.delivered, r.sent, r.gate.stored);
    forall x <- r.gate.info | r.gate.info[x].ended ensures Releases(r.gate.stored, x) {
      AppendMentions(r.sent, r.gate.stored, x);
    }
    assert Alive(r.gate.info) == Alive(g.info);
  }

  lemma GrantedConsistent(s: Sys, x: TouchId)
    requires Inv(s) && x in s.pending && x in s.gate.info
    ensures Consistent(s.(gate := Answered(s.gate, x, true), pending := s.pending - {x}))
  {
    hide GoodStream, AfterAll, NoReuse, Mentions, Releases;
    assert Alive(Answered(s.gate, x, true).info) == Alive(s.gate.info);
  }

  /** Erasing a touch that was never delivered. */
  lemma DeniedSound(g: Gate, delivered: set<TouchId>, x: TouchId)
    requires Sound(g, delivered) && x in g.info && x !in delivered
    ensures var h := Answered(g, x, false);
            && Sound(h, delivered)
            && AfterAll(delivered, h.stored) == AfterAll(delivered, g.stored) - {x}
            && (forall y :: Releases(h.stored, y) <==> Releases(g.stored, y) && y != x)
  {
    EraseKeepsStream(delivered, g.stored, {x});
    EraseNoReuse(g.stored, {x});
    DeniedTabled(g, delivered, x);
  }

  lemma DeniedTabled(g: Gate, delivered: set<TouchId>, x: TouchId)
    requires Tabled(g, delivered) && x in g.info && x !in delivered
    ensures var h := Answered(g, x, false);
            && Tabled(h, delivered)
            && (forall y :: Releases(h.stored, y) <==> Releases(g.stored, y) && y != x)
  {
    var h := Answered(g, x, false);
    forall y
      ensures Mentions(h.stored, y) <==> Mentions(g.stored, y) && y != x
      ensures Releases(h.stored, y) <==> Releases(g.stored, y) && y != x
    {
      EraseMentions(g.stored, {x}, y);
    }
  }

  lemma DeniedConsistent(s: Sys, x: TouchId)
    requires Inv(s) && x in s.gate.info && x !in s.delivered
    ensures Consistent(s.(gate := Answered(s.gate, x, false), pending := s.pending - {x}))
  {
    DeniedSound(s.gate, s.delivered, x);
    assert Alive(s.gate.info - {x}) == Alive(s.gate.info) - {x};
  }

  lemma AnsweredConsistent(s: Sys, x: TouchId, gained: bool)
    requires Inv(s) && x in s.pending && x in s.gate.info
    ensures Consistent(s.(gate := Answered(s.gate, x, gained), pending := s.pending - {x}))
  {
    if gained {
      GrantedConsistent(s, x);
    } else {
      DeniedConsistent(s, x);
    }
  }

  lemma AnswerKeepsInv(s: Sys, x: TouchId, gained: bool)
    requires Inv(s) && Legal(s, AnswerOp(x, gained))
    ensures Inv(Step(s, AnswerOp(x, gained)).0)
    ensures GoodStream(s.delivered, Step(s, AnswerOp(x, gained)).1)
  {
    if x in s.gate.info {
      AnsweredConsistent(s, x, gained);
      ReleaseKeepsInv(s.(gate := Answered(s.gate, x, gained), pending := s.pending - {x}));
      DispatchSplits(Answered(s.gate, x, gained), s.delivered);
    }
  }

  // ---------- a touch event ----------

  /** The part of an event the gate lets in, seen as an erasure. */
  function Denied(s: Sys, e: TouchEvent, now: map<TouchId, bool>): set<TouchId> {
    Ids(e.points) - Admit(s.gate.info, e.points, now).info.Keys
  }

  lemma StatesDiffer(points: seq<TouchPoint>, x: TouchId)
    requires DistinctIds(points) && x in IdsIn(points, Pressed)
    ensures x !in IdsIn(points, Released)
  {
  }

  /** An id listed by a good event is newly pressed or was down. */
  lemma ListedIds(down: set<TouchId>, e: TouchEvent, x: TouchId)
    requires GoodEvent(down, e)
    ensures x in Ids(e.points) <==> x in IdsIn(e.points, Pressed) || x in down
    ensures !(x in IdsIn(e.points, Pressed) && x in down)
    ensures x in IdsIn(e.points, Released) ==> x in down && x !in IdsIn(e.points, Pressed)
  {
    if x in IdsIn(e.points, Pressed) {
      StatesDiffer(e.points, x);
    }
    if x in IdsIn(e.points, Released) {
      var q :| q in e.points && q.state == Released && q.id == x;
    }
  }

  /** What each touch looks like to the gate after admission. */
  lemma AdmittedTouch(s: Sys, e: TouchEvent, now: map<TouchId, bool>, x: TouchId)
    requires Inv(s) && Legal(s, TouchOp(e, now))
    ensures var info, after := s.gate.info, Admit(s.gate.info, e.points, now).info;
            && (x in info ==> x in after && x !in IdsIn(e.points, Pressed) && after[x].ownership == info[x].ownership)
            && (x in info ==> (after[x].ended <==> info[x].ended || x in IdsIn(e.points, Released)))
            && (x in after ==> (after[x].ended <==> x !in After(s.down, e)))
            && (x in after ==> after[x].ownership != OwnershipUndefined)
            && (x in after && x !in info ==> x in IdsIn(e.points, Pressed) && x in Ids(e.points))
            && (x in after ==> (after[x].ownership == OwnershipRequested
                                <==> x in s.pending + IdsIn(e.points, Pressed) - now.Keys))
  {
    AdmitMeaning(s.gate.info, e.points, now);
    ListedIds(s.down, e, x);
  }

  lemma AliveTouches(s: Sys, e: TouchEvent, now: map<TouchId, bool>)
    requires Inv(s) && Legal(s, TouchOp(e, now))
    ensures s.down - Denied(s, e, now) == Alive(s.gate.info)
    ensures After(s.down, e) - Denied(s, e, now) == Alive(Admit(s.gate.info, e.points, now).info)
  {
    var info, after := s.gate.info, Admit(s.gate.info, e.points, now).info;
    var xs := Denied(s, e, now);
    forall x
      ensures x in s.down - xs <==> x in Alive(info)
      ensures x in After(s.down, e) - xs <==> x in Alive(after)
    {
      AdmittedTouch(s, e, now, x);
      ListedIds(s.down, e, x);
    }
  }

  lemma KeptEvent(s: Sys, e: TouchEvent, now: map<TouchId, bool>)
    requires Inv(s) && Legal(s, TouchOp(e, now))
    ensures var a := Admit(s.gate.info, e.points, now);
            var kept := e.(points := a.valid);
            && kept == Erased(e, Denied(s, e, now))
            && GoodEvent(Alive(s.gate.info), kept)
            && After(Alive(s.gate.info), kept) == Alive(a.info)
            && Ids(kept.points) == Ids(e.points) * a.info.Keys
            && IdsIn(kept.points, Released) == IdsIn(e.points, Released) * a.info.Keys
  {
    AdmitMeaning(s.gate.info, e.points, now);
    ErasedEvent(s.down, e, Denied(s, e, now));
    AliveTouches(s, e, now);
    assert forall p <- e.points :: p.id in Ids(e.points);
  }

  /** Storing an event behind the others. */
  lemma AppendSound(g: Gate, delivered: set<TouchId>, kept: TouchEvent)
    requires Sound(g, delivered)
    requires kept.points != [] && GoodEvent(AfterAll(delivered, g.stored), kept)
    requires Ids(kept.points) <= g.info.Keys
    requires forall x <- IdsIn(kept.points, Released) :: g.info[x].ended
    requires forall x <- Ids(kept.points) :: !Releases(g.stored, x)
    ensures Sound(g.(stored := g.stored + [kept]), delivered)
  {
    StreamSnoc(delivered, g.stored, kept);
    forall x
      ensures Mentions(g.stored + [kept], x) <==> Mentions(g.stored, x) || x in Ids(kept.points)
      ensures Releases(g.stored + [kept], x) <==> Releases(g.stored, x) || x in IdsIn(kept.points, Released)
    {
      ReleasesSnoc(g.stored, kept, x);
    }
    NoReuseSnoc(g.stored, kept);
  }

  lemma AdmittedSound(s: Sys, e: TouchEvent, now: map<TouchId, bool>)
    requires Inv(s) && Legal(s, TouchOp(e, now))
    ensures var h := s.gate.(info := Admit(s.gate.info, e.points, now).info);
            Sound(h, s.delivered) && Blocked(h)
  {
    var g, info := s.gate, Admit(s.gate.info, e.points, now).info;
    forall x
      ensures x in g.info ==>
                x in info && info[x].ownership == g.info[x].ownership && (g.info[x].ended ==> info[x].ended)
      ensures x in info ==> info[x].ownership != OwnershipUndefined
    {
      AdmittedTouch(s, e, now, x);
    }
    GrownSound(g, s.delivered, info);
  }

  lemma GrownSound(g: Gate, delivered: set<TouchId>, info: InfoMap)
    requires Sound(g, delivered) && Blocked(g)
    requires forall x <- g.info ::
               x in info && info[x].ownership == g.info[x].ownership && (g.info[x].ended ==> info[x].ended)
    requires forall x <- info :: info[x].ownership != OwnershipUndefined
    ensures Sound(g.(info := info), delivered) && Blocked(g.(info := info))
  {
  }

  lemma StoreKeepsInv(s: Sys, e: TouchEvent, now: map<TouchId, bool>)
    requires Inv(s) && Legal(s, TouchOp(e, now))
    requires var a := Admit(s.gate.info, e.points, now);
             a.valid != [] && (s.gate.stored != [] || !a.ownsAll)
    ensures Inv(Step(s, TouchOp(e, now)).0)
  {
    var g, a := s.gate, Admit(s.gate.info, e.points, now);
    var kept := e.(points := a.valid);
    var h := Gate(g.stored, a.info);
    AdmittedSound(s, e, now);
    KeptEvent(s, e, now);
    forall x
      ensures x in Ids(kept.points) ==> x in a.info && !Releases(g.stored, x)
      ensures x in IdsIn(kept.points, Released) ==> x in a.info && a.info[x].ended
    {
      AdmittedTouch(s, e, now, x);
      ListedIds(s.down, e, x);
    }
    AppendSound(h, s.delivered, kept);
    StreamSnoc(s.delivered, g.stored, kept);
    StoredBlocked(s, e, now);
    forall x <- a.info
      ensures a.info[x].ended <==> x !in After(s.down, e)
      ensures a.info[x].ended ==> Releases(g.stored + [kept], x)
      ensures a.info[x].ownership == OwnershipRequested <==> x in s.pending + IdsIn(e.points, Pressed) - now.Keys
    {
      AdmittedTouch(s, e, now, x);
      ListedIds(s.down, e, x);
      ReleasesSnoc(g.stored, kept, x);
    }
  }

  lemma StoredBlocked(s: Sys, e: TouchEvent, now: map<TouchId, bool>)
    requires Inv(s) && Legal(s, TouchOp(e, now))
    requires var a := Admit(s.gate.info, e.points, now);
             a.valid != [] && (s.gate.stored != [] || !a.ownsAll)
    ensures Blocked(Touch(s.gate, e, now).gate)
  {
    var g, a := s.gate, Admit(s.gate.info, e.points, now);
    var kept := e.(points := a.valid);
    AdmittedSound(s, e, now);
    if g.stored != [] {
      assert (g.stored + [kept])[0] == g.stored[0];
    } else {
      AdmitMeaning(g.info, e.points, now);
      var p :| p in a.valid && !Owned(a.info, p.id);
      assert p.id in Ids(e.points);
      assert (g.stored + [kept])[0] == kept;
    }
  }

  /** With nothing stored, what is known of each touch when an event passes straight through. */
  lemma PassedTouch(s: Sys, e: TouchEvent, now: map<TouchId, bool>, x: TouchId)
    requires Inv(s) && Legal(s, TouchOp(e, now))
    requires s.gate.stored == [] && Admit(s.gate.info, e.points, now).ownsAll
    requires x in Admit(s.gate.info, e.points, now).info
    ensures var a := Admit(s.gate.info, e.points, now);
            && (a.info[x].ended <==> x in IdsIn(a.valid, Released))
            && (!a.info[x].ended ==> Owned(a.info, x))
  {
    var a := Admit(s.gate.info, e.points, now);
    KeptEvent(s, e, now);
    AdmitMeaning(s.gate.info, e.points, now);
    AdmittedTouch(s, e, now, x);
    ListedIds(s.down, e, x);
    assert !Releases(s.gate.stored, x);
    if !a.info[x].ended {
      assert x in Alive(a.info);
      assert x in Ids(a.valid);
      var p :| p in a.valid && p.id == x;
    }
  }

  lemma PassedInfo(s: Sys, e: TouchEvent, now: map<TouchId, bool>)
    requires Inv(s) && Legal(s, TouchOp(e, now))
    requires s.gate.stored == [] && Admit(s.gate.info, e.points, now).ownsAll
    ensures var a := Admit(s.gate.info, e.points, now);
            var info := a.info - IdsIn(a.valid, Released);
            && info.Keys == Alive(a.info) == Alive(info)
            && (forall x <- info :: Owned(info, x) && x in After(s.down, e))
            && (forall x <- info :: x !in s.pending + IdsIn(e.points, Pressed) - now.Keys)
  {
    var a := Admit(s.gate.info, e.points, now);
    forall x <- a.info
      ensures a.info[x].ended <==> x in IdsIn(a.valid, Released)
      ensures !a.info[x].ended ==> Owned(a.info, x) && x in After(s.down, e)
      ensures !a.info[x].ended ==> x !in s.pending + IdsIn(e.points, Pressed) - now.Keys
    {
      PassedTouch(s, e, now, x);
      AdmittedTouch(s, e, now, x);
    }
  }

  lemma PassedReleases(s: Sys, e: TouchEvent, now: map<TouchId, bool>)
    requires Inv(s) && Legal(s, TouchOp(e, now))
    requires s.gate.stored == [] && Admit(s.gate.info, e.points, now).ownsAll
    ensures ReleaseAssertions(Admit(s.gate.info, e.points, now).info, Admit(s.gate.info, e.points, now).valid)
  {
    var a := Admit(s.gate.info, e.points, now);
    AdmitMeaning(s.gate.info, e.points, now);
    forall p <- a.valid | p.state == Released
      ensures p.id in a.info && a.info[p.id].ended && a.info[p.id].ownership == OwnershipGranted
    {
      assert Owned(a.info, p.id);
      PassedTouch(s, e, now, p.id);
      assert p.id in IdsIn(a.valid, Released);
    }
  }

  lemma PassKeepsInv(s: Sys, e: TouchEvent, now: map<TouchId, bool>)
    requires Inv(s) && Legal(s, TouchOp(e, now))
    requires var a := Admit(s.gate.info, e.points, now);
             a.valid != [] && s.gate.stored == [] && a.ownsAll
    ensures Inv(Step(s, TouchOp(e, now)).0)
    ensures GoodStream(s.delivered, Step(s, TouchOp(e, now)).1)
    ensures ReleaseAssertions(Admit(s.gate.info, e.points, now).info, Admit(s.gate.info, e.points, now).valid)
  {
    var a := Admit(s.gate.info, e.points, now);
    var kept := e.(points := a.valid);
    KeptEvent(s, e, now);
    StreamSnoc(s.delivered, [], kept);
    assert [] + [kept] == [kept];
    PassedInfo(s, e, now);
    PassedReleases(s, e, now);
    NothingStored(Step(s, TouchOp(e, now)).0);
  }

  /** With nothing stored the gate tracks exactly the delivered touches that are down, all owned. */
  lemma NothingStored(s: Sys)
    requires s.gate.stored == []
    requires s.gate.info.Keys == s.delivered == Alive(s.gate.info)
    requires forall x <- s.gate.info :: Owned(s.gate.info, x) && x in s.down
    requires forall x <- s.gate.info :: x !in s.pending
    ensures Inv(s)
  {
    assert forall x <- s.gate.info :: x in Alive(s.gate.info);
    assert forall x :: !Mentions(s.gate.stored, x) && !Releases(s.gate.stored, x);
  }

  lemma DropKeepsInv(s: Sys, e: TouchEvent, now: map<TouchId, bool>)
    requires Inv(s) && Legal(s, TouchOp(e, now))
    requires Admit(s.gate.info, e.points, now).valid == []
    ensures Inv(Step(s, TouchOp(e, now)).0)
  {
    var a := Admit(s.gate.info, e.points, now);
    AdmittedSound(s, e, now);
    KeptEvent(s, e, now);
    assert Ids([]) == {} && IdsIn([], Released) == {};
    forall x <- a.info
      ensures a.info[x].ended <==> x !in After(s.down, e)
      ensures a.info[x].ended ==> Releases(s.gate.stored, x)
      ensures a.info[x].ownership == OwnershipRequested <==> x in s.pending + IdsIn(e.points, Pressed) - now.Keys
    {
      AdmittedTouch(s, e, now, x);
      ListedIds(s.down, e, x);
    }
  }

  /** Every legal step keeps the invariant, and continues the delivered stream properly. */
  lemma StepKeepsInv(s: Sys, op: Op)
    requires Inv(s) && Legal(s, op)
    ensures Inv(Step(s, op).0)
    ensures GoodStream(s.delivered, Step(s, op).1)
    ensures op != ResetOp ==> Step(s, op).0.delivered == AfterAll(s.delivered, Step(s, op).1)
  {
    match op
    case TouchOp(e, now) =>
      var a := Admit(s.gate.info, e.points, now);
      if a.valid == [] {
        DropKeepsInv(s, e, now);
      } else if a.ownsAll && s.gate.stored == [] {
        PassKeepsInv(s, e, now);
      } else {
        StoreKeepsInv(s, e, now);
      }
    case AnswerOp(x, gained) => AnswerKeepsInv(s, x, gained);
    case ResetOp =>
      assert Alive(map[]) == {};
  }

  // ---------- whole runs ----------

  ghost predicate LegalRun(s: Sys, ops: seq<Op>)
    decreases ops
  {
    ops == [] || (Legal(s, ops[0]) && LegalRun(Step(s, ops[0]).0, ops[1..]))
  }

  ghost function Final(s: Sys, ops: seq<Op>): Sys
    decreases ops
  {
    if ops == [] then s else Final(Step(s, ops[0]).0, ops[1..])
  }

  /** Everything sent on during a run, in order. */
  ghost function Sent(s: Sys, ops: seq<Op>): seq<TouchEvent>
    decreases ops
  {
    if ops == [] then [] else Step(s, ops[0]).1 + Sent(Step(s, ops[0]).0, ops[1..])
  }

  lemma {:induction false} RunKeepsInv(s: Sys, ops: seq<Op>)
    requires Inv(s) && LegalRun(s, ops)
    ensures Inv(Final(s, ops))
    decreases ops
  {
    if ops != [] {
      StepKeepsInv(s, ops[0]);
      RunKeepsInv(Step(s, ops[0]).0, ops[1..]);
    }
  }

  /** Between resets everything sent on continues one well-formed stream. */
  lemma {:induction false} RunSendsGoodStream(s: Sys, ops: seq<Op>)
    requires Inv(s) && LegalRun(s, ops) && ResetOp !in ops
    ensures GoodStream(s.delivered, Sent(s, ops))
    ensures Final(s, ops).delivered == AfterAll(s.delivered, Sent(s, ops))
    decreases ops
  {
    if ops != [] {
      var t := Step(s, ops[0]);
      StepKeepsInv(s, ops[0]);
      assert forall op <- ops[1..] :: op in ops;
      RunSendsGoodStream(t.0, ops[1..]);
      StreamAppend(s.delivered, t.1, Sent(t.0, ops[1..]));
    }
  }

  lemma FreshInv()
    ensures Inv(FRESH)
  {
    assert Alive(map[]) == {};
  }

  /** No stuck events: a stored event implies an open request, and every stored point is tracked. */
  lemma NoStuckEvents(ops: seq<Op>)
    requires LegalRun(FRESH, ops)
    ensures var s := Final(FRESH, ops);
            && (s.gate.stored != [] ==>
                  exists p <- s.gate.stored[0].points :: p.id in s.pending && p.id in s.gate.info)
            && (s.pending !! s.gate.info.Keys ==> s.gate.stored == [] && s.gate.info.Keys == s.delivered)
            && (forall e <- s.gate.stored :: Ids(e.points) <= s.gate.info.Keys)
  {
    FreshInv();
    RunKeepsInv(FRESH, ops);
    var s := Final(FRESH, ops);
    if s.gate.stored == [] {
      forall x ensures x in s.gate.info <==> x in s.delivered {
        assert x in s.gate.info ==> (x in Alive(s.gate.info) <==> !s.gate.info[x].ended);
        assert !Releases(s.gate.stored, x);
        assert AfterAll(s.delivered, []) == s.delivered;
      }
    }
    forall e <- s.gate.stored, x <- Ids(e.points) ensures x in s.gate.info {
      assert Mentions(s.gate.stored, x);
    }
  }

  // ---------- surplus answers ----------

  /** Releasing events takes a prefix of the stored ones and enters nobody. */
  lemma {:induction false} DispatchShape(g: Gate)
    ensures var r := DispatchFullyOwned(g);
            g.stored == r.sent + r.gate.stored && r.gate.info.Keys <= g.info.Keys
    decreases |g.stored|
  {
    if g.stored != [] && FullyOwned(g.info, g.stored[0]) {
      var e := g.stored[0];
      DispatchShape(Gate(g.stored[1..], g.info - IdsIn(e.points, Released)));
    }
  }

  lemma {:induction false} UnreleasedStays(down: set<TouchId>, es: seq<TouchEvent>, x: TouchId)
    requires x in down && !Releases(es, x)
    ensures x in AfterAll(down, es)
    decreases es
  {
    if es != [] {
      MentionsHead(es, x);
      UnreleasedStays(After(down, es[0]), es[1..], x);
    }
  }

  /** Without an open request a tracked touch is owned already. */
  lemma SurplusIsOwned(s: Sys, x: TouchId)
    requires Inv(s) && x !in s.pending
    ensures x in s.gate.info ==> Owned(s.gate.info, x)
    ensures x in s.delivered ==> x in s.gate.info
  {
  }

  lemma SurplusGrant(s: Sys, x: TouchId)
    requires Inv(s) && x !in s.pending
    ensures Step(s, AnswerOp(x, true)).0 == s
  {
    SurplusIsOwned(s, x);
    if x in s.gate.info {
      var g := Answered(s.gate, x, true);
      assert g.info == s.gate.info;
      assert DispatchFullyOwned(g) == Outcome(g, []);
    }
    assert s.pending - {x} == s.pending;
  }

  lemma SurplusDenialHarmless(s: Sys, x: TouchId)
    requires Inv(s) && x !in s.pending && x !in s.delivered
    ensures Inv(Step(s, AnswerOp(x, false)).0)
  {
    hide Consistent, Blocked;
    assert s.pending - {x} == s.pending;
    if x in s.gate.info {
      DeniedConsistent(s, x);
      ReleaseKeepsInv(s.(gate := Answered(s.gate, x, false), pending := s.pending - {x}));
    }
  }

  lemma SurplusDenialHarms(s: Sys, x: TouchId)
    requires Inv(s) && x !in s.pending && x in s.delivered
    ensures !Inv(Step(s, AnswerOp(x, false)).0)
  {
    SurplusIsOwned(s, x);
    var h := Answered(s.gate, x, false);
    var r := DispatchFullyOwned(h);
    DispatchShape(h);
    EraseMentions(s.gate.stored, {x}, x);
    AppendMentions(r.sent, r.gate.stored, x);
    UnreleasedStays(s.delivered, r.sent, x);
    assert x !in r.gate.info;
  }

  /**
   An answer without an open request, say for an earlier touch with the same id that a reset
   made the gate forget: it does harm exactly when it denies a touch whose press the target has got.
   */
  lemma SurplusAnswerIff(s: Sys, x: TouchId, gained: bool)
    requires Inv(s) && x !in s.pending
    ensures Inv(Step(s, AnswerOp(x, gained)).0) <==> gained || x !in s.delivered
  {
    hide Inv, Step;
    if gained {
      SurplusGrant(s, x);
    } else if x in s.delivered {
      SurplusDenialHarms(s, x);
    } else {
      SurplusDenialHarmless(s, x);
    }
  }

  /** The input: a touch that was sent on is denied. */
  lemma SurplusAnswerBreaksInv(x: TouchId)
    ensures var s := Sys(Gate([], map[x := TouchInfo(OwnershipGranted, false)]), {x}, {}, {x});
            Inv(s) && !Inv(Step(s, AnswerOp(x, false)).0)
  {
    var info := map[x := TouchInfo(OwnershipGranted, false)];
    var s := Sys(Gate([], info), {x}, {}, {x});
    assert Alive(info) == {x} == info.Keys;
    NothingStored(s);
    SurplusAnswerIff(s, x, false);
  }

  // ---------- conservation ----------

  /** The first answer about a touch in the rest of a run; a touch that is never answered is not denied. */
  predicate Fate(rest: seq<Op>, x: TouchId) {
    if rest == [] then true
    else if rest[0].AnswerOp? && rest[0].touch == x then rest[0].gained
    else Fate(rest[1..], x)
  }

  /** The fate of a touch pressed in a step: answered on the spot, or later. */
  predicate PressFate(now: map<TouchId, bool>, rest: seq<Op>, x: TouchId) {
    if x in now then now[x] else Fate(rest, x)
  }

  /**
   What somebody who knows every answer in advance would deliver: each input event, in
   order, reduced to the points of touches that were pressed since the start and are never
   denied. `kept` holds the touches now down that qualify.
   */
  ghost function Foreseen(ops: seq<Op>, kept: set<TouchId>): seq<TouchEvent>
    decreases ops
  {
    if ops == [] then []
    else match ops[0]
      case TouchOp(e, now) =>
        var kept' := KeptAfterPresses(kept, e, now, ops[1..]);
        Reduced(e, Ids(e.points) - kept') + Foreseen(ops[1..], kept' - IdsIn(e.points, Released))
      case AnswerOp(_, _) => Foreseen(ops[1..], kept)
      case ResetOp => Foreseen(ops[1..], {})
  }

  /** An event without some of its touches, or nothing when no point is left. */
  function Reduced(e: TouchEvent, xs: set<TouchId>): seq<TouchEvent> {
    if Without(e.points, xs) == [] then [] else [Erased(e, xs)]
  }

  function KeptAfterPresses(kept: set<TouchId>, e: TouchEvent, now: map<TouchId, bool>, rest: seq<Op>): set<TouchId> {
    kept + set x <- IdsIn(e.points, Pressed) | PressFate(now, rest, x)
  }

  /** Tracked touches that the rest of the run will deny, and touches still down that it will not. */
  function Doomed(info: InfoMap, rest: seq<Op>): set<TouchId> {
    set x <- info | info[x].ownership == OwnershipRequested && !Fate(rest, x)
  }

  function Kept(info: InfoMap, rest: seq<Op>): set<TouchId> {
    set x <- info | !info[x].ended && (info[x].ownership == OwnershipGranted || Fate(rest, x))
  }

  /** What a state and the rest of the run promise to the target. */
  ghost function Owed(g: Gate, ops: seq<Op>): seq<TouchEvent> {
    Erase(g.stored, Doomed(g.info, ops)) + Foreseen(ops, Kept(g.info, ops))
  }

  lemma ReleasePreservesOwed(g: Gate, delivered: set<TouchId>, rest: seq<Op>)
    requires Sound(g, delivered)
    ensures var r := DispatchFullyOwned(g);
            && Erase(g.stored, Doomed(g.info, rest)) == r.sent + Erase(r.gate.stored, Doomed(r.gate.info, rest))
            && Kept(g.info, rest) == Kept(r.gate.info, rest)
  {
    var r := DispatchFullyOwned(g);
    DispatchSplits(g, delivered);
    forall x
      ensures x in r.gate.info <==> x in g.info && !Releases(r.sent, x)
      ensures x in r.gate.info ==> r.gate.info[x] == g.info[x]
      ensures Mentions(r.sent, x) ==> Owned(g.info, x)
      ensures Releases(r.sent, x) ==> x in g.info && g.info[x].ended && Mentions(r.sent, x)
    {
      DispatchForgets(g, delivered, x);
    }
    var doomed := Doomed(g.info, rest);
    assert Doomed(r.gate.info, rest) == doomed;
    EraseAppend(r.sent, r.gate.stored, doomed);
    EraseNothing(r.sent, doomed);
  }

  /** Taking a registry answer into account changes nothing about what is owed. */
  lemma AnsweredOwed(s: Sys, x: TouchId, gained: bool, rest: seq<Op>)
    requires Inv(s) && x in s.pending && x in s.gate.info
    ensures var g, h, ops := s.gate, Answered(s.gate, x, gained), [AnswerOp(x, gained)] + rest;
            && Erase(g.stored, Doomed(g.info, ops)) == Erase(h.stored, Doomed(h.info, rest))
            && Kept(g.info, ops) == Kept(h.info, rest)
  {
    var g, h, ops := s.gate, Answered(s.gate, x, gained), [AnswerOp(x, gained)] + rest;
    FateAfterAnswer(x, gained, rest);
    assert Kept(g.info, ops) == Kept(h.info, rest);
    if gained {
      assert Doomed(g.info, ops) == Doomed(h.info, rest);
    } else {
      assert Doomed(g.info, ops) == {x} + Doomed(h.info, rest);
      StreamNonEmpty(s.delivered, g.stored);
      EraseTwice(g.stored, {x}, Doomed(h.info, rest));
    }
  }

  lemma FateAfterAnswer(x: TouchId, gained: bool, rest: seq<Op>)
    ensures forall y :: Fate([AnswerOp(x, gained)] + rest, y) == if y == x then gained else Fate(rest, y)
  {
    assert ([AnswerOp(x, gained)] + rest)[1..] == rest;
  }

  lemma AnswerPreservesOwed(s: Sys, x: TouchId, gained: bool, rest: seq<Op>)
    requires Inv(s) && Legal(s, AnswerOp(x, gained))
    ensures var ops := [AnswerOp(x, gained)] + rest;
            Owed(s.gate, ops) == Answer(s.gate, x, gained).sent + Owed(Answer(s.gate, x, gained).gate, rest)
  {
    var g, ops := s.gate, [AnswerOp(x, gained)] + rest;
    assert ops[1..] == rest;
    if x !in g.info {
      FateAfterAnswer(x, gained, rest);
      assert Doomed(g.info, ops) == Doomed(g.info, rest);
      assert Kept(g.info, ops) == Kept(g.info, rest);
    } else {
      AnsweredConsistent(s, x, gained);
      AnsweredOwed(s, x, gained, rest);
      ReleasePreservesOwed(Answered(g, x, gained), s.delivered, rest);
    }
  }

  lemma {:induction false} StreamNonEmpty(down: set<TouchId>, es: seq<TouchEvent>)
    requires GoodStream(down, es)
    ensures forall e <- es :: e.points != []
    decreases es
  {
    if es != [] {
      StreamNonEmpty(After(down, es[0]), es[1..]);
      assert es == [es[0]] + es[1..];
    }
  }

  lemma AdmittedFate(s: Sys, e: TouchEvent, now: map<TouchId, bool>, rest: seq<Op>, x: TouchId)
    requires Inv(s) && Legal(s, TouchOp(e, now))
    ensures var info, after := s.gate.info, Admit(s.gate.info, e.points, now).info;
            var kept := KeptAfterPresses(Kept(info, rest), e, now, rest);
            && (x in Ids(e.points) ==> (x in kept <==> x in after && x !in Doomed(after, rest)))
            && (x in Kept(after, rest) <==> x in kept - IdsIn(e.points, Released))
            && (x in Doomed(info, rest) <==> x in Doomed(after, rest) && x in info)
  {
    hide Fate, Without;
    AdmitMeaning(s.gate.info, e.points, now);
    AdmittedTouch(s, e, now, x);
    ListedIds(s.down, e, x);
  }

  lemma FateAfterTouch(e: TouchEvent, now: map<TouchId, bool>, rest: seq<Op>)
    ensures forall y :: Fate([TouchOp(e, now)] + rest, y) == Fate(rest, y)
  {
    assert ([TouchOp(e, now)] + rest)[1..] == rest;
  }

  /** After admission the doomed and kept touches are exactly those the spectator predicts. */
  lemma AdmittedFates(s: Sys, e: TouchEvent, now: map<TouchId, bool>, rest: seq<Op>)
    requires Inv(s) && Legal(s, TouchOp(e, now))
    ensures var ops := [TouchOp(e, now)] + rest;
            var after := Admit(s.gate.info, e.points, now).info;
            var kept := KeptAfterPresses(Kept(s.gate.info, ops), e, now, rest);
            && (forall x <- Ids(e.points) :: x in kept <==> x in after && x !in Doomed(after, rest))
            && Kept(after, rest) == kept - IdsIn(e.points, Released)
            && Doomed(s.gate.info, ops) == Doomed(after, rest) * s.gate.info.Keys
  {
    var ops := [TouchOp(e, now)] + rest;
    FateAfterTouch(e, now, rest);
    var info, after := s.gate.info, Admit(s.gate.info, e.points, now).info;
    assert Kept(info, ops) == Kept(info, rest) && Doomed(info, ops) == Doomed(info, rest);
    var kept := KeptAfterPresses(Kept(info, rest), e, now, rest);
    forall x
      ensures x in Ids(e.points) ==> (x in kept <==> x in after && x !in Doomed(after, rest))
      ensures x in Kept(after, rest) <==> x in kept - IdsIn(e.points, Released)
      ensures x in Doomed(info, rest) <==> x in Doomed(after, rest) && x in info
    {
      AdmittedFate(s, e, now, rest, x);
    }
  }

  lemma {:induction false} EraseAlike(es: seq<TouchEvent>, xs: set<TouchId>, ys: set<TouchId>)
    requires forall x | Mentions(es, x) :: x in xs <==> x in ys
    ensures Erase(es, xs) == Erase(es, ys)
  {
    if es != [] {
      forall x
        ensures x in Ids(es[0].points) ==> Mentions(es, x)
        ensures Mentions(es[1..], x) ==> Mentions(es, x)
      {
        MentionsHead(es, x);
      }
      assert forall p <- es[0].points :: p.id in Ids(es[0].points);
      WithoutAlike(es[0].points, xs, ys);
      EraseAlike(es[1..], xs, ys);
    }
  }

  /** The spectator's version of an event is the admitted version without the doomed touches. */
  lemma EventFates(s: Sys, e: TouchEvent, now: map<TouchId, bool>, rest: seq<Op>)
    requires Inv(s) && Legal(s, TouchOp(e, now))
    ensures var a := Admit(s.gate.info, e.points, now);
            var kept := KeptAfterPresses(Kept(s.gate.info, [TouchOp(e, now)] + rest), e, now, rest);
            Reduced(e, Ids(e.points) - kept) == Reduced(e.(points := a.valid), Doomed(a.info, rest))
  {
    var a := Admit(s.gate.info, e.points, now);
    var kept := KeptAfterPresses(Kept(s.gate.info, [TouchOp(e, now)] + rest), e, now, rest);
    var unknown := Ids(e.points) - a.info.Keys;
    AdmittedFates(s, e, now, rest);
    AdmitMeaning(s.gate.info, e.points, now);
    WithoutTwice(e.points, unknown, Doomed(a.info, rest));
    assert forall p <- e.points :: p.id in Ids(e.points);
    WithoutAlike(e.points, Ids(e.points) - kept, unknown + Doomed(a.info, rest));
  }

  /** What is owed before a touch event, in terms of the admitted event. */
  lemma OwedBeforeTouch(s: Sys, e: TouchEvent, now: map<TouchId, bool>, rest: seq<Op>)
    requires Inv(s) && Legal(s, TouchOp(e, now))
    ensures var a := Admit(s.gate.info, e.points, now);
            var doomed := Doomed(a.info, rest);
            Owed(s.gate, [TouchOp(e, now)] + rest)
            == Erase(s.gate.stored, doomed) + Reduced(e.(points := a.valid), doomed)
               + Foreseen(rest, Kept(a.info, rest))
  {
    var ops := [TouchOp(e, now)] + rest;
    assert ops[0] == TouchOp(e, now) && ops[1..] == rest;
    var doomed := Doomed(Admit(s.gate.info, e.points, now).info, rest);
    AdmittedFates(s, e, now, rest);
    EventFates(s, e, now, rest);
    EraseAlike(s.gate.stored, Doomed(s.gate.info, ops), doomed);
  }

  lemma PassedWhole(s: Sys, e: TouchEvent, now: map<TouchId, bool>, rest: seq<Op>)
    requires Inv(s) && Legal(s, TouchOp(e, now))
    requires Admit(s.gate.info, e.points, now).ownsAll
    ensures var a := Admit(s.gate.info, e.points, now);
            Without(a.valid, Doomed(a.info, rest)) == a.valid
  {
    var a := Admit(s.gate.info, e.points, now);
    AdmitMeaning(s.gate.info, e.points, now);
    WithoutNothing(a.valid, Doomed(a.info, rest));
  }

  lemma OwedAfterPass(s: Sys, e: TouchEvent, now: map<TouchId, bool>, rest: seq<Op>)
    requires Inv(s) && Legal(s, TouchOp(e, now))
    requires var a := Admit(s.gate.info, e.points, now);
             a.valid != [] && a.ownsAll && s.gate.stored == []
    ensures Owed(Touch(s.gate, e, now).gate, rest)
            == Foreseen(rest, Kept(Admit(s.gate.info, e.points, now).info, rest))
  {
    var a := Admit(s.gate.info, e.points, now);
    PassedInfo(s, e, now);
    var info := a.info - IdsIn(a.valid, Released);
    assert Touch(s.gate, e, now).gate == Gate([], info);
    assert Kept(info, rest) == Kept(a.info, rest);
  }

  lemma OwedAfterStore(s: Sys, e: TouchEvent, now: map<TouchId, bool>, rest: seq<Op>)
    requires var a := Admit(s.gate.info, e.points, now);
             a.valid != [] && !(a.ownsAll && s.gate.stored == [])
    ensures var a := Admit(s.gate.info, e.points, now);
            var doomed := Doomed(a.info, rest);
            Owed(Touch(s.gate, e, now).gate, rest)
            == Erase(s.gate.stored, doomed) + Reduced(e.(points := a.valid), doomed)
               + Foreseen(rest, Kept(a.info, rest))
  {
    hide Admit, Foreseen, Doomed, Kept;
    var a := Admit(s.gate.info, e.points, now);
    var event := e.(points := a.valid);
    EraseAppend(s.gate.stored, [event], Doomed(a.info, rest));
    assert [event][1..] == [];
  }

  lemma PassPreservesOwed(s: Sys, e: TouchEvent, now: map<TouchId, bool>, rest: seq<Op>)
    requires Inv(s) && Legal(s, TouchOp(e, now))
    requires var a := Admit(s.gate.info, e.points, now);
             a.valid != [] && a.ownsAll && s.gate.stored == []
    ensures Owed(s.gate, [TouchOp(e, now)] + rest)
            == Touch(s.gate, e, now).sent + Owed(Touch(s.gate, e, now).gate, rest)
  {
    OwedBeforeTouch(s, e, now, rest);
    OwedAfterPass(s, e, now, rest);
    PassedWhole(s, e, now, rest);
  }

  lemma StorePreservesOwed(s: Sys, e: TouchEvent, now: map<TouchId, bool>, rest: seq<Op>)
    requires Inv(s) && Legal(s, TouchOp(e, now))
    requires var a := Admit(s.gate.info, e.points, now);
             a.valid != [] && !(a.ownsAll && s.gate.stored == [])
    ensures Owed(s.gate, [TouchOp(e, now)] + rest)
            == Touch(s.gate, e, now).sent + Owed(Touch(s.gate, e, now).gate, rest)
  {
    hide Owed, Foreseen, Erase, Reduced, Doomed, Kept, Inv, Admit;
    OwedBeforeTouch(s, e, now, rest);
    OwedAfterStore(s, e, now, rest);
  }

  lemma OwedAfterDrop(s: Sys, e: TouchEvent, now: map<TouchId, bool>, rest: seq<Op>)
    requires Admit(s.gate.info, e.points, now).valid == []
    ensures var a := Admit(s.gate.info, e.points, now);
            var doomed := Doomed(a.info, rest);
            Owed(Touch(s.gate, e, now).gate, rest)
            == Erase(s.gate.stored, doomed) + Reduced(e.(points := a.valid), doomed)
               + Foreseen(rest, Kept(a.info, rest))
  {
  }

  lemma DropPreservesOwed(s: Sys, e: TouchEvent, now: map<TouchId, bool>, rest: seq<Op>)
    requires Inv(s) && Legal(s, TouchOp(e, now))
    requires Admit(s.gate.info, e.points, now).valid == []
    ensures Owed(s.gate, [TouchOp(e, now)] + rest)
            == Touch(s.gate, e, now).sent + Owed(Touch(s.gate, e, now).gate, rest)
  {
    hide Owed, Foreseen, Erase, Reduced, Doomed, Kept, Inv, Admit;
    OwedBeforeTouch(s, e, now, rest);
    OwedAfterDrop(s, e, now, rest);
  }

  lemma TouchPreservesOwed(s: Sys, e: TouchEvent, now: map<TouchId, bool>, rest: seq<Op>)
    requires Inv(s) && Legal(s, TouchOp(e, now))
    ensures Owed(s.gate, [TouchOp(e, now)] + rest)
            == Touch(s.gate, e, now).sent + Owed(Touch(s.gate, e, now).gate, rest)
  {
    var a := Admit(s.gate.info, e.points, now);
    if a.valid == [] {
      DropPreservesOwed(s, e, now, rest);
    } else if a.ownsAll && s.gate.stored == [] {
      PassPreservesOwed(s, e, now, rest);
    } else {
      StorePreservesOwed(s, e, now, rest);
    }
  }

  /** One step moves events from what is owed to what was sent, changing neither their content nor their order. */
  lemma StepPreservesOwed(s: Sys, ops: seq<Op>)
    requires Inv(s) && ops != [] && Legal(s, ops[0]) && ops[0] != ResetOp
    ensures Owed(s.gate, ops) == Step(s, ops[0]).1 + Owed(Step(s, ops[0]).0.gate, ops[1..])
  {
    assert ops == [ops[0]] + ops[1..];
    match ops[0]
    case TouchOp(e, now) => TouchPreservesOwed(s, e, now, ops[1..]);
    case AnswerOp(x, gained) => AnswerPreservesOwed(s, x, gained, ops[1..]);
  }

  /** Conservation, from any reachable state and for every legal continuation without a reset. */
  lemma {:induction false} ConservationFrom(s: Sys, ops: seq<Op>)
    requires Inv(s) && LegalRun(s, ops) && ResetOp !in ops
    ensures Sent(s, ops) + Final(s, ops).gate.stored == Owed(s.gate, ops)
    decreases ops
  {
    if ops == [] {
      assert Doomed(s.gate.info, ops) == {};
      EraseNothing(s.gate.stored, {});
    } else {
      StepPreservesOwed(s, ops);
      ConservationTail(s, ops);
    }
  }

  lemma {:induction false} ConservationTail(s: Sys, ops: seq<Op>)
    requires Inv(s) && LegalRun(s, ops) && ResetOp !in ops && ops != []
    ensures Sent(s, ops) + Final(s, ops).gate.stored == Step(s, ops[0]).1 + Owed(Step(s, ops[0]).0.gate, ops[1..])
    decreases ops, 0
  {
    var t, rest := Step(s, ops[0]), ops[1..];
    StepKeepsInv(s, ops[0]);
    assert forall op <- rest :: op in ops;
    ConservationFrom(t.0, rest);
    assert t.1 + (Sent(t.0, rest) + Final(t.0, rest).gate.stored)
        == t.1 + Sent(t.0, rest) + Final(t.0, rest).gate.stored;
  }

  /**
   Conservation since the start or the last reset: what was sent, followed by what is
   still stored, is the input in its order of arrival without exactly the points of
   denied and untracked touches. Once every request is answered nothing is held back.
   */
  lemma Conservation(s: Sys, ops: seq<Op>)
    requires Inv(s) && s.gate.stored == [] && s.gate.info == map[]
    requires LegalRun(s, ops) && ResetOp !in ops
    ensures Sent(s, ops) + Final(s, ops).gate.stored == Foreseen(ops, {})
    ensures Final(s, ops).pending !! Final(s, ops).gate.info.Keys ==> Sent(s, ops) == Foreseen(ops, {})
  {
    ConservationFrom(s, ops);
    assert Kept(map[], ops) == {};
    assert Doomed(map[], ops) == {};
    assert Erase([], {}) == [];
    RunKeepsInv(s, ops);
    var g := Final(s, ops).gate;
    if Final(s, ops).pending !! g.info.Keys {
      assert g.stored == [];
    }
  }

  /** Whatever a step sends on is owned at that moment, point by point. */
  lemma SentIsOwned(s: Sys, op: Op, e: TouchEvent, p: TouchPoint)
    requires Inv(s) && Legal(s, op)
    requires e in Step(s, op).1 && p in e.points
    ensures match op
            case TouchOp(input, now) => Owned(Admit(s.gate.info, input.points, now).info, p.id)
            case AnswerOp(x, gained) => Owned(s.gate.info, p.id) || (p.id == x && gained)
            case ResetOp => false
  {
    match op
    case TouchOp(input, now) =>
      AdmitMeaning(s.gate.info, input.points, now);
    case AnswerOp(x, gained) =>
      if x in s.gate.info {
        AnsweredConsistent(s, x, gained);
        assert p.id in Ids(e.points);
        assert Mentions(Step(s, op).1, p.id);
        DispatchForgets(Answered(s.gate, x, gained), s.delivered, p.id);
      }
    case ResetOp =>
  }

  // ---------- gate and dispatcher together ----------

  /** The dispatcher, driven by the gate through a run. */
  ghost function Driven(d: D.State, op: Op, sent: seq<TouchEvent>, target: D.Target): D.State
    requires forall e <- sent :: e.points != []
  {
    var d' := D.DispatchAll(d, sent, target);
    if op.ResetOp? then D.Reset(d') else d'
  }

  /**
   During a run no assertion of the dispatcher fails, and at every step its state agrees with the
   touches delivered and with what the target has seen since the last reset.
   */
  ghost predicate PipelineHolds(s: Sys, d: D.State, since: nat, ops: seq<Op>, target: D.Target)
    decreases ops
  {
    && D.Inv(d, s.delivered, since)
    && (ops != [] ==>
          var (t, sent) := Step(s, ops[0]);
          && D.AssertionsHoldThroughout(d, sent, target)
          && (forall e <- sent :: e.points != [])
          && var d' := Driven(d, ops[0], sent, target);
          PipelineHolds(t, d', if ops[0].ResetOp? then |d'.received| else since, ops[1..], target))
  }

  lemma {:induction false} PipelineKeeps(s: Sys, d: D.State, since: nat, ops: seq<Op>, target: D.Target)
    requires Inv(s) && D.Inv(d, s.delivered, since) && LegalRun(s, ops)
    ensures PipelineHolds(s, d, since, ops, target)
    decreases ops
  {
    if ops != [] {
      var (t, sent) := Step(s, ops[0]);
      StepKeepsInv(s, ops[0]);
      D.StreamKeepsInv(d, s.delivered, since, sent, target);
      var d' := Driven(d, ops[0], sent, target);
      if ops[0].ResetOp? {
        assert d'.received[|d'.received|..] == [];
        PipelineKeeps(t, d', |d'.received|, ops[1..], target);
      } else {
        PipelineKeeps(t, d', since, ops[1..], target);
      }
    }
  }

  /** For every legal run, resets included, and every target: the gate never trips the dispatcher. */
  lemma GateProtectsDispatcher(ops: seq<Op>, target: D.Target)
    requires LegalRun(FRESH, ops)
    ensures PipelineHolds(FRESH, D.FRESH, 0, ops, target)
  {
    FreshInv();
    assert D.FRESH.received[0..] == [];
    PipelineKeeps(FRESH, D.FRESH, 0, ops, target);
  }
}
