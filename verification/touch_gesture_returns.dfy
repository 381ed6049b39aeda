/**
 Whether a gesture area comes to rest once every finger is lifted, and whether it recognises
 more touches than its maximum: both depend on candidates still waiting for their answer.
 */
module TouchGestureReturns {
  import opened Touches
  import opened TouchGestureSpec

  /**
   The recogniser among the touches really down. `lost` are the touches whose release it
   missed: they were candidates, released while the gesture was recognised or about to be
   rejected, and have not been pressed again.
   */
  datatype Scene = Scene(core: Core, down: set<TouchId>, lost: set<TouchId>)

  const QUIET := Scene(START, {}, {})

  function PressedBy(op: Op): set<TouchId> {
    match op
    case TouchedOp(pressed) => pressed
    case UnownedOp(appeared, _) => appeared
    case GainedOp(_) => {}
    case LostOp(_) => {}
    case TimeoutOp => {}
  }

  function LiftedBy(op: Op): set<TouchId> {
    if op.UnownedOp? then op.released else {}
  }

  /** Releases of candidates that the recogniser does not take note of in this status. */
  function Missed(c: Core, op: Op): set<TouchId> {
    if c.status == Recognized || c.status == WaitingForRejection then c.candidates * LiftedBy(op) else {}
  }

  function Tracked(c: Core): set<TouchId> {
    c.candidates + c.watched
  }

  /** Only a touch that is down can be released. */
  predicate Possible(s: Scene, op: Op) {
    Legal(s.core, op) && LiftedBy(op) <= s.down
  }

  function After(s: Scene, op: Op, limits: Limits): Scene {
    Scene(Next(s.core, op, limits),
          s.down + PressedBy(op) - LiftedBy(op),
          s.lost - PressedBy(op) + Missed(s.core, op))
  }

  predicate SceneInv(s: Scene, limits: Limits) {
    Settled(s.core, limits) && Tracked(s.core) - s.down == s.lost
  }

  /** What is tracked and not down is exactly what was lost. */
  lemma AfterKeepsInv(s: Scene, op: Op, limits: Limits)
    requires SoundLimits(limits) && SceneInv(s, limits) && Possible(s, op)
    ensures SceneInv(After(s, op, limits), limits)
  {
    hide Settled, Touched, Unowned, Gained, Reject;
    NextKeepsInv(s.core, op, limits);
    match op
    case TouchedOp(pressed) => TouchedTracks(s.core, pressed, limits);
    case UnownedOp(appeared, released) => UnownedTracks(s, appeared, released, limits);
    case GainedOp(x) => GainedTracks(s.core, x, limits);
    case LostOp(_) => RejectTracks(s.core);
    case TimeoutOp => RejectTracks(s.core);
  }

  lemma RejectTracks(c: Core)
    ensures Tracked(Reject(c)) == Tracked(c)
  {
  }

  lemma TouchedTracks(c: Core, pressed: set<TouchId>, limits: Limits)
    ensures Tracked(Touched(c, pressed, limits)) == Tracked(c) + pressed
  {
  }

  lemma GainedTracks(c: Core, x: TouchId, limits: Limits)
    requires x in c.candidates
    ensures Tracked(Gained(c, x, limits)) == Tracked(c)
  {
  }

  /** A release takes a touch out unless it is missed; only once rejected are touches watched that appear. */
  lemma UnownedMember(c: Core, appeared: set<TouchId>, released: set<TouchId>, limits: Limits, x: TouchId)
    requires CoreInv(c, limits)
    ensures x in Tracked(Unowned(c, appeared, released, limits))
            <==> (x in Tracked(c) && x !in released) || x in Missed(c, UnownedOp(appeared, released))
                 || (c.status == Rejected && x in appeared && x !in released)
  {
    if appeared + released == {} {
      assert x !in appeared && x !in released;
    }
  }

  lemma UnownedTracks(s: Scene, appeared: set<TouchId>, released: set<TouchId>, limits: Limits)
    requires SceneInv(s, limits) && appeared !! released && released <= s.down
    ensures var op := UnownedOp(appeared, released);
            Tracked(Unowned(s.core, appeared, released, limits)) - (s.down + appeared - released)
            == s.lost - appeared + Missed(s.core, op)
  {
    hide Unowned, CoreInv, Tracked;
    var op := UnownedOp(appeared, released);
    forall x
      ensures x in Tracked(Unowned(s.core, appeared, released, limits)) - (s.down + appeared - released)
              <==> x in s.lost - appeared + Missed(s.core, op)
    {
      UnownedMember(s.core, appeared, released, limits, x);
      assert x in s.lost <==> x in Tracked(s.core) && x !in s.down;
    }
  }

  ghost predicate PossibleRun(s: Scene, ops: seq<Op>, limits: Limits)
    decreases ops
  {
    ops == [] || (Possible(s, ops[0]) && PossibleRun(After(s, ops[0], limits), ops[1..], limits))
  }

  ghost function End(s: Scene, ops: seq<Op>, limits: Limits): Scene
    decreases ops
  {
    if ops == [] then s else End(After(s, ops[0], limits), ops[1..], limits)
  }

  lemma {:induction false} EndKeepsInv(s: Scene, ops: seq<Op>, limits: Limits)
    requires SoundLimits(limits) && SceneInv(s, limits) && PossibleRun(s, ops, limits)
    ensures SceneInv(End(s, ops, limits), limits)
    ensures LegalRun(s.core, ops, limits) && End(s, ops, limits).core == Run(s.core, ops, limits)
    decreases ops
  {
    if ops != [] {
      AfterKeepsInv(s, ops[0], limits);
      EndKeepsInv(After(s, ops[0], limits), ops[1..], limits);
    }
  }

  // ---------- coming to rest ----------

  /** Waiting for the next gesture, or doing so as soon as the timer that runs has fired. */
  predicate AtRest(c: Core, limits: Limits) {
    || c.status == WaitingForTouch
    || (c.status == WaitingForRejection && Next(c, TimeoutOp, limits) == START)
  }

  /**
   After every run that ends with all fingers lifted the area is at rest exactly when no
   release was missed.
   */
  lemma ReturnsIff(ops: seq<Op>, limits: Limits)
    requires SoundLimits(limits) && PossibleRun(QUIET, ops, limits)
    requires End(QUIET, ops, limits).down == {}
    ensures AtRest(End(QUIET, ops, limits).core, limits) <==> End(QUIET, ops, limits).lost == {}
  {
    EndKeepsInv(QUIET, ops, limits);
    var s := End(QUIET, ops, limits);
    assert Tracked(s.core) == s.lost;
    RestMeaning(s.core, limits);
  }

  lemma RestMeaning(c: Core, limits: Limits)
    requires SoundLimits(limits) && Settled(c, limits)
    ensures Tracked(c) == {} ==> AtRest(c, limits)
    ensures AtRest(c, limits) ==> Tracked(c) == {}
  {
    if Tracked(c) == {} {
      assert c.candidates == {} && c.watched == {};
    }
  }

  /** A gesture that ended with a release missed stays rejected until that touch is pressed again. */
  lemma {:induction false} StaysRejected(s: Scene, ops: seq<Op>, limits: Limits, x: TouchId)
    requires SoundLimits(limits) && SceneInv(s, limits) && PossibleRun(s, ops, limits)
    requires s.core.status == Rejected && x in s.lost
    requires forall op <- ops :: x !in PressedBy(op)
    ensures End(s, ops, limits).core.status == Rejected && x in End(s, ops, limits).lost
    decreases ops
  {
    if ops != [] {
      var t := After(s, ops[0], limits);
      assert x in Tracked(s.core) && x !in s.down;
      AfterKeepsInv(s, ops[0], limits);
      assert x in t.lost;
      assert t.core.status == Rejected;
      assert forall op <- ops[1..] :: op in ops;
      StaysRejected(t, ops[1..], limits, x);
    }
  }

  /** Two fingers come, one is granted, both are lifted, the timer fires: the other one is watched for ever. */
  lemma StuckAfterLift()
    ensures var limits, ops := Limits(1, 2), [TouchedOp({1, 2}), GainedOp(1), UnownedOp({}, {1, 2}), TimeoutOp];
            && PossibleRun(QUIET, ops, limits)
            && End(QUIET, ops, limits) == Scene(Core(Rejected, {}, {2}), {}, {2})
  {
    hide After, Possible;
    var limits := Limits(1, 2);
    var ops := [TouchedOp({1, 2}), GainedOp(1), UnownedOp({}, {1, 2}), TimeoutOp];
    var a := Scene(Core(WaitingForOwnership, {1, 2}, {}), {1, 2}, {});
    var b := Scene(Core(Recognized, {2}, {1}), {1, 2}, {});
    var c := Scene(Core(WaitingForRejection, {2}, {}), {}, {2});
    var d := Scene(Core(Rejected, {}, {2}), {}, {2});
    StuckSteps();
    StuckStepsLater();
    OneStep(QUIET, ops, limits, a);
    OneStep(a, ops[1..], limits, b);
    OneStep(b, ops[2..], limits, c);
    OneStep(c, ops[3..], limits, d);
    assert ops[1..][1..] == ops[2..] && ops[2..][1..] == ops[3..] && ops[3..][1..] == [];
  }

  lemma StuckSteps()
    ensures var limits := Limits(1, 2);
            var a := Scene(Core(WaitingForOwnership, {1, 2}, {}), {1, 2}, {});
            var b := Scene(Core(Recognized, {2}, {1}), {1, 2}, {});
            && Possible(QUIET, TouchedOp({1, 2})) && After(QUIET, TouchedOp({1, 2}), limits) == a
            && Possible(a, GainedOp(1)) && After(a, GainedOp(1), limits) == b
  {
    assert {} + {1, 2} == {1, 2} && |{1, 2}| == 2;
    assert {1, 2} - {1} == {2} && {} + {1} == {1} && |{1}| == 1;
  }

  lemma StuckStepsLater()
    ensures var limits := Limits(1, 2);
            var b := Scene(Core(Recognized, {2}, {1}), {1, 2}, {});
            var c := Scene(Core(WaitingForRejection, {2}, {}), {}, {2});
            && Possible(b, UnownedOp({}, {1, 2})) && After(b, UnownedOp({}, {1, 2}), limits) == c
            && Possible(c, TimeoutOp) && After(c, TimeoutOp, limits) == Scene(Core(Rejected, {}, {2}), {}, {2})
  {
    assert {1} - {1, 2} == {} && {2} * {1, 2} == {2};
  }

  lemma OneStep(s: Scene, ops: seq<Op>, limits: Limits, t: Scene)
    requires ops != [] && Possible(s, ops[0]) && After(s, ops[0], limits) == t
    ensures End(s, ops, limits) == End(t, ops[1..], limits)
    ensures PossibleRun(s, ops, limits) <==> PossibleRun(t, ops[1..], limits)
  {
  }

  // ---------- more touches than the maximum ----------

  predicate WithinMaximum(c: Core, limits: Limits) {
    c.status == Recognized ==> |c.watched| <= limits.max
  }

  /** A touch is granted that is one too many: the only way into Recognized without a look at the maximum. */
  predicate GainsTooMany(c: Core, op: Op, limits: Limits) {
    op.GainedOp? && |c.watched + {op.touch}| > limits.max && |c.watched + {op.touch}| >= limits.min
  }

  lemma WithinMaximumStep(c: Core, op: Op, limits: Limits)
    requires CoreInv(c, limits) && Legal(c, op) && WithinMaximum(c, limits)
    ensures WithinMaximum(Next(c, op, limits), limits) <==> !GainsTooMany(c, op, limits)
  {
    hide Touched, Unowned;
    match op
    case TouchedOp(pressed) => TouchedWithinMaximum(c, pressed, limits);
    case UnownedOp(appeared, released) => UnownedWithinMaximum(c, appeared, released, limits);
    case GainedOp(x) => SubsetSize(c.watched, c.watched + {x});
    case LostOp(_) =>
    case TimeoutOp =>
  }

  lemma TouchedWithinMaximum(c: Core, pressed: set<TouchId>, limits: Limits)
    requires CoreInv(c, limits) && WithinMaximum(c, limits)
    ensures WithinMaximum(Touched(c, pressed, limits), limits)
  {
  }

  lemma UnownedWithinMaximum(c: Core, appeared: set<TouchId>, released: set<TouchId>, limits: Limits)
    requires CoreInv(c, limits) && WithinMaximum(c, limits)
    ensures WithinMaximum(Unowned(c, appeared, released, limits), limits)
  {
    SubsetSize(c.watched - released, c.watched);
  }

  /** A recognised gesture has at most the maximum of touches throughout a run. */
  ghost predicate AlwaysWithinMaximum(c: Core, ops: seq<Op>, limits: Limits)
    decreases ops
  {
    WithinMaximum(c, limits) && (ops == [] || AlwaysWithinMaximum(Next(c, ops[0], limits), ops[1..], limits))
  }

  ghost predicate NeverGainsTooMany(c: Core, ops: seq<Op>, limits: Limits)
    decreases ops
  {
    ops == [] || (!GainsTooMany(c, ops[0], limits) && NeverGainsTooMany(Next(c, ops[0], limits), ops[1..], limits))
  }

  lemma {:induction false} WithinMaximumIff(c: Core, ops: seq<Op>, limits: Limits)
    requires SoundLimits(limits) && Settled(c, limits) && WithinMaximum(c, limits) && LegalRun(c, ops, limits)
    ensures AlwaysWithinMaximum(c, ops, limits) <==> NeverGainsTooMany(c, ops, limits)
    decreases ops
  {
    if ops != [] {
      var next := Next(c, ops[0], limits);
      WithinMaximumStep(c, ops[0], limits);
      NextKeepsInv(c, ops[0], limits);
      if WithinMaximum(next, limits) {
        WithinMaximumIff(next, ops[1..], limits);
      }
    }
  }

  /** No touch is pressed while candidates wait for their answer. */
  predicate NoPressWhilePending(c: Core, op: Op) {
    op.TouchedOp? && Requesting(c.status) && c.candidates != {} ==> op.pressed == {}
  }

  ghost predicate NeverPressesWhilePending(c: Core, ops: seq<Op>, limits: Limits)
    decreases ops
  {
    ops == [] ||
    (NoPressWhilePending(c, ops[0]) && NeverPressesWhilePending(Next(c, ops[0], limits), ops[1..], limits))
  }

  /** Candidates that wait and touches that are watched are together no more than the maximum. */
  predicate PendingFits(c: Core, limits: Limits) {
    Requesting(c.status) && c.candidates != {} ==> |Tracked(c)| <= limits.max
  }

  lemma PendingFitsStep(c: Core, op: Op, limits: Limits)
    requires SoundLimits(limits) && Settled(c, limits) && Legal(c, op)
    requires PendingFits(c, limits) && NoPressWhilePending(c, op)
    ensures PendingFits(Next(c, op, limits), limits) && !GainsTooMany(c, op, limits)
  {
    hide Settled, Touched, Unowned, Gained, Reject;
    match op
    case TouchedOp(pressed) => PendingFitsTouched(c, pressed, limits);
    case UnownedOp(appeared, released) => PendingFitsUnowned(c, appeared, released, limits);
    case GainedOp(x) => PendingFitsGained(c, x, limits);
    case LostOp(_) => RejectPending(c, limits);
    case TimeoutOp => RejectPending(c, limits);
  }

  lemma RejectPending(c: Core, limits: Limits)
    ensures PendingFits(Reject(c), limits)
  {
  }

  lemma PendingFitsTouched(c: Core, pressed: set<TouchId>, limits: Limits)
    requires Settled(c, limits) && PendingFits(c, limits) && NoPressWhilePending(c, TouchedOp(pressed))
    ensures PendingFits(Touched(c, pressed, limits), limits)
  {
    TouchedTracks(c, pressed, limits);
    if c.status == WaitingForTouch || c.status == WaitingForMoreTouches {
      assert Tracked(c) + pressed == c.candidates + pressed;
    } else if pressed == {} {
      assert Tracked(c) + pressed == Tracked(c);
    }
  }

  lemma PendingFitsUnowned(c: Core, appeared: set<TouchId>, released: set<TouchId>, limits: Limits)
    requires Settled(c, limits) && PendingFits(c, limits)
    ensures PendingFits(Unowned(c, appeared, released, limits), limits)
  {
    var next := Unowned(c, appeared, released, limits);
    if Requesting(c.status) {
      assert next.candidates <= c.candidates && next.watched <= c.watched;
      SubsetSize(Tracked(next), Tracked(c));
    }
  }

  lemma PendingFitsGained(c: Core, x: TouchId, limits: Limits)
    requires PendingFits(c, limits) && Legal(c, GainedOp(x))
    ensures PendingFits(Gained(c, x, limits), limits) && !GainsTooMany(c, GainedOp(x), limits)
  {
    GainedTracks(c, x, limits);
    SubsetSize(c.watched + {x}, Tracked(c));
  }

  /** As long as nobody presses while candidates wait, no gesture has more touches than the maximum. */
  lemma {:induction false} PatientPressesStayWithin(c: Core, ops: seq<Op>, limits: Limits)
    requires SoundLimits(limits) && Settled(c, limits) && PendingFits(c, limits) && LegalRun(c, ops, limits)
    requires NeverPressesWhilePending(c, ops, limits)
    ensures NeverGainsTooMany(c, ops, limits)
    decreases ops
  {
    if ops != [] {
      PendingFitsStep(c, ops[0], limits);
      NextKeepsInv(c, ops[0], limits);
      PatientPressesStayWithin(Next(c, ops[0], limits), ops[1..], limits);
    }
  }

  /** Two fingers come, a third while they wait, both are granted: three touches with a maximum of two. */
  lemma ThreeOfTwo()
    ensures var limits, ops := Limits(1, 2), [TouchedOp({1, 2}), TouchedOp({3}), GainedOp(1), GainedOp(2)];
            && LegalRun(START, ops, limits)
            && Run(START, ops, limits) == Core(Recognized, {}, {1, 2, 3})
            && !AlwaysWithinMaximum(START, ops, limits)
  {
    hide Next, Legal;
    var limits := Limits(1, 2);
    var ops := [TouchedOp({1, 2}), TouchedOp({3}), GainedOp(1), GainedOp(2)];
    var a := Core(WaitingForOwnership, {1, 2}, {});
    var b := Core(WaitingForOwnership, {1, 2}, {3});
    var c := Core(Recognized, {2}, {1, 3});
    var d := Core(Recognized, {}, {1, 2, 3});
    ThreeOfTwoSteps();
    OneCoreStep(START, ops, limits, a);
    OneCoreStep(a, ops[1..], limits, b);
    OneCoreStep(b, ops[2..], limits, c);
    OneCoreStep(c, ops[3..], limits, d);
    assert ops[1..][1..] == ops[2..] && ops[2..][1..] == ops[3..] && ops[3..][1..] == [];
    assert !WithinMaximum(d, limits);
  }

  lemma ThreeOfTwoSteps()
    ensures var limits := Limits(1, 2);
            var a := Core(WaitingForOwnership, {1, 2}, {});
            var b := Core(WaitingForOwnership, {1, 2}, {3});
            var c := Core(Recognized, {2}, {1, 3});
            && Legal(START, TouchedOp({1, 2})) && Next(START, TouchedOp({1, 2}), limits) == a
            && Legal(a, TouchedOp({3})) && Next(a, TouchedOp({3}), limits) == b
            && Legal(b, GainedOp(1)) && Next(b, GainedOp(1), limits) == c
            && Legal(c, GainedOp(2)) && Next(c, GainedOp(2), limits) == Core(Recognized, {}, {1, 2, 3})
  {
    assert {} + {1, 2} == {1, 2} && |{1, 2}| == 2;
    assert {} + {3} == {3} && {3} + {1} == {1, 3} && {1, 3} + {2} == {1, 2, 3};
    assert {1, 2} - {1} == {2} && {2} - {2} == {};
  }

  lemma OneCoreStep(c: Core, ops: seq<Op>, limits: Limits, next: Core)
    requires ops != [] && Legal(c, ops[0]) && Next(c, ops[0], limits) == next
    ensures Run(c, ops, limits) == Run(next, ops[1..], limits)
    ensures LegalRun(c, ops, limits) <==> LegalRun(next, ops[1..], limits)
    ensures AlwaysWithinMaximum(c, ops, limits) ==> AlwaysWithinMaximum(next, ops[1..], limits)
  {
  }
}
