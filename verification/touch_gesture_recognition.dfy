/**
 What the recogniser decides over runs, counted in fingers: how fingers that come and go and
 grants lead to a recognised gesture, how that follows the touches watched, and what ends it.
 */
module TouchGestureRecognition {
  import opened Touches
  import opened TouchGestureSpec

  // ---------- fingers that come and go ----------

  predicate ComesOrGoes(op: Op) {
    op.TouchedOp? || (op.UnownedOp? && op.appeared !! op.released)
  }

  /** A set of touches with those that are pressed, if asked for with those that appear, and without those released. */
  function FollowedOnce(w: set<TouchId>, op: Op, andAppeared: bool): set<TouchId> {
    match op
    case TouchedOp(pressed) => w + pressed
    case UnownedOp(appeared, released) => (if andAppeared then w + appeared else w) - released
    case _ => w
  }

  ghost function Followed(w: set<TouchId>, ops: seq<Op>, andAppeared: bool): set<TouchId>
    decreases ops
  {
    if ops == [] then w else Followed(FollowedOnce(w, ops[0], andAppeared), ops[1..], andAppeared)
  }

  lemma FollowedPrefix(w: set<TouchId>, ops: seq<Op>, k: nat, andAppeared: bool)
    requires k < |ops|
    ensures Followed(w, ops[..k + 1], andAppeared)
            == Followed(FollowedOnce(w, ops[0], andAppeared), ops[1..][..k], andAppeared)
  {
    assert ops[..k + 1][0] == ops[0] && ops[..k + 1][1..] == ops[1..][..k];
  }

  /** Too few touches to request their ownership, and not too many. */
  predicate Undecided(p: set<TouchId>, limits: Limits) {
    |p| < limits.min && |p| <= limits.max
  }

  /** Where the area stands with `p` down as long as nothing was decided before. */
  function Decided(p: set<TouchId>, limits: Limits): Core {
    if p == {} then START
    else if |p| > limits.max then Core(Rejected, {}, p)
    else if |p| < limits.min then Core(WaitingForMoreTouches, p, {})
    else Core(WaitingForOwnership, p, {})
  }

  /**
   Over every run of presses and releases from the start: as long as there were always too few
   touches to decide, only their number counts, however they came.
   */
  lemma NumberDecides(ops: seq<Op>, limits: Limits)
    requires limits.min >= 1 && forall op <- ops :: ComesOrGoes(op)
    requires forall k | 0 <= k < |ops| :: Undecided(Followed({}, ops[..k], false), limits)
    ensures Run(START, ops, limits) == Decided(Followed({}, ops, false), limits)
  {
    NumberDecidesFrom({}, ops, limits);
  }

  lemma {:induction false} NumberDecidesFrom(p: set<TouchId>, ops: seq<Op>, limits: Limits)
    requires limits.min >= 1 && forall op <- ops :: ComesOrGoes(op)
    requires forall k | 0 <= k < |ops| :: Undecided(Followed(p, ops[..k], false), limits)
    ensures Run(Decided(p, limits), ops, limits) == Decided(Followed(p, ops, false), limits)
    decreases ops
  {
    if ops != [] {
      var q, rest := FollowedOnce(p, ops[0], false), ops[1..];
      assert ops[0] in ops && forall op <- rest :: op in ops;
      assert ops[..0] == [] && Undecided(Followed(p, ops[..0], false), limits);
      OneDecides(p, ops[0], limits);
      forall k | 0 <= k < |rest| ensures Undecided(Followed(q, rest[..k], false), limits) {
        FollowedPrefix(p, ops, k, false);
      }
      NumberDecidesFrom(q, rest, limits);
    }
  }

  lemma NoneOrSome(p: set<TouchId>)
    ensures p == {} <==> |p| == 0
  {
  }

  lemma OneDecides(p: set<TouchId>, op: Op, limits: Limits)
    requires limits.min >= 1 && Undecided(p, limits) && ComesOrGoes(op)
    ensures Next(Decided(p, limits), op, limits) == Decided(FollowedOnce(p, op, false), limits)
  {
    hide Touched, Unowned, Decided;
    match op
    case TouchedOp(pressed) => PressDecides(p, pressed, limits);
    case UnownedOp(appeared, released) => ReleaseDecides(p, appeared, released, limits);
  }

  lemma PressDecides(p: set<TouchId>, pressed: set<TouchId>, limits: Limits)
    requires limits.min >= 1 && Undecided(p, limits)
    ensures Touched(Decided(p, limits), pressed, limits) == Decided(p + pressed, limits)
  {
    var q := p + pressed;
    NoneOrSome(p);
    NoneOrSome(q);
    SubsetSize(p, q);
    assert {} + pressed == pressed && {} + q == q;
  }

  lemma ReleaseDecides(p: set<TouchId>, appeared: set<TouchId>, released: set<TouchId>, limits: Limits)
    requires limits.min >= 1 && Undecided(p, limits)
    ensures Unowned(Decided(p, limits), appeared, released, limits) == Decided(p - released, limits)
  {
    NoneOrSome(p);
    NoneOrSome(p - released);
    SubsetSize(p - released, p);
    if appeared + released == {} {
      assert released == {} && p - released == p;
    }
  }

  function Lifted(ops: seq<Op>): set<TouchId> {
    if ops == [] then {} else (if ops[0].UnownedOp? then ops[0].released else {}) + Lifted(ops[1..])
  }

  /**
   While ownership is being waited for, candidates that are lifted are forgotten and presses are
   watched, over every run until none of them is left.
   */
  lemma {:induction false} WaitingFollows(c: Core, ops: seq<Op>, limits: Limits)
    requires c.status == WaitingForOwnership && c.candidates + c.watched != {} && forall op <- ops :: ComesOrGoes(op)
    requires forall k | 0 < k < |ops| :: c.candidates - Lifted(ops[..k]) + Followed(c.watched, ops[..k], false) != {}
    ensures var p, w := c.candidates - Lifted(ops), Followed(c.watched, ops, false);
            Run(c, ops, limits) == Core(if p + w == {} then WaitingForTouch else WaitingForOwnership, p, w)
    decreases ops
  {
    hide Next, ComesOrGoes, FollowedOnce;
    if ops != [] {
      var op, rest := ops[0], ops[1..];
      var next := Next(c, op, limits);
      assert op in ops && forall o <- rest :: o in ops;
      OneWaited(c, op, limits);
      if rest == [] {
        assert Lifted(ops) == Lifted([op]);
      } else {
        assert ops[..1] == [op];
        LiftedPrefix(ops, 0);
        FollowedPrefix(c.watched, ops, 0, false);
        forall k | 0 < k < |rest|
          ensures next.candidates - Lifted(rest[..k]) + Followed(next.watched, rest[..k], false) != {}
        {
          LiftedPrefix(ops, k);
          FollowedPrefix(c.watched, ops, k, false);
          assert c.candidates - Lifted([op]) - Lifted(rest[..k]) == c.candidates - Lifted(ops[..k + 1]);
        }
        WaitingFollows(next, rest, limits);
        assert c.candidates - Lifted([op]) - Lifted(rest) == c.candidates - Lifted(ops);
      }
    }
  }

  lemma LiftedPrefix(ops: seq<Op>, k: nat)
    requires k < |ops|
    ensures Lifted(ops[..k + 1]) == Lifted([ops[0]]) + Lifted(ops[1..][..k])
    ensures Lifted(ops) == Lifted([ops[0]]) + Lifted(ops[1..])
  {
    assert ops[..k + 1][0] == ops[0] && ops[..k + 1][1..] == ops[1..][..k];
    assert [ops[0]][1..] == [];
  }

  lemma OneWaited(c: Core, op: Op, limits: Limits)
    requires c.status == WaitingForOwnership && c.candidates + c.watched != {} && ComesOrGoes(op)
    ensures var p, w := c.candidates - Lifted([op]), FollowedOnce(c.watched, op, false);
            Next(c, op, limits) == Core(if p + w == {} then WaitingForTouch else WaitingForOwnership, p, w)
  {
    assert [op][1..] == [];
    NoneOrSome(c.candidates - Lifted([op]));
    NoneOrSome(FollowedOnce(c.watched, op, false));
    match op
    case TouchedOp(pressed) =>
      assert c.candidates - {} == c.candidates;
      assert c.candidates + c.watched <= c.candidates + (c.watched + pressed);
    case UnownedOp(appeared, released) =>
      if appeared + released == {} {
        assert released == {} && c.candidates - released == c.candidates && c.watched - released == c.watched;
      }
  }

  /**
   A recognised gesture over every run of presses and releases in which it never has too many
   touches: it is recognised exactly while it has enough, else about to be rejected.
   */
  lemma {:induction false} RecognizedFollows(c: Core, ops: seq<Op>, limits: Limits)
    requires limits.min >= 1 && CoreInv(c, limits) && c.status in {Recognized, WaitingForRejection}
    requires forall op <- ops :: ComesOrGoes(op)
    requires forall k | 0 < k <= |ops| :: |Followed(c.watched, ops[..k], false)| <= limits.max
    ensures var w := Followed(c.watched, ops, false);
            Run(c, ops, limits) == Core(if |w| >= limits.min then Recognized else WaitingForRejection, c.candidates, w)
    decreases ops
  {
    hide Next, ComesOrGoes, FollowedOnce;
    if ops != [] {
      var next, rest := Next(c, ops[0], limits), ops[1..];
      assert ops[0] in ops && forall op <- rest :: op in ops;
      FollowedPrefix(c.watched, ops, 0, false);
      assert rest[..0] == [];
      OneRecognized(c, ops[0], limits);
      forall k | 0 < k <= |rest| ensures |Followed(next.watched, rest[..k], false)| <= limits.max {
        FollowedPrefix(c.watched, ops, k, false);
      }
      RecognizedFollows(next, rest, limits);
    }
  }

  lemma OneRecognized(c: Core, op: Op, limits: Limits)
    requires limits.min >= 1 && CoreInv(c, limits) && c.status in {Recognized, WaitingForRejection} && ComesOrGoes(op)
    requires |FollowedOnce(c.watched, op, false)| <= limits.max
    ensures var w := FollowedOnce(c.watched, op, false);
            Next(c, op, limits) == Core(if |w| >= limits.min then Recognized else WaitingForRejection, c.candidates, w)
  {
    match op
    case TouchedOp(pressed) => SubsetSize(c.watched, c.watched + pressed);
    case UnownedOp(appeared, released) =>
      SubsetSize(c.watched - released, c.watched);
      if appeared + released == {} {
        assert released == {} && c.watched - released == c.watched;
      }
  }

  /** One press too many rejects a recognised gesture, with all touches watched. */
  lemma OneTooMany(c: Core, pressed: set<TouchId>, limits: Limits)
    requires limits.min >= 1 && c.status in {Recognized, WaitingForRejection}
    requires |c.watched + pressed| > limits.max && c.candidates + c.watched + pressed != {}
    ensures Next(c, TouchedOp(pressed), limits) == Core(Rejected, {}, c.candidates + c.watched + pressed)
  {
    assert c.watched + pressed + c.candidates == c.candidates + c.watched + pressed;
  }

  /** A candidate that is lost, or a timer that fires, rejects with all touches watched; without any nothing is left. */
  lemma EndsRejected(c: Core, op: Op, limits: Limits)
    requires op.LostOp? || op.TimeoutOp?
    ensures var w := c.candidates + c.watched;
            Next(c, op, limits) == Core(if w == {} then WaitingForTouch else Rejected, {}, w)
  {
    assert c.watched + c.candidates == c.candidates + c.watched;
  }

  /** A rejected gesture over every run of presses and releases: it watches all touches until the last one is gone. */
  lemma {:induction false} RejectedFollows(c: Core, ops: seq<Op>, limits: Limits)
    requires c.status == Rejected && c.candidates == {} && c.watched != {} && forall op <- ops :: ComesOrGoes(op)
    requires forall k | 0 < k < |ops| :: Followed(c.watched, ops[..k], true) != {}
    ensures var w := Followed(c.watched, ops, true);
            Run(c, ops, limits) == Core(if w == {} then WaitingForTouch else Rejected, {}, w)
    decreases ops
  {
    hide Next, ComesOrGoes, FollowedOnce;
    if ops != [] {
      var next, rest := Next(c, ops[0], limits), ops[1..];
      assert ops[0] in ops && forall op <- rest :: op in ops;
      OneRejected(c, ops[0], limits);
      if rest != [] {
        FollowedPrefix(c.watched, ops, 0, true);
        assert rest[..0] == [];
        forall k | 0 < k < |rest| ensures Followed(next.watched, rest[..k], true) != {} {
          FollowedPrefix(c.watched, ops, k, true);
        }
        RejectedFollows(next, rest, limits);
      }
    }
  }

  lemma OneRejected(c: Core, op: Op, limits: Limits)
    requires c.status == Rejected && c.candidates == {} && c.watched != {} && ComesOrGoes(op)
    ensures var w := FollowedOnce(c.watched, op, true);
            Next(c, op, limits) == Core(if w == {} then WaitingForTouch else Rejected, {}, w)
  {
    match op
    case TouchedOp(pressed) => assert c.watched <= c.watched + pressed;
    case UnownedOp(appeared, released) =>
      if appeared + released == {} {
        assert appeared == {} && released == {} && c.watched + appeared - released == c.watched;
      }
  }

  // ---------- grants ----------

  function Grants(xs: seq<TouchId>): seq<Op> {
    seq(|xs|, i requires 0 <= i < |xs| => GainedOp(xs[i]))
  }

  function Granted(xs: seq<TouchId>): set<TouchId> {
    set x <- xs
  }

  ghost predicate Distinct(xs: seq<TouchId>) {
    forall i, j :: 0 <= i < j < |xs| ==> xs[i] != xs[j]
  }

  lemma {:induction false} DistinctCount(xs: seq<TouchId>)
    requires Distinct(xs)
    ensures |Granted(xs)| == |xs|
  {
    if xs != [] {
      var before, x := xs[..|xs| - 1], xs[|xs| - 1];
      DistinctCount(before);
      assert Granted(xs) == Granted(before) + {x};
    }
  }

  lemma {:induction false} RunAppend(c: Core, a: seq<Op>, b: seq<Op>, limits: Limits)
    ensures Run(c, a + b, limits) == Run(Run(c, a, limits), b, limits)
    ensures LegalRun(c, a + b, limits) <==> LegalRun(c, a, limits) && LegalRun(Run(c, a, limits), b, limits)
    decreases a
  {
    if a == [] {
      assert [] + b == b;
    } else {
      assert (a + b)[0] == a[0] && (a + b)[1..] == a[1..] + b;
      RunAppend(Next(c, a[0], limits), a[1..], b, limits);
    }
  }

  lemma GrantedSnoc(p: set<TouchId>, before: seq<TouchId>, x: TouchId)
    requires Distinct(before + [x])
    ensures Distinct(before) && x !in Granted(before)
    ensures Granted(before + [x]) == Granted(before) + {x} && |Granted(before + [x])| == |before| + 1
    ensures p - Granted(before + [x]) == p - Granted(before) - {x}
  {
    var xs := before + [x];
    forall i | 0 <= i < |before| ensures before[i] != x {
      assert xs[i] != xs[|before|];
    }
    forall i, j | 0 <= i < j < |before| ensures before[i] != before[j] {
      assert xs[i] != xs[j];
    }
    assert Granted(xs) == Granted(before) + {x};
    DistinctCount(xs);
  }

  /** Candidates that are granted one by one: the gesture is recognised with the grant that makes the minimum. */
  lemma {:induction false} GrantsDecide(p: set<TouchId>, xs: seq<TouchId>, limits: Limits)
    requires limits.min >= 1 && Distinct(xs) && forall x <- xs :: x in p
    ensures LegalRun(Core(WaitingForOwnership, p, {}), Grants(xs), limits)
    ensures Run(Core(WaitingForOwnership, p, {}), Grants(xs), limits)
            == Core(if |xs| >= limits.min then Recognized else WaitingForOwnership, p - Granted(xs), Granted(xs))
  {
    hide Granted, Distinct, Run, LegalRun;
    var c := Core(WaitingForOwnership, p, {});
    if xs != [] {
      var before, x := xs[..|xs| - 1], xs[|xs| - 1];
      assert xs == before + [x] && Grants(xs) == Grants(before) + [GainedOp(x)];
      GrantedSnoc(p, before, x);
      GrantsDecide(p, before, limits);
      RunAppend(c, Grants(before), [GainedOp(x)], limits);
      OneGrant(Run(c, Grants(before), limits), x, limits);
    } else {
      NoGrant(c, limits);
      assert p - {} == p;
    }
  }

  lemma OneGrant(c: Core, x: TouchId, limits: Limits)
    ensures Run(c, [GainedOp(x)], limits) == Gained(c, x, limits)
    ensures LegalRun(c, [GainedOp(x)], limits) <==> x in c.candidates && Requesting(c.status)
  {
    assert [GainedOp(x)][1..] == [];
  }

  lemma NoGrant(c: Core, limits: Limits)
    ensures Run(c, [], limits) == c && LegalRun(c, [], limits) && Granted([]) == {}
  {
  }

  /**
   From the start: fingers come and go until their number is for the first time at least the
   minimum, and is no more than the maximum; then the gesture is recognised exactly when at
   least the minimum of them is granted.
   */
  lemma Recognises(ops: seq<Op>, xs: seq<TouchId>, limits: Limits)
    requires 1 <= limits.min && forall op <- ops :: ComesOrGoes(op)
    requires forall k | 0 <= k < |ops| :: |Followed({}, ops[..k], false)| < limits.min
    requires limits.min <= |Followed({}, ops, false)| <= limits.max
    requires Distinct(xs) && forall x <- xs :: x in Followed({}, ops, false)
    ensures Run(START, ops + Grants(xs), limits).status == Recognized <==> |xs| >= limits.min
  {
    NumberDecides(ops, limits);
    NoneOrSome(Followed({}, ops, false));
    RunAppend(START, ops, Grants(xs), limits);
    GrantsDecide(Followed({}, ops, false), xs, limits);
  }
}
