/**
 Activating the contents of a menu outwards from a base index. The search for the next
 one zig-zags: one up, one down, two up, two down, and so on.
 */
module MenuContentSearch {

  function Magnitude(d: int): nat {
    if d < 0 then -d else d
  }

  /** The place of a delta in the zig-zag 0, 1, -1, 2, -2, ... */
  function Rank(d: int): nat {
    if d > 0 then 2 * d - 1 else -2 * d
  }

  /** The deltas the search considers: upwards until the count, downwards until zero. */
  predicate Candidate(base: int, count: int, d: int) {
    (d > 0 && base + d < count) || (d < 0 && base + d >= 0)
  }

  predicate IsActive(content: map<int, bool>, index: int) {
    index in content && content[index]
  }

  /** Every candidate after `from` and up to `to` in the zig-zag is active. */
  ghost predicate AllActive(content: map<int, bool>, base: int, count: int, from: int, to: int) {
    forall d :: Rank(from) < Rank(d) <= Rank(to) && Candidate(base, count, d) ==> IsActive(content, base + d)
  }

  ghost predicate AllBefore(content: map<int, bool>, base: int, count: int, from: int, to: int) {
    forall d :: Rank(from) < Rank(d) < Rank(to) && Candidate(base, count, d) ==> IsActive(content, base + d)
  }

  ghost predicate NoneLeft(content: map<int, bool>, base: int, count: int, from: int) {
    forall d :: Rank(from) < Rank(d) && Candidate(base, count, d) ==> IsActive(content, base + d)
  }

  predicate NothingToSearch(base: int, count: int) {
    count == 0 || base >= count
  }

  /** What the search returns when it starts behind `from`. */
  ghost predicate IsNext(content: map<int, bool>, base: int, count: int, from: int, delta: int, finished: bool) {
    if finished then delta == 0 && (NothingToSearch(base, count) || NoneLeft(content, base, count, from))
    else
      && !NothingToSearch(base, count)
      && Rank(from) < Rank(delta) && Candidate(base, count, delta) && !IsActive(content, base + delta)
      && AllBefore(content, base, count, from, delta)
  }

  /** The base and everything up to `delta` in the zig-zag is active. */
  ghost predicate Explored(content: map<int, bool>, base: int, count: int, delta: int) {
    && IsActive(content, base)
    && (forall d :: Rank(d) <= Rank(delta) && Candidate(base, count, d) ==> IsActive(content, base + d))
  }

  lemma RankOrders(a: int, b: int)
    ensures Rank(a) < Rank(b) <==> Magnitude(a) < Magnitude(b) || (Magnitude(a) == Magnitude(b) && a > b)
    ensures Rank(a) == Rank(b) <==> a == b
  {
  }

  /** `i` is inactive, in range, and nothing inactive in range is nearer; above wins over below. */
  ghost predicate IsNearest(content: map<int, bool>, base: int, count: int, i: int) {
    && 0 <= i < count && !IsActive(content, i)
    && forall k | 0 <= k < count && !IsActive(content, k) ::
         Magnitude(i - base) < Magnitude(k - base) || (Magnitude(i - base) == Magnitude(k - base) && i >= k)
  }

  /**
   What the search is for: the nearest inactive index, and finished exactly when there is
   none (or when the base is behind the menu).
   */
  ghost predicate FindsNearest(content: map<int, bool>, base: int, count: int, delta: int, finished: bool) {
    && (finished <==> base >= count || forall i :: 0 <= i < count ==> IsActive(content, i))
    && (!finished ==> IsNearest(content, base, count, base + delta))
  }

  /** Between a negative base and the menu there is nothing left to activate. */
  ghost predicate ReachesMenu(content: map<int, bool>, base: int, count: int) {
    count == 0 || forall i :: base < i < 0 && i < count ==> IsActive(content, i)
  }

  lemma ReachesMenuFromMinusOne(content: map<int, bool>, base: int, count: int)
    requires base >= -1
    ensures ReachesMenu(content, base, count)
  {
  }

  /** From an explored state the search does what it is for exactly when it reaches the menu. */
  lemma NextIsNearestIff(content: map<int, bool>, base: int, count: int, from: int, delta: int, finished: bool)
    requires Explored(content, base, count, from)
    requires IsNext(content, base, count, from, delta, finished)
    ensures FindsNearest(content, base, count, delta, finished) <==> ReachesMenu(content, base, count)
  {
    if ReachesMenu(content, base, count) {
      NextIsNearest(content, base, count, from, delta, finished);
    } else {
      var i :| base < i < 0 && i < count && !IsActive(content, i);
      var d := i - base;
      assert Candidate(base, count, d) && base + d == i;
      assert Rank(from) < Rank(d);
      assert !finished;
    }
  }

  lemma NextIsNearest(content: map<int, bool>, base: int, count: int, from: int, delta: int, finished: bool)
    requires ReachesMenu(content, base, count)
    requires Explored(content, base, count, from)
    requires IsNext(content, base, count, from, delta, finished)
    ensures FindsNearest(content, base, count, delta, finished)
  {
    if finished && !NothingToSearch(base, count) {
      forall i | 0 <= i < count ensures IsActive(content, i) {
        AsCandidate(content, base, count, from, i);
      }
    }
    if !finished {
      assert 0 <= base + delta < count;
      forall k | 0 <= k < count && !IsActive(content, k)
        ensures Magnitude(delta) < Magnitude(k - base) || (Magnitude(delta) == Magnitude(k - base) && base + delta >= k)
      {
        AsCandidate(content, base, count, from, k);
        RankOrders(delta, k - base);
      }
    }
  }

  /** Whatever was found: once it is active, everything up to it is. */
  lemma NextExplored(content: map<int, bool>, base: int, count: int, from: int, delta: int)
    requires Explored(content, base, count, from)
    requires IsNext(content, base, count, from, delta, false)
    ensures Explored(content[base + delta := true], base, count, delta)
  {
    forall d | Rank(d) <= Rank(delta) && Candidate(base, count, d)
      ensures IsActive(content[base + delta := true], base + d)
    {
      RankOrders(d, delta);
    }
  }

  /** The search finishes exactly when no candidate is inactive. */
  lemma FinishedIff(content: map<int, bool>, base: int, count: int, from: int, delta: int, finished: bool)
    requires Explored(content, base, count, from)
    requires IsNext(content, base, count, from, delta, finished)
    ensures finished <==> !SomethingAhead(content, base, count)
  {
    if !finished {
      assert Candidate(base, count, delta);
    }
  }

  ghost predicate SomethingAhead(content: map<int, bool>, base: int, count: int) {
    count != 0 && base < count && exists d :: Candidate(base, count, d) && !IsActive(content, base + d)
  }

  /** When the search reaches the menu, something lies ahead exactly when an index of the menu is inactive. */
  lemma AheadIff(content: map<int, bool>, base: int, count: int)
    requires ReachesMenu(content, base, count) && IsActive(content, base) && base < count
    ensures SomethingAhead(content, base, count) <==> exists i :: 0 <= i < count && !IsActive(content, i)
  {
    if i :| 0 <= i < count && !IsActive(content, i) {
      assert Candidate(base, count, i - base) && base + (i - base) == i;
    }
  }

  /** Setting one index decides about that index and no other. */
  lemma ActiveAfter(content: map<int, bool>, index: int, active: bool, i: int)
    ensures IsActive(content[index := active], i) <==> if i == index then active else IsActive(content, i)
    ensures !IsActive(map[], i)
  {
  }

  /** An index in range is the base or a candidate; when inactive it lies ahead. */
  lemma AsCandidate(content: map<int, bool>, base: int, count: int, from: int, i: int)
    requires 0 <= i < count && Explored(content, base, count, from)
    ensures i != base ==> Candidate(base, count, i - base)
    ensures !IsActive(content, i) ==> i != base && Rank(from) < Rank(i - base)
  {
    if i != base {
      var d := i - base;
      assert Candidate(base, count, d);
      assert base + d == i;
    }
  }

  /** A base of -2 in a fresh menu of one: index -1 is activated instead of index 0. */
  lemma NegativeBaseEscapes()
    ensures var content := map[-2 := true];
            && Explored(content, -2, 1, 0)
            && IsNext(content, -2, 1, 0, 1, false)
            && !FindsNearest(content, -2, 1, 1, false)
  {
    var content := map[-2 := true];
    forall d | Rank(d) <= Rank(0) ensures d == 0 {
      RankOrders(0, d);
    }
    assert Candidate(-2, 1, 1) && !IsActive(content, -2 + 1);
    forall d | Rank(0) < Rank(d) < Rank(1) ensures false {
      assert false;
    }
  }
}

/** The activator itself. */
module MenuContents {
  import opened MenuContentSearch

  class MenuContentActivator {
    var running: bool
    var baseIndex: int
    var delta: int
    var count: int
    var timerRunning: bool
    var content: map<int, bool>

    /** While the timer runs, the content is active up to the current delta. */
    ghost predicate Valid()
      reads this
    {
      timerRunning ==> running && Explored(content, baseIndex, count, delta)
    }

    function Inactive(): set<int>
      reads this
    {
      set i | 0 <= i < count && !IsActive(content, i)
    }

    constructor ()
      ensures Valid() && !running && content == map[] && baseIndex == count == 0
    {
      running, baseIndex, delta, count, timerRunning, content := false, 0, 0, 0, false, map[];
    }

    method FindNextInactiveDelta() returns (r: int, finished: bool)
      ensures IsNext(content, baseIndex, count, delta, r, finished) && (finished ==> r == 0)
    {
      if count == 0 || baseIndex >= count {
        return 0, true;
      }
      hide AllActive, AllBefore, NoneLeft;
      var tmpDelta := delta;
      NothingYet(content, baseIndex, count, delta);
      var topReached, bottomReached := false, false;
      while true
        invariant Rank(delta) <= Rank(tmpDelta)
        invariant AllActive(content, baseIndex, count, delta, tmpDelta)
        invariant topReached ==> baseIndex + Magnitude(tmpDelta) >= count && tmpDelta != 0
        invariant bottomReached ==> baseIndex - Magnitude(tmpDelta) < 0 && tmpDelta != 0
        invariant !(topReached && bottomReached)
        decreases (if topReached then 0 else 1) + (if bottomReached then 0 else 1),
                  2 * (Magnitude(baseIndex) + Magnitude(count)) + 4 - Rank(tmpDelta)
      {
        ghost var before := tmpDelta;
        if tmpDelta > 0 && bottomReached { tmpDelta := -tmpDelta; }
        if tmpDelta < 0 && topReached { tmpDelta := -tmpDelta + 1; }
        if tmpDelta > 0 {
          tmpDelta := -tmpDelta;
          Passed(content, baseIndex, count, delta, before, tmpDelta, topReached, bottomReached);
          if baseIndex + tmpDelta < 0 {
            bottomReached := true;
            if topReached {
              return 0, true;
            }
            continue;
          }
        } else {
          tmpDelta := -tmpDelta + 1;
          Passed(content, baseIndex, count, delta, before, tmpDelta, topReached, bottomReached);
          if baseIndex + tmpDelta >= count {
            topReached := true;
            if bottomReached {
              return 0, true;
            }
            continue;
          }
        }
        if IsActive(content, baseIndex + tmpDelta) {
          continue;
        }
        break;
      }
      return tmpDelta, false;
    }

    method SetMenuContentState(index: int, active: bool)
      modifies this`content
      ensures content == old(content)[index := active]
      ensures forall i :: IsActive(content, i) <==> if i == index then active else IsActive(old(content), i)
    {
      content := content[index := active];
    }

    method Restart()
      modifies this`content, this`delta, this`timerRunning, this`running
      ensures Valid() && running && delta == 0
      ensures content == old(content)[baseIndex := true]
      ensures timerRunning <==> SomethingAhead(content, baseIndex, count)
      ensures ReachesMenu(content, baseIndex, count) ==>
                (timerRunning <==> baseIndex < count && Inactive() != {})
    {
      SetMenuContentState(baseIndex, true);
      delta := 0;
      StartExplored(content, baseIndex, count);
      var r, finished := FindNextInactiveDelta();
      FinishedIff(content, baseIndex, count, 0, r, finished);
      NextIsNearestIff(content, baseIndex, count, 0, r, finished);
      InactiveOnes();
      timerRunning := !finished;
      if !running {
        running := true;
      }
    }

    /** The test of the running flag is the wrong way round in the code, so a running activator stays running. */
    method Stop()
      requires Valid()
      modifies this`timerRunning, this`running
      ensures Valid() && !timerRunning && running == old(running)
    {
      timerRunning := false;
      if !running {
        running := false;
      }
    }

    method Clear()
      requires Valid()
      modifies this`content, this`delta, this`timerRunning
      ensures Valid() && content == map[] && delta == 0 && !timerRunning
    {
      content := map[];
      delta := 0;
      timerRunning := false;
    }

    method SetBaseIndex(index: int)
      requires Valid()
      modifies this
      ensures Valid() && baseIndex == index && count == old(count) && running == old(running)
      ensures running && index != old(baseIndex) ==>
                && content == old(content)[index := true] && delta == 0
                && (timerRunning <==> SomethingAhead(content, index, count))
      ensures !running || index == old(baseIndex) ==>
                content == old(content) && delta == old(delta) && timerRunning == old(timerRunning)
    {
      if baseIndex != index {
        baseIndex := index;
        if running {
          Restart();
        }
      }
    }

    method SetCount(n: int)
      requires Valid()
      modifies this
      ensures Valid() && count == n && baseIndex == old(baseIndex) && running == old(running)
      ensures running && n != old(count) ==>
                && content == old(content)[baseIndex := true] && delta == 0
                && (timerRunning <==> SomethingAhead(content, baseIndex, n))
      ensures !running || n == old(count) ==>
                content == old(content) && delta == old(delta) && timerRunning == old(timerRunning)
    {
      if count != n {
        count := n;
        if running {
          Restart();
        }
      }
    }

    lemma InactiveOnes()
      ensures Inactive() == {} <==> forall i :: 0 <= i < count ==> IsActive(content, i)
    {
      var inactive := Inactive();
      assert forall i :: i in inactive <==> 0 <= i < count && !IsActive(content, i);
      assert (forall i :: i !in inactive) <==> inactive == {};
    }

    /**
     One tick activates the next inactive index, or stops the timer when none is left. As long as
     the search reaches the menu this is the nearest index of the menu, so the ticks after a
     restart number at most the inactive indices.
     */
    method OnTimeout() returns (finished: bool)
      requires Valid() && timerRunning
      modifies this`content, this`delta, this`timerRunning
      ensures Valid() && timerRunning == !finished
      ensures finished <==> !SomethingAhead(old(content), baseIndex, count)
      ensures finished ==> content == old(content) && delta == old(delta)
      ensures !finished ==>
                && IsNext(old(content), baseIndex, count, old(delta), delta, false)
                && content == old(content)[baseIndex + delta := true]
      ensures ReachesMenu(old(content), baseIndex, count) <==> FindsNearest(old(content), baseIndex, count,
                                                                            if finished then 0 else delta, finished)
      ensures ReachesMenu(old(content), baseIndex, count) && !finished ==>
                Inactive() == old(Inactive()) - {baseIndex + delta} && baseIndex + delta in old(Inactive())
    {
      var tempDelta: int;
      tempDelta, finished := FindNextInactiveDelta();
      FinishedIff(content, baseIndex, count, delta, tempDelta, finished);
      NextIsNearestIff(content, baseIndex, count, delta, tempDelta, finished);
      if !finished {
        NextExplored(content, baseIndex, count, delta, tempDelta);
        SetMenuContentState(baseIndex + tempDelta, true);
        delta := tempDelta;
      }
      if finished {
        timerRunning := false;
      }
    }
  }

  lemma NothingYet(content: map<int, bool>, base: int, count: int, from: int)
    ensures AllActive(content, base, count, from, from)
  {
  }

  lemma StartExplored(content: map<int, bool>, base: int, count: int)
    requires IsActive(content, base)
    ensures Explored(content, base, count, 0)
  {
    forall d | Rank(d) <= Rank(0) ensures d == 0 {
      RankOrders(0, d);
    }
  }

  /** One turn of the loop moves on in the zig-zag and passes over nothing that could be a candidate. */
  lemma Passed(content: map<int, bool>, base: int, count: int, from: int, before: int, now: int, top: bool,
               bottom: bool)
    requires AllActive(content, base, count, from, before) && Rank(from) <= Rank(before)
    requires top ==> base + Magnitude(before) >= count && before != 0
    requires bottom ==> base - Magnitude(before) < 0 && before != 0
    requires !(top && bottom)
    requires now == if before > 0 then (if bottom then before + 1 else -before)
                    else if before < 0 && top then before - 1 else -before + 1
    ensures Rank(before) < Rank(now) && now != 0
    ensures AllBefore(content, base, count, from, now)
    ensures !Candidate(base, count, now) || IsActive(content, base + now) ==> AllActive(content, base, count, from, now)
    ensures top ==> base + Magnitude(now) >= count
    ensures bottom ==> base - Magnitude(now) < 0
    ensures Candidate(base, count, now) ==> Rank(now) <= 2 * (Magnitude(base) + Magnitude(count)) + 3
    ensures (top || base + Magnitude(now) >= count) && (bottom || base - Magnitude(now) < 0) ==>
              NoneLeft(content, base, count, from)
  {
    forall d | Rank(from) < Rank(d) < Rank(now) && Candidate(base, count, d) ensures IsActive(content, base + d) {
      assert Rank(d) <= Rank(before);
    }
    forall d | Rank(d) == Rank(now) ensures d == now {
      RankOrders(d, now);
    }
    if base + Magnitude(now) >= count && base - Magnitude(now) < 0 {
      forall d | Rank(from) < Rank(d) && Candidate(base, count, d) ensures IsActive(content, base + d) {
        assert Rank(d) < Rank(now);
      }
    }
  }
}
