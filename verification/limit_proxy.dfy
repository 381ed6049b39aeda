/**
 A proxy that shows at most a given number of rows of its source. It translates changes
 of the source, and of the limit, into changes of the visible prefix; an observer that
 replays what is announced must always hold exactly that prefix.
 */
module LimitProxySpec {

  /** The visible part of a source; a negative limit means all of it. */
  function Visible<T>(source: seq<T>, limit: int): seq<T> {
    if limit < 0 || |source| <= limit then source else source[..limit]
  }

  function VisibleCount(count: nat, limit: int): nat {
    if limit < 0 || count <= limit then count else limit
  }

  /** As many of the first rows as the limit says, all of them if there are fewer or the limit is negative. */
  lemma VisibleMeaning<T>(source: seq<T>, limit: int)
    ensures Visible(source, limit) <= source
    ensures |Visible(source, limit)| == VisibleCount(|source|, limit)
    ensures limit < 0 ==> Visible(source, limit) == source
    ensures limit >= 0 ==> |Visible(source, limit)| <= limit
    ensures limit >= 0 && |Visible(source, limit)| < limit ==> Visible(source, limit) == source
  {
  }

  /** A range of rows, both ends included. */
  datatype Range = NoRange | Range(first: int, last: int)

  /** What the proxy announces for one change: rows inserted or removed, then rows whose data changed. */
  datatype Plan = Plan(inserted: Range, removed: Range, changed: Range)

  const NOTHING := Plan(NoRange, NoRange, NoRange)

  // ---------- the observer ----------

  predicate LegalInsert(rows: nat, r: Range, now: nat) {
    r.Range? ==> 0 <= r.first <= rows && r.first <= r.last && rows + (r.last - r.first + 1) == now
  }

  predicate LegalRemove(rows: nat, r: Range, now: nat) {
    r.Range? ==> 0 <= r.first <= r.last < rows && rows - (r.last - r.first + 1) == now
  }

  predicate LegalChange(rows: nat, r: Range) {
    r.Range? ==> 0 <= r.first <= r.last < rows
  }

  /** Each announcement fits the rows the observer holds, and leaves as many rows as the model then reports. */
  predicate LegalPlan(rows: nat, p: Plan, now: nat) {
    && (p.inserted.Range? ==> p.removed == NoRange)
    && (p.inserted == NoRange && p.removed == NoRange ==> rows == now)
    && LegalInsert(rows, p.inserted, now)
    && LegalRemove(rows, p.removed, now)
    && LegalChange(now, p.changed)
  }

  /** The observer reads the rows it is told about from the model as it is after the change. */
  function AfterInsert<T>(view: seq<T>, r: Range, current: seq<T>): seq<T>
    requires LegalInsert(|view|, r, |current|)
  {
    if r == NoRange then view else view[..r.first] + current[r.first..r.last + 1] + view[r.first..]
  }

  function AfterRemove<T>(view: seq<T>, r: Range, now: nat): seq<T>
    requires LegalRemove(|view|, r, now)
  {
    if r == NoRange then view else view[..r.first] + view[r.last + 1..]
  }

  function AfterChange<T>(view: seq<T>, r: Range, current: seq<T>): seq<T>
    requires |view| == |current| && LegalChange(|view|, r)
  {
    if r == NoRange then view else view[..r.first] + current[r.first..r.last + 1] + view[r.last + 1..]
  }

  function Replay<T>(view: seq<T>, p: Plan, current: seq<T>): seq<T>
    requires LegalPlan(|view|, p, |current|)
  {
    if p.inserted.Range? then AfterChange(AfterInsert(view, p.inserted, current), p.changed, current)
    else AfterChange(AfterRemove(view, p.removed, |current|), p.changed, current)
  }

  // ---------- what is announced ----------

  /** `k` rows are about to be inserted at `start` into a source of `n` rows. */
  function InsertPlan(limit: int, n: nat, start: nat, k: nat): Plan
    requires k > 0
  {
    var end := start + k - 1;
    if limit < 0 then Plan(Range(start, end), NoRange, NoRange)
    else if start >= limit then NOTHING
    else if n + k <= limit then Plan(Range(start, end), NoRange, NoRange)
    else if n >= limit then Plan(NoRange, NoRange, Range(start, limit - 1))
    else
      var toInsert := limit - n;
      Plan(Range(start, start + toInsert - 1), NoRange,
           if start + toInsert > limit - 1 then NoRange else Range(start + toInsert, limit - 1))
  }

  /** `k` rows are about to be removed at `start` from a source of `n` rows. */
  function RemovePlan(limit: int, n: nat, start: nat, k: nat): Plan
    requires k > 0
  {
    var end := start + k - 1;
    if limit < 0 then Plan(NoRange, Range(start, end), NoRange)
    else if start >= limit then NOTHING
    else if n <= limit then Plan(NoRange, Range(start, end), NoRange)
    else if n - k >= limit then Plan(NoRange, NoRange, Range(start, limit - 1))
    else
      var toRemove := limit - (n - k);
      Plan(NoRange, Range(limit - toRemove, limit - 1),
           if start > limit - toRemove - 1 then NoRange else Range(start, limit - toRemove - 1))
  }

  function LimitPlan(oldLimit: int, limit: int, n: nat): Plan {
    var oldCount := VisibleCount(n, oldLimit);
    if limit == oldLimit then NOTHING
    else if oldLimit < 0 then
      if limit < oldCount then Plan(NoRange, Range(limit, oldCount - 1), NoRange) else NOTHING
    else if limit < 0 then
      if oldLimit < n then Plan(Range(oldLimit, n - 1), NoRange, NoRange) else NOTHING
    else if limit > oldLimit && n > oldLimit then
      Plan(Range(oldLimit, (if limit < n then limit else n) - 1), NoRange, NoRange)
    else if limit < oldLimit && limit < oldCount then Plan(NoRange, Range(limit, oldCount - 1), NoRange)
    else NOTHING
  }

  // ---------- replaying gives the visible prefix ----------

  lemma InsertReplay<T>(source: seq<T>, limit: int, start: nat, rows: seq<T>)
    requires start <= |source| && rows != []
    ensures var after := source[..start] + rows + source[start..];
            var plan := InsertPlan(limit, |source|, start, |rows|);
            && LegalPlan(|Visible(source, limit)|, plan, |Visible(after, limit)|)
            && Replay(Visible(source, limit), plan, Visible(after, limit)) == Visible(after, limit)
  {
    hide Replay;
    var after := source[..start] + rows + source[start..];
    var plan := InsertPlan(limit, |source|, start, |rows|);
    var view, current := Visible(source, limit), Visible(after, limit);
    if plan.inserted.Range? {
      RowsAfterInsert(source, start, rows);
      SpliceReplay(view, start, plan, current);
    } else {
      assert view == source[..|view|] && current == after[..|view|];
      UnchangedReplay(source, after, |view|, plan);
    }
  }

  lemma RowsAfterInsert<T>(source: seq<T>, start: nat, rows: seq<T>)
    requires start <= |source|
    ensures var after := source[..start] + rows + source[start..];
            after[..start] == source[..start] && after[start + |rows|..] == source[start..]
  {
  }

  /** As many rows as before, the last of them all announced as changed if any of them did. */
  lemma UnchangedReplay<T>(source: seq<T>, after: seq<T>, count: nat, p: Plan)
    requires count <= |source| && count <= |after| && p.inserted == NoRange && p.removed == NoRange
    requires if p.changed == NoRange then source[..count] == after[..count]
             else LegalChange(count, p.changed) && p.changed.last == count - 1
                  && source[..p.changed.first] == after[..p.changed.first]
    ensures LegalPlan(count, p, count) && Replay(source[..count], p, after[..count]) == after[..count]
  {
    if p.changed.Range? {
      var first := p.changed.first;
      assert source[..count][..first] == source[..first] && after[..count][..first] == after[..first];
      assert after[..count] == after[..first] + after[first..count];
    }
  }

  /** Inserted rows, behind rows that stay, in front of rows that stay or that are all announced as changed. */
  lemma SpliceReplay<T>(view: seq<T>, first: nat, p: Plan, current: seq<T>)
    requires LegalPlan(|view|, p, |current|) && p.inserted.Range? && p.inserted.first == first
    requires view[..first] == current[..first]
    requires if p.changed == NoRange then view[first..] == current[p.inserted.last + 1..]
             else p.changed == Range(p.inserted.last + 1, |current| - 1)
    ensures Replay(view, p, current) == current
  {
    var l := p.inserted.last;
    assert current[..first] + current[first..l + 1] == current[..l + 1];
    assert current[..l + 1] + current[l + 1..] == current;
    var shown := AfterInsert(view, p.inserted, current);
    assert shown[..l + 1] == current[..l + 1];
  }

  lemma RemoveReplay<T>(source: seq<T>, limit: int, start: nat, k: nat)
    requires k > 0 && start + k <= |source|
    ensures var after := source[..start] + source[start + k..];
            var plan := RemovePlan(limit, |source|, start, k);
            && LegalPlan(|Visible(source, limit)|, plan, |Visible(after, limit)|)
            && Replay(Visible(source, limit), plan, Visible(after, limit)) == Visible(after, limit)
  {
    hide Replay;
    var after := source[..start] + source[start + k..];
    var plan := RemovePlan(limit, |source|, start, k);
    var view, current := Visible(source, limit), Visible(after, limit);
    RowsAfterRemove(source, start, k);
    if plan.removed.Range? {
      CutReplay(view, plan, current);
    } else {
      assert view == source[..|view|] && current == after[..|view|];
      UnchangedReplay(source, after, |view|, plan);
    }
  }

  lemma RowsAfterRemove<T>(source: seq<T>, start: nat, k: nat)
    requires start + k <= |source|
    ensures var after := source[..start] + source[start + k..];
            after[..start] == source[..start] && after[start..] == source[start + k..]
  {
  }

  /** Rows cut out, in front of rows that stay, or at the end with all rows that do not stay announced as changed. */
  lemma CutReplay<T>(view: seq<T>, p: Plan, current: seq<T>)
    requires LegalPlan(|view|, p, |current|) && p.removed.Range?
    requires if p.changed == NoRange
             then view[..p.removed.first] == current[..p.removed.first]
                  && view[p.removed.last + 1..] == current[p.removed.first..]
             else p.changed.last == |current| - 1 && view[..p.changed.first] == current[..p.changed.first]
                  && p.changed.first <= p.removed.first
    ensures Replay(view, p, current) == current
  {
    var first := if p.changed == NoRange then p.removed.first else p.changed.first;
    assert current == current[..first] + current[first..];
    assert AfterRemove(view, p.removed, |current|)[..first] == view[..first];
  }

  /**
   Changing the limit announces something legal, and something an observer can follow, except
   exactly when the old and the new limit are different negative numbers and so mean the same.
   */
  lemma LimitReplayIff<T>(source: seq<T>, oldLimit: int, limit: int)
    ensures var plan := LimitPlan(oldLimit, limit, |source|);
            var view, current := Visible(source, oldLimit), Visible(source, limit);
            && (LegalPlan(|view|, plan, |current|) <==> !(oldLimit < 0 && limit < 0 && limit != oldLimit))
            && if LegalPlan(|view|, plan, |current|) then Replay(view, plan, current) == current else view == current
  {
  }

  /** An input: from -1 to -2 it announces the removal of rows -2 to 0 of a source with one row. */
  lemma NegativeLimitsAnnounceNonsense<T>(row: T)
    ensures LimitPlan(-1, -2, 1) == Plan(NoRange, Range(-2, 0), NoRange)
    ensures Visible([row], -1) == Visible([row], -2) == [row] && !LegalPlan(1, LimitPlan(-1, -2, 1), 1)
  {
  }

  /** With limits of at least -1 the exception cannot arise. */
  lemma SaneLimitsReplay<T>(source: seq<T>, oldLimit: int, limit: int)
    requires oldLimit >= -1 && limit >= -1
    ensures var plan := LimitPlan(oldLimit, limit, |source|);
            && LegalPlan(|Visible(source, oldLimit)|, plan, |Visible(source, limit)|)
            && Replay(Visible(source, oldLimit), plan, Visible(source, limit)) == Visible(source, limit)
  {
    LimitReplayIff(source, oldLimit, limit);
  }

  // ---------- nothing is announced without need ----------

  ghost predicate Distinct<T>(rows: seq<T>) {
    forall i, j :: 0 <= i < j < |rows| ==> rows[i] != rows[j]
  }

  predicate InRange(r: Range, j: int) {
    r.Range? && r.first <= j <= r.last
  }

  /**
   With rows that all differ: what is announced as inserted is new to the observer, what is
   announced as changed did change, and nothing is announced when the visible rows are the same.
   */
  lemma InsertTight<T>(source: seq<T>, limit: int, start: nat, rows: seq<T>)
    requires start <= |source| && rows != []
    requires Distinct(source[..start] + rows + source[start..])
    ensures var after := source[..start] + rows + source[start..];
            var plan := InsertPlan(limit, |source|, start, |rows|);
            var view, current := Visible(source, limit), Visible(after, limit);
            && LegalPlan(|view|, plan, |current|)
            && plan.removed == NoRange && (plan.inserted.Range? ==> plan.inserted.first == start)
            && (plan == NOTHING <==> view == current)
            && (forall j | InRange(plan.inserted, j) :: current[j] in rows)
            && (forall j | InRange(plan.changed, j) :: AfterInsert(view, plan.inserted, current)[j] != current[j])
  {
    hide AfterChange;
    var after := source[..start] + rows + source[start..];
    var plan := InsertPlan(limit, |source|, start, |rows|);
    var view, current := Visible(source, limit), Visible(after, limit);
    InsertReplay(source, limit, start, rows);
    forall j | InRange(plan.inserted, j) ensures current[j] in rows {
      assert current[j] == after[j] == rows[j - start];
    }
    forall j | InRange(plan.changed, j) ensures AfterInsert(view, plan.inserted, current)[j] != current[j] {
      var i := if plan.inserted.Range? then j - (limit - |source|) else j;
      assert AfterInsert(view, plan.inserted, current)[j] == source[i];
      assert source[i] == after[i + |rows|] && current[j] == after[j];
    }
    if plan.changed.Range? && plan.inserted == NoRange {
      assert InRange(plan.changed, start);
    }
  }

  /**
   The same for a removal; the rows announced as removed are the last visible ones when others
   are announced as changed.
   */
  lemma RemoveTight<T>(source: seq<T>, limit: int, start: nat, k: nat)
    requires k > 0 && start + k <= |source| && Distinct(source)
    ensures var after := source[..start] + source[start + k..];
            var plan := RemovePlan(limit, |source|, start, k);
            var view, current := Visible(source, limit), Visible(after, limit);
            && LegalPlan(|view|, plan, |current|)
            && plan.inserted == NoRange
            && (plan == NOTHING <==> view == current)
            && (plan.removed.Range? ==> plan.removed.last == |view| - 1 || plan.changed == NoRange)
            && (forall j | InRange(plan.changed, j) :: AfterRemove(view, plan.removed, |current|)[j] != current[j])
  {
    var after := source[..start] + source[start + k..];
    var plan := RemovePlan(limit, |source|, start, k);
    var view, current := Visible(source, limit), Visible(after, limit);
    RemoveReplay(source, limit, start, k);
    forall j | InRange(plan.changed, j) ensures AfterRemove(view, plan.removed, |current|)[j] != current[j] {
      assert AfterRemove(view, plan.removed, |current|)[j] == source[j];
      assert current[j] == after[j] == source[j + k];
    }
    if plan.changed.Range? && plan.removed == NoRange {
      assert InRange(plan.changed, start);
    }
  }

  /** A change of limit never announces changed rows, and nothing when the visible rows are the same. */
  lemma LimitTight<T>(source: seq<T>, oldLimit: int, limit: int)
    requires !(oldLimit < 0 && limit < 0)
    ensures var plan := LimitPlan(oldLimit, limit, |source|);
            && plan.changed == NoRange
            && (plan == NOTHING <==> Visible(source, oldLimit) == Visible(source, limit))
  {
    LimitReplayIff(source, oldLimit, limit);
  }

  // ---------- whole runs ----------

  datatype Change<T> =
    | InsertRows(at: nat, rows: seq<T>)
    | RemoveRows(at: nat, count: nat)
    | LimitTo(limit: int)

  datatype Proxied<T> = Proxied(source: seq<T>, limit: int)

  predicate Possible<T>(s: Proxied<T>, c: Change<T>) {
    match c
    case InsertRows(at, rows) => at <= |s.source| && rows != []
    case RemoveRows(at, count) => count > 0 && at + count <= |s.source|
    case LimitTo(_) => true
  }

  function Changed<T>(s: Proxied<T>, c: Change<T>): Proxied<T>
    requires Possible(s, c)
  {
    match c
    case InsertRows(at, rows) => s.(source := s.source[..at] + rows + s.source[at..])
    case RemoveRows(at, count) => s.(source := s.source[..at] + s.source[at + count..])
    case LimitTo(limit) => s.(limit := limit)
  }

  function PlanFor<T>(s: Proxied<T>, c: Change<T>): Plan
    requires Possible(s, c)
  {
    match c
    case InsertRows(at, rows) => InsertPlan(s.limit, |s.source|, at, |rows|)
    case RemoveRows(at, count) => RemovePlan(s.limit, |s.source|, at, count)
    case LimitTo(limit) => LimitPlan(s.limit, limit, |s.source|)
  }

  /** The exception: the limit changes between two negative numbers. */
  predicate MakesSense<T>(s: Proxied<T>, c: Change<T>) {
    c.LimitTo? && s.limit < 0 && c.limit < 0 ==> s.limit == c.limit
  }

  ghost predicate PossibleRun<T>(s: Proxied<T>, cs: seq<Change<T>>)
    decreases cs
  {
    cs == [] || (Possible(s, cs[0]) && PossibleRun(Changed(s, cs[0]), cs[1..]))
  }

  ghost function RunOf<T>(s: Proxied<T>, cs: seq<Change<T>>): Proxied<T>
    requires PossibleRun(s, cs)
    decreases cs
  {
    if cs == [] then s else RunOf(Changed(s, cs[0]), cs[1..])
  }

  /**
   The announcements of a run are legal when they are made but for the exception, which the
   observer ignores; `end` is where replaying the others ends.
   */
  ghost predicate Observes<T>(s: Proxied<T>, view: seq<T>, cs: seq<Change<T>>, end: seq<T>)
    requires PossibleRun(s, cs)
    decreases cs
  {
    if cs == [] then view == end
    else
      var t := Changed(s, cs[0]);
      var plan, current := PlanFor(s, cs[0]), Visible(t.source, t.limit);
      var legal := LegalPlan(|view|, plan, |current|);
      && (legal <==> MakesSense(s, cs[0]))
      && Observes(t, if legal then Replay(view, plan, current) else view, cs[1..], end)
  }

  /** For every run an observer that listens, and ignores what makes no sense, ends with exactly the visible prefix. */
  lemma {:induction false} ObserverHoldsPrefix<T>(s: Proxied<T>, cs: seq<Change<T>>)
    requires PossibleRun(s, cs)
    ensures var end := RunOf(s, cs);
            Observes(s, Visible(s.source, s.limit), cs, Visible(end.source, end.limit))
    decreases cs
  {
    hide InsertPlan, RemovePlan, LimitPlan, Visible, Replay, LegalPlan;
    if cs != [] {
      var t := Changed(s, cs[0]);
      match cs[0] {
        case InsertRows(at, rows) => InsertReplay(s.source, s.limit, at, rows);
        case RemoveRows(at, count) => RemoveReplay(s.source, s.limit, at, count);
        case LimitTo(limit) => LimitReplayIff(s.source, s.limit, limit);
      }
      ObserverHoldsPrefix(t, cs[1..]);
    }
  }
}

/** The proxy, with its source and the observer attached to it. */
module LimitProxies {
  import opened LimitProxySpec

  class QLimitProxyModel<T(==)> {
    var source: seq<T>
    var limit: int
    var sourceInserting: bool
    var sourceRemoving: bool
    var dataChangedBegin: int
    var dataChangedEnd: int
    // rows between the begin and the end of an announcement
    var pending: Range
    // an observer that only listens
    ghost var view: seq<T>

    ghost predicate Idle()
      reads this
    {
      !sourceInserting && !sourceRemoving && dataChangedBegin == -1 && dataChangedEnd == -1 && pending == NoRange
    }

    ghost predicate Valid()
      reads this
    {
      Idle() && view == Visible(source, limit)
    }

    constructor ()
      ensures Valid() && source == [] && limit == -1
    {
      source, limit := [], -1;
      sourceInserting, sourceRemoving, dataChangedBegin, dataChangedEnd, pending := false, false, -1, -1, NoRange;
      view := [];
    }

    method RowCount() returns (count: nat)
      ensures count == |Visible(source, limit)|
    {
      count := if limit < 0 then |source| else if limit < |source| then limit else |source|;
    }

    /** An announcement that makes no sense for the rows held is ignored by the observer. */
    ghost method Hear(p: Plan)
      modifies this`view
      ensures view == if LegalPlan(|old(view)|, p, |Visible(source, limit)|)
                      then Replay(old(view), p, Visible(source, limit)) else old(view)
    {
      if LegalPlan(|view|, p, |Visible(source, limit)|) {
        view := Replay(view, p, Visible(source, limit));
      }
    }

    method SetLimit(newLimit: int) returns (ghost announced: Plan)
      requires Valid()
      modifies this`limit, this`view
      ensures Valid() && limit == newLimit
      ensures announced == LimitPlan(old(limit), newLimit, |source|)
      ensures LegalPlan(|old(view)|, announced, |Visible(source, limit)|)
              <==> !(old(limit) < 0 && newLimit < 0 && old(limit) != newLimit)
      ensures view == if LegalPlan(|old(view)|, announced, |Visible(source, limit)|)
                      then Replay(old(view), announced, Visible(source, limit)) else old(view)
    {
      announced := NOTHING;
      LimitReplayIff(source, limit, newLimit);
      if newLimit != limit {
        var inserting, removing, range := false, false, NoRange;
        var oldCount: int := RowCount();
        var unlimitedCount := |source|;
        if limit < 0 {
          if newLimit < oldCount {
            removing := true;
            range := Range(newLimit, oldCount - 1);
          }
        } else if newLimit < 0 {
          if limit < unlimitedCount {
            inserting := true;
            range := Range(limit, unlimitedCount - 1);
          }
        } else {
          if newLimit > limit && unlimitedCount > limit {
            inserting := true;
            range := Range(limit, (if newLimit < unlimitedCount then newLimit else unlimitedCount) - 1);
          } else if newLimit < limit && newLimit < oldCount {
            removing := true;
            range := Range(newLimit, oldCount - 1);
          }
        }
        limit := newLimit;
        if inserting {
          announced := Plan(range, NoRange, NoRange);
        } else if removing {
          announced := Plan(NoRange, range, NoRange);
        }
      }
      Hear(announced);
    }

    method SourceRowsAboutToBeInserted(start: nat, end: nat)
      requires Idle() && start <= end
      modifies this`sourceInserting, this`pending, this`dataChangedBegin, this`dataChangedEnd
      ensures Announced(InsertPlan(limit, |source|, start, end - start + 1))
    {
      if limit < 0 {
        pending := Range(start, end);
        sourceInserting := true;
      } else if start < limit {
        var added := end - start + 1;
        var currentCount := |source|;
        if currentCount + added <= limit {
          pending := Range(start, end);
          sourceInserting := true;
        } else if currentCount >= limit {
          dataChangedBegin := start;
          dataChangedEnd := limit - 1;
        } else {
          var toInsert := limit - currentCount;
          pending := Range(start, start + toInsert - 1);
          sourceInserting := true;
          dataChangedBegin := start + toInsert;
          dataChangedEnd := limit - 1;
          if dataChangedBegin > dataChangedEnd {
            dataChangedBegin, dataChangedEnd := -1, -1;
          }
        }
      }
    }

    method SourceRowsAboutToBeRemoved(start: nat, end: nat)
      requires Idle() && start <= end < |source|
      modifies this`sourceRemoving, this`pending, this`dataChangedBegin, this`dataChangedEnd
      ensures Announced(RemovePlan(limit, |source|, start, end - start + 1))
    {
      if limit < 0 {
        pending := Range(start, end);
        sourceRemoving := true;
      } else if start < limit {
        var gone := end - start + 1;
        var currentCount := |source|;
        if currentCount <= limit {
          pending := Range(start, end);
          sourceRemoving := true;
        } else if currentCount - gone >= limit {
          dataChangedBegin := start;
          dataChangedEnd := limit - 1;
        } else {
          var toRemove := limit - (currentCount - gone);
          pending := Range(limit - toRemove, limit - 1);
          sourceRemoving := true;
          dataChangedBegin := start;
          dataChangedEnd := limit - toRemove - 1;
          if dataChangedBegin > dataChangedEnd {
            dataChangedBegin, dataChangedEnd := -1, -1;
          }
        }
      }
    }

    /** The flags and ranges remembered between the two halves of a source change say what will be announced. */
    ghost predicate Announced(p: Plan)
      reads this
    {
      && p.inserted == (if sourceInserting then pending else NoRange)
      && p.removed == (if sourceRemoving then pending else NoRange)
      && p.changed == (if dataChangedBegin != -1 && dataChangedEnd != -1
                       then Range(dataChangedBegin, dataChangedEnd) else NoRange)
      && !(sourceInserting && sourceRemoving)
      && (sourceInserting || sourceRemoving <==> pending.Range?)
      && (dataChangedBegin == -1 <==> dataChangedEnd == -1)
    }

    method SourceRowsInserted(ghost plan: Plan)
      requires Announced(plan) && !sourceRemoving
      requires LegalPlan(|view|, plan, |Visible(source, limit)|)
      modifies this`sourceInserting, this`pending, this`dataChangedBegin, this`dataChangedEnd, this`view
      ensures Idle()
      ensures view == Replay(old(view), plan, Visible(source, limit))
    {
      if sourceInserting {
        view := AfterInsert(view, pending, Visible(source, limit));
        pending := NoRange;
        sourceInserting := false;
      }
      if dataChangedBegin != -1 && dataChangedEnd != -1 {
        view := AfterChange(view, Range(dataChangedBegin, dataChangedEnd), Visible(source, limit));
        dataChangedBegin, dataChangedEnd := -1, -1;
      }
    }

    method SourceRowsRemoved(ghost plan: Plan)
      requires Announced(plan) && !sourceInserting
      requires LegalPlan(|view|, plan, |Visible(source, limit)|)
      modifies this`sourceRemoving, this`pending, this`dataChangedBegin, this`dataChangedEnd, this`view
      ensures Idle()
      ensures view == Replay(old(view), plan, Visible(source, limit))
    {
      if sourceRemoving {
        view := AfterRemove(view, pending, |Visible(source, limit)|);
        pending := NoRange;
        sourceRemoving := false;
      }
      if dataChangedBegin != -1 && dataChangedEnd != -1 {
        view := AfterChange(view, Range(dataChangedBegin, dataChangedEnd), Visible(source, limit));
        dataChangedBegin, dataChangedEnd := -1, -1;
      }
    }

    /** The source inserts rows: first half, change, second half. */
    method InsertSourceRows(start: nat, rows: seq<T>)
      requires Valid() && start <= |source| && rows != []
      modifies this
      ensures Valid() && limit == old(limit)
      ensures source == old(source)[..start] + rows + old(source)[start..]
    {
      InsertReplay(source, limit, start, rows);
      ghost var plan := InsertPlan(limit, |source|, start, |rows|);
      SourceRowsAboutToBeInserted(start, start + |rows| - 1);
      source := source[..start] + rows + source[start..];
      SourceRowsInserted(plan);
    }

    method RemoveSourceRows(start: nat, k: nat)
      requires Valid() && k > 0 && start + k <= |source|
      modifies this
      ensures Valid() && limit == old(limit)
      ensures source == old(source)[..start] + old(source)[start + k..]
    {
      RemoveReplay(source, limit, start, k);
      ghost var plan := RemovePlan(limit, |source|, start, k);
      SourceRowsAboutToBeRemoved(start, start + k - 1);
      source := source[..start] + source[start + k..];
      SourceRowsRemoved(plan);
    }
  }
}
