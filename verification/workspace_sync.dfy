/**
 Reconciling a model's list with an edited list of proxies: the list surgery and what
 each phase of the synchronisation keeps.
 */
module WorkspaceSync {
  import opened Wrappers
  import opened WorkspaceSpec

  /** The elements of `l` that are in `s` (or, with `inside` false, those that are not), in order. */
  function Keep(l: seq<WorkspaceId>, s: set<WorkspaceId>, inside: bool): seq<WorkspaceId> {
    if l == [] then []
    else if (l[0] in s) == inside then [l[0]] + Keep(l[1..], s, inside)
    else Keep(l[1..], s, inside)
  }

  function Elements(l: seq<WorkspaceId>): set<WorkspaceId> {
    set x <- l
  }

  lemma {:induction false} KeepAppend(a: seq<WorkspaceId>, b: seq<WorkspaceId>, s: set<WorkspaceId>, inside: bool)
    ensures Keep(a + b, s, inside) == Keep(a, s, inside) + Keep(b, s, inside)
  {
    if a == [] {
      assert a + b == b;
    } else {
      assert (a + b)[0] == a[0] && (a + b)[1..] == a[1..] + b;
      KeepAppend(a[1..], b, s, inside);
    }
  }

  lemma {:induction false} KeepMembers(l: seq<WorkspaceId>, s: set<WorkspaceId>, inside: bool)
    ensures forall x :: x in Keep(l, s, inside) <==> x in l && (x in s) == inside
    ensures NoDuplicates(l) ==> NoDuplicates(Keep(l, s, inside))
  {
    if l != [] {
      assert l == [l[0]] + l[1..];
      KeepMembers(l[1..], s, inside);
      if NoDuplicates(l) {
        assert NoDuplicates(l[1..]);
        assert l[0] !in l[1..];
      }
    }
  }

  lemma {:induction false} KeepAll(l: seq<WorkspaceId>, s: set<WorkspaceId>, inside: bool)
    requires forall x <- l :: (x in s) == inside
    ensures Keep(l, s, inside) == l
  {
    if l != [] {
      KeepAll(l[1..], s, inside);
    }
  }

  lemma {:induction false} KeepTwice(l: seq<WorkspaceId>, s: set<WorkspaceId>, t: set<WorkspaceId>)
    ensures Keep(Keep(l, s, false), t, false) == Keep(l, s + t, false)
  {
    if l != [] {
      KeepTwice(l[1..], s, t);
      var rest := Keep(l[1..], s, false);
      if l[0] !in s {
        assert ([l[0]] + rest)[0] == l[0] && ([l[0]] + rest)[1..] == rest;
      }
    }
  }

  lemma {:induction false} KeepOthers(l: seq<WorkspaceId>, x: WorkspaceId)
    requires NoDuplicates(l)
    ensures Keep(l, {x}, false) == if IndexOf(l, x) < |l| then RemoveAt(l, IndexOf(l, x)) else l
  {
    if l != [] {
      var rest := l[1..];
      TailDistinct(l);
      hide NoDuplicates;
      if l[0] == x {
        KeepAll(rest, {x}, false);
        assert RemoveAt(l, 0) == rest;
      } else {
        KeepOthers(rest, x);
        RemoveFromTail(l, IndexOf(rest, x));
        assert l == [l[0]] + rest;
      }
    }
  }

  lemma TailDistinct(l: seq<WorkspaceId>)
    requires NoDuplicates(l) && l != []
    ensures NoDuplicates(l[1..]) && l[0] !in l[1..]
  {
  }

  lemma RemoveFromTail(l: seq<WorkspaceId>, i: nat)
    requires l != []
    ensures i < |l[1..]| ==> RemoveAt(l, i + 1) == [l[0]] + RemoveAt(l[1..], i)
  {
  }

  /** Taking one more element out of what was kept. */
  lemma KeepLess(l: seq<WorkspaceId>, s: set<WorkspaceId>, x: WorkspaceId)
    requires NoDuplicates(l)
    ensures var k := Keep(l, s, false);
            Keep(l, s + {x}, false) == if IndexOf(k, x) < |k| then RemoveAt(k, IndexOf(k, x)) else k
  {
    KeepTwice(l, s, {x});
    KeepMembers(l, s, false);
    KeepOthers(Keep(l, s, false), x);
  }

  // ---------- removals ----------

  /** The list after the first `j` old rows were checked. */
  function Pruned(l: seq<WorkspaceId>, targets: set<WorkspaceId>, j: nat): seq<WorkspaceId>
    requires j <= |l|
  {
    Keep(l[..j], targets, true) + l[j..]
  }

  lemma PruneStep(l: seq<WorkspaceId>, targets: set<WorkspaceId>, j: nat)
    requires NoDuplicates(l) && j < |l|
    ensures l[j] in targets ==> Pruned(l, targets, j + 1) == Pruned(l, targets, j)
    ensures l[j] !in targets ==>
              && IndexOf(Pruned(l, targets, j), l[j]) == |Keep(l[..j], targets, true)|
              && Pruned(l, targets, j + 1) == RemoveAt(Pruned(l, targets, j), |Keep(l[..j], targets, true)|)
  {
    var before, now := Keep(l[..j], targets, true), Pruned(l, targets, j);
    assert l[..j + 1] == l[..j] + [l[j]];
    KeepAppend(l[..j], [l[j]], targets, true);
    assert [l[j]][1..] == [];
    KeepMembers(l[..j], targets, true);
    assert now[|before|] == l[j] && now[..|before|] == before && now[|before| + 1..] == l[j + 1..];
    assert l[j] !in before;
  }

  // ---------- placing the targets ----------

  /** The first `i` rows are right and nothing but targets is left. */
  ghost predicate Placed(l: seq<WorkspaceId>, targets: seq<WorkspaceId>, i: nat) {
    && i <= |targets| && i <= |l|
    && NoDuplicates(l)
    && l[..i] == targets[..i]
    && (forall x <- l :: x in targets)
  }

  lemma PlacedPrefix(l: seq<WorkspaceId>, targets: seq<WorkspaceId>, i: nat)
    requires i <= |targets| && i <= |l| && l[..i] == targets[..i]
    ensures forall k :: 0 <= k < i ==> l[k] == targets[k]
  {
    forall k | 0 <= k < i ensures l[k] == targets[k] {
      assert l[..i][k] == targets[..i][k];
    }
  }

  lemma PlaceStep(l: seq<WorkspaceId>, targets: seq<WorkspaceId>, i: nat)
    requires Placed(l, targets, i) && i < |targets| && NoDuplicates(targets)
    ensures var x := targets[i];
            var j := IndexOf(l, x);
            && (j == |l| ==> Placed(InsertAt(l, i, x), targets, i + 1))
            && (j == i && i < |l| ==> Placed(l, targets, i + 1))
            && (j != i && j < |l| ==> i < j && i < |l| && Placed(MoveRow(l, j, i), targets, i + 1))
  {
    hide InsertAt, MoveRow, NoDuplicates, IndexOf;
    var j := IndexOf(l, targets[i]);
    NotPlacedYet(l, targets, i);
    if j == |l| {
      PlaceNew(l, targets, i);
    } else if j == i {
      PlaceSame(l, targets, i);
    } else {
      PlaceMoved(l, targets, i, j);
    }
  }

  lemma NotPlacedYet(l: seq<WorkspaceId>, targets: seq<WorkspaceId>, i: nat)
    requires Placed(l, targets, i) && i < |targets| && NoDuplicates(targets)
    ensures i <= |l| && forall k :: 0 <= k < i ==> l[k] != targets[i]
  {
    PlacedPrefix(l, targets, i);
  }

  lemma PlaceSame(l: seq<WorkspaceId>, targets: seq<WorkspaceId>, i: nat)
    requires Placed(l, targets, i) && i < |targets| && i < |l| && l[i] == targets[i]
    ensures Placed(l, targets, i + 1)
  {
    assert l[..i + 1] == l[..i] + [l[i]];
    assert targets[..i + 1] == targets[..i] + [targets[i]];
  }

  lemma PlaceNew(l: seq<WorkspaceId>, targets: seq<WorkspaceId>, i: nat)
    requires Placed(l, targets, i) && i < |targets| && targets[i] !in l
    ensures Placed(InsertAt(l, i, targets[i]), targets, i + 1)
  {
    hide NoDuplicates;
    InsertMembers(l, i, targets[i]);
    assert InsertAt(l, i, targets[i])[..i + 1] == l[..i] + [targets[i]] == targets[..i + 1];
  }

  lemma PlaceMoved(l: seq<WorkspaceId>, targets: seq<WorkspaceId>, i: nat, j: nat)
    requires Placed(l, targets, i) && i < |targets| && i < j < |l| && l[j] == targets[i]
    ensures Placed(MoveRow(l, j, i), targets, i + 1)
  {
    hide NoDuplicates;
    MoveMembers(l, j, i);
    assert MoveRow(l, j, i)[..i + 1] == l[..i] + [targets[i]] == targets[..i + 1];
  }

  lemma MoveMembers(l: seq<WorkspaceId>, from: nat, to: nat)
    requires from < |l| && to < |l| && NoDuplicates(l)
    ensures forall y :: y in MoveRow(l, from, to) <==> y in l
    ensures NoDuplicates(MoveRow(l, from, to))
  {
    RemoveMembers(l, from);
    InsertMembers(RemoveAt(l, from), to, l[from]);
  }

  lemma PlacedAll(l: seq<WorkspaceId>, targets: seq<WorkspaceId>)
    requires Placed(l, targets, |targets|)
    ensures l == targets
  {
    if |l| > |targets| {
      NothingBehind(l, targets);
      assert false;
    }
  }

  lemma NothingBehind(l: seq<WorkspaceId>, targets: seq<WorkspaceId>)
    requires |targets| < |l| && NoDuplicates(l) && l[..|targets|] == targets[..|targets|]
    ensures l[|targets|] !in targets
  {
    PlacedPrefix(l, targets, |targets|);
  }

  // ---------- worlds between the phases ----------

  /** Nothing but lists, unassigned sets, membership, screens and who is active may change. */
  ghost predicate SameSurroundings(w: World, v: World) {
    && v.all == w.all && v.policy == w.policy.(active := v.policy.active)
    && v.workspaces.Keys == w.workspaces.Keys && v.models.Keys == w.models.Keys
    && (forall x <- w.workspaces :: v.workspaces[x].handle == w.workspaces[x].handle)
  }

  /** The current workspace of a screen after removals only: the old one while it is there, then the first row. */
  function CurrentAmong(current: Option<WorkspaceId>, l: seq<WorkspaceId>): Option<WorkspaceId> {
    if current.Some? && current.value in l then current
    else if l != [] then Some(l[0])
    else None
  }

  lemma CurrentAmongStep(current: Option<WorkspaceId>, l: seq<WorkspaceId>, x: WorkspaceId)
    requires x in l && NoDuplicates(l)
    ensures var rest := RemoveAt(l, IndexOf(l, x));
            CurrentAfterRemove(CurrentAmong(current, l), x, rest) == CurrentAmong(current, rest)
  {
    RemoveMembers(l, IndexOf(l, x));
  }

  /** After the first `j` rows of model `m` were checked for removal. */
  ghost predicate AfterRemovals(w: World, m: ModelId, targets: set<WorkspaceId>, j: nat, v: World) {
    && Valid(v) && SameSurroundings(w, v) && v.active == w.active && m in w.models
    && RemovedRows(w.models, m, targets, j, v.models)
  }

  ghost predicate RemovedRows(before: map<ModelId, Model>, m: ModelId, targets: set<WorkspaceId>, j: nat,
                              now: map<ModelId, Model>)
    requires m in before
  {
    && now.Keys == before.Keys
    && j <= |before[m].list|
    && now[m].list == Pruned(before[m].list, targets, j)
    && now[m].unassigned == before[m].unassigned + (Elements(before[m].list[..j]) - targets)
    && now[m].current == CurrentAmong(before[m].current, now[m].list) && now[m].active == before[m].active
    && (forall k <- before | k != m :: now[k].list == before[k].list && now[k].unassigned == before[k].unassigned)
  }

  /** Where a list and an unassigned set stand after a workspace was taken out. */
  lemma UnassignedModel(v: World, x: WorkspaceId, k: ModelId)
    requires Linked(v) && CanActivate(v, x) && k in v.models
    ensures var l := v.models[k].list;
            var u := Assign(v, x, None, 0);
            && u.models.Keys == v.models.Keys
            && u.models[k].list == (if IndexOf(l, x) < |l| then RemoveAt(l, IndexOf(l, x)) else l)
            && u.models[k].unassigned == (if x in l then v.models[k].unassigned + {x} else v.models[k].unassigned)
            && u.models[k].current == (if x in l then CurrentAfterRemove(v.models[k].current, x, u.models[k].list)
                                       else v.models[k].current)
            && u.models[k].active == v.models[k].active
  {
    MemberIffModel(v, x, k);
    hide Linked, NoDuplicates, CurrentAfterRemove;
  }

  lemma MemberIffModel(v: World, x: WorkspaceId, k: ModelId)
    requires Linked(v) && x in v.workspaces && k in v.models
    ensures x in v.models[k].list <==> v.workspaces[x].model == Some(k)
  {
  }

  /** Where a list and an unassigned set stand after a workspace was put into model `m`. */
  lemma AssignedModel(v: World, x: WorkspaceId, m: ModelId, i: nat, k: ModelId)
    requires Linked(v) && Currents(v) && CanAssign(v, x, Some(m), i)
    requires v.workspaces[x].model != Some(m) && k in v.models
    ensures var l := v.models[k].list;
            var u := Assign(v, x, Some(m), i);
            && u.models.Keys == v.models.Keys
            && (k == m ==>
                  && x !in l && u.models[k].list == InsertAt(l, i, x)
                  && u.models[k].current == CurrentAfterInsert(v.models[k].current, x, v.workspaces[x].active)
                  && u.models[k].active == (v.models[k].active || v.workspaces[x].active))
            && (k != m ==>
                  u.models[k].list == if IndexOf(l, x) < |l| then RemoveAt(l, IndexOf(l, x)) else l)
            && u.models[k].unassigned == v.models[k].unassigned - {x}
  {
    hide Assign, Linked, Currents;
    NotListedHere(v, x, m);
    AssignInTwoSteps(v, x, m, i);
    UnassignKeepsLinks(v, x);
    UnassignedModel(v, x, k);
    EnlistedModel(Assign(v, x, None, 0), x, m, i, k);
    assert v.models[k].unassigned + {x} - {x} == v.models[k].unassigned - {x};
  }

  lemma NotListedHere(v: World, x: WorkspaceId, m: ModelId)
    requires Linked(v) && x in v.workspaces && v.workspaces[x].model != Some(m) && m in v.models
    ensures x !in v.models[m].list
  {
  }

  lemma RemovalStep(w: World, m: ModelId, targets: set<WorkspaceId>, j: nat, v: World)
    requires Valid(w) && AfterRemovals(w, m, targets, j, v) && j < |w.models[m].list|
    ensures var x := w.models[m].list[j];
            if x in targets then AfterRemovals(w, m, targets, j + 1, v)
            else CanAssign(v, x, None, 0) && x in v.models[m].list
                 && AfterRemovals(w, m, targets, j + 1, Assign(v, x, None, 0))
  {
    hide Valid, Pruned, RemovedRows, Assign;
    var x := w.models[m].list[j];
    DistinctRows(w, m);
    PruneStep(w.models[m].list, targets, j);
    if x in targets {
      RemovedNothing(w.models, m, targets, j, v.models);
    } else {
      StillListed(w.models, m, targets, j, v.models);
      ValidLinks(v);
      Removable(v, m, x);
      UnassignKeepsValid(v, x);
      UnassignOthers(v, x);
      UnassignedRows(v, m, x);
      RemovedOne(w.models, m, targets, j, v.models, Assign(v, x, None, 0).models);
    }
  }

  lemma StillListed(before: map<ModelId, Model>, m: ModelId, targets: set<WorkspaceId>, j: nat,
                    now: map<ModelId, Model>)
    requires m in before && j < |before[m].list| && RemovedRows(before, m, targets, j, now)
    ensures m in now && before[m].list[j] in now[m].list
  {
    assert before[m].list[j..][0] == before[m].list[j];
  }

  lemma ElementsSnoc(l: seq<WorkspaceId>, j: nat)
    requires j < |l|
    ensures Elements(l[..j + 1]) == Elements(l[..j]) + {l[j]}
  {
    assert l[..j + 1] == l[..j] + [l[j]];
  }

  lemma RemovedNothing(before: map<ModelId, Model>, m: ModelId, targets: set<WorkspaceId>, j: nat,
                       now: map<ModelId, Model>)
    requires m in before && j < |before[m].list| && RemovedRows(before, m, targets, j, now)
    requires before[m].list[j] in targets
    requires Pruned(before[m].list, targets, j + 1) == Pruned(before[m].list, targets, j)
    ensures RemovedRows(before, m, targets, j + 1, now)
  {
    ElementsSnoc(before[m].list, j);
  }

  lemma RemovedOne(before: map<ModelId, Model>, m: ModelId, targets: set<WorkspaceId>, j: nat,
                   now: map<ModelId, Model>, after: map<ModelId, Model>)
    requires m in before && j < |before[m].list| && RemovedRows(before, m, targets, j, now)
    requires before[m].list[j] !in targets && NoDuplicates(before[m].list)
    requires OnlyRemoved(now, m, before[m].list[j], after)
    ensures RemovedRows(before, m, targets, j + 1, after)
  {
    hide Pruned, Keep, CurrentAmong, CurrentAfterRemove, NoDuplicates, RemoveAt;
    var l, x := before[m].list, before[m].list[j];
    ElementsSnoc(l, j);
    PruneStep(l, targets, j);
    PrunedDistinct(l, targets, j);
    CurrentAmongStep(before[m].current, now[m].list, x);
  }

  lemma PrunedDistinct(l: seq<WorkspaceId>, targets: set<WorkspaceId>, j: nat)
    requires NoDuplicates(l) && j <= |l|
    ensures NoDuplicates(Pruned(l, targets, j))
  {
    hide Keep;
    KeepMembers(l[..j], targets, true);
    assert NoDuplicates(l[..j]);
    DistinctAppend(Keep(l[..j], targets, true), l[j..]);
  }

  lemma DistinctAppend(a: seq<WorkspaceId>, b: seq<WorkspaceId>)
    requires NoDuplicates(a) && NoDuplicates(b) && forall x <- a :: x !in b
    ensures NoDuplicates(a + b)
  {
    forall i, k | 0 <= i < k < |a + b| ensures (a + b)[i] != (a + b)[k] {
      if i < |a| <= k {
        assert a[i] !in b;
      }
    }
  }

  /** One row left one list for the unassigned set of its model. */
  ghost predicate OnlyRemoved(now: map<ModelId, Model>, m: ModelId, x: WorkspaceId, after: map<ModelId, Model>) {
    && after.Keys == now.Keys && m in now && x in now[m].list
    && after[m].list == RemoveAt(now[m].list, IndexOf(now[m].list, x))
    && after[m].unassigned == now[m].unassigned + {x}
    && after[m].current == CurrentAfterRemove(now[m].current, x, after[m].list)
    && after[m].active == now[m].active
    && (forall k <- now | k != m :: after[k].list == now[k].list && after[k].unassigned == now[k].unassigned)
  }

  lemma UnassignedRows(v: World, m: ModelId, x: WorkspaceId)
    requires Linked(v) && m in v.models && x in v.models[m].list && CanActivate(v, x)
    ensures OnlyRemoved(v.models, m, x, Assign(v, x, None, 0).models)
  {
    hide Linked, Assign;
    UnassignedModel(v, x, m);
    OnlyListedOnce(v, m, x, m);
    forall k <- v.models | k != m
      ensures Assign(v, x, None, 0).models[k].list == v.models[k].list
      ensures Assign(v, x, None, 0).models[k].unassigned == v.models[k].unassigned
    {
      OnlyListedOnce(v, m, x, k);
      UnassignedModel(v, x, k);
    }
  }

  lemma Removable(v: World, m: ModelId, x: WorkspaceId)
    requires Linked(v) && m in v.models && x in v.models[m].list
    ensures x in v.workspaces && v.workspaces[x].model == Some(m)
    ensures CanAssign(v, x, None, 0)
  {
  }

  lemma OnlyListedOnce(v: World, m: ModelId, x: WorkspaceId, k: ModelId)
    requires Linked(v) && m in v.models && x in v.models[m].list && k in v.models
    ensures x in v.models[k].list <==> k == m
  {
    assert v.workspaces[x].model == Some(m);
    if x in v.models[k].list {
      assert v.workspaces[x].model == Some(k);
    }
  }

  /** After the first `i` targets were placed. */
  ghost predicate AfterPlacing(w: World, m: ModelId, targets: seq<WorkspaceId>, i: nat, v: World) {
    && Valid(v) && SameSurroundings(w, v) && m in w.models
    && PlacedRows(w.models, m, targets, i, v.models)
    && PlacedActive(w.models[m], w.active, targets, i, v.models[m], v.active)
  }

  ghost predicate PlacedRows(before: map<ModelId, Model>, m: ModelId, targets: seq<WorkspaceId>, i: nat,
                             now: map<ModelId, Model>)
    requires m in before
  {
    && now.Keys == before.Keys
    && Placed(now[m].list, targets, i)
    && (forall x :: x in now[m].list <==> x in before[m].list || x in targets[..i])
    && (forall k <- before :: now[k].unassigned == before[k].unassigned - Elements(targets[..i]))
    && (forall k <- before | k != m :: now[k].list == Keep(before[k].list, Elements(targets[..i]), false))
  }

  /** The active workspace has come to the list of `mod` among the first `i` targets. */
  predicate Arrived(mod: Model, active: Option<WorkspaceId>, targets: seq<WorkspaceId>, i: nat)
    requires i <= |targets|
  {
    active.Some? && active.value in targets[..i] && active.value !in mod.list
  }

  /** The screen's current workspace before a target of which the screen has not heard: the old one or the first row. */
  function CurrentBefore(mod: Model, targets: seq<WorkspaceId>, i: nat): Option<WorkspaceId>
    requires i <= |targets|
  {
    if mod.list != [] then mod.current else if i > 0 then Some(targets[0]) else None
  }

  /** Who takes over when the active workspace comes to an inactive screen. */
  function Successor(mod: Model, targets: seq<WorkspaceId>, active: Option<WorkspaceId>): Option<WorkspaceId> {
    if mod.list != [] then mod.current
    else if targets != [] && Some(targets[0]) != active then Some(targets[0])
    else None
  }

  /** Who is active: as before, until the active workspace comes to an inactive screen with another current one. */
  function ActivePlaced(mod: Model, active: Option<WorkspaceId>, targets: seq<WorkspaceId>, i: nat): Option<WorkspaceId>
    requires i <= |targets|
  {
    var next := Successor(mod, targets, active);
    if Arrived(mod, active, targets, i) && !mod.active && next.Some? then next else active
  }

  predicate PlacedActive(mod: Model, active: Option<WorkspaceId>, targets: seq<WorkspaceId>, i: nat,
                         now: Model, nowActive: Option<WorkspaceId>) {
    && i <= |targets|
    && nowActive == ActivePlaced(mod, active, targets, i)
    && (!Arrived(mod, active, targets, i) ==>
          now.active == mod.active && now.current == CurrentBefore(mod, targets, i))
  }

  /** Moving a row of a model. */
  function Moved(w: World, m: ModelId, from: nat, to: nat): World
    requires m in w.models && from < |w.models[m].list| && to < |w.models[m].list|
  {
    w.(models := w.models[m := w.models[m].(list := MoveRow(w.models[m].list, from, to))])
  }

  lemma MovedKeepsValid(w: World, m: ModelId, from: nat, to: nat)
    requires Valid(w) && m in w.models && from < |w.models[m].list| && to < |w.models[m].list|
    ensures Valid(Moved(w, m, from, to))
  {
    hide NoDuplicates, MoveRow, PolicyValid;
    MoveMembers(w.models[m].list, from, to);
  }

  /** What placing one target does to the world. */
  function PlaceOne(v: World, m: ModelId, x: WorkspaceId, i: nat): World
    requires m in v.models && CanAssign(v, x, Some(m), i)
    requires x in v.models[m].list && IndexOf(v.models[m].list, x) != i ==> i < |v.models[m].list|
  {
    var j := IndexOf(v.models[m].list, x);
    if j == |v.models[m].list| then Assign(v, x, Some(m), i)
    else if j != i then Moved(v, m, j, i)
    else v
  }

  lemma PlacingStep(w: World, m: ModelId, targets: seq<WorkspaceId>, i: nat, v: World)
    requires Valid(w) && AfterPlacing(w, m, targets, i, v) && i < |targets| && NoDuplicates(targets)
    requires forall x <- targets :: x in w.all
    ensures CanAssign(v, targets[i], Some(m), i)
    ensures targets[i] in v.models[m].list && IndexOf(v.models[m].list, targets[i]) != i ==> i < |v.models[m].list|
    ensures AfterPlacing(w, m, targets, i + 1, PlaceOne(v, m, targets[i], i))
  {
    hide Valid, PlaceOne, PlacedRow, PlacedRows, PlacedActive, Placed;
    var x := targets[i];
    PlacingReady(w, m, targets, i, v);
    PlaceOneKeepsValid(v, m, x, i);
    ValidLinks(v);
    forall k <- v.models
      ensures PlacedRow(v.models[k], k == m, x, i, PlaceOne(v, m, x, i).models[k])
    {
      PlacedModel(v, m, x, i, k);
    }
    ValidRows(w);
    PlacedOne(w.models, m, targets, i, v.models, PlaceOne(v, m, x, i).models);
    PlacedOneActive(w, m, targets, i, v);
  }

  lemma ValidRows(w: World)
    requires Valid(w)
    ensures forall k <- w.models :: NoDuplicates(w.models[k].list)
  {
  }

  lemma AnyAssignable(v: World, x: WorkspaceId, m: ModelId, i: nat)
    requires Valid(v) && x in v.workspaces && m in v.models && i <= |v.models[m].list|
    ensures CanAssign(v, x, Some(m), i)
  {
    assert CurrentFits(v.models[m]);
  }

  lemma PlacingReady(w: World, m: ModelId, targets: seq<WorkspaceId>, i: nat, v: World)
    requires Valid(w) && AfterPlacing(w, m, targets, i, v) && i < |targets| && NoDuplicates(targets)
    requires targets[i] in w.all
    ensures m in v.models && i <= |v.models[m].list| && CanAssign(v, targets[i], Some(m), i)
    ensures targets[i] in v.models[m].list && IndexOf(v.models[m].list, targets[i]) != i ==> i < |v.models[m].list|
    ensures PlaceOne(v, m, targets[i], i).models.Keys == v.models.Keys
  {
    hide Valid, Keep, PlacedActive, Placed, NoDuplicates, Assign;
    PlaceStep(v.models[m].list, targets, i);
    PlacedCount(v.models[m].list, targets, i);
    AllWorkspaces(w);
    AnyAssignable(v, targets[i], m, i);
    ValidLinks(v);
    PlaceOneModels(v, m, targets[i], i);
  }

  lemma AllWorkspaces(w: World)
    requires Valid(w)
    ensures w.all == w.workspaces.Keys
  {
  }

  lemma PlacedCount(l: seq<WorkspaceId>, targets: seq<WorkspaceId>, i: nat)
    requires Placed(l, targets, i)
    ensures i <= |l|
  {
  }

  lemma PlaceOneModels(v: World, m: ModelId, x: WorkspaceId, i: nat)
    requires m in v.models && CanAssign(v, x, Some(m), i)
    requires x in v.models[m].list && IndexOf(v.models[m].list, x) != i ==> i < |v.models[m].list|
    ensures PlaceOne(v, m, x, i).models.Keys == v.models.Keys
  {
  }

  /** Who is active, and what the screen does, after one more target. */
  lemma PlacedOneActive(w: World, m: ModelId, targets: seq<WorkspaceId>, i: nat, v: World)
    requires Valid(w) && AfterPlacing(w, m, targets, i, v) && i < |targets| && NoDuplicates(targets)
    requires CanAssign(v, targets[i], Some(m), i)
    requires targets[i] in v.models[m].list && IndexOf(v.models[m].list, targets[i]) != i ==> i < |v.models[m].list|
    ensures m in PlaceOne(v, m, targets[i], i).models
    ensures PlacedActive(w.models[m], w.active, targets, i + 1,
                         PlaceOne(v, m, targets[i], i).models[m], PlaceOne(v, m, targets[i], i).active)
  {
    hide Valid, Assign, PlacedRow, Placed, Keep, NoDuplicates, IndexOf, SameSurroundings, PlacedActive,
         CurrentAfterInsert;
    var x := targets[i];
    if x in v.models[m].list {
      OldTargetActive(w.models[m], w.active, targets, i, v.models[m], v.active);
    } else {
      ListedFits(w, m);
      ValidLinks(v);
      NotListedMember(v, x, m);
      AssignedModel(v, x, m, i, m);
      AssignActive(v, x, Some(m), i);
      ValidFlags(v);
      NewTargetActive(w.models[m], w.active, targets, i, v.models[m], v.active);
    }
  }

  /** A target that is listed already changes nothing about the screen. */
  lemma OldTargetActive(mod: Model, active: Option<WorkspaceId>, targets: seq<WorkspaceId>, i: nat,
                        now: Model, nowActive: Option<WorkspaceId>)
    requires PlacedActive(mod, active, targets, i, now, nowActive) && i < |targets| && NoDuplicates(targets)
    requires targets[i] in now.list && forall x :: x in now.list <==> x in mod.list || x in targets[..i]
    ensures forall l :: PlacedActive(mod, active, targets, i + 1, now.(list := l), nowActive)
  {
    NotYet(targets, i);
    assert targets[..i + 1] == targets[..i] + [targets[i]];
  }

  /** A target that is new to the list: the active one makes the screen's current workspace take over. */
  lemma NewTargetActive(mod: Model, active: Option<WorkspaceId>, targets: seq<WorkspaceId>, i: nat,
                        now: Model, nowActive: Option<WorkspaceId>)
    requires PlacedActive(mod, active, targets, i, now, nowActive) && i < |targets| && NoDuplicates(targets)
    requires CurrentFits(mod) && targets[i] !in mod.list
    ensures var comes := nowActive == Some(targets[i]);
            var d := if comes && !now.active then now.current else None;
            forall after: Model | after.current == CurrentAfterInsert(now.current, targets[i], comes)
                                  && after.active == (now.active || comes) ::
              PlacedActive(mod, active, targets, i + 1, after, if d.Some? then d else nowActive)
  {
    NotYet(targets, i);
    assert targets[..i + 1] == targets[..i] + [targets[i]];
  }

  lemma NotYet(targets: seq<WorkspaceId>, i: nat)
    requires NoDuplicates(targets) && i < |targets|
    ensures targets[i] !in targets[..i]
  {
  }

  lemma ListedFits(w: World, m: ModelId)
    requires Valid(w) && m in w.models
    ensures CurrentFits(w.models[m])
  {
  }

  lemma ValidFlags(w: World)
    requires Valid(w)
    ensures forall x <- w.workspaces :: w.workspaces[x].active <==> w.active == Some(x)
  {
  }

  lemma NotListedMember(v: World, x: WorkspaceId, m: ModelId)
    requires Linked(v) && CanActivate(v, x) && m in v.models && x !in v.models[m].list
    ensures v.workspaces[x].model != Some(m)
  {
  }

  /** What placing a target does to one model: the model it goes to, or any other. */
  ghost predicate PlacedRow(now: Model, here: bool, x: WorkspaceId, i: nat, after: Model) {
    var l, j := now.list, IndexOf(now.list, x);
    && after.unassigned == now.unassigned - {x}
    && (!here ==> after.list == if j < |l| then RemoveAt(l, j) else l)
    && (here && j == |l| ==> i <= |l| && after.list == InsertAt(l, i, x))
    && (here && j < |l| && j != i ==> i < |l| && after.list == MoveRow(l, j, i))
    && (here && j < |l| && j == i ==> after.list == l)
  }

  lemma PlacedOne(before: map<ModelId, Model>, m: ModelId, targets: seq<WorkspaceId>, i: nat,
                  now: map<ModelId, Model>, after: map<ModelId, Model>)
    requires m in before && PlacedRows(before, m, targets, i, now) && i < |targets| && NoDuplicates(targets)
    requires forall k <- before :: NoDuplicates(before[k].list)
    requires after.Keys == now.Keys
    requires forall k <- now :: PlacedRow(now[k], k == m, targets[i], i, after[k])
    ensures PlacedRows(before, m, targets, i + 1, after)
  {
    hide Keep, Placed, PlacedRow, NoDuplicates;
    PlacedHere(now[m], targets, i, after[m]);
    PlacedMembers(now[m], targets, i, after[m]);
    ElementsSnoc(targets, i);
    assert targets[..i + 1] == targets[..i] + [targets[i]];
    forall k <- before
      ensures after[k].unassigned == before[k].unassigned - Elements(targets[..i + 1])
      ensures k != m ==> after[k].list == Keep(before[k].list, Elements(targets[..i + 1]), false)
    {
      PlacedUnassigned(now[k], k == m, targets[i], i, after[k]);
      if k != m {
        PlacedElsewhere(before[k].list, Elements(targets[..i]), targets[i], i, now[k], after[k]);
      }
    }
  }

  lemma PlacedHere(now: Model, targets: seq<WorkspaceId>, i: nat, after: Model)
    requires Placed(now.list, targets, i) && i < |targets| && NoDuplicates(targets)
    requires PlacedRow(now, true, targets[i], i, after)
    ensures Placed(after.list, targets, i + 1)
  {
    PlaceStep(now.list, targets, i);
  }

  lemma PlacedMembers(now: Model, targets: seq<WorkspaceId>, i: nat, after: Model)
    requires Placed(now.list, targets, i) && i < |targets|
    requires PlacedRow(now, true, targets[i], i, after)
    ensures forall x :: x in after.list <==> x in now.list || x == targets[i]
  {
    var l, x := now.list, targets[i];
    var j := IndexOf(l, x);
    if j == |l| {
      InsertMembers(l, i, x);
    } else if j != i {
      MoveMembers(l, j, i);
    }
  }

  lemma PlacedUnassigned(now: Model, here: bool, x: WorkspaceId, i: nat, after: Model)
    requires PlacedRow(now, here, x, i, after)
    ensures after.unassigned == now.unassigned - {x}
  {
  }

  lemma PlacedElsewhere(l: seq<WorkspaceId>, placed: set<WorkspaceId>, x: WorkspaceId, i: nat, now: Model, after: Model)
    requires NoDuplicates(l) && now.list == Keep(l, placed, false)
    requires PlacedRow(now, false, x, i, after)
    ensures after.list == Keep(l, placed + {x}, false)
  {
    KeepLess(l, placed, x);
  }

  lemma PlaceOneKeepsValid(v: World, m: ModelId, x: WorkspaceId, i: nat)
    requires Valid(v) && m in v.models && CanAssign(v, x, Some(m), i)
    requires x in v.models[m].list && IndexOf(v.models[m].list, x) != i ==> i < |v.models[m].list|
    ensures Valid(PlaceOne(v, m, x, i)) && SameSurroundings(v, PlaceOne(v, m, x, i))
  {
    hide Assign, Valid, Moved;
    var j := IndexOf(v.models[m].list, x);
    if j == |v.models[m].list| {
      AssignKeepsValid(v, x, Some(m), i);
      ValidLinks(v);
      NotListedMember(v, x, m);
      AssignActive(v, x, Some(m), i);
    } else if j != i {
      MovedKeepsValid(v, m, j, i);
      MovedSurroundings(v, m, j, i);
    }
  }

  lemma MovedSurroundings(w: World, m: ModelId, from: nat, to: nat)
    requires m in w.models && from < |w.models[m].list| && to < |w.models[m].list|
    ensures SameSurroundings(w, Moved(w, m, from, to))
  {
  }

  /** Placing takes the workspace out of whatever list it was in, and out of every unassigned set. */
  lemma PlacedModel(v: World, m: ModelId, x: WorkspaceId, i: nat, k: ModelId)
    requires Linked(v) && Currents(v) && m in v.models && CanAssign(v, x, Some(m), i) && k in v.models
    requires x in v.models[m].list && IndexOf(v.models[m].list, x) != i ==> i < |v.models[m].list|
    ensures PlaceOne(v, m, x, i).models.Keys == v.models.Keys
    ensures PlacedRow(v.models[k], k == m, x, i, PlaceOne(v, m, x, i).models[k])
  {
    hide Assign, Currents, Linked, NoDuplicates, InsertAt, MoveRow;
    PlacedUnlisted(v, x, k);
    MemberIffModel(v, x, m);
    if x in v.models[m].list {
      OnlyListedOnce(v, m, x, k);
    } else {
      NotListedMember(v, x, m);
      AssignedModel(v, x, m, i, k);
    }
  }

  lemma PlacedUnlisted(v: World, x: WorkspaceId, k: ModelId)
    requires Linked(v) && k in v.models
    ensures x in v.workspaces && v.workspaces[x].model.Some? ==> x !in v.models[k].unassigned
    ensures x in v.models[k].list ==> x !in v.models[k].unassigned
  {
  }

  // ---------- deleting what is left over ----------

  /** Floating workspaces `gone` were deleted. */
  ghost predicate AfterDeletes(w: World, gone: set<WorkspaceId>, v: World) {
    && Valid(v)
    && v.workspaces.Keys == w.workspaces.Keys - gone
    && (forall x <- v.workspaces :: v.workspaces[x].handle == w.workspaces[x].handle)
    && SameLists(w, gone, v)
    && (w.active.Some? && w.active.value !in gone ==> v.active == w.active)
  }

  ghost predicate SameLists(w: World, gone: set<WorkspaceId>, v: World) {
    && v.models.Keys == w.models.Keys
    && (forall k <- w.models ::
          v.models[k].list == w.models[k].list && v.models[k].unassigned == w.models[k].unassigned - gone)
  }

  lemma DeleteFloating(v: World, x: WorkspaceId, heir: WorkspaceId, surfaceManager: bool)
    requires Valid(v) && CanDelete(v, x, heir) && v.workspaces[x].model == None
    ensures var u := Delete(v, x, heir, surfaceManager);
            && SameLists(v, {x}, u)
            && u.workspaces.Keys == v.workspaces.Keys - {x}
            && (forall y <- u.workspaces :: u.workspaces[y].handle == v.workspaces[y].handle)
            && (v.active != Some(x) ==> u.active == v.active)
  {
    hide Valid, Succeeded, Delete;
    SucceededMeaning(v, x, heir);
    SucceededActive(v, x, heir);
    SucceededLists(v, x, heir);
    DeletedTables(v, x, heir, surfaceManager);
  }

  lemma DeletedTables(v: World, x: WorkspaceId, heir: WorkspaceId, surfaceManager: bool)
    requires CanDelete(v, x, heir) && x in Succeeded(v, x, heir).workspaces
    ensures var q, u := Succeeded(v, x, heir), Delete(v, x, heir, surfaceManager);
            && u.models.Keys == q.models.Keys && u.workspaces == q.workspaces - {x} && u.active == q.active
            && (forall k <- q.models ::
                  u.models[k].list == q.models[k].list && u.models[k].unassigned == q.models[k].unassigned - {x})
  {
    hide Succeeded;
  }

  lemma SucceededLists(v: World, x: WorkspaceId, heir: WorkspaceId)
    requires Valid(v) && CanDelete(v, x, heir) && v.workspaces[x].model == None
    ensures SameLists(v, {}, Succeeded(v, x, heir))
  {
    if v.active == Some(x) {
      var d := Dropped(v, x);
      SetActiveTables(d, if d.all == {} then None else Some(heir));
    }
  }

  lemma DeleteStep(w: World, gone: set<WorkspaceId>, v: World, x: WorkspaceId, heir: WorkspaceId, surfaceManager: bool)
    requires AfterDeletes(w, gone, v) && CanDelete(v, x, heir) && v.workspaces[x].model == None
    ensures AfterDeletes(w, gone + {x}, Delete(v, x, heir, surfaceManager))
  {
    hide Valid, Delete;
    DeleteKeepsValid(v, x, heir, surfaceManager);
    DeleteFloating(v, x, heir, surfaceManager);
  }

  // ---------- the whole synchronisation ----------

  /** What a synchronisation of model `m` with proxies of `targets` promises. */
  ghost predicate Synced(w: World, m: ModelId, targets: seq<WorkspaceId>, v: World)
    requires m in w.models
  {
    Valid(v) && v.models.Keys == w.models.Keys && SyncedLists(w, m, targets, v) && SyncedActive(w, m, targets, v)
  }

  ghost predicate SyncedLists(w: World, m: ModelId, targets: seq<WorkspaceId>, v: World)
    requires m in w.models && v.models.Keys == w.models.Keys
  {
    var dropped := LeftOver(w, m, targets);
    // the list is the proxies' list, or one new workspace
    && (if targets != [] then v.models[m].list == targets
        else |v.models[m].list| == 1 && v.models[m].list[0] !in w.workspaces)
    // whatever is left over is gone, and nothing else
    && v.models[m].unassigned == {}
    && v.workspaces.Keys
       == (w.workspaces.Keys - dropped) + (if targets == [] then Elements(v.models[m].list) else {})
    // other models only lose what was moved here
    && (forall k <- w.models | k != m ::
          && v.models[k].list == Keep(w.models[k].list, Elements(targets), false)
          && v.models[k].unassigned == w.models[k].unassigned - Elements(targets) - dropped)
  }

  /**
   The active workspace stays unless its new screen makes its old current one active, and the
   successor of a dropped one is the row that took its place.
   */
  ghost predicate SyncedActive(w: World, m: ModelId, targets: seq<WorkspaceId>, v: World)
    requires m in w.models && v.models.Keys == w.models.Keys
  {
    var l, now := w.models[m].list, v.models[m].list;
    && (w.active.Some? && w.active.value !in LeftOver(w, m, targets) ==> v.active == ActiveMeanwhile(w, m, targets))
    && (forall i | 0 <= i < |l| && w.active == Some(l[i]) && l[i] !in targets ::
          |now| > 0 && v.active == Some(now[SuccessorRow(l, i, targets, |now|)]))
  }

  /** The active workspace comes from elsewhere to a list whose screen is not active. */
  predicate ComesToInactive(w: World, m: ModelId, targets: seq<WorkspaceId>)
    requires m in w.models
  {
    && w.active.Some? && w.active.value in targets && w.active.value !in w.models[m].list
    && !w.models[m].active
  }

  /**
   Who then takes over: the screen's current workspace if it stays, else the first row that
   stays, else the first target, all of them before the active workspace has come.
   */
  function TakesOver(w: World, m: ModelId, targets: seq<WorkspaceId>): Option<WorkspaceId>
    requires m in w.models
  {
    var staying := Keep(w.models[m].list, Elements(targets), true);
    if staying != [] then CurrentAmong(w.models[m].current, staying)
    else if targets != [] && Some(targets[0]) != w.active then Some(targets[0])
    else None
  }

  /** Who is active once the lists are as they should be. */
  function ActiveMeanwhile(w: World, m: ModelId, targets: seq<WorkspaceId>): Option<WorkspaceId>
    requires m in w.models
  {
    if ComesToInactive(w, m, targets) && TakesOver(w, m, targets).Some? then TakesOver(w, m, targets) else w.active
  }

  /** The row the active workspace had when it was removed, capped by the last row of the new list. */
  function SuccessorRow(l: seq<WorkspaceId>, i: nat, targets: seq<WorkspaceId>, count: nat): (row: nat)
    requires i < |l| && count > 0
    ensures row < count
  {
    var row := |Keep(l[..i], Elements(targets), true)|;
    if row < count - 1 then row else count - 1
  }

  /** The lists are as they should be; what is left over still floats in the unassigned set. */
  ghost predicate Reconciled(w: World, m: ModelId, targets: seq<WorkspaceId>, v: World)
    requires m in w.models
  {
    && v.models.Keys == w.models.Keys
    && (if targets != [] then v.models[m].list == targets && v.workspaces.Keys == w.workspaces.Keys
        else |v.models[m].list| == 1 && v.models[m].list[0] !in w.workspaces
             && v.workspaces.Keys == w.workspaces.Keys + Elements(v.models[m].list))
    && v.models[m].unassigned == LeftOver(w, m, targets)
    && (forall k <- w.models | k != m ::
          && v.models[k].list == Keep(w.models[k].list, Elements(targets), false)
          && v.models[k].unassigned == w.models[k].unassigned - Elements(targets))
  }

  function LeftOver(w: World, m: ModelId, targets: seq<WorkspaceId>): set<WorkspaceId>
    requires m in w.models
  {
    (Elements(w.models[m].list) + w.models[m].unassigned) - Elements(targets)
  }

  lemma DistinctRows(w: World, m: ModelId)
    requires Valid(w) && m in w.models
    ensures NoDuplicates(w.models[m].list)
  {
  }

  lemma RemovalsDone(w: World, m: ModelId, targets: seq<WorkspaceId>, u: World)
    requires Valid(w) && m in w.models && AfterRemovals(w, m, Elements(targets), |w.models[m].list|, u)
    ensures AfterPlacing(u, m, targets, 0, u)
    ensures u.models[m].list == Keep(w.models[m].list, Elements(targets), true)
    ensures u.models[m].unassigned == w.models[m].unassigned + (Elements(w.models[m].list) - Elements(targets))
    ensures u.models[m].current == CurrentAmong(w.models[m].current, u.models[m].list)
  {
    hide Valid, CurrentAmong;
    DistinctRows(w, m);
    var l := w.models[m].list;
    assert l[..|l|] == l && l[|l|..] == [];
    KeepMembers(l, Elements(targets), true);
    assert targets[..0] == [] && Elements(targets[..0]) == {};
    assert u.models[m].list == Keep(l, Elements(targets), true) + [];
    assert Placed(u.models[m].list, targets, 0);
    ListedFits(u, m);
    forall k <- u.models ensures Keep(u.models[k].list, {}, false) == u.models[k].list {
      KeepAll(u.models[k].list, {}, false);
    }
  }

  lemma PlacingDone(w: World, m: ModelId, targets: seq<WorkspaceId>, u: World, v: World)
    requires Valid(w) && m in w.models && AfterRemovals(w, m, Elements(targets), |w.models[m].list|, u)
    requires AfterPlacing(u, m, targets, |targets|, v)
    ensures v.models[m].list == targets
    ensures targets != [] ==> Reconciled(w, m, targets, v)
    ensures v.models[m].unassigned == LeftOver(w, m, targets)
    ensures forall k <- w.models | k != m ::
              && v.models[k].list == Keep(w.models[k].list, Elements(targets), false)
              && v.models[k].unassigned == w.models[k].unassigned - Elements(targets)
  {
    hide Valid, PlacedActive, CurrentAmong;
    RemovalsDone(w, m, targets, u);
    PlacedAll(v.models[m].list, targets);
    assert targets[..|targets|] == targets;
  }

  /** Who is active once all targets are placed. */
  lemma PlacingDoneActive(w: World, m: ModelId, targets: seq<WorkspaceId>, u: World, v: World)
    requires Valid(w) && m in w.models && AfterRemovals(w, m, Elements(targets), |w.models[m].list|, u)
    requires AfterPlacing(u, m, targets, |targets|, v)
    ensures v.active == ActiveMeanwhile(w, m, targets)
  {
    hide Valid, Keep, PlacedRows, Pruned, CurrentAmong;
    RemovalsDone(w, m, targets, u);
    KeepMembers(w.models[m].list, Elements(targets), true);
    assert targets[..|targets|] == targets;
  }

  /** Whoever takes over is a target, and so is an active workspace that comes. */
  lemma ActiveMeanwhileStays(w: World, m: ModelId, targets: seq<WorkspaceId>)
    requires Valid(w) && m in w.models && w.active.Some? && w.active.value !in LeftOver(w, m, targets)
    ensures ActiveMeanwhile(w, m, targets).Some?
    ensures ActiveMeanwhile(w, m, targets).value !in LeftOver(w, m, targets)
  {
    hide Valid;
    KeepMembers(w.models[m].list, Elements(targets), true);
  }

  /** A model that would be left empty gets one new workspace. */
  lemma FirstRow(w: World, m: ModelId, u: World, x: WorkspaceId, h: Handle)
    requires Valid(u) && u.models.Keys == w.models.Keys && u.workspaces.Keys == w.workspaces.Keys && m in w.models
    requires u.models[m].list == [] && u.models[m].unassigned == LeftOver(w, m, [])
    requires forall k <- w.models | k != m ::
               u.models[k].list == w.models[k].list && u.models[k].unassigned == w.models[k].unassigned
    requires CanCreate(u, x, h)
    ensures var c := Create(u, x, h);
            && Valid(c) && CanAssign(c, x, Some(m), 0)
            && Reconciled(w, m, [], Assign(c, x, Some(m), 0))
            && Assign(c, x, Some(m), 0).models[m].list == [x]
            && (u.all != {} ==> Assign(c, x, Some(m), 0).active == u.active)
  {
    hide Valid, Create, Assign, Reconciled, Keep;
    var c := Create(u, x, h);
    CreateKeepsValid(u, x, h);
    CreatedFits(u, x, h);
    AnyAssignable(c, x, m, 0);
    var v := Assign(c, x, Some(m), 0);
    FirstRowActive(c, x, m);
    forall k <- c.models
      ensures v.models[k].list == if k == m then [x] else u.models[k].list
      ensures v.models[k].unassigned == u.models[k].unassigned
    {
      LinkedModel(c, x, m, k);
      UnknownNotListed(u, k, x);
    }
    OneRowReconciles(w, m, v, x);
  }

  lemma OneRowReconciles(w: World, m: ModelId, v: World, x: WorkspaceId)
    requires m in w.models && v.models.Keys == w.models.Keys && x !in w.workspaces
    requires v.models[m].list == [x] && v.models[m].unassigned == LeftOver(w, m, [])
    requires v.workspaces.Keys == w.workspaces.Keys + {x}
    requires forall k <- w.models | k != m ::
               v.models[k].list == w.models[k].list && v.models[k].unassigned == w.models[k].unassigned
    ensures Reconciled(w, m, [], v)
  {
    forall k <- w.models ensures Keep(w.models[k].list, Elements([]), false) == w.models[k].list {
      KeepAll(w.models[k].list, Elements([]), false);
    }
    assert Elements([x]) == {x};
  }

  /** A screen without a current workspace has nobody to activate. */
  lemma FirstRowActive(c: World, x: WorkspaceId, m: ModelId)
    requires Valid(c) && CanAssign(c, x, Some(m), 0) && c.workspaces[x].model == None && c.models[m].list == []
    ensures Assign(c, x, Some(m), 0).active == c.active
    ensures SameSurroundings(c, Assign(c, x, Some(m), 0))
  {
    hide Assign, Valid;
    ListedFits(c, m);
    AssignActive(c, x, Some(m), 0);
  }

  lemma CreatedFits(u: World, x: WorkspaceId, h: Handle)
    requires Valid(u) && CanCreate(u, x, h)
    ensures x !in u.all && x !in u.workspaces
    ensures var v := Create(u, x, h);
            && v.models.Keys == u.models.Keys && v.all == u.all + {x}
            && v.workspaces.Keys == u.workspaces.Keys + {x} && v.workspaces[x].model == None
            && (forall k <- u.models ::
                  v.models[k].list == u.models[k].list && v.models[k].unassigned == u.models[k].unassigned)
            && (u.all != {} ==> v.active == u.active)
  {
    CreatedTables(u, x, h);
  }

  lemma LinkedModel(c: World, x: WorkspaceId, m: ModelId, k: ModelId)
    requires Valid(c) && CanAssign(c, x, Some(m), 0) && c.workspaces[x].model == None && k in c.models
    ensures var l := c.models[k].list;
            var u := Assign(c, x, Some(m), 0);
            && u.models.Keys == c.models.Keys
            && u.models[k].list == (if k == m then InsertAt(l, 0, x)
                                    else if IndexOf(l, x) < |l| then RemoveAt(l, IndexOf(l, x)) else l)
            && u.models[k].unassigned == c.models[k].unassigned - {x}
  {
    AssignedModel(c, x, m, 0, k);
  }

  lemma UnknownNotListed(u: World, k: ModelId, x: WorkspaceId)
    requires Valid(u) && k in u.models && x !in u.workspaces
    ensures x !in u.models[k].list && x !in u.models[k].unassigned
  {
    NotListed(u, k, x);
  }

  lemma NotListed(u: World, k: ModelId, x: WorkspaceId)
    requires Linked(u) && k in u.models && x !in u.workspaces
    ensures x !in u.models[k].list && x !in u.models[k].unassigned
    ensures IndexOf(u.models[k].list, x) == |u.models[k].list|
  {
  }

  lemma AddedTables(w: World, x: WorkspaceId, h: Handle)
    requires CanCreate(w, x, h)
    ensures var v := Added(w, x, h);
            && v.models == w.models && v.all == w.all + {x} && v.active == w.active
            && v.workspaces.Keys == w.workspaces.Keys + {x}
            && v.workspaces[x].model == None
            && (forall y <- w.workspaces :: v.workspaces[y].handle == w.workspaces[y].handle)
  {
  }

  lemma CreatedTables(w: World, x: WorkspaceId, h: Handle)
    requires CanCreate(w, x, h) && x !in w.all
    ensures var v := Create(w, x, h);
            && v.models.Keys == w.models.Keys && v.all == w.all + {x}
            && v.workspaces.Keys == w.workspaces.Keys + {x} && v.workspaces[x].model == None
            && (forall k <- w.models ::
                  v.models[k].list == w.models[k].list && v.models[k].unassigned == w.models[k].unassigned)
            && (forall y <- w.workspaces :: v.workspaces[y].handle == w.workspaces[y].handle)
            && (w.all != {} ==> v.active == w.active)
            && (w.all == {} ==> v.active == Some(x))
  {
    AddedTables(w, x, h);
    FirstWorkspace(w.all, x);
    hide Added, SetActiveWorkspace;
    if w.all == {} {
      SetActiveTables(Added(w, x, h), Some(x));
    }
  }

  lemma ReconciledActivation(w: World, m: ModelId, targets: seq<WorkspaceId>, v: World, x: WorkspaceId)
    requires m in w.models && Reconciled(w, m, targets, v) && Valid(v) && x in v.all
    ensures CanAssign(v, x, None, 0)
    ensures Reconciled(w, m, targets, SetActiveWorkspace(v, Some(x)))
    ensures SetActiveWorkspace(v, Some(x)).models[m].list == v.models[m].list
    ensures SetActiveWorkspace(v, Some(x)).active == Some(x)
  {
    SetActiveTables(v, Some(x));
  }

  /** The row of the old active workspace while removals go on; -1 when it was not removed. */
  ghost predicate RowRemembered(active: Option<WorkspaceId>, l: seq<WorkspaceId>, targets: set<WorkspaceId>, j: nat,
                                row: int)
    requires j <= |l|
  {
    && (row == -1 ==> forall i | 0 <= i < j :: l[i] in targets || active != Some(l[i]))
    && (row != -1 ==> exists i | 0 <= i < j :: RemovedAt(active, l, targets, i, row))
  }

  ghost predicate RemovedAt(active: Option<WorkspaceId>, l: seq<WorkspaceId>, targets: set<WorkspaceId>, i: nat,
                            row: int)
    requires i < |l|
  {
    l[i] !in targets && active == Some(l[i]) && row == |Keep(l[..i], targets, true)|
  }

  lemma RememberRow(active: Option<WorkspaceId>, l: seq<WorkspaceId>, targets: set<WorkspaceId>, j: nat, row: int)
    requires j < |l| && RowRemembered(active, l, targets, j, row) && NoDuplicates(l)
    ensures l[j] in targets || active != Some(l[j]) ==> RowRemembered(active, l, targets, j + 1, row)
    ensures l[j] !in targets && active == Some(l[j]) ==>
              RowRemembered(active, l, targets, j + 1, |Keep(l[..j], targets, true)|)
  {
    if row != -1 {
      var i :| 0 <= i < j && RemovedAt(active, l, targets, i, row);
      assert RemovedAt(active, l, targets, i, row);
    }
    if l[j] !in targets && active == Some(l[j]) {
      assert RemovedAt(active, l, targets, j, |Keep(l[..j], targets, true)|);
    }
  }

  /** The row that takes the place of row `row`: the last one when the new list is shorter. */
  function CappedRow(row: int, count: nat): (r: int)
    ensures row >= 0 && count > 0 ==> 0 <= r < count
  {
    if row < count - 1 then row else count - 1
  }

  /** The lists and what is gone, all phases together. */
  lemma SyncDoneLists(w: World, m: ModelId, targets: seq<WorkspaceId>, v: World, z: World)
    requires m in w.models && Reconciled(w, m, targets, v)
    requires AfterDeletes(v, LeftOver(w, m, targets), z)
    requires forall x <- v.models[m].list :: x !in LeftOver(w, m, targets)
    ensures z.models.Keys == w.models.Keys && z.models[m].list == v.models[m].list
    ensures SyncedLists(w, m, targets, z)
  {
    hide Valid, Keep, LeftOver;
    if targets == [] {
      assert Elements(v.models[m].list) == {v.models[m].list[0]};
    }
  }

  /** An active workspace that was dropped from the list is followed by the remembered row. */
  lemma SyncDoneSuccessor(l: seq<WorkspaceId>, active: Option<WorkspaceId>, targets: seq<WorkspaceId>, row: int,
                          count: nat, i: nat)
    requires NoDuplicates(l) && i < |l| && active == Some(l[i]) && l[i] !in targets && count > 0
    requires RowRemembered(active, l, Elements(targets), |l|, row)
    ensures row != -1 && CappedRow(row, count) == SuccessorRow(l, i, targets, count)
  {
    hide Keep;
    assert l[i] !in Elements(targets) && row != -1;
    var k :| 0 <= k < |l| && RemovedAt(active, l, Elements(targets), k, row);
    SameRow(l, i, k);
  }

  /** A remembered row means that the active workspace is left over. */
  lemma RememberedIsDropped(w: World, m: ModelId, targets: seq<WorkspaceId>, row: int)
    requires m in w.models && row != -1
    requires RowRemembered(w.active, w.models[m].list, Elements(targets), |w.models[m].list|, row)
    ensures w.active.Some? && w.active.value in LeftOver(w, m, targets)
  {
    hide Keep;
    var l := w.models[m].list;
    var k :| 0 <= k < |l| && RemovedAt(w.active, l, Elements(targets), k, row);
    assert l[k] in Elements(l);
  }

  /** The active workspace, all phases together. */
  lemma SyncDoneActive(w: World, m: ModelId, targets: seq<WorkspaceId>, row: int, v: World, z: World)
    requires Valid(w) && m in w.models && m in v.models
    requires RowRemembered(w.active, w.models[m].list, Elements(targets), |w.models[m].list|, row)
    requires row == -1 ==> (w.all != {} ==> v.active == ActiveMeanwhile(w, m, targets))
    requires row >= -1
    requires |v.models[m].list| > 0
    requires row != -1 ==> v.active == Some(v.models[m].list[CappedRow(row, |v.models[m].list|)])
    requires z.models.Keys == w.models.Keys && z.models[m].list == v.models[m].list
    requires forall x <- v.models[m].list :: x !in LeftOver(w, m, targets)
    requires v.active.Some? && v.active.value !in LeftOver(w, m, targets) ==> z.active == v.active
    ensures SyncedActive(w, m, targets, z)
  {
    hide Valid, Keep, LeftOver, RowRemembered, ActiveMeanwhile, SuccessorRow;
    var l := w.models[m].list;
    DistinctRows(w, m);
    ActiveExists(w);
    forall i | 0 <= i < |l| && w.active == Some(l[i]) && l[i] !in targets
      ensures z.active == Some(z.models[m].list[SuccessorRow(l, i, targets, |z.models[m].list|)])
    {
      SyncDoneSuccessor(l, w.active, targets, row, |v.models[m].list|, i);
    }
    if w.active.Some? && w.active.value !in LeftOver(w, m, targets) {
      ActiveMeanwhileStays(w, m, targets);
      if row != -1 {
        RememberedIsDropped(w, m, targets, row);
        assert false;
      }
    }
  }

  /** All phases together. */
  lemma SyncDone(w: World, m: ModelId, targets: seq<WorkspaceId>, row: int, v: World, z: World)
    requires Valid(w) && m in w.models
    requires Reconciled(w, m, targets, v)
    requires RowRemembered(w.active, w.models[m].list, Elements(targets), |w.models[m].list|, row)
    requires row == -1 ==> (w.all != {} ==> v.active == ActiveMeanwhile(w, m, targets))
    requires row >= -1 && |v.models[m].list| > 0
    requires row != -1 ==> v.active == Some(v.models[m].list[CappedRow(row, |v.models[m].list|)])
    requires AfterDeletes(v, LeftOver(w, m, targets), z)
    ensures Synced(w, m, targets, z)
  {
    hide Valid, Keep, LeftOver, RowRemembered, ActiveMeanwhile, SyncedLists, SyncedActive, SameLists, CappedRow;
    NewListSurvives(w, m, targets, v);
    SyncDoneLists(w, m, targets, v, z);
    SyncDoneActive(w, m, targets, row, v, z);
  }

  lemma ActiveExists(w: World)
    requires Valid(w)
    ensures w.active.Some? ==> w.all != {}
  {
  }

  lemma SameRow(l: seq<WorkspaceId>, i: nat, k: nat)
    requires i < |l| && k < |l| && NoDuplicates(l) && l[i] == l[k]
    ensures i == k
  {
  }

  lemma NewListSurvives(w: World, m: ModelId, targets: seq<WorkspaceId>, v: World)
    requires Valid(w) && m in w.models && Reconciled(w, m, targets, v)
    ensures forall x <- v.models[m].list :: x !in LeftOver(w, m, targets)
  {
    if targets == [] {
      NotListed(w, m, v.models[m].list[0]);
    }
  }
}
