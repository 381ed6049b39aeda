/**
 What the operations on workspaces do, said of the worlds before and after: which windows are
 where, which rows the lists have, what the screens show and who is active.
 */
module WorkspaceEffects {
  import opened Wrappers
  import opened WorkspaceSpec
  import opened WorkspaceSync

  // ---------- windows ----------

  function WindowsOf(w: World, x: WorkspaceId): set<WindowId> {
    if x in w.workspaces then Content(w.policy, w.workspaces[x].handle) else {}
  }

  function DummyWindows(w: World): set<WindowId> {
    Content(w.policy, w.policy.dummy)
  }

  lemma ReleasedContent(p: Policy, h: Handle, k: Handle)
    requires h != p.dummy
    ensures Content(PolicyRelease(p, h), k)
            == if p.workspaces - {h} != {} then Content(p, k)
               else if k == h then {}
               else if k == p.dummy then Content(p, k) + Content(p, h)
               else Content(p, k)
  {
  }

  /** Who has which windows once the manager has let go of a workspace, and what else stays. */
  lemma WindowsAfterDestroy(w: World, x: WorkspaceId, heir: WorkspaceId, surfaceManager: bool)
    requires Valid(w) && CanDelete(w, x, heir)
    ensures var r := Destroy(w, x, heir, surfaceManager);
            && r.workspaces.Keys == w.workspaces.Keys
            && r.active == (if w.active != Some(x) then w.active else if w.all == {x} then None else Some(heir))
            && (forall y <- w.workspaces :: r.workspaces[y].handle == w.workspaces[y].handle)
            && r.policy.workspaces == w.policy.workspaces && r.policy.dummy == w.policy.dummy
            && DummyWindows(r) == DummyWindows(w)
            && (forall y <- w.workspaces :: WindowsOf(r, y)
                  == if r.active == None || !surfaceManager then WindowsOf(w, y)
                     else if y == x then {}
                     else if r.active == Some(y) then WindowsOf(w, y) + WindowsOf(w, x)
                     else WindowsOf(w, y))
  {
    hide Linked, Currents, Succeeded;
    var q, r := Succeeded(w, x, heir), Destroy(w, x, heir, surfaceManager);
    SucceededMeaning(w, x, heir);
    SucceededActive(w, x, heir);
    DestroyedTables(w, x, heir, surfaceManager);
    forall y <- w.workspaces ensures Content(q.policy, w.workspaces[y].handle) == WindowsOf(w, y) {}
    if r.active.Some? && surfaceManager {
      var h, to := w.workspaces[x].handle, w.workspaces[r.active.value].handle;
      forall k ensures Content(r.policy, k)
                       == if k == h then {}
                          else if k == to then Content(q.policy, to) + Content(q.policy, h)
                          else Content(q.policy, k)
      {
        MoveMeaning(q.policy, to, h, k);
      }
    }
  }

  /**
   A deleted workspace leaves its windows to the workspace that is active then, or to the policy
   if it was the last one; every other workspace keeps exactly its own. Without a surface
   manager nobody gets anything as long as others remain.
   */
  lemma WindowsAfterDelete(w: World, x: WorkspaceId, heir: WorkspaceId, surfaceManager: bool)
    requires Valid(w) && CanDelete(w, x, heir)
    ensures var v := Delete(w, x, heir, surfaceManager);
            && v.workspaces.Keys == w.workspaces.Keys - {x} && v.all == w.all - {x}
            && v.active == (if w.active != Some(x) then w.active else if w.all == {x} then None else Some(heir))
            && DummyWindows(v) == (if w.all == {x} then DummyWindows(w) + WindowsOf(w, x) else DummyWindows(w))
            && (forall y <- v.workspaces :: WindowsOf(v, y) == if v.active == Some(y) && surfaceManager
                                                               then WindowsOf(w, y) + WindowsOf(w, x)
                                                               else WindowsOf(w, y))
  {
    hide Valid, Destroy, PolicyRelease, CanAssign;
    NobodyYet(w);
    var r, h := Destroy(w, x, heir, surfaceManager), w.workspaces[x].handle;
    SucceededMeaning(w, x, heir);
    DestroyedTables(w, x, heir, surfaceManager);
    WindowsAfterDestroy(w, x, heir, surfaceManager);
    OthersLive(w, x);
    forall y <- w.workspaces.Keys - {x}
      ensures Content(PolicyRelease(r.policy, h), w.workspaces[y].handle) == WindowsOf(r, y)
    {
      ReleasedContent(r.policy, h, w.workspaces[y].handle);
    }
    ReleasedContent(r.policy, h, w.policy.dummy);
    ReleasedPolicy(r.policy, h);
  }

  /** The policy knows other handles exactly when there are other workspaces. */
  lemma OthersLive(w: World, x: WorkspaceId)
    requires Valid(w) && x in w.workspaces
    ensures w.policy.workspaces - {w.workspaces[x].handle} == {} <==> w.all == {x}
    ensures forall y <- w.workspaces :: y != x ==>
              w.workspaces[y].handle in w.policy.workspaces - {w.workspaces[x].handle}
  {
    hide Linked, Currents, ActiveAgrees;
    if w.all == {x} {
      forall h <- w.policy.workspaces ensures h == w.workspaces[x].handle {
        var y :| y in w.workspaces && w.workspaces[y].handle == h;
      }
    } else {
      assert exists y :: y in w.all && y != x;
      var y :| y in w.all && y != x;
      assert w.workspaces[y].handle in w.policy.workspaces - {w.workspaces[x].handle};
    }
  }

  /** A new window without a parent comes to the active workspace, to the policy when there is none; nobody else. */
  lemma WindowArrives(w: World, win: WindowId, hasParent: bool)
    requires Valid(w)
    ensures var v := w.(policy := AdviseNewWindow(w.policy, win, hasParent));
            && (forall y <- w.workspaces :: WindowsOf(v, y)
                  == if w.active == Some(y) && !hasParent then WindowsOf(w, y) + {win} else WindowsOf(w, y))
            && DummyWindows(v) == if w.active == None && !hasParent then DummyWindows(w) + {win} else DummyWindows(w)
  {
    hide Linked, Currents;
  }

  lemma CreatedContent(p: Policy, h: Handle, k: Handle)
    requires !IsLive(p, h) && h !in p.content
    ensures Content(PolicyCreate(p, h), k)
            == if p.active != p.dummy then Content(p, k)
               else if k == h then Content(p, p.dummy)
               else if k == p.dummy then {}
               else Content(p, k)
    ensures PolicyCreate(p, h).dummy == p.dummy
  {
  }

  lemma NobodyYet(w: World)
    requires Valid(w)
    ensures w.policy.active == w.policy.dummy <==> w.all == {}
    ensures w.all == w.workspaces.Keys && (w.active.Some? ==> w.active.value in w.all)
    ensures forall y <- w.workspaces :: IsLive(w.policy, w.workspaces[y].handle)
    ensures forall y <- w.workspaces :: w.workspaces[y].handle != w.policy.dummy
  {
    hide Linked, Currents;
    if w.policy.workspaces != {} {
      var h :| h in w.policy.workspaces;
      var x :| x in w.workspaces && w.workspaces[x].handle == h;
    }
  }

  /** A new workspace is empty and inactive, but the first one is active and takes over the policy's windows. */
  lemma WindowsAfterCreate(w: World, x: WorkspaceId, h: Handle)
    requires Valid(w) && CanCreate(w, x, h)
    ensures var v := Create(w, x, h);
            && v.all == w.all + {x} && v.models == w.models
            && x in v.workspaces && v.workspaces[x] == Workspace(h, None, w.all == {})
            && v.active == (if w.all == {} then Some(x) else w.active)
            && WindowsOf(v, x) == (if w.all == {} then DummyWindows(w) else {})
            && (forall y <- w.workspaces :: WindowsOf(v, y) == WindowsOf(w, y))
            && DummyWindows(v) == (if w.all == {} then {} else DummyWindows(w))
  {
    hide Valid, PolicyCreate, Create;
    NobodyYet(w);
    CreatedTables(w, x, h);
    CreatedPolicy(w, x, h);
    forall k ensures Content(PolicyCreate(w.policy, h), k)
                     == if w.policy.active != w.policy.dummy then Content(w.policy, k)
                        else if k == h then DummyWindows(w)
                        else if k == w.policy.dummy then {}
                        else Content(w.policy, k)
    {
      CreatedContent(w.policy, h, k);
    }
    CreatedContent(w.policy, h, h);
  }

  lemma CreatedPolicy(w: World, x: WorkspaceId, h: Handle)
    requires CanCreate(w, x, h) && x !in w.all && w.active != Some(x)
    ensures var v := Create(w, x, h);
            && v.models == w.models && x in v.workspaces && v.workspaces[x] == Workspace(h, None, w.all == {})
            && v.policy.content == PolicyCreate(w.policy, h).content
            && v.policy.dummy == PolicyCreate(w.policy, h).dummy
  {
    hide PolicyCreate;
    FirstWorkspace(w.all, x);
  }

  // ---------- rows ----------

  /** `after` is `before` with `x` put in at row `i`. */
  ghost predicate RowCame(before: seq<WorkspaceId>, i: nat, x: WorkspaceId, after: seq<WorkspaceId>) {
    && i <= |before| && |after| == |before| + 1 && after[i] == x
    && (forall j | 0 <= j < i :: after[j] == before[j])
    && (forall j | i <= j < |before| :: after[j + 1] == before[j])
  }

  lemma InsertedRow(l: seq<WorkspaceId>, i: nat, x: WorkspaceId)
    requires i <= |l|
    ensures RowCame(l, i, x, InsertAt(l, i, x))
  {
  }

  /** Taking a row out is undone by putting it back. */
  lemma RemovedRow(l: seq<WorkspaceId>, i: nat)
    requires i < |l|
    ensures RowCame(RemoveAt(l, i), i, l[i], l)
  {
  }

  /** A row that moves is at its new place, and without it the rows before and after are the same. */
  lemma MovedRows(l: seq<WorkspaceId>, from: nat, to: nat)
    requires from < |l| && to < |l|
    ensures exists rest :: RowCame(rest, from, l[from], l) && RowCame(rest, to, l[from], MoveRow(l, from, to))
  {
    RemovedRow(l, from);
    InsertedRow(RemoveAt(l, from), to, l[from]);
  }

  /** The rows that are kept, in their order: kept row by kept row. */
  lemma {:induction false} KeptRow(l: seq<WorkspaceId>, s: set<WorkspaceId>, inside: bool, i: nat)
    requires i < |l| && (l[i] in s) == inside
    ensures var n := |Keep(l[..i], s, inside)|;
            n < |Keep(l, s, inside)| && Keep(l, s, inside)[n] == l[i]
  {
    assert l == l[..i] + ([l[i]] + l[i + 1..]);
    KeepAppend(l[..i], [l[i]] + l[i + 1..], s, inside);
  }

  lemma KeptOne(x: WorkspaceId, s: set<WorkspaceId>)
    ensures Keep([x], s, true) == if x in s then [x] else []
  {
    assert [x][1..] == [];
  }

  lemma LastDistinct(before: seq<WorkspaceId>, x: WorkspaceId)
    requires NoDuplicates(before + [x])
    ensures NoDuplicates(before) && x !in before
  {
    var l := before + [x];
    forall i | 0 <= i < |before| ensures before[i] != x {
      assert l[i] != l[|before|];
    }
    forall i, j | 0 <= i < j < |before| ensures before[i] != before[j] {
      assert l[i] != l[j];
    }
  }

  /** As many rows are kept as different workspaces of the list are in the set. */
  lemma {:induction false} KeptCount(l: seq<WorkspaceId>, s: set<WorkspaceId>)
    requires NoDuplicates(l)
    ensures |Keep(l, s, true)| == |Elements(l) * s|
  {
    hide Keep, NoDuplicates;
    if l == [] {
      KeepAll(l, s, true);
      assert Elements(l) * s == {};
    } else {
      var before, x := l[..|l| - 1], l[|l| - 1];
      assert l == before + [x];
      LastDistinct(before, x);
      KeptCount(before, s);
      KeepAppend(before, [x], s, true);
      KeptOne(x, s);
      assert Elements(l) * s == Elements(before) * s + if x in s then {x} else {};
    }
  }

  /** The successor's row: as many rows down as old rows above the dropped one stay, but no further than the last. */
  lemma SuccessorRowIs(l: seq<WorkspaceId>, i: nat, targets: seq<WorkspaceId>, count: nat)
    requires NoDuplicates(l) && i < |l| && count > 0
    ensures var stay := |Elements(l[..i]) * Elements(targets)|;
            SuccessorRow(l, i, targets, count) == if stay < count then stay else count - 1
  {
    KeptCount(l[..i], Elements(targets));
  }

  // ---------- assignments and screens ----------

  lemma NobodyShown(m: Model)
    requires CurrentFits(m)
    ensures m.current == None <==> m.list == []
  {
  }

  /**
   A workspace comes to a list: at the row asked for, taken off every list of the unassigned.
   The screen shows it if it is active or if nothing was shown before, and then becomes active
   with an active workspace.
   */
  lemma AssignedHere(w: World, x: WorkspaceId, m: ModelId, i: nat)
    requires Valid(w) && CanAssign(w, x, Some(m), i) && w.workspaces[x].model != Some(m)
    ensures var v := Assign(w, x, Some(m), i);
            && m in v.models && x in v.workspaces && v.workspaces[x].model == Some(m)
            && var before, after := w.models[m], v.models[m];
            && RowCame(before.list, i, x, after.list) && after.unassigned == before.unassigned - {x}
            && (w.active == Some(x) || before.list == [] ==> after.current == Some(x))
            && (w.active != Some(x) && before.list != [] ==> after.current == before.current)
            && (after.active <==> before.active || w.active == Some(x))
  {
    hide Assign, Linked, Currents, CurrentFits, InsertAt, RowCame;
    ValidLinks(w);
    ValidFlags(w);
    ListedFits(w, m);
    NobodyShown(w.models[m]);
    AssignedModel(w, x, m, i, m);
    InsertedRow(w.models[m].list, i, x);
    AssignInTwoSteps(w, x, m, i);
    UnassignKeepsLinks(w, x);
    EnlistedWorld(Assign(w, x, None, 0), x, m, i);
  }

  /**
   It leaves the list it was in: every other row stays, and the screen that showed it shows the
   first row that is left. An assignment to nothing leaves it with the unassigned of its model.
   */
  lemma UnassignedThere(w: World, x: WorkspaceId, k: ModelId)
    requires Valid(w) && CanAssign(w, x, None, 0) && w.workspaces[x].model == Some(k)
    ensures var v := Assign(w, x, None, 0);
            && k in w.models && k in v.models && x in v.workspaces && v.workspaces[x].model == None
            && var before, after := w.models[k], v.models[k];
            && (exists i :: RowCame(after.list, i, x, before.list)) && after.unassigned == before.unassigned + {x}
            && (before.current != Some(x) ==> after.current == before.current)
            && (before.current == Some(x) ==> after.current == if after.list == [] then None else Some(after.list[0]))
            && after.active == before.active
            && v.active == w.active && v.policy == w.policy
  {
    hide Assign, Linked, Currents, RowCame, RemoveAt;
    ValidLinks(w);
    KnownModel(w, x, k);
    UnassignedModel(w, x, k);
    RemovedRow(w.models[k].list, IndexOf(w.models[k].list, x));
    UnassignOthers(w, x);
    UnassignedWorkspace(w, x);
  }

  lemma KnownModel(w: World, x: WorkspaceId, k: ModelId)
    requires Linked(w) && x in w.workspaces && w.workspaces[x].model == Some(k)
    ensures k in w.models && x in w.models[k].list
  {
  }

  lemma UnassignedWorkspace(w: World, x: WorkspaceId)
    requires CanAssign(w, x, None, 0)
    ensures Assign(w, x, None, 0).workspaces[x].model == None
  {
  }

  /** The other models do not notice an assignment, but for what they had unassigned. */
  lemma AssignedElsewhere(w: World, x: WorkspaceId, m: ModelId, i: nat, k: ModelId)
    requires Valid(w) && CanAssign(w, x, Some(m), i) && w.workspaces[x].model != Some(m)
    requires k in w.models && k != m && w.workspaces[x].model != Some(k)
    ensures Assign(w, x, Some(m), i).models[k] == w.models[k].(unassigned := w.models[k].unassigned - {x})
  {
    hide Linked, Currents, ScreenHears;
    ValidLinks(w);
    EnlistingHere(w, x, m, i);
    ScreenHearsHere(RowInserted(Unlisted(w, x, Some(m)), m, i, x), m, x, k);
  }

  lemma EnlistingHere(w: World, x: WorkspaceId, m: ModelId, i: nat)
    requires Linked(w) && Currents(w) && CanAssign(w, x, Some(m), i) && w.workspaces[x].model != Some(m)
    ensures var r := RowInserted(Unlisted(w, x, Some(m)), m, i, x);
            x in r.workspaces && CanActivateScreen(r, m) && OwnCurrent(r, m)
  {
    assert CurrentFits(w.models[m]);
  }

  lemma ScreenHearsHere(w: World, m: ModelId, x: WorkspaceId, k: ModelId)
    requires x in w.workspaces && CanActivateScreen(w, m) && OwnCurrent(w, m) && k in w.models && k != m
    ensures ScreenHears(w, m, x).models[k] == w.models[k]
  {
    ScreenHearsCurrents(w, m, x);
  }

  /** A workspace that becomes active: its screen shows it and is active; no other screen and no list changes. */
  lemma Activated(w: World, x: WorkspaceId)
    requires Valid(w) && x in w.all
    ensures CanActivate(w, x)
    ensures var v := SetActiveWorkspace(w, Some(x));
            && v.active == Some(x) && v.models.Keys == w.models.Keys
            && (w.active == Some(x) ==> v == w)
            && (forall k <- w.models :: v.models[k]
                  == if w.workspaces[x].model == Some(k) && w.active != Some(x)
                     then w.models[k].(current := Some(x), active := true) else w.models[k])
  {
    hide Linked, Currents;
    ValidLinks(w);
    StillActivatable(w, x);
  }

  /** A screen that becomes active makes what it shows the active workspace; the other screens do not change. */
  lemma ScreenActivates(w: World, m: ModelId)
    requires Valid(w) && m in w.models
    ensures CanActivateScreen(w, m)
    ensures var v := ActivateScreen(w, m);
            && (w.models[m].active ==> v == w)
            && v.active == (if w.models[m].active || w.models[m].current == None then w.active else w.models[m].current)
            && (forall k <- w.models :: v.models[k]
                  == if k == m then w.models[m].(active := true) else w.models[k])
  {
    hide Linked, Currents;
    ActivateScreenKeepsValid(w, m);
    if w.models[m].current.Some? {
      ShownHere(w, m);
    }
  }

  lemma ShownHere(w: World, m: ModelId)
    requires Valid(w) && m in w.models && w.models[m].current.Some?
    ensures var x := w.models[m].current.value;
            x in w.workspaces && w.workspaces[x].model == Some(m)
  {
    assert CurrentFits(w.models[m]);
  }
}
