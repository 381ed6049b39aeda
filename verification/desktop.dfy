/** The policy and the desktop: the objects of the window manager, updated in place. */
module Desktops {
  import opened Wrappers
  import opened WorkspaceSpec
  import opened WorkspaceSync
  import opened ScreensSyncSpec
  import Effects = WorkspaceEffects

  class WindowManagementPolicy {
    var workspaces: set<Handle>
    var activeWorkspace: Handle
    const dummyWorkspace: Handle
    // The window manager's side.
    var content: map<Handle, set<WindowId>>
    var nextHandle: Handle

    function State(): Policy
      reads this
    {
      Policy(workspaces, dummyWorkspace, activeWorkspace, content)
    }

    ghost predicate HandlesKnown()
      reads this
    {
      && dummyWorkspace < nextHandle
      && (forall h <- workspaces :: h < nextHandle)
      && (forall h <- content :: h < nextHandle)
    }

    constructor ()
      ensures State() == Policy({}, 0, 0, map[0 := {}]) && HandlesKnown()
    {
      workspaces, activeWorkspace, dummyWorkspace, content, nextHandle := {}, 0, 0, map[0 := {}], 1;
    }

    method MoveWorkspaceContentToWorkspace(to: Handle, from: Handle)
      requires HandlesKnown() && to < nextHandle && from < nextHandle
      modifies this`content
      ensures State() == MoveContent(old(State()), to, from) && HandlesKnown()
    {
      if to != from {
        content := content[to := Content(State(), to) + Content(State(), from)][from := {}];
      }
    }

    method AdviseNewWindow(win: WindowId, hasParent: bool)
      requires HandlesKnown()
      modifies this`content
      ensures State() == WorkspaceSpec.AdviseNewWindow(old(State()), win, hasParent) && HandlesKnown()
    {
      if !hasParent && (activeWorkspace in workspaces || activeWorkspace == dummyWorkspace) {
        content := content[activeWorkspace := Content(State(), activeWorkspace) + {win}];
      }
    }

    method CreateWorkspace() returns (workspace: Handle)
      requires HandlesKnown()
      modifies this
      ensures !IsLive(old(State()), workspace) && workspace !in old(content)
      ensures old(nextHandle) == workspace < nextHandle
      ensures State() == PolicyCreate(old(State()), workspace) && HandlesKnown()
    {
      workspace := nextHandle;
      nextHandle := nextHandle + 1;
      content := content[workspace := {}];
      workspaces := workspaces + {workspace};
      if activeWorkspace == dummyWorkspace {
        MoveWorkspaceContentToWorkspace(workspace, dummyWorkspace);
        activeWorkspace := workspace;
      }
    }

    method ReleaseWorkspace(workspace: Handle)
      requires HandlesKnown() && workspace < nextHandle
      modifies this`workspaces, this`activeWorkspace, this`content
      ensures State() == PolicyRelease(old(State()), workspace) && HandlesKnown()
    {
      workspaces := workspaces - {workspace};
      if workspaces == {} {
        activeWorkspace := dummyWorkspace;
        MoveWorkspaceContentToWorkspace(dummyWorkspace, workspace);
      }
    }

    method SetActiveWorkspace(workspace: Option<Handle>)
      modifies this`activeWorkspace
      ensures State() == PolicySetActive(old(State()), workspace)
    {
      if workspace == Some(activeWorkspace) {
        return;
      }
      activeWorkspace := if workspace.Some? then workspace.value else dummyWorkspace;
    }
  }

  lemma Assignable(w: World, x: WorkspaceId)
    requires Valid(w) && x in w.all
    ensures CanAssign(w, x, None, 0)
  {
  }

  lemma ActivationKeepsWindows(w: World, x: Option<WorkspaceId>, arrived: set<WindowId>)
    requires x.Some? ==> CanAssign(w, x.value, None, 0)
    ensures WindowsKept(w.policy, arrived) ==> WindowsKept(WorkspaceSpec.SetActiveWorkspace(w, x).policy, arrived)
  {
    if WindowsKept(w.policy, arrived) {
      WindowsIgnoreActive(w.policy, WorkspaceSpec.SetActiveWorkspace(w, x).policy, arrived);
    }
  }

  lemma ArrivalKeepsValid(w: World, win: WindowId, hasParent: bool)
    requires Valid(w)
    ensures PolicyValid(w.policy)
    ensures Valid(w.(policy := AdviseNewWindow(w.policy, win, hasParent)))
  {
    hide Linked, Currents;
    var v := w.(policy := AdviseNewWindow(w.policy, win, hasParent));
    ValidLinks(w);
    LinksFrame(w, v);
    CurrentsFrame(w, v);
    SameHandles(w, v);
  }

  lemma AssignKeepsWindows(w: World, x: WorkspaceId, target: Option<ModelId>, i: nat, arrived: set<WindowId>)
    requires Valid(w) && CanAssign(w, x, target, i)
    ensures WindowsKept(w.policy, arrived) ==> WindowsKept(Assign(w, x, target, i).policy, arrived)
  {
    hide Valid, Assign, WindowsKept;
    if w.workspaces[x].model == target {
      AssignNothing(w, x, target, i);
    } else if WindowsKept(w.policy, arrived) {
      AssignActive(w, x, target, i);
      WindowsIgnoreActive(w.policy, Assign(w, x, target, i).policy, arrived);
    }
  }

  lemma ScreenKeepsWindows(w: World, m: ModelId, arrived: set<WindowId>)
    requires CanActivateScreen(w, m)
    ensures WindowsKept(w.policy, arrived) ==> WindowsKept(WorkspaceSpec.ActivateScreen(w, m).policy, arrived)
  {
    if WindowsKept(w.policy, arrived) {
      WindowsIgnoreActive(w.policy, WorkspaceSpec.ActivateScreen(w, m).policy, arrived);
    }
  }

  lemma CreationKeepsWindows(w: World, x: WorkspaceId, h: Handle, arrived: set<WindowId>)
    requires Valid(w) && CanCreate(w, x, h)
    ensures WindowsKept(w.policy, arrived) ==> WindowsKept(Create(w, x, h).policy, arrived)
  {
    if WindowsKept(w.policy, arrived) {
      CreateKeepsWindows(w.policy, arrived, h);
      ActivationKeepsWindows(Added(w, x, h), Some(x), arrived);
    }
  }

  lemma DestroyedKnown(w: World, x: WorkspaceId, heir: WorkspaceId, surfaceManager: bool)
    requires Valid(w) && CanDelete(w, x, heir)
    ensures x in Destroy(w, x, heir, surfaceManager).workspaces
  {
    SucceededMeaning(w, x, heir);
  }

  lemma DroppedReady(w: World, x: WorkspaceId)
    requires Valid(w) && x in w.all
    ensures CanAssign(w, x, None, 0)
    ensures var v := Dropped(w, x);
            && v.workspaces.Keys == w.workspaces.Keys && v.all == w.all - {x} && x in w.workspaces
            && (forall y <- w.all :: y in v.workspaces && CanAssign(v, y, None, 0))
  {
    DroppedMeaning(w, x);
  }

  lemma Heirs(w: World, x: WorkspaceId, heir: WorkspaceId)
    requires Valid(w) && x in w.all
    requires w.all != {x} ==> heir in w.all && heir != x
    ensures CanDelete(w, x, heir)
  {
  }

  lemma SucceededIds(w: World, x: WorkspaceId, heir: WorkspaceId)
    requires Valid(w) && CanDelete(w, x, heir)
    ensures var r := Succeeded(w, x, heir);
            && r.workspaces.Keys == w.workspaces.Keys
            && (forall y <- w.workspaces :: r.workspaces[y].handle == w.workspaces[y].handle)
            && (r.active.Some? ==> r.active.value in r.workspaces)
  {
    SucceededMeaning(w, x, heir);
    SucceededActive(w, x, heir);
  }

  lemma DeletionKeepsWindows(w: World, x: WorkspaceId, heir: WorkspaceId, surfaceManager: bool, arrived: set<WindowId>)
    requires Valid(w) && CanDelete(w, x, heir)
    ensures surfaceManager && WindowsKept(w.policy, arrived) ==>
              WindowsKept(Delete(w, x, heir, surfaceManager).policy, arrived)
  {
    if WindowsKept(w.policy, arrived) {
      DeleteKeepsWindowsIff(w, x, heir, surfaceManager, arrived);
    }
  }

  lemma NothingDeleted(w: World)
    requires Valid(w)
    ensures AfterDeletes(w, {}, w)
  {
  }

  lemma FloatingReady(w: World, m: ModelId, gone: set<WorkspaceId>, v: World, x: WorkspaceId)
    requires AfterDeletes(w, gone, v) && m in w.models && x in w.models[m].unassigned && x !in gone
    ensures x in v.all && x in v.workspaces && v.workspaces[x].model == None && m in v.models
  {
    assert x in v.models[m].unassigned;
  }

  lemma NothingFloats(w: World, m: ModelId, v: World)
    requires m in w.models && AfterDeletes(w, w.models[m].unassigned, v)
    ensures m in v.models && v.models[m].unassigned == {}
    ensures v.models[m := v.models[m].(unassigned := {})] == v.models
  {
  }

  lemma RemovalsBegin(w: World, m: ModelId, targets: set<WorkspaceId>)
    requires Valid(w) && m in w.models
    ensures AfterRemovals(w, m, targets, 0, w)
    ensures RowRemembered(w.active, w.models[m].list, targets, 0, -1)
  {
    hide Valid;
    var l := w.models[m].list;
    assert l[..0] == [] && l[0..] == l && Elements(l[..0]) == {};
    ListedFits(w, m);
  }

  /** A row about to be removed is live, and its flag tells whether it is the active workspace. */
  lemma StaleRow(w: World, m: ModelId, targets: set<WorkspaceId>, j: nat, v: World)
    requires Valid(w) && AfterRemovals(w, m, targets, j, v) && j < |w.models[m].list|
    requires w.models[m].list[j] !in targets
    ensures var x := w.models[m].list[j];
            && x in v.workspaces && (v.workspaces[x].active <==> w.active == Some(x))
            && IndexOf(v.models[m].list, x) == |Keep(w.models[m].list[..j], targets, true)|
  {
    PruneStep(w.models[m].list, targets, j);
    RemovalStep(w, m, targets, j, v);
  }

  lemma RemovalsSurroundings(w: World, m: ModelId, targets: set<WorkspaceId>, j: nat, u: World)
    requires AfterRemovals(w, m, targets, j, u)
    ensures u.all == w.all && u.active == w.active
    ensures u.models.Keys == w.models.Keys && u.workspaces.Keys == w.workspaces.Keys
  {
  }

  lemma PlacingSurroundings(w: World, m: ModelId, targets: seq<WorkspaceId>, i: nat, u: World)
    requires AfterPlacing(w, m, targets, i, u)
    ensures u.all == w.all && u.models.Keys == w.models.Keys && u.workspaces.Keys == w.workspaces.Keys
  {
  }

  lemma EmptyModel(w: World, m: ModelId, e: World)
    requires m in w.models && e.models.Keys == w.models.Keys
    requires forall k <- w.models | k != m ::
               && e.models[k].list == Keep(w.models[k].list, Elements([]), false)
               && e.models[k].unassigned == w.models[k].unassigned - Elements([])
    ensures forall k <- w.models | k != m ::
              e.models[k].list == w.models[k].list && e.models[k].unassigned == w.models[k].unassigned
  {
    forall k <- w.models ensures Keep(w.models[k].list, Elements([]), false) == w.models[k].list {
      KeepAll(w.models[k].list, Elements([]), false);
    }
  }

  lemma SomeRows(w: World, m: ModelId, targets: seq<WorkspaceId>, v: World)
    requires m in w.models && Reconciled(w, m, targets, v)
    ensures m in v.models && |v.models[m].list| > 0 && v.models[m].unassigned == LeftOver(w, m, targets)
  {
  }

  lemma RowIsLive(v: World, m: ModelId, i: nat)
    requires Valid(v) && m in v.models && i < |v.models[m].list|
    ensures v.models[m].list[i] in v.all && v.models[m].list[i] in v.workspaces
  {
    assert v.models[m].list[i] in v.models[m].list;
  }

  lemma SyncedRows(w: World, m: ModelId, targets: seq<WorkspaceId>, b: World, z: World)
    requires m in w.models && Reconciled(w, m, targets, b) && AfterDeletes(b, LeftOver(w, m, targets), z)
    ensures m in z.models && z.models[m].list == b.models[m].list
  {
  }

  lemma SyncedTargets(z: World, m: ModelId)
    requires Valid(z) && m in z.models
    ensures NoDuplicates(z.models[m].list) && forall x <- z.models[m].list :: x in z.all
  {
  }

  /** A workspace fresh from creation may wait in a model's unassigned set. */
  lemma ParkedValid(w: World, m: ModelId, x: WorkspaceId, h: Handle)
    requires Valid(w) && CanCreate(w, x, h) && m in w.models
    ensures var v := Create(w, x, h);
            && v.models.Keys == w.models.Keys && v.all == w.all + {x} && x in v.workspaces
            && Valid(v.(models := v.models[m := v.models[m].(unassigned := v.models[m].unassigned + {x})]))
  {
    CreateKeepsValid(w, x, h);
    CreatedTables(w, x, h);
    ParkValid(Create(w, x, h), m, x);
  }

  lemma ParkValid(v: World, m: ModelId, x: WorkspaceId)
    requires Valid(v) && m in v.models && x in v.workspaces && v.workspaces[x].model == None
    ensures Valid(v.(models := v.models[m := v.models[m].(unassigned := v.models[m].unassigned + {x})]))
  {
    hide Linked, Currents, HandlesAgree, PolicyValid;
    var parked := v.(models := v.models[m := v.models[m].(unassigned := v.models[m].unassigned + {x})]);
    ParkKeepsLinks(v, m, x);
    SameHandles(v, parked);
  }

  lemma ParkKeepsLinks(v: World, m: ModelId, x: WorkspaceId)
    requires Linked(v) && Currents(v) && m in v.models && x in v.workspaces && v.workspaces[x].model == None
    ensures var w := v.(models := v.models[m := v.models[m].(unassigned := v.models[m].unassigned + {x})]);
            Linked(w) && Currents(w)
  {
    hide NoDuplicates;
  }

  class Desktop {
    const policy: WindowManagementPolicy
    // WorkspaceManager
    var allWorkspaces: set<WorkspaceId>
    var activeWorkspace: Option<WorkspaceId>
    const surfaceManager: bool
    var nextWorkspace: WorkspaceId
    // the workspaces, and the models with their screens
    var workspaces: map<WorkspaceId, Workspace>
    var models: map<ModelId, Model>
    // every parentless window announced so far
    ghost var arrived: set<WindowId>

    ghost function World(): World
      reads this, policy
    {
      WorkspaceSpec.World.World(allWorkspaces, activeWorkspace, workspaces, models, policy.State())
    }

    ghost predicate IdsKnown()
      reads this, policy
    {
      policy.HandlesKnown() && (forall x <- workspaces :: x < nextWorkspace && workspaces[x].handle < policy.nextHandle)
    }

    ghost predicate Ok()
      reads this, policy
    {
      Valid(World()) && IdsKnown()
    }

    /** With a surface manager no announced window is ever lost. */
    ghost predicate NothingLost()
      reads this, policy
    {
      surfaceManager ==> WindowsKept(policy.State(), arrived)
    }

    constructor (screens: set<ModelId>, surfaceManager: bool)
      ensures Ok() && NothingLost() && fresh(policy)
      ensures models.Keys == screens && allWorkspaces == {} && arrived == {}
    {
      policy := new WindowManagementPolicy();
      allWorkspaces, activeWorkspace, nextWorkspace, workspaces := {}, None, 0, map[];
      this.surfaceManager := surfaceManager;
      models := map m <- screens :: Model([], {}, None, false);
      arrived := {};
    }

    method NewWindow(win: WindowId, hasParent: bool)
      requires Ok() && NothingLost() && win !in arrived
      modifies this`arrived, policy
      ensures Ok() && NothingLost()
      ensures World() == old(World()).(policy := AdviseNewWindow(old(World()).policy, win, hasParent))
      ensures arrived == old(arrived) + if hasParent then {} else {win}
    {
      hide Valid, WindowsKept;
      ghost var p := policy.State();
      ArrivalKeepsValid(World(), win, hasParent);
      policy.AdviseNewWindow(win, hasParent);
      if !hasParent {
        if surfaceManager {
          ArrivalKeepsWindows(p, arrived, win);
        }
        arrived := arrived + {win};
      }
    }

    // ---------- WorkspaceModel ----------

    method Insert(m: ModelId, index: nat, x: WorkspaceId)
      requires IdsKnown() && x in workspaces && CanActivateScreen(World(), m) && index <= |models[m].list|
      modifies this`activeWorkspace, this`workspaces, this`models, policy`activeWorkspace
      ensures IdsKnown()
      ensures World() == ScreenHears(RowInserted(old(World()), m, index, x), m, x)
    {
      models := models[m := models[m].(list := InsertAt(models[m].list, index, x))];
      // the screen hears of the row
      if workspaces[x].active {
        ActivateScreen(m);
        models := models[m := models[m].(current := Some(x))];
      }
      if models[m].current == None {
        models := models[m := models[m].(current := Some(x))];
      }
    }

    method Remove(m: ModelId, x: WorkspaceId)
      requires m in models
      modifies this`models
      ensures models == old(models)[m := Removed(old(models)[m], x)]
    {
      var index := IndexOf(models[m].list, x);
      if index == |models[m].list| {
        assert models[m := models[m]] == models;
        return;
      }
      models := models[m := models[m].(list := RemoveAt(models[m].list, index))];
      models := models[m := models[m].(unassigned := models[m].unassigned + {x})];
      // the screen hears of the row
      if models[m].current == Some(x) {
        models := models[m := models[m].(current := if |models[m].list| > 0 then Some(models[m].list[0]) else None)];
      }
    }

    method Move(m: ModelId, from: int, to: int)
      requires Ok() && m in models
      modifies this`models
      ensures Ok()
      ensures World() == if 0 <= from < |old(models)[m].list| && 0 <= to < |old(models)[m].list| && from != to
                         then Moved(old(World()), m, from, to) else old(World())
    {
      if from == to {
        return;
      }
      if from >= 0 && from < |models[m].list| && to >= 0 && to < |models[m].list| {
        MovedKeepsValid(World(), m, from, to);
        models := models[m := models[m].(list := MoveRow(models[m].list, from, to))];
      }
    }

    /**
     A proxy model whose proxies point at `proxies` asks for a new workspace, which stays
     unassigned until the next synchronisation; the proxy model gets a proxy of it at its end.
     */
    method AddWorkspace(m: ModelId, proxies: seq<WorkspaceId>) returns (x: WorkspaceId, proxies': seq<WorkspaceId>)
      requires Ok() && NothingLost() && m in models
      modifies this, policy
      ensures Ok() && NothingLost() && arrived == old(arrived)
      ensures x !in old(workspaces) && x in workspaces && models.Keys == old(models).Keys
      ensures allWorkspaces == old(allWorkspaces) + {x}
      ensures activeWorkspace == if old(allWorkspaces) == {} then Some(x) else old(activeWorkspace)
      ensures models == old(models)[m := old(models)[m].(unassigned := old(models)[m].unassigned + {x})]
      ensures proxies' == proxies + [x]
      ensures old(Synchronisable(proxies)) ==> Synchronisable(proxies')
    {
      hide Valid, WindowsKept, Create;
      ghost var w := World();
      x := CreateWorkspace();
      ghost var h :| CanCreate(w, x, h) && World() == Create(w, x, h);
      AllWorkspaces(w);
      ParkedValid(w, m, x, h);
      Effects.WindowsAfterCreate(w, x, h);
      models := models[m := models[m].(unassigned := models[m].unassigned + {x})];
      proxies' := proxies + [x];
    }

    /** Proxies of different, live workspaces. */
    ghost predicate Synchronisable(proxies: seq<WorkspaceId>)
      reads this
    {
      NoDuplicates(proxies) && forall x <- proxies :: x in allWorkspaces
    }

    // ---------- Workspace ----------

    method AssignWorkspace(x: WorkspaceId, target: Option<ModelId>, index: nat)
      requires Ok() && CanAssign(World(), x, target, index)
      modifies this`activeWorkspace, this`workspaces, this`models, policy`activeWorkspace
      ensures Ok() && (old(NothingLost()) ==> NothingLost())
      ensures World() == Assign(old(World()), x, target, index)
    {
      hide Valid, WindowsKept;
      AssignKeepsValid(World(), x, target, index);
      AssignKeepsWindows(World(), x, target, index, arrived);
      var current := workspaces[x].model;
      if current == target {
        return;
      }
      if current.Some? {
        Remove(current.value, x);
      }
      workspaces := workspaces[x := workspaces[x].(model := target)];
      if target.Some? {
        Insert(target.value, index, x);
        models := Claimed(models, x);
      }
    }

    // ---------- WorkspaceManager ----------

    /** Every workspace hears of the change; the one that becomes active tells its screen and the policy. */
    method SetActiveWorkspace(x: Option<WorkspaceId>)
      requires IdsKnown()
      requires x.Some? ==> CanActivate(World(), x.value)
      modifies this`activeWorkspace, this`workspaces, this`models, policy`activeWorkspace
      ensures World() == WorkspaceSpec.SetActiveWorkspace(old(World()), x)
      ensures IdsKnown()
    {
      hide Content, IsLive;
      if x == activeWorkspace {
        return;
      }
      activeWorkspace := x;
      ghost var before := workspaces;
      var waiting := workspaces.Keys;
      while waiting != {}
        invariant activeWorkspace == x
        invariant waiting <= before.Keys && workspaces.Keys == before.Keys
        invariant forall y <- before ::
                    workspaces[y] == if y in waiting then before[y] else before[y].(active := Some(y) == x)
        invariant IdsKnown()
        invariant if x == None || x.value in waiting || before[x.value].active
                  then models == old(models) && policy.State() == old(policy.State())
                  else policy.State() == PolicySetActive(old(policy.State()), Some(before[x.value].handle))
                       && models == if before[x.value].model.Some?
                                    then old(models)[before[x.value].model.value :=
                              old(models)[before[x.value].model.value].(current := x, active := true)]
                                    else old(models)
        decreases waiting
      {
        var y :| y in waiting;
        waiting := waiting - {y};
        HearActiveWorkspace(y, x);
      }
      assert workspaces == map y <- before :: before[y].(active := Some(y) == x);
    }

    /** One workspace hears which workspace is active now. */
    method HearActiveWorkspace(y: WorkspaceId, active: Option<WorkspaceId>)
      requires y in workspaces && activeWorkspace == active
      requires Some(y) == active ==> CanActivate(World(), y)
      modifies this`workspaces, this`models, policy`activeWorkspace
      ensures workspaces == old(workspaces)[y := old(workspaces)[y].(active := Some(y) == active)]
      ensures old(IdsKnown()) ==> IdsKnown()
      ensures if Some(y) == active && !old(workspaces)[y].active then
                && policy.State() == PolicySetActive(old(policy.State()), Some(workspaces[y].handle))
                && models == (if workspaces[y].model.Some?
                              then old(models)[workspaces[y].model.value :=
                                old(models)[workspaces[y].model.value].(current := active, active := true)]
                              else old(models))
              else policy.State() == old(policy.State()) && models == old(models)
    {
      var newActive := Some(y) == active;
      if newActive != workspaces[y].active {
        workspaces := workspaces[y := workspaces[y].(active := newActive)];
        if newActive {
          var m := workspaces[y].model;
          if m.Some? {
            models := models[m.value := models[m.value].(current := Some(y))];
            // the screen becomes active and activates its current workspace, which is active by now
            models := models[m.value := models[m.value].(active := true)];
            assert models[m.value].current == activeWorkspace;
          }
          policy.SetActiveWorkspace(Some(workspaces[y].handle));
        }
      } else {
        assert workspaces[y := workspaces[y]] == workspaces;
      }
    }

    // ---------- ConcreteScreen ----------

    /** A screen that becomes active activates its current workspace. */
    method ActivateScreen(m: ModelId)
      requires IdsKnown() && CanActivateScreen(World(), m)
      modifies this`activeWorkspace, this`workspaces, this`models, policy`activeWorkspace
      ensures IdsKnown() && World() == WorkspaceSpec.ActivateScreen(old(World()), m)
    {
      if models[m].active {
        return;
      }
      models := models[m := models[m].(active := true)];
      if models[m].current.Some? {
        SetActiveWorkspace(models[m].current);
      }
    }

    /** Somebody activates a screen. */
    method ScreenActivated(m: ModelId)
      requires Ok() && m in models
      modifies this`activeWorkspace, this`workspaces, this`models, policy`activeWorkspace
      ensures Ok() && (old(NothingLost()) ==> NothingLost())
      ensures CanActivateScreen(old(World()), m) && World() == WorkspaceSpec.ActivateScreen(old(World()), m)
    {
      hide Valid, WindowsKept;
      ActivateScreenKeepsValid(World(), m);
      ScreenKeepsWindows(World(), m, arrived);
      ActivateScreen(m);
    }

    /** A screen stops being active, because another one is or for any other reason: nobody reacts. */
    method ScreenDeactivated(m: ModelId)
      requires Ok() && m in models
      modifies this`models
      ensures Ok() && (old(NothingLost()) ==> NothingLost())
      ensures models == old(models)[m := old(models)[m].(active := false)]
    {
      hide Valid, WindowsKept;
      FlagKeepsValid(World(), m, false);
      models := models[m := models[m].(active := false)];
    }

    method Activate(x: WorkspaceId)
      requires Ok() && x in allWorkspaces
      modifies this`activeWorkspace, this`workspaces, this`models, policy`activeWorkspace
      ensures Ok() && (old(NothingLost()) ==> NothingLost())
      ensures World() == WorkspaceSpec.SetActiveWorkspace(old(World()), Some(x))
    {
      hide Valid, WindowsKept;
      ghost var w := World();
      SetActiveKeepsValid(w, x);
      Assignable(w, x);
      ActivationKeepsWindows(w, Some(x), arrived);
      SetActiveWorkspace(Some(x));
    }

    method CreateWorkspace() returns (x: WorkspaceId)
      requires Ok() && NothingLost()
      modifies this, policy
      ensures Ok() && NothingLost() && arrived == old(arrived)
      ensures x !in old(workspaces) && old(nextWorkspace) <= x < nextWorkspace
      ensures exists h :: CanCreate(old(World()), x, h) && World() == Create(old(World()), x, h)
    {
      hide Valid, WindowsKept, PolicyCreate, IsLive, WorkspaceSpec.SetActiveWorkspace;
      ghost var w := World();
      x := nextWorkspace;
      nextWorkspace := nextWorkspace + 1;
      var handle := policy.CreateWorkspace();
      CreateKeepsValid(w, x, handle);
      CreationKeepsWindows(w, x, handle, arrived);
      workspaces := workspaces[x := Workspace(handle, None, false)];
      allWorkspaces := allWorkspaces + {x};
      // The set has just grown, so the branch for an empty set cannot be taken.
      assert x in allWorkspaces;
      if |allWorkspaces| == 1 {
        SetActiveWorkspace(Some(x));
      }
      assert CanCreate(w, x, handle) && World() == Create(w, x, handle);
    }

    method DestroyWorkspace(x: WorkspaceId) returns (ghost heir: WorkspaceId)
      requires Ok() && x in allWorkspaces
      modifies this`allWorkspaces, this`activeWorkspace, this`workspaces, this`models, policy`activeWorkspace,
               policy`content
      ensures CanDelete(old(World()), x, heir)
      ensures World() == Destroy(old(World()), x, heir, surfaceManager)
      ensures IdsKnown()
    {
      hide Valid;
      ghost var w := World();
      Assignable(w, x);
      DroppedReady(w, x);
      if workspaces[x].model.Some? {
        AssignWorkspace(x, None, 0);
      }
      assert World() == Assign(w, x, None, 0);
      allWorkspaces := allWorkspaces - {x};
      assert World() == Dropped(w, x);
      heir := x;
      if activeWorkspace == Some(x) {
        if allWorkspaces != {} {
          var next :| next in allWorkspaces;
          heir := next;
          SetActiveWorkspace(Some(next));
        } else {
          SetActiveWorkspace(None);
        }
      } else if allWorkspaces != {} {
        heir :| heir in allWorkspaces;
      }
      assert CanDelete(w, x, heir) by { Heirs(w, x, heir); }
      assert World() == Succeeded(w, x, heir);
      SucceededIds(w, x, heir);
      if activeWorkspace.Some? {
        if surfaceManager {
          policy.MoveWorkspaceContentToWorkspace(workspaces[activeWorkspace.value].handle, workspaces[x].handle);
        }
      }
    }

    /** The destructor of a workspace. */
    method DeleteWorkspace(x: WorkspaceId) returns (ghost heir: WorkspaceId)
      requires Ok() && x in allWorkspaces
      modifies this`allWorkspaces, this`activeWorkspace, this`workspaces, this`models,
               policy`workspaces, policy`activeWorkspace, policy`content
      ensures Ok() && CanDelete(old(World()), x, heir)
      ensures World() == Delete(old(World()), x, heir, surfaceManager)
      ensures old(NothingLost()) ==> NothingLost()
    {
      hide Valid, WindowsKept, CanDelete, Destroy;
      ghost var w := World();
      heir := DestroyWorkspace(x);
      DestroyedKnown(w, x, heir, surfaceManager);
      DeleteKeepsValid(w, x, heir, surfaceManager);
      DeletionKeepsWindows(w, x, heir, surfaceManager, arrived);
      policy.ReleaseWorkspace(workspaces[x].handle);
      workspaces := workspaces - {x};
      models := Claimed(models, x);
    }

    // ---------- synchronisation ----------

    method FinishSync(m: ModelId)
      requires Ok() && m in models
      modifies this`allWorkspaces, this`activeWorkspace, this`workspaces, this`models,
               policy`workspaces, policy`activeWorkspace, policy`content
      ensures Ok() && (old(NothingLost()) ==> NothingLost())
      ensures AfterDeletes(old(World()), old(models)[m].unassigned, World())
    {
      hide Valid, WindowsKept, SameLists;
      ghost var w := World();
      var dpCpy := models[m].unassigned;
      ghost var gone: set<WorkspaceId> := {};
      NothingDeleted(w);
      while dpCpy != {}
        invariant Ok() && (old(NothingLost()) ==> NothingLost())
        invariant AfterDeletes(w, gone, World())
        invariant gone !! dpCpy && gone + dpCpy == w.models[m].unassigned
        decreases dpCpy
      {
        var x :| x in dpCpy;
        dpCpy := dpCpy - {x};
        ghost var v := World();
        FloatingReady(w, m, gone, v, x);
        ghost var heir := DeleteWorkspace(x);
        DeleteStep(w, gone, v, x, heir, surfaceManager);
        gone := gone + {x};
      }
      assert gone == w.models[m].unassigned;
      NothingFloats(w, m, World());
      models := models[m := models[m].(unassigned := {})];
    }

    /** Rows of model `m` that no proxy refers to are unassigned; the row of the active workspace is remembered. */
    method RemoveStale(m: ModelId, proxies: seq<WorkspaceId>) returns (removedIndexWhichWasActive: int)
      requires Ok() && m in models
      modifies this`activeWorkspace, this`workspaces, this`models, policy`activeWorkspace
      ensures Ok() && removedIndexWhichWasActive >= -1 && (old(NothingLost()) ==> NothingLost())
      ensures AfterRemovals(old(World()), m, Elements(proxies), |old(models)[m].list|, World())
      ensures RowRemembered(old(activeWorkspace), old(models)[m].list, Elements(proxies), |old(models)[m].list|,
                            removedIndexWhichWasActive)
    {
      hide Valid, RowRemembered, RemovedRows, SameSurroundings, WindowsKept;
      ghost var w := World();
      removedIndexWhichWasActive := -1;
      var dpCpy := models[m].list;
      DistinctRows(w, m);
      RemovalsBegin(w, m, Elements(proxies));
      for j := 0 to |dpCpy|
        invariant Ok() && m in models && removedIndexWhichWasActive >= -1
        invariant old(NothingLost()) ==> NothingLost()
        invariant AfterRemovals(w, m, Elements(proxies), j, World())
        invariant RowRemembered(w.active, dpCpy, Elements(proxies), j, removedIndexWhichWasActive)
      {
        var workspace := dpCpy[j];
        var found := false;
        for p := 0 to |proxies|
          invariant !found
          invariant workspace !in proxies[..p]
        {
          if proxies[p] == workspace {
            found := true;
            break;
          }
        }
        assert found <==> workspace in Elements(proxies);
        RemovalStep(w, m, Elements(proxies), j, World());
        RememberRow(w.active, dpCpy, Elements(proxies), j, removedIndexWhichWasActive);
        if !found {
          StaleRow(w, m, Elements(proxies), j, World());
          if workspaces[workspace].active {
            removedIndexWhichWasActive := IndexOf(models[m].list, workspace);
          }
          AssignWorkspace(workspace, None, 0);
        }
      }
    }

    /** Every target is put at its place: assigned, moved, or left where it is. */
    method PlaceTargets(m: ModelId, proxies: seq<WorkspaceId>)
      requires Ok() && m in models && NoDuplicates(proxies)
      requires forall x <- proxies :: x in allWorkspaces
      requires AfterPlacing(World(), m, proxies, 0, World())
      modifies this`activeWorkspace, this`workspaces, this`models, policy`activeWorkspace
      ensures Ok() && (old(NothingLost()) ==> NothingLost())
      ensures AfterPlacing(old(World()), m, proxies, |proxies|, World())
    {
      hide Valid, PlacedRows, PlacedActive, SameSurroundings, WindowsKept, Assign, Moved;
      ghost var w := World();
      for i := 0 to |proxies|
        invariant Ok() && m in models && (old(NothingLost()) ==> NothingLost())
        invariant AfterPlacing(w, m, proxies, i, World())
      {
        var workspace := proxies[i];
        PlacingStep(w, m, proxies, i, World());
        var oldIndex := IndexOf(models[m].list, workspace);
        if oldIndex == |models[m].list| {
          AssignWorkspace(workspace, Some(m), i);
        } else if oldIndex != i {
          Move(m, oldIndex, i);
        }
        PlacingSurroundings(w, m, proxies, i + 1, World());
      }
    }

    /** A model left without rows gets a new workspace. */
    method AddFirstRow(m: ModelId, ghost w: World) returns (workspace: WorkspaceId)
      requires Ok() && NothingLost() && m in models
      requires models.Keys == w.models.Keys && workspaces.Keys == w.workspaces.Keys
      requires models[m].list == [] && models[m].unassigned == LeftOver(w, m, [])
      requires forall k <- w.models | k != m ::
                 models[k].list == w.models[k].list && models[k].unassigned == w.models[k].unassigned
      modifies this, policy
      ensures Ok() && NothingLost() && arrived == old(arrived)
      ensures m in models && models[m].list == [workspace]
      ensures Reconciled(w, m, [], World())
      ensures old(allWorkspaces) != {} ==> activeWorkspace == old(activeWorkspace)
      ensures old(nextWorkspace) <= workspace < nextWorkspace
    {
      hide Valid, WindowsKept, Reconciled, Create;
      ghost var e := World();
      workspace := CreateWorkspace();
      ghost var h :| CanCreate(e, workspace, h) && World() == Create(e, workspace, h);
      FirstRow(w, m, e, workspace, h);
      AssignWorkspace(workspace, Some(m), 0);
    }

    /**
     Makes the list of model `m` the list of workspaces its proxies point at; `targets` are the
     proxies' workspaces, and `proxies` is what the proxies point at afterwards.
     */
    method Sync(m: ModelId, targets: seq<WorkspaceId>) returns (proxies: seq<WorkspaceId>)
      requires Ok() && NothingLost() && m in models
      requires Synchronisable(targets)
      modifies this, policy
      ensures Ok() && NothingLost() && arrived == old(arrived)
      ensures Synced(old(World()), m, targets, World())
      ensures proxies == models[m].list && Synchronisable(proxies)
      ensures old(nextWorkspace) <= nextWorkspace && forall x <- proxies :: x in targets || old(nextWorkspace) <= x
    {
      hide Valid, WindowsKept, Synced, Reconciled, RowRemembered, AfterRemovals, AfterPlacing, AfterDeletes;
      hide WorkspaceSpec.SetActiveWorkspace, LeftOver, CanAssign, CanActivate, Keep, Elements, ActiveMeanwhile;
      hide CappedRow, NoDuplicates, PolicySetActive, SameSurroundings, PlacedRows, RemovedRows;
      ghost var w := World();
      proxies := targets;
      var removedIndexWhichWasActive := RemoveStale(m, targets);
      ghost var u := World();
      RemovalsDone(w, m, targets, u);
      RemovalsSurroundings(w, m, Elements(targets), |w.models[m].list|, u);
      PlaceTargets(m, targets);
      PlacingDone(w, m, targets, u, World());
      PlacingDoneActive(w, m, targets, u, World());
      PlacingSurroundings(u, m, targets, |targets|, World());
      if |models[m].list| == 0 {
        EmptyModel(w, m, World());
        var workspace := AddFirstRow(m, w);
        proxies := [workspace];
      }
      ghost var v := World();
      SomeRows(w, m, targets, v);
      if removedIndexWhichWasActive != -1 {
        var newActiveIndex := CappedRow(removedIndexWhichWasActive, |models[m].list|);
        RowIsLive(v, m, newActiveIndex);
        ReconciledActivation(w, m, targets, v, models[m].list[newActiveIndex]);
        Activate(models[m].list[newActiveIndex]);
      }
      ghost var b := World();
      SomeRows(w, m, targets, b);
      FinishSync(m);
      SyncDone(w, m, targets, removedIndexWhichWasActive, b, World());
      SyncedRows(w, m, targets, b, World());
      SyncedTargets(World(), m);
    }

    /**
     All screens, one after the other. It stops at a proxy whose workspace is gone, which the
     code would follow: `ok` says whether there is none.
     */
    method SyncScreens(turns: seq<Turn>) returns (ok: bool)
      requires Ok() && NothingLost() && Arranged(World(), turns)
      modifies this, policy
      ensures Ok() && NothingLost() && arrived == old(arrived)
      ensures ok <==> NoneMovesLater(old(World()), turns, |turns|)
      ensures ok ==> ListsRight(old(World()), turns, |turns|, World())
    {
      hide Valid, WindowsKept, NoDuplicates, Arranged, Midway, NoneMovesLater, ListsRight, SpareTargets, StillHeld;
      hide Synced, Takes, NewIds, NeverHeld;
      ghost var w := World();
      MidwayBegins(w, turns);
      for i := 0 to |turns|
        invariant Ok() && NothingLost() && arrived == old(arrived)
        invariant Midway(w, turns, i, World()) && old(nextWorkspace) <= nextWorkspace
      {
        MidwayNow(w, turns, i, World());
        if exists x <- turns[i].targets :: x !in workspaces {
          return false;
        }
        ghost var v := World();
        var proxies := Sync(turns[i].model, turns[i].targets);
        SyncTakes(w, turns[i], v, World(), old(nextWorkspace));
        TurnKeepsMidway(w, turns, i, v, World());
      }
      MidwayEnds(w, turns, World());
      ok := true;
    }
  }
}
