/**
 Workspaces, the models that list them, the manager and the window management policy,
 as one world of tables. Objects are named by ids, so that an object can be deleted and
 a name that is left behind would show.
 */
module WorkspaceSpec {
  import opened Wrappers

  type WorkspaceId = nat
  type ModelId = nat
  type Handle = nat
  type WindowId = nat

  // ---------- the policy ----------

  /** `content` is the window manager's own record of which windows each handle holds. */
  datatype Policy = Policy(workspaces: set<Handle>, dummy: Handle, active: Handle, content: map<Handle, set<WindowId>>)

  predicate IsLive(p: Policy, h: Handle) {
    h in p.workspaces || h == p.dummy
  }

  function Content(p: Policy, h: Handle): set<WindowId> {
    if h in p.content then p.content[h] else {}
  }

  function MoveContent(p: Policy, to: Handle, from: Handle): Policy {
    if to == from then p else p.(content := p.content[to := Content(p, to) + Content(p, from)][from := {}])
  }

  function AdviseNewWindow(p: Policy, win: WindowId, hasParent: bool): Policy {
    if !hasParent && IsLive(p, p.active) then p.(content := p.content[p.active := Content(p, p.active) + {win}]) else p
  }

  /** `h` is the handle the window manager hands out. */
  function PolicyCreate(p: Policy, h: Handle): Policy {
    var q := p.(workspaces := p.workspaces + {h}, content := p.content[h := {}]);
    if p.active == p.dummy then MoveContent(q, h, p.dummy).(active := h) else q
  }

  function PolicyRelease(p: Policy, h: Handle): Policy {
    var q := p.(workspaces := p.workspaces - {h});
    if q.workspaces == {} then MoveContent(q.(active := q.dummy), q.dummy, h) else q
  }

  function PolicySetActive(p: Policy, h: Option<Handle>): Policy {
    p.(active := if h.Some? then h.value else p.dummy)
  }

  /** Every arrived window is held by exactly one live handle, and by the dummy only when there is no workspace. */
  ghost predicate WindowsKept(p: Policy, arrived: set<WindowId>) {
    && (forall h, k :: h != k ==> Content(p, h) !! Content(p, k))
    && (forall h :: !IsLive(p, h) ==> Content(p, h) == {})
    && (forall win <- arrived :: exists h :: IsLive(p, h) && win in Content(p, h))
    && (forall h :: Content(p, h) <= arrived)
    && (p.workspaces != {} ==> Content(p, p.dummy) == {})
  }

  predicate PolicyValid(p: Policy) {
    && p.dummy !in p.workspaces
    && IsLive(p, p.active)
    && (p.active == p.dummy <==> p.workspaces == {})
  }

  lemma ArrivalKeepsWindows(p: Policy, arrived: set<WindowId>, win: WindowId)
    requires PolicyValid(p) && WindowsKept(p, arrived) && win !in arrived
    ensures PolicyValid(AdviseNewWindow(p, win, false))
    ensures WindowsKept(AdviseNewWindow(p, win, false), arrived + {win})
  {
    var q := AdviseNewWindow(p, win, false);
    forall h ensures Content(q, h) == if h == p.active then Content(p, h) + {win} else Content(p, h) {}
    forall v <- arrived + {win} ensures exists h :: IsLive(q, h) && v in Content(q, h) {
      if v == win {
        assert win in Content(q, p.active);
      } else {
        var h :| IsLive(p, h) && v in Content(p, h);
        assert v in Content(q, h);
      }
    }
  }

  lemma MoveMeaning(p: Policy, to: Handle, from: Handle, h: Handle)
    requires to != from
    ensures Content(MoveContent(p, to, from), h)
            == if h == from then {} else if h == to then Content(p, to) + Content(p, from) else Content(p, h)
  {
  }

  lemma MoveToItself(p: Policy, h: Handle, k: Handle)
    ensures Content(MoveContent(p, h, h), k) == Content(p, k)
  {
  }

  lemma MoveKeepsWindows(p: Policy, arrived: set<WindowId>, to: Handle, from: Handle)
    requires WindowsKept(p, arrived) && to != from && IsLive(p, to)
    requires to == p.dummy ==> p.workspaces == {}
    ensures WindowsKept(MoveContent(p, to, from), arrived)
  {
    var q := MoveContent(p, to, from);
    forall h ensures Content(q, h)
                     == if h == from then {} else if h == to then Content(p, to) + Content(p, from) else Content(p, h)
    {
      MoveMeaning(p, to, from, h);
    }
    forall win <- arrived ensures exists h :: IsLive(q, h) && win in Content(q, h) {
      var h :| IsLive(p, h) && win in Content(p, h);
      assert win in Content(q, if h == from then to else h);
    }
  }

  lemma CreateKeepsWindows(p: Policy, arrived: set<WindowId>, h: Handle)
    requires PolicyValid(p) && WindowsKept(p, arrived) && !IsLive(p, h)
    ensures PolicyValid(PolicyCreate(p, h)) && WindowsKept(PolicyCreate(p, h), arrived)
  {
    var q := p.(workspaces := p.workspaces + {h}, content := p.content[h := {}]);
    forall k ensures Content(q, k) == Content(p, k) {}
    forall win <- arrived ensures exists k :: IsLive(q, k) && win in Content(q, k) {
      var k :| IsLive(p, k) && win in Content(p, k);
      assert win in Content(q, k);
    }
    if p.active == p.dummy {
      var r := PolicyCreate(p, h);
      forall k ensures Content(r, k)
                       == if k == p.dummy then {} else if k == h then Content(p, p.dummy) else Content(p, k)
      {
        MoveMeaning(q, h, p.dummy, k);
      }
      forall win <- arrived ensures exists k :: IsLive(r, k) && win in Content(r, k) {
        var k :| IsLive(q, k) && win in Content(q, k);
        assert win in Content(r, h);
      }
    }
  }

  /** Releasing a workspace keeps every window exactly when it was the last one or had been emptied. */
  lemma ReleaseKeepsWindowsIff(p: Policy, arrived: set<WindowId>, h: Handle)
    requires WindowsKept(p, arrived) && h in p.workspaces && p.dummy !in p.workspaces
    ensures WindowsKept(PolicyRelease(p, h), arrived) <==> p.workspaces == {h} || Content(p, h) == {}
  {
    var r := PolicyRelease(p, h);
    if p.workspaces == {h} {
      forall k ensures Content(r, k)
                       == if k == h then {}
                          else if k == p.dummy then Content(p, p.dummy) + Content(p, h)
                          else Content(p, k)
      {
        MoveMeaning(p, p.dummy, h, k);
      }
      forall win <- arrived ensures exists k :: IsLive(r, k) && win in Content(r, k) {
        var k :| IsLive(p, k) && win in Content(p, k);
        assert win in Content(r, p.dummy);
      }
    } else {
      var k :| k in p.workspaces && k != h;
      assert k in r.workspaces;
      forall k ensures Content(r, k) == Content(p, k) {}
      assert !IsLive(r, h);
      if Content(p, h) == {} {
        forall win <- arrived ensures exists k :: IsLive(r, k) && win in Content(r, k) {
          var k :| IsLive(p, k) && win in Content(p, k);
          assert IsLive(r, k);
        }
      }
    }
  }

  // ---------- the object tables ----------

  datatype Workspace = Workspace(handle: Handle, model: Option<ModelId>, active: bool)

  /**
   A model of workspaces together with the screen that owns it and follows its signals: the
   screen's current workspace and whether the screen is active.
   */
  datatype Model = Model(
    list: seq<WorkspaceId>,
    unassigned: set<WorkspaceId>,
    current: Option<WorkspaceId>,
    active: bool)

  datatype World = World(
    all: set<WorkspaceId>,
    active: Option<WorkspaceId>,
    workspaces: map<WorkspaceId, Workspace>,
    models: map<ModelId, Model>,
    policy: Policy)

  // ---------- lists ----------

  ghost predicate NoDuplicates(l: seq<WorkspaceId>) {
    forall i, j :: 0 <= i < j < |l| ==> l[i] != l[j]
  }

  function IndexOf(l: seq<WorkspaceId>, x: WorkspaceId): (i: nat)
    ensures i <= |l|
    ensures i < |l| <==> x in l
    ensures i < |l| ==> l[i] == x
    ensures forall j :: 0 <= j < i ==> l[j] != x
  {
    if l == [] || l[0] == x then 0 else 1 + IndexOf(l[1..], x)
  }

  function InsertAt(l: seq<WorkspaceId>, i: nat, x: WorkspaceId): seq<WorkspaceId>
    requires i <= |l|
  {
    l[..i] + [x] + l[i..]
  }

  function RemoveAt(l: seq<WorkspaceId>, i: nat): seq<WorkspaceId>
    requires i < |l|
  {
    l[..i] + l[i + 1..]
  }

  function MoveRow(l: seq<WorkspaceId>, from: nat, to: nat): seq<WorkspaceId>
    requires from < |l| && to < |l|
  {
    InsertAt(RemoveAt(l, from), to, l[from])
  }

  lemma InsertMembers(l: seq<WorkspaceId>, i: nat, x: WorkspaceId)
    requires i <= |l|
    ensures forall y :: y in InsertAt(l, i, x) <==> y in l || y == x
    ensures NoDuplicates(l) && x !in l ==> NoDuplicates(InsertAt(l, i, x))
  {
    assert l == l[..i] + l[i..];
    assert InsertAt(l, i, x)[i] == x;
  }

  lemma RemoveMembers(l: seq<WorkspaceId>, i: nat)
    requires i < |l| && NoDuplicates(l)
    ensures forall y :: y in RemoveAt(l, i) <==> y in l && y != l[i]
    ensures NoDuplicates(RemoveAt(l, i))
  {
    assert l == l[..i] + [l[i]] + l[i + 1..];
  }

  // ---------- what each operation does ----------

  /** The screen's reaction to an inserted row. */
  function CurrentAfterInsert(current: Option<WorkspaceId>, x: WorkspaceId, active: bool): Option<WorkspaceId> {
    if active || current == None then Some(x) else current
  }

  /** The screen's reaction to a removed row. */
  function CurrentAfterRemove(current: Option<WorkspaceId>, x: WorkspaceId, l: seq<WorkspaceId>): Option<WorkspaceId> {
    if current != Some(x) then current else if |l| > 0 then Some(l[0]) else None
  }

  function Removed(m: Model, x: WorkspaceId): Model {
    var i := IndexOf(m.list, x);
    if i == |m.list| then m
    else
      var l := RemoveAt(m.list, i);
      Model(l, m.unassigned + {x}, CurrentAfterRemove(m.current, x, l), m.active)
  }

  /** Every model hears that a workspace was assigned and forgets it as unassigned. */
  function Claimed(models: map<ModelId, Model>, x: WorkspaceId): map<ModelId, Model> {
    map k <- models :: models[k].(unassigned := models[k].unassigned - {x})
  }

  predicate CanActivate(w: World, x: WorkspaceId) {
    x in w.workspaces && (w.workspaces[x].model.Some? ==> w.workspaces[x].model.value in w.models)
  }

  /**
   Everybody reacts to a change of the active workspace. The screen of the new one makes it its
   current workspace and becomes active; that the screen then activates it again changes nothing.
   */
  function SetActiveWorkspace(w: World, x: Option<WorkspaceId>): World
    requires x.Some? ==> CanActivate(w, x.value)
  {
    if x == w.active then w
    else
      var workspaces := map y <- w.workspaces :: w.workspaces[y].(active := Some(y) == x);
      if x == None || w.workspaces[x.value].active then w.(active := x, workspaces := workspaces)
      else
        var ws := w.workspaces[x.value];
        var models :=
          if ws.model.Some? then w.models[ws.model.value := w.models[ws.model.value].(current := x, active := true)]
          else w.models;
        World(w.all, x, workspaces, models, PolicySetActive(w.policy, Some(ws.handle)))
  }

  predicate CanActivateScreen(w: World, m: ModelId) {
    m in w.models && (w.models[m].current.Some? ==> CanActivate(w, w.models[m].current.value))
  }

  /** A screen that becomes active activates its current workspace. */
  function ActivateScreen(w: World, m: ModelId): (v: World)
    requires CanActivateScreen(w, m)
    ensures v.models.Keys == w.models.Keys
  {
    if w.models[m].active then w
    else
      var v := w.(models := w.models[m := w.models[m].(active := true)]);
      if w.models[m].current == None then v else SetActiveWorkspace(v, w.models[m].current)
  }

  predicate CanAssign(w: World, x: WorkspaceId, target: Option<ModelId>, i: nat) {
    && CanActivate(w, x)
    && (target.Some? ==> CanActivateScreen(w, target.value) && i <= |w.models[target.value].list|)
  }

  /** The workspace has left its model and names the new one. */
  function Unlisted(w: World, x: WorkspaceId, target: Option<ModelId>): World
    requires CanActivate(w, x)
  {
    var ws := w.workspaces[x];
    w.(workspaces := w.workspaces[x := ws.(model := target)],
       models := if ws.model.Some? then w.models[ws.model.value := Removed(w.models[ws.model.value], x)] else w.models)
  }

  function RowInserted(w: World, m: ModelId, i: nat, x: WorkspaceId): World
    requires m in w.models && i <= |w.models[m].list|
  {
    w.(models := w.models[m := w.models[m].(list := InsertAt(w.models[m].list, i, x))])
  }

  /** The screen hears of the row: for the active workspace it first becomes active itself. */
  function ScreenHears(w: World, m: ModelId, x: WorkspaceId): World
    requires x in w.workspaces && CanActivateScreen(w, m)
  {
    var active := w.workspaces[x].active;
    var v := if active then ActivateScreen(w, m) else w;
    v.(models := v.models[m := v.models[m].(current := CurrentAfterInsert(v.models[m].current, x, active))])
  }

  /** `i` is the index asked for, or the row count when none was given. */
  function Assign(w: World, x: WorkspaceId, target: Option<ModelId>, i: nat): World
    requires CanAssign(w, x, target, i)
  {
    if w.workspaces[x].model == target then w
    else
      var u := Unlisted(w, x, target);
      if target == None then u
      else
        var v := ScreenHears(RowInserted(u, target.value, i, x), target.value, x);
        v.(models := Claimed(v.models, x))
  }

  predicate CanCreate(w: World, x: WorkspaceId, h: Handle) {
    x !in w.workspaces && !IsLive(w.policy, h) && h !in w.policy.content
  }

  function Added(w: World, x: WorkspaceId, h: Handle): World
    requires CanCreate(w, x, h)
  {
    w.(all := w.all + {x}, workspaces := w.workspaces[x := Workspace(h, None, false)],
       policy := PolicyCreate(w.policy, h))
  }

  function Create(w: World, x: WorkspaceId, h: Handle): World
    requires CanCreate(w, x, h)
  {
    var v := Added(w, x, h);
    if |v.all| == 1 then SetActiveWorkspace(v, Some(x)) else v
  }

  predicate CanDelete(w: World, x: WorkspaceId, heir: WorkspaceId) {
    && x in w.all
    && CanAssign(w, x, None, 0)
    && (w.all != {x} ==> heir in w.all && heir != x && CanActivate(w, heir))
  }

  /** First the workspace leaves its model and the manager's set. */
  function Dropped(w: World, x: WorkspaceId): World
    requires CanAssign(w, x, None, 0)
  {
    var u := Assign(w, x, None, 0);
    u.(all := u.all - {x})
  }

  /** Then somebody else becomes active if it was. */
  function Succeeded(w: World, x: WorkspaceId, heir: WorkspaceId): World
    requires CanDelete(w, x, heir)
  {
    var v := Dropped(w, x);
    if v.active != Some(x) then v else SetActiveWorkspace(v, if v.all == {} then None else Some(heir))
  }

  /** The manager lets go of a workspace: `heir` becomes active if it was, and the active workspace gets its windows. */
  function Destroy(w: World, x: WorkspaceId, heir: WorkspaceId, surfaceManager: bool): World
    requires CanDelete(w, x, heir)
  {
    var r := Succeeded(w, x, heir);
    if r.active.Some? && r.active.value in r.workspaces && surfaceManager then
      r.(policy := MoveContent(r.policy, r.workspaces[r.active.value].handle, r.workspaces[x].handle))
    else r
  }

  /** The destructor: the manager and the policy let go, then every model hears that the object is gone. */
  function Delete(w: World, x: WorkspaceId, heir: WorkspaceId, surfaceManager: bool): World
    requires CanDelete(w, x, heir)
  {
    var r := Destroy(w, x, heir, surfaceManager);
    World(r.all, r.active, r.workspaces - {x}, Claimed(r.models, x), PolicyRelease(r.policy, r.workspaces[x].handle))
  }

  // ---------- invariants ----------

  ghost predicate Linked(w: World) {
    && (forall m <- w.models :: NoDuplicates(w.models[m].list))
    && (forall m <- w.models, x <- w.models[m].list :: x in w.workspaces && w.workspaces[x].model == Some(m))
    && (forall x <- w.workspaces | w.workspaces[x].model.Some? ::
          w.workspaces[x].model.value in w.models && x in w.models[w.workspaces[x].model.value].list)
    && (forall m <- w.models, x <- w.models[m].unassigned :: x in w.workspaces && w.workspaces[x].model == None)
  }

  predicate CurrentFits(m: Model) {
    match m.current
    case None => m.list == []
    case Some(x) => x in m.list
  }

  ghost predicate Currents(w: World) {
    forall m <- w.models :: CurrentFits(w.models[m])
  }

  /** The manager's active workspace, the flags of the workspaces and the policy's active handle agree. */
  ghost predicate ActiveAgrees(w: World) {
    && (forall x <- w.workspaces :: w.workspaces[x].active <==> w.active == Some(x))
    && (match w.active
        case None => w.all == {} && w.policy.active == w.policy.dummy
        case Some(x) => x in w.all && x in w.workspaces && w.policy.active == w.workspaces[x].handle)
  }

  /** The policy knows exactly the handles of the workspaces, each once. */
  ghost predicate HandlesAgree(w: World) {
    && (forall x, y | x in w.workspaces && y in w.workspaces && x != y ::
          w.workspaces[x].handle != w.workspaces[y].handle)
    && (forall x <- w.workspaces :: w.workspaces[x].handle in w.policy.workspaces)
    && (forall h <- w.policy.workspaces :: exists x :: x in w.workspaces && w.workspaces[x].handle == h)
    && (forall h <- w.policy.workspaces :: h in w.policy.content)
  }

  ghost predicate Valid(w: World) {
    && w.all == w.workspaces.Keys
    && Linked(w)
    && Currents(w)
    && ActiveAgrees(w)
    && HandlesAgree(w)
    && PolicyValid(w.policy)
  }

  // ---------- every operation keeps the invariants ----------

  lemma RemovedFits(m: Model, x: WorkspaceId)
    requires NoDuplicates(m.list) && CurrentFits(m)
    ensures CurrentFits(Removed(m, x)) && NoDuplicates(Removed(m, x).list)
    ensures forall y :: y in Removed(m, x).list <==> y in m.list && y != x
    ensures Removed(m, x).unassigned <= m.unassigned + {x}
  {
    if x in m.list {
      RemoveMembers(m.list, IndexOf(m.list, x));
    }
  }

  lemma InsertedFits(m: Model, i: nat, x: WorkspaceId, active: bool)
    requires i <= |m.list| && NoDuplicates(m.list) && x !in m.list && CurrentFits(m)
    ensures var l := InsertAt(m.list, i, x);
            && NoDuplicates(l) && (forall y :: y in l <==> y in m.list || y == x)
            && CurrentFits(m.(list := l, current := CurrentAfterInsert(m.current, x, active)))
  {
    InsertMembers(m.list, i, x);
  }

  /** Taking a workspace out of the model that lists it. */
  lemma UnassignKeepsLinks(w: World, x: WorkspaceId)
    requires Linked(w) && Currents(w) && CanAssign(w, x, None, 0)
    ensures Linked(Assign(w, x, None, 0)) && Currents(Assign(w, x, None, 0))
  {
    hide Removed, NoDuplicates, CurrentFits, IndexOf;
    var ws := w.workspaces[x];
    if ws.model.Some? {
      RemovedFits(w.models[ws.model.value], x);
    }
  }

  /** Whatever a screen does on hearing of a row, lists and memberships stay. */
  lemma ScreenHearsTables(w: World, m: ModelId, x: WorkspaceId)
    requires x in w.workspaces && CanActivateScreen(w, m)
    ensures var v := ScreenHears(w, m, x);
            && v.all == w.all && v.policy == w.policy.(active := v.policy.active)
            && v.workspaces.Keys == w.workspaces.Keys && v.models.Keys == w.models.Keys
            && (forall k <- w.models ::
                  v.models[k].list == w.models[k].list && v.models[k].unassigned == w.models[k].unassigned)
            && (forall y <- w.workspaces ::
                  v.workspaces[y].handle == w.workspaces[y].handle && v.workspaces[y].model == w.workspaces[y].model)
  {
  }

  /** The workspace that the screen activates on hearing of a row, if any: its old current one. */
  function Displacer(w: World, m: ModelId, x: WorkspaceId): Option<WorkspaceId>
    requires x in w.workspaces && m in w.models
  {
    if w.workspaces[x].active && !w.models[m].active then w.models[m].current else None
  }

  /** A current workspace belongs to its screen's model. */
  predicate OwnCurrent(w: World, m: ModelId) {
    && m in w.models
    && (w.models[m].current.Some? ==>
          w.models[m].current.value in w.workspaces && w.workspaces[w.models[m].current.value].model == Some(m))
  }

  lemma ScreenHearsCurrents(w: World, m: ModelId, x: WorkspaceId)
    requires x in w.workspaces && CanActivateScreen(w, m) && OwnCurrent(w, m)
    ensures var v, d := ScreenHears(w, m, x), Displacer(w, m, x);
            && v.models.Keys == w.models.Keys
            && (forall k <- w.models | k != m :: v.models[k] == w.models[k])
            && v.models[m].current == CurrentAfterInsert(w.models[m].current, x, w.workspaces[x].active)
            && v.models[m].active == (w.models[m].active || w.workspaces[x].active)
            && v.active == (if d.Some? then d else w.active)
            && (d == None ==> v.workspaces == w.workspaces && v.policy == w.policy)
  {
  }

  lemma ScreenHearsAgrees(w: World, m: ModelId, x: WorkspaceId)
    requires x in w.workspaces && CanActivateScreen(w, m) && OwnCurrent(w, m)
    requires ActiveAgrees(w) && w.all == w.workspaces.Keys
    ensures ActiveAgrees(ScreenHears(w, m, x))
  {
    var d := Displacer(w, m, x);
    if d.Some? {
      SetActiveAgrees(w.(models := w.models[m := w.models[m].(active := true)]), d.value);
    } else {
      ScreenHearsCurrents(w, m, x);
    }
  }

  /** The row is in, the workspace names its model, and nobody has heard of it yet. */
  function Enlisting(w: World, x: WorkspaceId, m: ModelId, i: nat): World
    requires CanAssign(w, x, Some(m), i) && w.workspaces[x].model == None
  {
    RowInserted(Unlisted(w, x, Some(m)), m, i, x)
  }

  lemma EnlistingReady(w: World, x: WorkspaceId, m: ModelId, i: nat)
    requires Linked(w) && Currents(w) && CanAssign(w, x, Some(m), i) && w.workspaces[x].model == None
    ensures var r := Enlisting(w, x, m, i);
            && x in r.workspaces && CanActivateScreen(r, m) && OwnCurrent(r, m)
            && Displacer(r, m, x) == Displacer(w, m, x)
            && Assign(w, x, Some(m), i)
               == ScreenHears(r, m, x).(models := Claimed(ScreenHears(r, m, x).models, x))
  {
    assert CurrentFits(w.models[m]);
  }

  /** What a model looks like once a workspace that no model listed was put into model `m`. */
  lemma EnlistedModel(w: World, x: WorkspaceId, m: ModelId, i: nat, k: ModelId)
    requires Linked(w) && Currents(w) && CanAssign(w, x, Some(m), i) && w.workspaces[x].model == None && k in w.models
    ensures var v := Assign(w, x, Some(m), i);
            && v.models.Keys == w.models.Keys
            && v.models[k].unassigned == w.models[k].unassigned - {x}
            && (k != m ==> v.models[k].list == w.models[k].list && v.models[k].current == w.models[k].current)
            && (k == m ==>
                  && v.models[k].list == InsertAt(w.models[m].list, i, x)
                  && v.models[k].current == CurrentAfterInsert(w.models[m].current, x, w.workspaces[x].active)
                  && v.models[k].active == (w.models[m].active || w.workspaces[x].active))
  {
    hide ScreenHears, Linked, Currents, Assign, OwnCurrent;
    var r := Enlisting(w, x, m, i);
    EnlistingReady(w, x, m, i);
    ScreenHearsTables(r, m, x);
    ScreenHearsCurrents(r, m, x);
  }

  /** Who belongs where, and who is active, once a workspace that no model listed was put into model `m`. */
  lemma EnlistedWorld(w: World, x: WorkspaceId, m: ModelId, i: nat)
    requires Linked(w) && Currents(w) && CanAssign(w, x, Some(m), i) && w.workspaces[x].model == None
    ensures var v, d := Assign(w, x, Some(m), i), Displacer(w, m, x);
            && v.all == w.all && v.policy == w.policy.(active := v.policy.active)
            && v.workspaces.Keys == w.workspaces.Keys && v.models.Keys == w.models.Keys
            && (forall y <- w.workspaces ::
                  && v.workspaces[y].handle == w.workspaces[y].handle
                  && v.workspaces[y].model == if y == x then Some(m) else w.workspaces[y].model)
            && v.active == (if d.Some? then d else w.active)
            && (d == None ==> v.policy == w.policy)
  {
    hide ScreenHears, Linked, Currents, Assign, OwnCurrent;
    var r := Enlisting(w, x, m, i);
    EnlistingReady(w, x, m, i);
    ScreenHearsTables(r, m, x);
    ScreenHearsCurrents(r, m, x);
  }

  /** The rows of a model once a workspace that no model listed was put into model `m`. */
  lemma EnlistedRows(w: World, x: WorkspaceId, m: ModelId, i: nat, k: ModelId)
    requires Linked(w) && Currents(w) && CanAssign(w, x, Some(m), i) && w.workspaces[x].model == None && k in w.models
    ensures var v := Assign(w, x, Some(m), i);
            && k in v.models && v.models[k].unassigned == w.models[k].unassigned - {x}
            && NoDuplicates(v.models[k].list) && CurrentFits(v.models[k])
            && (forall y :: y in v.models[k].list <==> y in w.models[k].list || (k == m && y == x))
  {
    hide NoDuplicates, InsertAt, Assign;
    InsertedFits(w.models[m], i, x, w.workspaces[x].active);
    EnlistedModel(w, x, m, i, k);
  }

  /** Putting a workspace that no model lists into a model. */
  lemma EnlistKeepsLinks(w: World, x: WorkspaceId, m: ModelId, i: nat)
    requires Linked(w) && Currents(w) && CanAssign(w, x, Some(m), i) && w.workspaces[x].model == None
    ensures Linked(Assign(w, x, Some(m), i)) && Currents(Assign(w, x, Some(m), i))
  {
    hide NoDuplicates, InsertAt, Assign, CurrentFits;
    var v := Assign(w, x, Some(m), i);
    EnlistedWorld(w, x, m, i);
    forall k <- w.models
      ensures NoDuplicates(v.models[k].list) && CurrentFits(v.models[k])
      ensures forall y :: y in v.models[k].list <==> y in w.models[k].list || (k == m && y == x)
      ensures v.models[k].unassigned == w.models[k].unassigned - {x}
    {
      EnlistedRows(w, x, m, i, k);
    }
  }

  lemma EnlistAgrees(w: World, x: WorkspaceId, m: ModelId, i: nat)
    requires Linked(w) && Currents(w) && CanAssign(w, x, Some(m), i) && w.workspaces[x].model == None
    requires ActiveAgrees(w) && w.all == w.workspaces.Keys
    ensures ActiveAgrees(Assign(w, x, Some(m), i))
  {
    hide ScreenHears, Linked, Currents, Assign, OwnCurrent;
    var r := Enlisting(w, x, m, i);
    EnlistingReady(w, x, m, i);
    assert ActiveAgrees(r);
    ScreenHearsAgrees(r, m, x);
  }

  /** Assigning to another model is unassigning first. */
  lemma AssignInTwoSteps(w: World, x: WorkspaceId, m: ModelId, i: nat)
    requires Linked(w) && CanAssign(w, x, Some(m), i) && w.workspaces[x].model != Some(m)
    ensures var u := Assign(w, x, None, 0);
            && CanAssign(u, x, Some(m), i) && u.workspaces[x].model == None
            && Assign(w, x, Some(m), i) == Assign(u, x, Some(m), i)
            && u.models[m] == w.models[m] && u.workspaces[x].active == w.workspaces[x].active
  {
    hide ScreenHears;
    var u := Assign(w, x, None, 0);
    assert Unlisted(u, x, Some(m)) == Unlisted(w, x, Some(m));
  }

  lemma UnassignOthers(w: World, x: WorkspaceId)
    requires CanActivate(w, x)
    ensures var u := Assign(w, x, None, 0);
            && u.all == w.all && u.active == w.active && u.policy == w.policy
            && u.workspaces.Keys == w.workspaces.Keys && u.models.Keys == w.models.Keys
            && (forall y <- w.workspaces :: u.workspaces[y] == w.workspaces[y].(model := u.workspaces[y].model))
  {
  }

  lemma UnassignKeepsValid(w: World, x: WorkspaceId)
    requires Valid(w) && CanActivate(w, x)
    ensures Valid(Assign(w, x, None, 0))
  {
    hide Assign, Linked, Currents, PolicyValid;
    UnassignKeepsLinks(w, x);
    UnassignOthers(w, x);
    SameHandles(w, Assign(w, x, None, 0));
  }

  lemma EnlistKeepsValid(w: World, x: WorkspaceId, m: ModelId, i: nat)
    requires Valid(w) && CanAssign(w, x, Some(m), i) && w.workspaces[x].model == None
    ensures Valid(Assign(w, x, Some(m), i))
  {
    hide Assign, Linked, Currents;
    EnlistKeepsLinks(w, x, m, i);
    EnlistedWorld(w, x, m, i);
    EnlistAgrees(w, x, m, i);
    SameHandles(w, Assign(w, x, Some(m), i));
  }

  lemma AssignKeepsValid(w: World, x: WorkspaceId, target: Option<ModelId>, i: nat)
    requires Valid(w) && CanAssign(w, x, target, i)
    ensures Valid(Assign(w, x, target, i))
  {
    hide Assign, Valid;
    if w.workspaces[x].model == target {
      AssignNothing(w, x, target, i);
    } else {
      UnassignKeepsValid(w, x);
      if target.Some? {
        ValidLinks(w);
        AssignInTwoSteps(w, x, target.value, i);
        EnlistKeepsValid(Assign(w, x, None, 0), x, target.value, i);
      } else {
        UnassignIndex(w, x, i);
      }
    }
  }

  lemma ValidLinks(w: World)
    requires Valid(w)
    ensures Linked(w) && Currents(w)
  {
  }

  lemma AssignNothing(w: World, x: WorkspaceId, target: Option<ModelId>, i: nat)
    requires CanAssign(w, x, target, i) && w.workspaces[x].model == target
    ensures Assign(w, x, target, i) == w
  {
  }

  lemma UnassignIndex(w: World, x: WorkspaceId, i: nat)
    requires CanActivate(w, x)
    ensures Assign(w, x, None, i) == Assign(w, x, None, 0)
  {
  }

  /**
   A workspace that is assigned stays active if it was, unless it comes to an inactive screen
   that has a current workspace: then that one becomes active.
   */
  lemma AssignActive(w: World, x: WorkspaceId, target: Option<ModelId>, i: nat)
    requires Valid(w) && CanAssign(w, x, target, i) && w.workspaces[x].model != target
    ensures var v := Assign(w, x, target, i);
            var d := if target.Some? then Displacer(w, target.value, x) else None;
            && v.active == (if d.Some? then d else w.active)
            && (d.Some? ==> w.active == Some(x) && d != Some(x))
            && v.all == w.all && v.policy == w.policy.(active := v.policy.active)
            && (d == None ==> v.policy == w.policy)
            && v.workspaces.Keys == w.workspaces.Keys && v.models.Keys == w.models.Keys
            && (forall y <- w.workspaces :: v.workspaces[y].handle == w.workspaces[y].handle)
  {
    hide Assign, Valid;
    UnassignOthers(w, x);
    UnassignIndex(w, x, i);
    if target.Some? {
      ValidLinks(w);
      UnassignKeepsLinks(w, x);
      AssignInTwoSteps(w, x, target.value, i);
      EnlistedWorld(Assign(w, x, None, 0), x, target.value, i);
      DisplacerIsAnother(w, x, target.value);
    }
  }

  lemma DisplacerIsAnother(w: World, x: WorkspaceId, m: ModelId)
    requires Valid(w) && x in w.workspaces && m in w.models && w.workspaces[x].model != Some(m)
    ensures Displacer(w, m, x) != Some(x)
    ensures Displacer(w, m, x).Some? ==> w.active == Some(x)
  {
    assert CurrentFits(w.models[m]);
  }

  /** Two screens with a workspace each; the active one has the windows. */
  function TwoScreens(windows: set<WindowId>): World {
    World({0, 1}, Some(0),
          map[0 := Workspace(10, Some(0), true), 1 := Workspace(11, Some(1), false)],
          map[0 := Model([0], {}, Some(0), true), 1 := Model([1], {}, Some(1), false)],
          Policy({10, 11}, 9, 10, map[10 := windows, 11 := {}]))
  }

  lemma TwoScreensValid(windows: set<WindowId>)
    ensures Valid(TwoScreens(windows))
  {
    var w := TwoScreens(windows);
    assert w.workspaces[0].handle == 10 && w.workspaces[1].handle == 11;
    assert CurrentFits(w.models[0]) && CurrentFits(w.models[1]);
  }

  /** Moved to the inactive screen it is not active any more, the old current one of its new screen is. */
  lemma MovedAwayFromActive()
    ensures var w := TwoScreens({});
            && Valid(w) && CanAssign(w, 0, Some(1), 0)
            && w.active == Some(0) && Assign(w, 0, Some(1), 0).active == Some(1)
            && Assign(w, 0, Some(1), 0).models[1].current == Some(0)
  {
    hide Valid, Assign;
    var w := TwoScreens({});
    TwoScreensValid({});
    ValidLinks(w);
    AssignActive(w, 0, Some(1), 0);
    UnassignKeepsLinks(w, 0);
    AssignInTwoSteps(w, 0, 1, 0);
    EnlistedModel(Assign(w, 0, None, 0), 0, 1, 0, 1);
  }

  lemma SameHandles(w: World, v: World)
    requires HandlesAgree(w)
    requires v.policy.workspaces == w.policy.workspaces && w.policy.content.Keys <= v.policy.content.Keys
    requires v.workspaces.Keys == w.workspaces.Keys
    requires forall y <- w.workspaces :: v.workspaces[y].handle == w.workspaces[y].handle
    ensures HandlesAgree(v)
  {
    forall h <- v.policy.workspaces ensures exists x :: x in v.workspaces && v.workspaces[x].handle == h {
      var x :| x in w.workspaces && w.workspaces[x].handle == h;
      assert v.workspaces[x].handle == h;
    }
  }

  /** Links depend only on who lists whom: new workspaces must be free, and so must those that go. */
  lemma LinksFrame(w: World, v: World)
    requires Linked(w)
    requires v.models.Keys == w.models.Keys
    requires forall k <- w.models ::
               v.models[k].list == w.models[k].list && v.models[k].unassigned <= w.models[k].unassigned
    requires forall y <- v.workspaces ::
               v.workspaces[y].model == if y in w.workspaces then w.workspaces[y].model else None
    requires forall y <- w.workspaces | y !in v.workspaces :: w.workspaces[y].model == None
    requires forall k <- v.models, y <- v.models[k].unassigned :: y in v.workspaces
    ensures Linked(v)
  {
  }

  lemma CurrentsFrame(w: World, v: World)
    requires Currents(w)
    requires v.models.Keys == w.models.Keys
    requires forall k <- w.models :: v.models[k].list == w.models[k].list
    requires forall k <- w.models :: v.models[k].current == w.models[k].current
               || (v.models[k].current.Some? && v.models[k].current.value in w.models[k].list)
    ensures Currents(v)
  {
  }

  lemma SetActiveLinks(w: World, x: Option<WorkspaceId>)
    requires Linked(w) && Currents(w)
    requires x.Some? ==> CanActivate(w, x.value)
    ensures Linked(SetActiveWorkspace(w, x)) && Currents(SetActiveWorkspace(w, x))
  {
    SetActiveTables(w, x);
    LinksFrame(w, SetActiveWorkspace(w, x));
    CurrentsFrame(w, SetActiveWorkspace(w, x));
  }

  lemma SetActiveTables(w: World, x: Option<WorkspaceId>)
    requires x.Some? ==> CanActivate(w, x.value)
    ensures var v := SetActiveWorkspace(w, x);
            && v.all == w.all && v.active == x && v.policy == w.policy.(active := v.policy.active)
            && v.workspaces.Keys == w.workspaces.Keys && v.models.Keys == w.models.Keys
            && (forall k <- w.models ::
                  v.models[k].list == w.models[k].list && v.models[k].unassigned == w.models[k].unassigned)
            && (forall k <- w.models :: v.models[k].current == w.models[k].current
                  || (x.Some? && w.workspaces[x.value].model == Some(k) && v.models[k].current == x))
            && (forall y <- w.workspaces ::
                  v.workspaces[y].handle == w.workspaces[y].handle && v.workspaces[y].model == w.workspaces[y].model)
  {
  }

  /** Activation makes flags, manager and policy agree, even just after a workspace came or while one goes. */
  lemma SetActiveAgrees(w: World, x: WorkspaceId)
    requires CanActivate(w, x) && x in w.all
    requires forall y <- w.workspaces :: w.workspaces[y].active <==> w.active == Some(y)
    requires w.active == Some(x) ==> w.policy.active == w.workspaces[x].handle
    ensures ActiveAgrees(SetActiveWorkspace(w, Some(x)))
    ensures SetActiveWorkspace(w, Some(x)).policy == w.policy.(active := w.workspaces[x].handle)
  {
  }

  lemma SetActiveKeepsValid(w: World, x: WorkspaceId)
    requires Valid(w) && x in w.all
    ensures Valid(SetActiveWorkspace(w, Some(x)))
    ensures SetActiveWorkspace(w, Some(x)).active == Some(x)
  {
    var v := SetActiveWorkspace(w, Some(x));
    SetActiveLinks(w, Some(x));
    SetActiveTables(w, Some(x));
    SetActiveAgrees(w, x);
    SameHandles(w, v);
  }

  lemma ActivateScreenKeepsValid(w: World, m: ModelId)
    requires Valid(w) && m in w.models
    ensures CanActivateScreen(w, m) && Valid(ActivateScreen(w, m))
    ensures ActivateScreen(w, m).active
            == if w.models[m].active || w.models[m].current == None then w.active else w.models[m].current
  {
    assert CurrentFits(w.models[m]);
    var v := w.(models := w.models[m := w.models[m].(active := true)]);
    FlagKeepsValid(w, m, true);
    if w.models[m].current.Some? {
      SetActiveKeepsValid(v, w.models[m].current.value);
    }
  }

  /** Whether a screen is active is no part of the invariant. */
  lemma FlagKeepsValid(w: World, m: ModelId, active: bool)
    requires Valid(w) && m in w.models
    ensures Valid(w.(models := w.models[m := w.models[m].(active := active)]))
  {
    hide HandlesAgree, PolicyValid, NoDuplicates;
    var v := w.(models := w.models[m := w.models[m].(active := active)]);
    LinksFrame(w, v);
    CurrentsFrame(w, v);
    SameHandles(w, v);
  }

  lemma AddedValid(w: World, x: WorkspaceId, h: Handle)
    requires Valid(w) && CanCreate(w, x, h)
    ensures var v := Added(w, x, h);
            && v.all == v.workspaces.Keys && Linked(v) && Currents(v) && HandlesAgree(v) && PolicyValid(v.policy)
            && (forall y <- v.workspaces :: v.workspaces[y].active <==> v.active == Some(y))
  {
    hide HandlesAgree, PolicyValid, NoDuplicates;
    AddedHandles(w, x, h);
    LinksFrame(w, Added(w, x, h));
  }

  lemma FirstWorkspace(all: set<WorkspaceId>, x: WorkspaceId)
    requires x !in all
    ensures |all + {x}| == 1 <==> all == {}
  {
    if all != {} {
      var y :| y in all;
      assert all + {x} == {x, y} + (all + {x} - {x, y});
    } else {
      assert all + {x} == {x};
    }
  }

  lemma AddedHandles(w: World, x: WorkspaceId, h: Handle)
    requires HandlesAgree(w) && PolicyValid(w.policy) && CanCreate(w, x, h)
    ensures HandlesAgree(Added(w, x, h)) && PolicyValid(Added(w, x, h).policy)
  {
    var v := Added(w, x, h);
    forall k <- v.policy.workspaces ensures exists y :: y in v.workspaces && v.workspaces[y].handle == k {
      if k == h {
        assert v.workspaces[x].handle == k;
      } else {
        var y :| y in w.workspaces && w.workspaces[y].handle == k;
        assert v.workspaces[y].handle == k;
      }
    }
  }

  lemma CreateKeepsValid(w: World, x: WorkspaceId, h: Handle)
    requires Valid(w) && CanCreate(w, x, h)
    ensures Valid(Create(w, x, h))
  {
    var v := Added(w, x, h);
    AddedValid(w, x, h);
    FirstWorkspace(w.all, x);
    if w.all == {} {
      FirstCreated(v, x);
    }
  }

  lemma FirstCreated(v: World, x: WorkspaceId)
    requires v.all == v.workspaces.Keys && Linked(v) && Currents(v) && HandlesAgree(v) && PolicyValid(v.policy)
    requires forall y <- v.workspaces :: v.workspaces[y].active <==> v.active == Some(y)
    requires x in v.all && v.active != Some(x)
    ensures Valid(SetActiveWorkspace(v, Some(x)))
  {
    SetActiveLinks(v, Some(x));
    SetActiveTables(v, Some(x));
    SetActiveAgrees(v, x);
    SameHandles(v, SetActiveWorkspace(v, Some(x)));
  }

  // ---------- deletion ----------

  lemma DroppedMeaning(w: World, x: WorkspaceId)
    requires Valid(w) && x in w.all
    ensures var v := Dropped(w, x);
            && Linked(v) && Currents(v)
            && v.workspaces.Keys == w.workspaces.Keys && v.models.Keys == w.models.Keys
            && v.all == w.all - {x} && v.active == w.active && v.policy == w.policy
            && v.workspaces[x].model == None
            && (forall y <- w.workspaces :: v.workspaces[y].handle == w.workspaces[y].handle
                                            && v.workspaces[y].active == w.workspaces[y].active)
  {
    hide HandlesAgree, PolicyValid, NoDuplicates;
    UnassignKeepsLinks(w, x);
    LinksFrame(Assign(w, x, None, 0), Dropped(w, x));
  }

  lemma StillActivatable(w: World, x: WorkspaceId)
    requires Linked(w) && x in w.workspaces
    ensures CanActivate(w, x)
  {
  }

  lemma SucceededMeaning(w: World, x: WorkspaceId, heir: WorkspaceId)
    requires Valid(w) && CanDelete(w, x, heir)
    ensures var r := Succeeded(w, x, heir);
            && Linked(r) && Currents(r)
            && r.workspaces.Keys == w.workspaces.Keys && r.models.Keys == w.models.Keys
            && r.all == w.all - {x} && r.workspaces[x].model == None
            && (forall y <- w.workspaces :: r.workspaces[y].handle == w.workspaces[y].handle)
            && r.policy == w.policy.(active := r.policy.active)
  {
    hide Currents, Linked, Dropped, SetActiveWorkspace;
    var v := Dropped(w, x);
    DroppedMeaning(w, x);
    if v.active == Some(x) {
      if w.all != {x} {
        StillActivatable(v, heir);
      }
      var next := if v.all == {} then None else Some(heir);
      SetActiveLinks(v, next);
      SetActiveTables(v, next);
    }
  }

  lemma SucceededActive(w: World, x: WorkspaceId, heir: WorkspaceId)
    requires Valid(w) && CanDelete(w, x, heir)
    ensures var r := Succeeded(w, x, heir);
            && r.active == (if w.active != Some(x) then w.active else if w.all == {x} then None else Some(heir))
            && (forall y <- r.workspaces :: r.workspaces[y].active <==> r.active == Some(y))
            && (match r.active case None => true
                case Some(y) => y in r.all && y in r.workspaces && r.policy.active == r.workspaces[y].handle)
  {
    hide Linked, Currents, HandlesAgree, Dropped;
    var v := Dropped(w, x);
    DroppedMeaning(w, x);
    SucceededMeaning(w, x, heir);
    if v.active == Some(x) && v.all != {} {
      SetActiveAgrees(v, heir);
    }
  }

  lemma DeletedLinks(r: World, v: World, x: WorkspaceId)
    requires Linked(r) && Currents(r) && x in r.workspaces && r.workspaces[x].model == None
    requires v.workspaces == r.workspaces - {x} && v.models == Claimed(r.models, x)
    ensures Linked(v) && Currents(v)
  {
    assert forall k <- r.models :: v.models[k].list == r.models[k].list && v.models[k].current == r.models[k].current
                                   && v.models[k].unassigned == r.models[k].unassigned - {x};
    LinksFrame(r, v);
    CurrentsFrame(r, v);
  }

  lemma DeleteKeepsValid(w: World, x: WorkspaceId, heir: WorkspaceId, surfaceManager: bool)
    requires Valid(w) && CanDelete(w, x, heir)
    ensures Valid(Delete(w, x, heir, surfaceManager))
  {
    var r, v := Succeeded(w, x, heir), Delete(w, x, heir, surfaceManager);
    SucceededMeaning(w, x, heir);
    SucceededActive(w, x, heir);
    DeletedHandles(w, Destroy(w, x, heir, surfaceManager), x);
    DeletedLinks(r, v, x);
    DeletedActive(w, x, heir, surfaceManager);
  }

  /** Letting go of a workspace changes the policy's contents and nothing else of what `Succeeded` left. */
  lemma DestroyedTables(w: World, x: WorkspaceId, heir: WorkspaceId, surfaceManager: bool)
    requires CanDelete(w, x, heir) && x in Succeeded(w, x, heir).workspaces
    ensures var r, d := Succeeded(w, x, heir), Destroy(w, x, heir, surfaceManager);
            && d == r.(policy := d.policy) && d.policy.workspaces == r.policy.workspaces
            && d.policy.dummy == r.policy.dummy && d.policy.active == r.policy.active
            && r.policy.content.Keys <= d.policy.content.Keys
  {
    hide Succeeded;
  }

  lemma DeletedActive(w: World, x: WorkspaceId, heir: WorkspaceId, surfaceManager: bool)
    requires Valid(w) && CanDelete(w, x, heir)
    ensures ActiveAgrees(Delete(w, x, heir, surfaceManager))
    ensures PolicyValid(Delete(w, x, heir, surfaceManager).policy)
  {
    hide Succeeded, Destroy, PolicyRelease, Linked, Currents;
    var d, v := Destroy(w, x, heir, surfaceManager), Delete(w, x, heir, surfaceManager);
    SucceededMeaning(w, x, heir);
    SucceededActive(w, x, heir);
    DestroyedTables(w, x, heir, surfaceManager);
    DeletedHandles(w, d, x);
    ReleasedPolicy(d.policy, d.workspaces[x].handle);
    if w.all != {x} {
      var y := d.active.value;
      assert v.workspaces[y].handle in v.policy.workspaces;
    }
  }

  lemma ReleasedPolicy(p: Policy, h: Handle)
    ensures var q := PolicyRelease(p, h);
            && q.workspaces == p.workspaces - {h} && q.dummy == p.dummy
            && p.content.Keys <= q.content.Keys
            && q.active == if q.workspaces == {} then q.dummy else p.active
  {
  }

  lemma DeletedHandles(w: World, r: World, x: WorkspaceId)
    requires HandlesAgree(w) && PolicyValid(w.policy) && x in w.workspaces
    requires r.workspaces.Keys == w.workspaces.Keys
    requires forall y <- w.workspaces :: r.workspaces[y].handle == w.workspaces[y].handle
    requires r.policy.workspaces == w.policy.workspaces && r.policy.dummy == w.policy.dummy
    requires w.policy.content.Keys <= r.policy.content.Keys
    ensures var p := PolicyRelease(r.policy, r.workspaces[x].handle);
            && HandlesAgree(r.(workspaces := r.workspaces - {x}, policy := p))
            && (p.workspaces == {} <==> w.workspaces.Keys == {x})
  {
    hide PolicyRelease;
    var h := r.workspaces[x].handle;
    var p := PolicyRelease(r.policy, h);
    ReleasedPolicy(r.policy, h);
    var ws := r.workspaces - {x};
    assert p.workspaces == w.policy.workspaces - {h};
    forall k <- p.workspaces ensures exists y :: y in ws && ws[y].handle == k {
      var y :| y in w.workspaces && w.workspaces[y].handle == k;
      assert y != x && ws[y].handle == k;
    }
    if w.workspaces.Keys != {x} {
      var y :| y in w.workspaces && y != x;
      assert w.workspaces[y].handle in p.workspaces;
    }
  }

  /**
   Deleting a workspace loses no window exactly when a surface manager is there to move its
   windows, or it has none, or it is the last one and the policy takes them back.
   */
  lemma DeleteKeepsWindowsIff(w: World, x: WorkspaceId, heir: WorkspaceId, surfaceManager: bool, arrived: set<WindowId>)
    requires Valid(w) && CanDelete(w, x, heir) && WindowsKept(w.policy, arrived)
    ensures WindowsKept(Delete(w, x, heir, surfaceManager).policy, arrived)
            <==> surfaceManager || w.all == {x} || Content(w.policy, w.workspaces[x].handle) == {}
  {
    hide Linked, Currents;
    var q, r := Succeeded(w, x, heir), Destroy(w, x, heir, surfaceManager);
    var h := w.workspaces[x].handle;
    SucceededMeaning(w, x, heir);
    SucceededActive(w, x, heir);
    DeletedHandles(w, r, x);
    WindowsIgnoreActive(w.policy, q.policy, arrived);
    if w.all != {x} && surfaceManager {
      var to := q.workspaces[q.active.value].handle;
      MoveMeaning(q.policy, to, h, h);
      MoveKeepsWindows(q.policy, arrived, to, h);
    }
    ReleaseKeepsWindowsIff(r.policy, arrived, h);
  }

  /** An input: without a surface manager the window of the first of two workspaces is lost with it. */
  lemma DeleteLosesWindow()
    ensures var w := TwoScreens({7});
            && Valid(w) && CanDelete(w, 0, 1) && WindowsKept(w.policy, {7})
            && !WindowsKept(Delete(w, 0, 1, false).policy, {7})
  {
    hide Valid, Delete;
    var w := TwoScreens({7});
    TwoScreensValid({7});
    assert IsLive(w.policy, 10) && 7 in Content(w.policy, 10);
    assert w.all != {0} by {
      assert 1 in w.all;
    }
    DeleteKeepsWindowsIff(w, 0, 1, false, {7});
  }

  lemma WindowsIgnoreActive(p: Policy, q: Policy, arrived: set<WindowId>)
    requires WindowsKept(p, arrived)
    requires q == p.(active := q.active)
    ensures WindowsKept(q, arrived)
    ensures forall h :: Content(q, h) == Content(p, h)
  {
    forall h ensures Content(q, h) == Content(p, h) && (IsLive(q, h) <==> IsLive(p, h)) {}
    forall win <- arrived ensures exists h :: IsLive(q, h) && win in Content(q, h) {
      var h :| IsLive(p, h) && win in Content(p, h);
      assert win in Content(q, h);
    }
  }
}
