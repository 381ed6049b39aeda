/**
 The synchronisation of all screens, one after the other. A workspace that was dragged to
 another screen's proxies is still listed, or parked, on its old screen when that one has
 its turn, and is deleted then unless its new screen has claimed it before.
 */
module ScreensSyncSpec {
  import opened Wrappers
  import opened WorkspaceSpec
  import opened WorkspaceSync

  /** A screen's turn: its model and what its proxies point at. */
  datatype Turn = Turn(model: ModelId, targets: seq<WorkspaceId>)

  /** Each screen has one turn, and each proxy is in one list and points at a workspace of its own. */
  ghost predicate Arranged(w: World, turns: seq<Turn>) {
    && (forall i | 0 <= i < |turns| ::
          turns[i].model in w.models && NoDuplicates(turns[i].targets) && AllLive(w, turns[i].targets))
    && (forall i, j | 0 <= i < |turns| && 0 <= j < |turns| && i != j ::
          turns[i].model != turns[j].model && Elements(turns[i].targets) !! Elements(turns[j].targets))
  }

  predicate AllLive(w: World, targets: seq<WorkspaceId>) {
    forall x <- targets :: x in w.workspaces
  }

  /** What a model lists or has unassigned, and would delete when left over. */
  function Held(w: World, m: ModelId): set<WorkspaceId> {
    if m in w.models then Elements(w.models[m].list) + w.models[m].unassigned else {}
  }

  function Listed(w: World, m: ModelId): seq<WorkspaceId> {
    if m in w.models then w.models[m].list else []
  }

  /** No workspace goes to a screen whose turn comes after that of the screen that holds it. */
  ghost predicate NoneMovesLater(w: World, turns: seq<Turn>, n: nat)
    requires n <= |turns|
  {
    forall a, b, x | 0 <= a < b < n && x in turns[b].targets :: x !in Held(w, turns[a].model)
  }

  /** The list a screen should end with: its proxies' list, or one workspace that is new. */
  predicate ListFor(w: World, turn: Turn, l: seq<WorkspaceId>) {
    if turn.targets != [] then l == turn.targets else |l| == 1 && l[0] !in w.workspaces
  }

  ghost predicate ListsRight(w: World, turns: seq<Turn>, n: nat, v: World)
    requires n <= |turns|
  {
    forall a | 0 <= a < n :: turns[a].model in v.models && ListFor(w, turns[a], v.models[turns[a].model].list)
  }

  /** No screen that had one of the first `n` turns held the workspace. */
  ghost predicate NeverHeld(w: World, turns: seq<Turn>, n: nat, x: WorkspaceId)
    requires n <= |turns|
  {
    forall a | 0 <= a < n :: x !in Held(w, turns[a].model)
  }

  /** A target whose turn is still to come lives exactly as long as no screen that held it has had its turn. */
  ghost predicate SpareTargets(w: World, turns: seq<Turn>, n: nat, v: World)
    requires n <= |turns|
  {
    forall b, x | n <= b < |turns| && x in turns[b].targets ::
      x in v.workspaces <==> NeverHeld(w, turns, n, x)
  }

  /** A screen whose turn is still to come holds what it held at first, as far as that is alive. */
  ghost predicate StillHeld(w: World, turns: seq<Turn>, n: nat, v: World)
    requires n <= |turns|
  {
    forall a, b, x | n <= a < |turns| && n <= b < |turns| && x in turns[b].targets && x in v.workspaces ::
      x in Held(v, turns[a].model) <==> x in Held(w, turns[a].model)
  }

  /** After the first `n` turns. */
  ghost predicate Midway(w: World, turns: seq<Turn>, n: nat, v: World)
    requires n <= |turns|
  {
    && v.models.Keys == w.models.Keys
    && ListsRight(w, turns, n, v) && SpareTargets(w, turns, n, v) && StillHeld(w, turns, n, v)
    && NoneMovesLater(w, turns, n)
  }

  /** The id of a workspace that a turn creates was not there at first. */
  ghost predicate NewIds(w: World, before: World, after: World) {
    forall x <- after.workspaces | x !in before.workspaces :: x !in w.workspaces
  }

  /** A turn that finds its targets alive does what a synchronisation of its model promises. */
  ghost predicate Takes(before: World, turn: Turn, after: World) {
    turn.model in before.models && after.models.Keys == before.models.Keys
    && SyncedLists(before, turn.model, turn.targets, after)
  }

  /** What a turn does to another screen's target. */
  lemma OtherTarget(w: World, turns: seq<Turn>, n: nat, before: World, after: World, b: nat, x: WorkspaceId)
    requires Arranged(w, turns) && n < b < |turns| && x in turns[b].targets
    requires Takes(before, turns[n], after) && NewIds(w, before, after)
    ensures x in after.workspaces <==> x in before.workspaces && x !in Held(before, turns[n].model)
    ensures forall a | n < a < |turns| && x in after.workspaces ::
              x in Held(after, turns[a].model) <==> x in Held(before, turns[a].model)
  {
    hide NoDuplicates;
    var m, targets := turns[n].model, turns[n].targets;
    assert x in Elements(turns[b].targets) && x !in Elements(targets);
    assert x in w.workspaces;
    if targets == [] {
      assert after.models[m].list[0] !in before.workspaces;
    }
    forall a | n < a < |turns| && x in after.workspaces
      ensures x in Held(after, turns[a].model) <==> x in Held(before, turns[a].model)
    {
      if turns[a].model in before.models {
        KeepMembers(before.models[turns[a].model].list, Elements(targets), false);
      }
    }
  }

  lemma TurnLists(w: World, turns: seq<Turn>, n: nat, before: World, after: World)
    requires Arranged(w, turns) && n < |turns| && ListsRight(w, turns, n, before)
    requires Takes(before, turns[n], after) && NewIds(w, before, after)
    ensures ListsRight(w, turns, n + 1, after)
  {
    hide NoDuplicates;
    var m, targets := turns[n].model, turns[n].targets;
    if targets == [] {
      var x := after.models[m].list[0];
      assert x in Elements(after.models[m].list);
      assert x in after.workspaces;
    }
    forall a | 0 <= a < n
      ensures turns[a].model in after.models && ListFor(w, turns[a], after.models[turns[a].model].list)
    {
      RightListApart(w, turns, a, n, before.models[turns[a].model].list);
      KeepAll(before.models[turns[a].model].list, Elements(targets), false);
    }
  }

  lemma RightListApart(w: World, turns: seq<Turn>, a: nat, n: nat, l: seq<WorkspaceId>)
    requires Arranged(w, turns) && a < |turns| && n < |turns| && a != n && ListFor(w, turns[a], l)
    ensures forall x <- l :: x !in Elements(turns[n].targets)
  {
    if turns[a].targets == [] {
      assert AllLive(w, turns[n].targets);
    } else {
      assert forall x <- l :: x in Elements(turns[a].targets);
    }
  }

  /** A turn whose targets are alive takes a run from midway to midway. */
  lemma TurnKeepsMidway(w: World, turns: seq<Turn>, n: nat, before: World, after: World)
    requires Arranged(w, turns) && n < |turns| && Midway(w, turns, n, before)
    requires AllLive(before, turns[n].targets) && Takes(before, turns[n], after) && NewIds(w, before, after)
    ensures Midway(w, turns, n + 1, after)
  {
    hide Arranged, Takes, NewIds, ListFor, Held;
    TurnLists(w, turns, n, before, after);
    forall b, x | n < b < |turns| && x in turns[b].targets
      ensures x in after.workspaces <==> NeverHeld(w, turns, n + 1, x)
      ensures forall a | n < a < |turns| && x in after.workspaces ::
                x in Held(after, turns[a].model) <==> x in Held(w, turns[a].model)
    {
      OtherTarget(w, turns, n, before, after, b, x);
      assert NeverHeld(w, turns, n + 1, x) <==> NeverHeld(w, turns, n, x) && x !in Held(w, turns[n].model);
    }
    LiveUnmoved(w, turns, n, before);
    assert NoneMovesLater(w, turns, n + 1);
    assert after.models.Keys == before.models.Keys by {
      SameModels(before, turns[n], after);
    }
  }

  lemma SameModels(before: World, turn: Turn, after: World)
    requires Takes(before, turn, after)
    ensures after.models.Keys == before.models.Keys
  {
  }

  /** The targets of the next turn are alive exactly when none of them was held by a screen that had its turn. */
  lemma LiveUnmoved(w: World, turns: seq<Turn>, n: nat, before: World)
    requires n < |turns| && SpareTargets(w, turns, n, before)
    ensures AllLive(before, turns[n].targets)
            <==> forall x <- turns[n].targets :: NeverHeld(w, turns, n, x)
  {
  }

  /** What a turn needs to know of the run before it; a target that is gone is one that moves later. */
  lemma MidwayNow(w: World, turns: seq<Turn>, n: nat, before: World)
    requires Arranged(w, turns) && n < |turns| && Midway(w, turns, n, before) && Valid(before)
    ensures turns[n].model in before.models && NoDuplicates(turns[n].targets)
    ensures before.all == before.workspaces.Keys
    ensures AllLive(before, turns[n].targets) || !NoneMovesLater(w, turns, |turns|)
  {
    hide Held, AllLive;
    LiveUnmoved(w, turns, n, before);
  }

  lemma MidwayEnds(w: World, turns: seq<Turn>, v: World)
    requires Midway(w, turns, |turns|, v)
    ensures NoneMovesLater(w, turns, |turns|) && ListsRight(w, turns, |turns|, v)
  {
  }

  /** Created ids are at least `next`, which no id reached at first. */
  lemma SyncTakes(w: World, turn: Turn, before: World, after: World, next: WorkspaceId)
    requires turn.model in before.models && Synced(before, turn.model, turn.targets, after)
    requires forall x <- w.workspaces :: x < next
    requires forall x <- after.models[turn.model].list :: x in turn.targets || next <= x
    ensures Takes(before, turn, after) && NewIds(w, before, after)
  {
    hide Valid, SyncedActive;
  }

  /** `worlds` are the worlds between turns; a turn that does not find its targets may do anything. */
  ghost predicate Run(turns: seq<Turn>, worlds: seq<World>) {
    && |worlds| == |turns| + 1
    && (forall n | 0 <= n < |turns| && AllLive(worlds[n], turns[n].targets) ::
          Takes(worlds[n], turns[n], worlds[n + 1]) && NewIds(worlds[0], worlds[n], worlds[n + 1]))
  }

  lemma MidwayBegins(w: World, turns: seq<Turn>)
    requires Arranged(w, turns)
    ensures Midway(w, turns, 0, w)
  {
    hide Held;
    forall b, x | 0 <= b < |turns| && x in turns[b].targets ensures x in w.workspaces {
      assert AllLive(w, turns[b].targets);
    }
  }

  lemma {:induction false} MidwayThere(turns: seq<Turn>, worlds: seq<World>, n: nat)
    requires Run(turns, worlds) && Arranged(worlds[0], turns) && n <= |turns|
    requires forall k | 0 <= k < n :: AllLive(worlds[k], turns[k].targets)
    ensures Midway(worlds[0], turns, n, worlds[n])
  {
    hide Arranged, Takes, NewIds, Held, AllLive;
    if n == 0 {
      MidwayBegins(worlds[0], turns);
    } else {
      MidwayThere(turns, worlds, n - 1);
      TurnKeepsMidway(worlds[0], turns, n - 1, worlds[n - 1], worlds[n]);
    }
  }

  /**
   The synchronisation of all screens finds every workspace it needs, and leaves every
   screen with its proxies' list, exactly when no workspace goes to a screen whose turn comes
   after that of the screen that holds it.
   */
  lemma SyncAllIff(turns: seq<Turn>, worlds: seq<World>)
    requires Run(turns, worlds) && Arranged(worlds[0], turns)
    ensures (forall n | 0 <= n < |turns| :: AllLive(worlds[n], turns[n].targets))
            <==> NoneMovesLater(worlds[0], turns, |turns|)
    ensures NoneMovesLater(worlds[0], turns, |turns|) ==> ListsRight(worlds[0], turns, |turns|, worlds[|turns|])
  {
    hide Arranged, Takes, NewIds, Held, AllLive;
    if NoneMovesLater(worlds[0], turns, |turns|) {
      AllFound(turns, worlds, |turns|);
    }
    if forall n | 0 <= n < |turns| :: AllLive(worlds[n], turns[n].targets) {
      MidwayThere(turns, worlds, |turns|);
    }
  }

  lemma {:induction false} AllFound(turns: seq<Turn>, worlds: seq<World>, n: nat)
    requires Run(turns, worlds) && Arranged(worlds[0], turns) && n <= |turns|
    requires NoneMovesLater(worlds[0], turns, |turns|)
    ensures forall k | 0 <= k < n :: AllLive(worlds[k], turns[k].targets)
  {
    hide Arranged, Takes, NewIds, Held, AllLive;
    if n > 0 {
      AllFound(turns, worlds, n - 1);
      MidwayThere(turns, worlds, n - 1);
      LiveUnmoved(worlds[0], turns, n - 1, worlds[n - 1]);
    }
  }

  /**
   A workspace that is listed by the screen of turn `a` and goes to that of turn `b` is alive
   after `n` turns exactly when its old screen is still to come or its new one came first.
   */
  lemma SurvivesIff(turns: seq<Turn>, worlds: seq<World>, n: nat, a: nat, b: nat, x: WorkspaceId)
    requires Run(turns, worlds) && Arranged(worlds[0], turns) && n <= |turns| && Valid(worlds[0]) && Valid(worlds[n])
    requires forall k | 0 <= k < n :: AllLive(worlds[k], turns[k].targets)
    requires a < |turns| && b < |turns| && a != b
    requires x in Listed(worlds[0], turns[a].model) && x in turns[b].targets
    ensures x in worlds[n].workspaces <==> n <= a || b < a
  {
    hide Arranged, Takes, NewIds, Held, AllLive, Valid;
    MidwayThere(turns, worlds, n);
    HeldOnce(worlds[0], turns, a, x);
    if b < n {
      ListedLive(worlds[n], turns[b].model, x);
    }
  }

  lemma HeldOnce(w: World, turns: seq<Turn>, a: nat, x: WorkspaceId)
    requires Valid(w) && Arranged(w, turns) && a < |turns| && x in Listed(w, turns[a].model)
    ensures forall c | 0 <= c < |turns| :: x in Held(w, turns[c].model) <==> c == a
  {
    hide Valid;
    forall c | 0 <= c < |turns| ensures x in Held(w, turns[c].model) <==> c == a {
      HolderKnown(w, turns[a].model, x);
      HolderKnown(w, turns[c].model, x);
    }
  }

  lemma HolderKnown(w: World, m: ModelId, x: WorkspaceId)
    requires Valid(w) && m in w.models
    ensures x in w.models[m].list ==> x in w.workspaces && w.workspaces[x].model == Some(m)
    ensures x in w.models[m].unassigned ==> x in w.workspaces && w.workspaces[x].model == None
  {
  }

  lemma ListedLive(w: World, m: ModelId, x: WorkspaceId)
    requires Valid(w) && x in Listed(w, m)
    ensures x in w.workspaces
  {
  }

  /** An input: the active workspace of the first of two screens is dragged to the second and deleted on the way. */
  lemma LaterScreenLoses(after: World)
    requires Takes(TwoScreens({}), Turn(0, []), after)
    ensures var turns := [Turn(0, []), Turn(1, [0, 1])];
            && Valid(TwoScreens({})) && Arranged(TwoScreens({}), turns)
            && !NoneMovesLater(TwoScreens({}), turns, 2) && !AllLive(after, turns[1].targets)
  {
    hide Valid;
    var w, turns := TwoScreens({}), [Turn(0, []), Turn(1, [0, 1])];
    TwoScreensValid({});
    assert 0 in turns[1].targets && 0 in w.models[0].list && 0 in Held(w, turns[0].model);
    assert after.models[0].list[0] !in w.workspaces;
    assert 0 in LeftOver(w, 0, []);
    assert 0 !in after.workspaces;
  }
}
