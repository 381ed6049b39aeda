/**
 The proxy model of a screen: a list of proxies that mirrors the changes of the original
 list, that a user reorders, takes from and adds to on its own, and that a synchronisation
 makes the original's list. A proxy list is given by the workspaces its proxies point at.
 */
module WorkspaceMirrorSpec {
  import opened WorkspaceSpec
  import opened WorkspaceSync
  import opened WorkspaceEffects

  /** What the original model announces. */
  datatype Change =
    | Inserted(index: nat, workspace: WorkspaceId)
    | Removed(workspace: WorkspaceId)
    | Moved(from: nat, to: nat)

  /** What can happen to the original list. */
  predicate Possible(l: seq<WorkspaceId>, c: Change) {
    match c
    case Inserted(index, x) => index <= |l| && x !in l
    case Removed(x) => x in l
    case Moved(from, to) => from < |l| && to < |l|
  }

  function Changed(l: seq<WorkspaceId>, c: Change): seq<WorkspaceId>
    requires Possible(l, c)
  {
    match c
    case Inserted(index, x) => InsertAt(l, index, x)
    case Removed(x) => RemoveAt(l, IndexOf(l, x))
    case Moved(from, to) => MoveRow(l, from, to)
  }

  /** An insertion goes to the row that was announced, which the mirror has to have; the others look first. */
  predicate CanFollow(proxies: seq<WorkspaceId>, c: Change) {
    c.Inserted? ==> c.index <= |proxies|
  }

  function Mirrored(proxies: seq<WorkspaceId>, c: Change): seq<WorkspaceId>
    requires CanFollow(proxies, c)
  {
    match c
    case Inserted(index, x) => InsertAt(proxies, index, x)
    case Removed(x) => if x in proxies then RemoveAt(proxies, IndexOf(proxies, x)) else proxies
    case Moved(from, to) => MovedRow(proxies, from, to)
  }

  /** A move out of range is ignored. */
  function MovedRow(l: seq<WorkspaceId>, from: int, to: int): seq<WorkspaceId> {
    if 0 <= from < |l| && 0 <= to < |l| then MoveRow(l, from, to) else l
  }

  /** An original list and its mirror; `edited` and `shrunk`, by a proxy removed, since both were last the same. */
  datatype Pair = Pair(list: seq<WorkspaceId>, proxies: seq<WorkspaceId>, edited: bool, shrunk: bool)

  /**
   A user moves proxies, adds one for a new workspace at the end, drags one in from
   another screen to any row, and drags one out or closes it. `created` is the workspace a
   synchronisation creates when there would be none.
   */
  datatype Step =
    | OriginalChanges(change: Change)
    | ProxyMoved(from: int, to: int)
    | ProxyInserted(index: nat, workspace: WorkspaceId)
    | ProxyRemoved(index: nat)
    | Synchronised(created: WorkspaceId)

  /** What the surroundings promise. */
  ghost predicate Legal(s: Pair, step: Step) {
    match step
    case OriginalChanges(c) => Possible(s.list, c)
    case ProxyMoved(_, _) => true
    case ProxyInserted(index, _) => index <= |s.proxies|
    case ProxyRemoved(index) => index < |s.proxies|
    case Synchronised(_) => NoDuplicates(s.proxies)
  }

  /** The original inserts a row behind the end of its mirror. */
  predicate BehindEnd(s: Pair, step: Step) {
    step.OriginalChanges? && !CanFollow(s.proxies, step.change)
  }

  ghost function Next(s: Pair, step: Step): Pair
    requires Legal(s, step) && !BehindEnd(s, step)
  {
    match step
    case OriginalChanges(c) => s.(list := Changed(s.list, c), proxies := Mirrored(s.proxies, c))
    case ProxyMoved(from, to) => s.(proxies := MovedRow(s.proxies, from, to), edited := true)
    case ProxyInserted(index, x) => s.(proxies := InsertAt(s.proxies, index, x), edited := true)
    case ProxyRemoved(index) => s.(proxies := RemoveAt(s.proxies, index), edited := true, shrunk := true)
    case Synchronised(created) =>
      var rows := if s.proxies == [] then [created] else s.proxies;
      Pair(rows, rows, false, false)
  }

  /** Unedited the mirror is the original's list, and unless a proxy was removed it has every row of it. */
  ghost predicate Mirrors(s: Pair) {
    && NoDuplicates(s.list)
    && (!s.edited ==> s.proxies == s.list && !s.shrunk)
    && (!s.shrunk ==> forall x <- s.list :: x in s.proxies)
  }

  lemma {:induction false} SubsetLength(a: seq<WorkspaceId>, b: seq<WorkspaceId>)
    requires NoDuplicates(a) && forall x <- a :: x in b
    ensures |a| <= |b|
  {
    if a != [] {
      var x, rest := a[0], a[1..];
      var i := IndexOf(b, x);
      var others := RemoveAt(b, i);
      forall y <- rest ensures y in others {
        assert y != x && y in a;
        var j :| 0 <= j < |b| && b[j] == y;
        assert others[if j < i then j else j - 1] == y;
      }
      SubsetLength(rest, others);
    }
  }

  lemma ChangeMembers(l: seq<WorkspaceId>, c: Change)
    requires Possible(l, c) && NoDuplicates(l)
    ensures NoDuplicates(Changed(l, c))
    ensures forall y :: y in Changed(l, c) <==> if c.Inserted? then y in l || y == c.workspace
                                                else if c.Removed? then y in l && y != c.workspace
                                                else y in l
  {
    match c
    case Inserted(index, x) => InsertMembers(l, index, x);
    case Removed(x) => RemoveMembers(l, IndexOf(l, x));
    case Moved(from, to) => MoveMembers(l, from, to);
  }

  /** Taking one row out leaves all the other members. */
  lemma OthersStay(l: seq<WorkspaceId>, i: nat, y: WorkspaceId)
    requires i < |l| && y in l && y != l[i]
    ensures y in RemoveAt(l, i)
  {
    assert l == l[..i] + [l[i]] + l[i + 1..];
  }

  lemma RowsStay(l: seq<WorkspaceId>, from: int, to: int, y: WorkspaceId)
    requires y in l
    ensures y in MovedRow(l, from, to)
  {
    if 0 <= from < |l| && 0 <= to < |l| {
      InsertMembers(RemoveAt(l, from), to, l[from]);
      if y != l[from] {
        OthersStay(l, from, y);
      }
    }
  }

  lemma MirroredMembers(proxies: seq<WorkspaceId>, c: Change, y: WorkspaceId)
    requires CanFollow(proxies, c)
    requires (c.Inserted? && y == c.workspace) || (y in proxies && c != Removed(y))
    ensures y in Mirrored(proxies, c)
  {
    match c
    case Inserted(index, x) => InsertMembers(proxies, index, x);
    case Removed(x) =>
      if x in proxies {
        OthersStay(proxies, IndexOf(proxies, x), y);
      }
    case Moved(from, to) => RowsStay(proxies, from, to, y);
  }

  /** What a mirrored change does to any list of proxies, row by row. */
  lemma MirroredRows(proxies: seq<WorkspaceId>, c: Change)
    requires CanFollow(proxies, c)
    ensures var after := Mirrored(proxies, c);
            match c
            case Inserted(index, x) => RowCame(proxies, index, x, after)
            case Removed(x) =>
              if x in proxies then exists i | 0 <= i < |proxies| :: RowCame(after, i, x, proxies) && x !in proxies[..i]
              else after == proxies
            case Moved(from, to) =>
              if from < |proxies| && to < |proxies| then
                exists rest :: RowCame(rest, from, proxies[from], proxies) && RowCame(rest, to, proxies[from], after)
              else after == proxies
  {
    match c
    case Inserted(index, x) => InsertedRow(proxies, index, x);
    case Removed(x) =>
      if x in proxies {
        RemovedRow(proxies, IndexOf(proxies, x));
      }
    case Moved(from, to) =>
      if from < |proxies| && to < |proxies| {
        MovedRows(proxies, from, to);
      }
  }

  /** As long as no proxy was removed the mirror can follow every change the original can make. */
  lemma UnshrunkFollows(s: Pair, step: Step)
    requires Mirrors(s) && !s.shrunk && Legal(s, step)
    ensures !BehindEnd(s, step)
  {
    SubsetLength(s.list, s.proxies);
  }

  /** The mirror can follow every insertion there may be exactly when it is not shorter than the list. */
  lemma FollowsInsertionsIff(s: Pair)
    ensures (forall step :: Legal(s, step) ==> !BehindEnd(s, step)) <==> |s.list| <= |s.proxies|
  {
    if |s.list| > |s.proxies| {
      var x := Unlisted(s.list);
      assert Legal(s, OriginalChanges(Inserted(|s.list|, x)));
      assert BehindEnd(s, OriginalChanges(Inserted(|s.list|, x)));
    }
  }

  lemma {:induction false} Unlisted(l: seq<WorkspaceId>) returns (x: WorkspaceId)
    ensures forall y <- l :: y < x
  {
    if l == [] {
      x := 0;
    } else {
      var rest := Unlisted(l[1..]);
      x := if rest <= l[0] then l[0] + 1 else rest;
      assert l == [l[0]] + l[1..];
    }
  }

  /** Every change that is no insertion behind its end leaves the mirror one. */
  lemma StepKeepsMirror(s: Pair, step: Step)
    requires Mirrors(s) && Legal(s, step) && !BehindEnd(s, step)
    ensures Mirrors(Next(s, step))
  {
    var t := Next(s, step);
    if step.OriginalChanges? {
      ChangeMembers(s.list, step.change);
    }
    forall y <- t.list | !t.shrunk ensures y in t.proxies {
      match step
      case OriginalChanges(c) => MirroredMembers(s.proxies, c, y);
      case ProxyMoved(from, to) => RowsStay(s.proxies, from, to, y);
      case ProxyInserted(index, x) => InsertMembers(s.proxies, index, x);
      case Synchronised(_) =>
    }
  }

  /** The surroundings keep their promises for as long as the mirror can follow. */
  ghost predicate LegalRun(s: Pair, steps: seq<Step>)
    decreases steps
  {
    steps == [] ||
    (Legal(s, steps[0])
     && (!BehindEnd(s, steps[0]) ==> LegalRun(Next(s, steps[0]), steps[1..])))
  }

  ghost predicate NeverBehindEnd(s: Pair, steps: seq<Step>)
    requires LegalRun(s, steps)
    decreases steps
  {
    steps == [] || (!BehindEnd(s, steps[0]) && NeverBehindEnd(Next(s, steps[0]), steps[1..]))
  }

  /** Throughout a run the mirror is what it should be. */
  ghost predicate MirrorsThroughout(s: Pair, steps: seq<Step>)
    requires LegalRun(s, steps)
    decreases steps
  {
    Mirrors(s) && (steps == [] || (!BehindEnd(s, steps[0]) && MirrorsThroughout(Next(s, steps[0]), steps[1..])))
  }

  /** Over every run, whatever is edited when: only an insertion behind its end can make the mirror fail. */
  lemma {:induction false} MirrorFollowsIff(s: Pair, steps: seq<Step>)
    requires Mirrors(s) && LegalRun(s, steps)
    ensures MirrorsThroughout(s, steps) <==> NeverBehindEnd(s, steps)
    decreases steps
  {
    if steps != [] && !BehindEnd(s, steps[0]) {
      StepKeepsMirror(s, steps[0]);
      MirrorFollowsIff(Next(s, steps[0]), steps[1..]);
    }
  }

  /** Without a proxy removed there is no such insertion. */
  lemma {:induction false} MirrorFollows(s: Pair, steps: seq<Step>)
    requires Mirrors(s) && !s.shrunk && LegalRun(s, steps)
    requires forall step <- steps :: !step.ProxyRemoved?
    ensures MirrorsThroughout(s, steps)
    decreases steps
  {
    if steps != [] {
      UnshrunkFollows(s, steps[0]);
      StepKeepsMirror(s, steps[0]);
      assert forall step <- steps[1..] :: step in steps;
      MirrorFollows(Next(s, steps[0]), steps[1..]);
    }
  }

  /** The second of two proxies is removed, then the original gets a third row: the mirror has no row for it. */
  lemma RemovedProxyFallsBehind()
    ensures var s := Pair([1, 2], [1, 2], false, false);
            var steps := [ProxyRemoved(1), OriginalChanges(Inserted(2, 3))];
            Mirrors(s) && LegalRun(s, steps) && !MirrorsThroughout(s, steps)
  {
    var s := Pair([1, 2], [1, 2], false, false);
    var steps := [ProxyRemoved(1), OriginalChanges(Inserted(2, 3))];
    var t := Pair([1, 2], [1], true, true);
    assert Next(s, steps[0]) == t;
    assert Legal(t, steps[1]) && BehindEnd(t, steps[1]);
  }
}

/** The proxy model itself. */
module WorkspaceMirrors {
  import opened WorkspaceSpec
  import opened WorkspaceMirrorSpec

  class ProxyWorkspaceModel {
    // the workspaces its proxies point at
    var proxies: seq<WorkspaceId>
    // whether the screens of this proxy are being synchronised
    var syncing: bool

    constructor (list: seq<WorkspaceId>)
      ensures proxies == list && !syncing
    {
      proxies, syncing := [], false;
      new;
      for i := 0 to |list|
        invariant proxies == list[..i] && !syncing
      {
        proxies := proxies + [list[i]];
        assert list[..i + 1] == list[..i] + [list[i]];
      }
      assert list[..|list|] == list;
    }

    /** The row is not checked: `ok` says whether the list has it, as the list itself asserts. */
    method WorkspaceInserted(index: nat, x: WorkspaceId) returns (ok: bool)
      modifies this`proxies
      ensures ok <==> syncing || CanFollow(old(proxies), Inserted(index, x))
      ensures proxies == if syncing || !ok then old(proxies) else Mirrored(old(proxies), Inserted(index, x))
    {
      if syncing {
        return true;
      }
      ok := index <= |proxies|;
      if ok {
        proxies := InsertAt(proxies, index, x);
      }
    }

    /** Removes the first proxy that points at the workspace. */
    method WorkspaceRemoved(x: WorkspaceId)
      modifies this`proxies
      ensures proxies == if syncing then old(proxies) else Mirrored(old(proxies), Removed(x))
    {
      if syncing {
        return;
      }
      for i := 0 to |proxies|
        invariant proxies == old(proxies) && x !in proxies[..i]
      {
        if proxies[i] == x {
          assert IndexOf(proxies, x) == i;
          proxies := RemoveAt(proxies, i);
          return;
        }
      }
    }

    method WorkspaceMoved(from: int, to: int)
      modifies this`proxies
      ensures proxies == if syncing then old(proxies) else MovedRow(old(proxies), from, to)
    {
      if syncing {
        return;
      }
      Move(from, to);
    }

    /** Also what a user does who drags a proxy to another place. */
    method Move(from: int, to: int)
      modifies this`proxies
      ensures proxies == MovedRow(old(proxies), from, to)
    {
      if from == to {
        assert 0 <= from < |proxies| ==> MoveRow(proxies, from, from) == proxies;
        return;
      }
      if from >= 0 && from < |proxies| && to >= 0 && to < |proxies| {
        proxies := MoveRow(proxies, from, to);
      }
    }
  }
}
