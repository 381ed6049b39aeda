/**
 The stack of nested menu models. Each entry above the first remembers at which row of
 the model below it was opened; rows that come and go shift that index or cut the stack.
 */
module MenuStackSpec {
  import opened Wrappers

  type ModelId = nat
  type RowId = nat

  datatype Entry = Entry(model: ModelId, parent: Option<ModelId>, index: int)

  function AfterInsert(e: Entry, m: ModelId, start: nat, k: nat): Entry {
    if e.parent == Some(m) && start <= e.index then e.(index := e.index + k) else e
  }

  /** The row the entry was opened at is among the rows removed. */
  predicate IsHit(e: Entry, m: ModelId, start: nat, k: nat) {
    e.parent == Some(m) && start <= e.index && start + k > e.index
  }

  function AfterRemove(e: Entry, m: ModelId, start: nat, k: nat): Entry {
    if e.parent == Some(m) && start + k <= e.index then e.(index := e.index - k) else e
  }

  function AllAfterInsert(es: seq<Entry>, m: ModelId, start: nat, k: nat): seq<Entry> {
    seq(|es|, i requires 0 <= i < |es| => AfterInsert(es[i], m, start, k))
  }

  /** The lowest entry that is hit; |es| when there is none. */
  function LowestHit(es: seq<Entry>, m: ModelId, start: nat, k: nat): (c: nat)
    ensures c <= |es|
    ensures forall i :: 0 <= i < c ==> !IsHit(es[i], m, start, k)
    ensures c < |es| ==> IsHit(es[c], m, start, k)
  {
    if es == [] || IsHit(es[0], m, start, k) then 0 else 1 + LowestHit(es[1..], m, start, k)
  }

  function LowestChild(es: seq<Entry>, m: ModelId): (c: nat)
    ensures c <= |es|
    ensures forall i :: 0 <= i < c ==> es[i].parent != Some(m)
    ensures c < |es| ==> es[c].parent == Some(m)
  {
    if es == [] || es[0].parent == Some(m) then 0 else 1 + LowestChild(es[1..], m)
  }

  function AllAfterRemove(es: seq<Entry>, m: ModelId, start: nat, k: nat): seq<Entry> {
    var c := LowestHit(es, m, start, k);
    seq(c, i requires 0 <= i < c => AfterRemove(es[i], m, start, k))
  }

  // ---------- what the indices mean ----------

  type Rows = map<ModelId, seq<RowId>>

  function InsertedRows(l: seq<RowId>, start: nat, added: seq<RowId>): seq<RowId>
    requires start <= |l|
  {
    l[..start] + added + l[start..]
  }

  function RemovedRows(l: seq<RowId>, start: nat, k: nat): seq<RowId>
    requires start + k <= |l|
  {
    l[..start] + l[start + k..]
  }

  /** The entry points at the row it was opened at, when it was opened at an existing row. */
  predicate Names(e: Entry, rows: Rows, row: Option<RowId>) {
    row.Some? ==>
      e.parent.Some? && e.parent.value in rows && 0 <= e.index < |rows[e.parent.value]|
      && rows[e.parent.value][e.index] == row.value
  }

  function Below(es: seq<Entry>, i: nat): Option<ModelId>
    requires i <= |es|
  {
    if i == 0 then None else Some(es[i - 1].model)
  }

  /** Each entry was opened from the one below, and all of them still point at their rows. */
  ghost predicate Tracks(es: seq<Entry>, rows: Rows, named: seq<Option<RowId>>) {
    && |named| == |es|
    && (forall i {:trigger Below(es, i)} :: 0 <= i < |es| ==> es[i].parent == Below(es, i))
    && (forall i :: 0 <= i < |es| ==> Names(es[i], rows, named[i]))
  }

  lemma InsertKeepsName(e: Entry, rows: Rows, row: Option<RowId>, m: ModelId, start: nat, added: seq<RowId>)
    requires Names(e, rows, row) && m in rows && start <= |rows[m]|
    ensures Names(AfterInsert(e, m, start, |added|), rows[m := InsertedRows(rows[m], start, added)], row)
  {
  }

  /** A removal either takes the named row away or leaves the entry pointing at it. */
  lemma RemoveKeepsName(e: Entry, rows: Rows, row: Option<RowId>, m: ModelId, start: nat, k: nat)
    requires Names(e, rows, row) && m in rows && start + k <= |rows[m]|
    ensures !IsHit(e, m, start, k) ==>
              Names(AfterRemove(e, m, start, k), rows[m := RemovedRows(rows[m], start, k)], row)
  {
  }

  /** Under an insertion every entry still points at its row: those at or below the new rows move down by as many. */
  lemma InsertKeepsTrack(es: seq<Entry>, rows: Rows, named: seq<Option<RowId>>, m: ModelId, start: nat,
                         added: seq<RowId>)
    requires Tracks(es, rows, named) && m in rows && start <= |rows[m]|
    ensures Tracks(AllAfterInsert(es, m, start, |added|), rows[m := InsertedRows(rows[m], start, added)], named)
    ensures var now := AllAfterInsert(es, m, start, |added|);
            && |now| == |es|
            && forall i :: 0 <= i < |es| ==>
                 now[i] == es[i].(index := if es[i].parent == Some(m) && es[i].index >= start
                                           then es[i].index + |added| else es[i].index)
  {
    hide InsertedRows, Names;
    var shifted := AllAfterInsert(es, m, start, |added|);
    forall i | 0 <= i < |es|
      ensures shifted[i].parent == Below(shifted, i)
      ensures Names(shifted[i], rows[m := InsertedRows(rows[m], start, added)], named[i])
    {
      InsertKeepsName(es[i], rows, named[i], m, start, added);
      assert es[i].parent == Below(es, i);
    }
  }

  /** The entry was opened from model `m` at one of the rows `start` to `start + k - 1`. */
  predicate OpenedWithin(e: Entry, m: ModelId, start: int, k: int) {
    e.parent == Some(m) && start <= e.index < start + k
  }

  /** The row the entry was opened at is among the rows that are removed. */
  predicate RowGoes(row: Option<RowId>, l: seq<RowId>, start: nat, k: nat)
    requires start + k <= |l|
  {
    row.Some? ==> row.value in l[start..start + k]
  }

  /**
   After a removal the stack is cut exactly below the lowest entry that was opened at a removed
   row, and every entry that stays still points at its row: its index is less by the rows
   removed above it.
   */
  lemma RemoveKeepsTrack(es: seq<Entry>, rows: Rows, named: seq<Option<RowId>>, m: ModelId, start: nat, k: nat)
    requires Tracks(es, rows, named) && m in rows && start + k <= |rows[m]|
    ensures var left := AllAfterRemove(es, m, start, k);
            && Tracks(left, rows[m := RemovedRows(rows[m], start, k)], named[..|left|])
            && |left| <= |es|
            && (forall i :: 0 <= i < |left| ==>
                  !OpenedWithin(es[i], m, start, k)
                  && left[i] == es[i].(index := if es[i].parent == Some(m) && es[i].index >= start
                                                then es[i].index - k else es[i].index))
            && (|left| < |es| ==>
                  OpenedWithin(es[|left|], m, start, k) && RowGoes(named[|left|], rows[m], start, k))
  {
    hide RemovedRows;
    var left := AllAfterRemove(es, m, start, k);
    forall i | 0 <= i < |left|
      ensures left[i].parent == Below(left, i)
      ensures Names(left[i], rows[m := RemovedRows(rows[m], start, k)], named[i])
    {
      RemoveKeepsName(es[i], rows, named[i], m, start, k);
      assert es[i].parent == Below(es, i);
    }
  }

  lemma PrefixTracks(es: seq<Entry>, rows: Rows, named: seq<Option<RowId>>, n: nat)
    requires Tracks(es, rows, named) && n <= |es|
    ensures Tracks(es[..n], rows, named[..n])
  {
    assert forall i :: 0 <= i < n ==> Below(es[..n], i) == Below(es, i);
  }

  lemma PushTracks(es: seq<Entry>, rows: Rows, named: seq<Option<RowId>>, e: Entry, row: Option<RowId>)
    requires Tracks(es, rows, named) && Names(e, rows, row)
    requires e.parent == Below(es, |es|)
    ensures Tracks(es + [e], rows, named + [row])
  {
    assert forall i :: 0 <= i <= |es| ==> Below(es + [e], i) == Below(es, i);
  }

  /** After a reset the stack is cut below the lowest entry opened from that model; the others are unaffected. */
  lemma ResetKeepsTrack(es: seq<Entry>, rows: Rows, named: seq<Option<RowId>>, m: ModelId, now: seq<RowId>)
    requires Tracks(es, rows, named) && m in rows
    ensures var c := LowestChild(es, m);
            Tracks(es[..c], rows[m := now], named[..c])
  {
    var c := LowestChild(es, m);
    PrefixTracks(es, rows, named, c);
    forall i | 0 <= i < c ensures Names(es[i], rows[m := now], named[i]) {
      assert Names(es[i], rows, named[i]);
    }
  }
}

module MenuStacks {
  import opened Wrappers
  import opened MenuStackSpec

  class LomiriMenuModelStack {
    var menuModels: seq<Entry>
    // the rows of the menu models, which change on their own
    var rows: Rows
    // the row each entry was opened at
    ghost var named: seq<Option<RowId>>

    ghost predicate Valid()
      reads this
    {
      Tracks(menuModels, rows, named)
    }

    constructor (rows: Rows)
      ensures Valid() && menuModels == [] && this.rows == rows
    {
      menuModels, named := [], [];
      this.rows := rows;
    }

    method Head() returns (m: Option<ModelId>)
      ensures m == if menuModels == [] then None else Some(menuModels[0].model)
    {
      m := if menuModels != [] then Some(menuModels[0].model) else None;
    }

    method Tail() returns (m: Option<ModelId>)
      ensures m == if menuModels == [] then None else Some(menuModels[|menuModels| - 1].model)
    {
      m := if menuModels != [] then Some(menuModels[|menuModels| - 1].model) else None;
    }

    method SetHead(model: ModelId)
      requires Valid()
      modifies this`menuModels, this`named
      ensures Valid()
      ensures if old(menuModels) != [] && old(menuModels)[0].model == model then menuModels == old(menuModels)
              else menuModels == [Entry(model, None, 0)]
    {
      var head := Head();
      if head != Some(model) {
        menuModels, named := [], [];
        Push(model, 0);
      }
    }

    method Push(model: ModelId, index: int)
      requires Valid()
      modifies this`menuModels, this`named
      ensures Valid() && |menuModels| == |old(menuModels)| + 1 && menuModels[..|old(menuModels)|] == old(menuModels)
      ensures var e := menuModels[|old(menuModels)|];
              && e.model == model && e.index == index
              && e.parent == if old(menuModels) == [] then None else Some(old(menuModels)[|old(menuModels)| - 1].model)
      ensures named[..|old(menuModels)|] == old(named)
      ensures var e := menuModels[|old(menuModels)|];
              e.parent.Some? && e.parent.value in rows && 0 <= index < |rows[e.parent.value]|
              ==> named[|old(menuModels)|] == Some(rows[e.parent.value][index])
    {
      var tail := Tail();
      var entry := Entry(model, tail, index);
      ghost var row := if tail.Some? && tail.value in rows && 0 <= index < |rows[tail.value]|
                       then Some(rows[tail.value][index]) else None;
      PushTracks(menuModels, rows, named, entry, row);
      menuModels := menuModels + [entry];
      named := named + [row];
    }

    method Pop() returns (model: Option<ModelId>)
      requires Valid()
      modifies this`menuModels, this`named
      ensures Valid()
      ensures if old(menuModels) == [] then menuModels == [] && named == old(named) && model == None
              else
                var n := |old(menuModels)| - 1;
                && menuModels == old(menuModels)[..n] && named == old(named)[..n]
                && model == Some(old(menuModels)[n].model)
    {
      if menuModels == [] {
        return None;
      }
      var n := |menuModels| - 1;
      var entry := menuModels[n];
      PrefixTracks(menuModels, rows, named, n);
      menuModels, named := menuModels[..n], named[..n];
      return Some(entry.model);
    }

    /** Pops everything from the top down to the entry at `removed`, which goes too. */
    method OnRemove(removed: nat)
      requires |named| == |menuModels|
      modifies this`menuModels, this`named
      ensures removed < |old(menuModels)| ==> menuModels == old(menuModels)[..removed] && named == old(named)[..removed]
      ensures removed >= |old(menuModels)| ==> menuModels == old(menuModels) && named == old(named)
    {
      if removed >= |menuModels| {
        return;
      }
      var i := |menuModels| - 1;
      while i >= 0
        invariant removed <= i
        invariant menuModels == old(menuModels)[..i + 1] && named == old(named)[..i + 1]
      {
        menuModels, named := menuModels[..i], named[..i];
        if i == removed {
          break;
        }
        i := i - 1;
      }
    }

    /** Rows appear in a model; every entry opened from it hears of them. */
    method RowsInserted(m: ModelId, start: nat, added: seq<RowId>)
      requires Valid() && m in rows && start <= |rows[m]|
      modifies this`menuModels, this`rows
      ensures Valid() && named == old(named)
      ensures rows == old(rows)[m := InsertedRows(old(rows)[m], start, added)]
      ensures menuModels == AllAfterInsert(old(menuModels), m, start, |added|)
    {
      InsertKeepsTrack(menuModels, rows, named, m, start, added);
      rows := rows[m := InsertedRows(rows[m], start, added)];
      ghost var before := menuModels;
      for i := 0 to |menuModels|
        invariant |menuModels| == |before| && rows == old(rows)[m := InsertedRows(old(rows)[m], start, added)]
        invariant forall j :: 0 <= j < |before| ==>
                    menuModels[j] == if j < i then AfterInsert(before[j], m, start, |added|) else before[j]
      {
        if menuModels[i].parent == Some(m) {
          if start <= menuModels[i].index {
            menuModels := menuModels[i := menuModels[i].(index := menuModels[i].index + |added|)];
          }
        }
      }
      assert menuModels == AllAfterInsert(before, m, start, |added|);
    }

    /** Rows vanish from a model; entries opened from it hear of it bottom up, and a popped one is ignored. */
    method RowsRemoved(m: ModelId, start: nat, k: nat)
      requires Valid() && m in rows && start + k <= |rows[m]|
      modifies this
      ensures Valid()
      ensures rows == old(rows)[m := RemovedRows(old(rows)[m], start, k)]
      ensures menuModels == AllAfterRemove(old(menuModels), m, start, k)
      ensures named == old(named)[..|menuModels|]
    {
      RemoveKeepsTrack(menuModels, rows, named, m, start, k);
      rows := rows[m := RemovedRows(rows[m], start, k)];
      ghost var before, c := menuModels, LowestHit(menuModels, m, start, k);
      var n := |menuModels|;
      for i := 0 to n
        invariant rows == old(rows)[m := RemovedRows(old(rows)[m], start, k)]
        invariant |menuModels| == (if i <= c then n else c)
        invariant |named| == |menuModels| && named == old(named)[..|menuModels|]
        invariant forall j :: 0 <= j < |menuModels| ==>
                    menuModels[j] == if j < i then AfterRemove(before[j], m, start, k) else before[j]
      {
        if i < |menuModels| && menuModels[i].parent == Some(m) {
          if start <= menuModels[i].index {
            if start + k > menuModels[i].index {
              OnRemove(i);
            } else {
              menuModels := menuModels[i := menuModels[i].(index := menuModels[i].index - k)];
            }
          }
        }
      }
      assert menuModels == AllAfterRemove(before, m, start, k);
    }

    /** A model is reset, its rows replaced; the stack is cut below the lowest entry opened from it. */
    method ModelReset(m: ModelId, now: seq<RowId>)
      requires Valid() && m in rows
      modifies this
      ensures Valid() && rows == old(rows)[m := now]
      ensures menuModels == old(menuModels)[..LowestChild(old(menuModels), m)]
      ensures named == old(named)[..|menuModels|]
    {
      ghost var before, c := menuModels, LowestChild(menuModels, m);
      ResetKeepsTrack(menuModels, rows, named, m, now);
      rows := rows[m := now];
      var n := |menuModels|;
      for i := 0 to n
        invariant rows == old(rows)[m := now] && |menuModels| == (if i <= c then n else c)
        invariant menuModels == before[..|menuModels|] && named == old(named)[..|menuModels|]
      {
        if i < |menuModels| && menuModels[i].parent == Some(m) {
          OnRemove(i);
        }
      }
    }
  }
}
