/**
 The rows of the window stack: blocks of rows leave, raised surfaces come to the top, and
 an observer that replays the row notifications stays in step.
 */
module WindowRowSpec {
  import opened Wrappers

  type WindowId = nat
  type SurfaceId = nat
  type AppId = nat

  /** A row: a window, its surface if it has one, and its application. */
  datatype Row = Row(window: WindowId, surface: Option<SurfaceId>, app: AppId)

  /** No surface is shown in two rows. */
  ghost predicate UniqueSurfaces(rows: seq<Row>) {
    forall i, j :: 0 <= i < j < |rows| && rows[i].surface.Some? ==> rows[i].surface != rows[j].surface
  }

  /** The first row showing a surface; the row count when there is none. */
  function IndexOf(rows: seq<Row>, s: SurfaceId): (i: nat)
    ensures i <= |rows|
    ensures i < |rows| ==> rows[i].surface == Some(s)
    ensures forall j :: 0 <= j < i ==> rows[j].surface != Some(s)
  {
    if rows == [] || rows[0].surface == Some(s) then 0 else 1 + IndexOf(rows[1..], s)
  }

  predicate Shows(row: Row, ss: set<SurfaceId>) {
    row.surface.Some? && row.surface.value in ss
  }

  /** The rows whose surface is not listed, in order. */
  function Others(rows: seq<Row>, ss: set<SurfaceId>): seq<Row> {
    if rows == [] then []
    else if Shows(rows[0], ss) then Others(rows[1..], ss)
    else [rows[0]] + Others(rows[1..], ss)
  }

  function Listed(ss: seq<SurfaceId>): set<SurfaceId> {
    set s <- ss
  }

  ghost predicate Distinct(ss: seq<SurfaceId>) {
    forall i, j :: 0 <= i < j < |ss| ==> ss[i] != ss[j]
  }

  function RemoveRange(rows: seq<Row>, first: nat, last: int): seq<Row>
    requires first <= last + 1 <= |rows|
  {
    rows[..first] + rows[last + 1..]
  }

  function MoveRow(rows: seq<Row>, from: nat, to: nat): seq<Row>
    requires from < |rows| && to < |rows|
  {
    var rest := rows[..from] + rows[from + 1..];
    rest[..to] + [rows[from]] + rest[to..]
  }

  // ---------- the observer ----------

  datatype Notice =
    | RowsInserted(first: int, last: int)
    | RowsRemoved(first: int, last: int)
    | RowsMoved(first: int, last: int, before: int)

  predicate LegalNotice(rows: nat, n: Notice) {
    match n
    case RowsInserted(first, last) => 0 <= first <= rows && first <= last
    case RowsRemoved(first, last) => 0 <= first <= last < rows
    case RowsMoved(first, last, before) =>
      0 <= first <= last < rows && 0 <= before <= rows && !(first <= before <= last + 1)
  }

  /** A moved block goes in front of the row that had number `before` when the move was announced. */
  function Replayed(view: seq<Row>, n: Notice, current: seq<Row>): seq<Row>
    requires LegalNotice(|view|, n)
    requires n.RowsInserted? ==> n.last < |current|
  {
    match n
    case RowsInserted(first, last) => view[..first] + current[first..last + 1] + view[first..]
    case RowsRemoved(first, last) => view[..first] + view[last + 1..]
    case RowsMoved(first, last, before) =>
      if before < first then view[..before] + view[first..last + 1] + view[before..first] + view[last + 1..]
      else view[..first] + view[last + 1..before] + view[first..last + 1] + view[before..]
  }

  lemma MoveNotice(rows: seq<Row>, from: nat, to: nat)
    requires from < |rows| && to < |rows| && from != to
    ensures var n := RowsMoved(from, from, to + if to > from then 1 else 0);
            LegalNotice(|rows|, n) && Replayed(rows, n, MoveRow(rows, from, to)) == MoveRow(rows, from, to)
  {
    var rest, row := rows[..from] + rows[from + 1..], [rows[from]];
    assert rows[from..from + 1] == row;
    if to < from {
      assert rest[..to] == rows[..to] && rest[to..] == rows[to..from] + rows[from + 1..];
      Regroup(rows[..to], row, rows[to..from], rows[from + 1..]);
    } else {
      assert rest[..to] == rows[..from] + rows[from + 1..to + 1] && rest[to..] == rows[to + 1..];
    }
  }

  lemma Regroup(a: seq<Row>, b: seq<Row>, c: seq<Row>, d: seq<Row>)
    ensures a + b + (c + d) == a + b + c + d
  {
  }

  // ---------- removing listed surfaces ----------

  lemma {:induction false} OthersAppend(a: seq<Row>, b: seq<Row>, ss: set<SurfaceId>)
    ensures Others(a + b, ss) == Others(a, ss) + Others(b, ss)
  {
    if a == [] {
      assert a + b == b;
    } else {
      assert (a + b)[0] == a[0] && (a + b)[1..] == a[1..] + b;
      OthersAppend(a[1..], b, ss);
    }
  }

  lemma {:induction false} OthersAll(rows: seq<Row>, ss: set<SurfaceId>)
    requires forall r <- rows :: !Shows(r, ss)
    ensures Others(rows, ss) == rows
  {
    if rows != [] {
      OthersAll(rows[1..], ss);
    }
  }

  lemma {:induction false} OthersNone(rows: seq<Row>, ss: set<SurfaceId>)
    requires forall r <- rows :: Shows(r, ss)
    ensures Others(rows, ss) == []
  {
    if rows != [] {
      OthersNone(rows[1..], ss);
    }
  }

  lemma {:induction false} OthersTwice(rows: seq<Row>, ss: set<SurfaceId>, ts: set<SurfaceId>)
    ensures Others(Others(rows, ss), ts) == Others(rows, ss + ts)
  {
    if rows != [] {
      OthersTwice(rows[1..], ss, ts);
      var rest := Others(rows[1..], ss);
      if !Shows(rows[0], ss) {
        assert ([rows[0]] + rest)[0] == rows[0] && ([rows[0]] + rest)[1..] == rest;
      }
    }
  }

  lemma {:induction false} OthersMembers(rows: seq<Row>, ss: set<SurfaceId>)
    ensures forall r :: r in Others(rows, ss) <==> r in rows && !Shows(r, ss)
    ensures UniqueSurfaces(rows) ==> UniqueSurfaces(Others(rows, ss))
  {
    if rows != [] {
      assert rows == [rows[0]] + rows[1..];
      OthersMembers(rows[1..], ss);
      if UniqueSurfaces(rows) {
        assert UniqueSurfaces(rows[1..]);
        var rest := Others(rows[1..], ss);
        if rows[0].surface.Some? {
          forall j | 0 <= j < |rest| ensures rest[j].surface != rows[0].surface {
            assert rest[j] in rows[1..];
          }
        }
      }
    }
  }

  /** A block of adjacent rows that show consecutive surfaces of the list. */
  ghost predicate IsBlock(rows: seq<Row>, start: nat, block: seq<SurfaceId>) {
    && start + |block| <= |rows|
    && forall k :: 0 <= k < |block| ==> rows[start + k].surface == Some(block[k])
  }

  /** Taking out the rows of a block takes out exactly the rows that show its surfaces. */
  lemma BlockOut(rows: seq<Row>, start: nat, block: seq<SurfaceId>)
    requires UniqueSurfaces(rows) && block != [] && IsBlock(rows, start, block)
    ensures Others(rows, Listed(block)) == RemoveRange(rows, start, start + |block| - 1)
  {
    hide Others, UniqueSurfaces, Shows;
    var a, b, c := rows[..start], rows[start..start + |block|], rows[start + |block|..];
    assert rows == a + (b + c);
    OthersAppend(a, b + c, Listed(block));
    OthersAppend(b, c, Listed(block));
    forall r <- a + c ensures !Shows(r, Listed(block)) {
      OutsideBlock(rows, start, block, r);
    }
    InsideBlock(rows, start, block);
    OthersAll(a, Listed(block));
    OthersNone(b, Listed(block));
    OthersAll(c, Listed(block));
  }

  lemma InsideBlock(rows: seq<Row>, start: nat, block: seq<SurfaceId>)
    requires IsBlock(rows, start, block)
    ensures forall r <- rows[start..start + |block|] :: Shows(r, Listed(block))
  {
    forall r <- rows[start..start + |block|] ensures Shows(r, Listed(block)) {
      var k :| 0 <= k < |block| && rows[start..start + |block|][k] == r;
      assert rows[start + k].surface == Some(block[k]);
    }
  }

  lemma OutsideBlock(rows: seq<Row>, start: nat, block: seq<SurfaceId>, r: Row)
    requires UniqueSurfaces(rows) && IsBlock(rows, start, block)
    requires r in rows[..start] + rows[start + |block|..]
    ensures !Shows(r, Listed(block))
  {
    var rest := rows[..start] + rows[start + |block|..];
    var p :| 0 <= p < |rest| && rest[p] == r;
    var i := if p < start then p else p + |block|;
    forall k | 0 <= k < |block| ensures r.surface != Some(block[k]) {
      assert rows[start + k].surface == Some(block[k]);
    }
  }

  // ---------- removing blocks ----------

  lemma BlockCons(rows: seq<Row>, start: nat, ss: seq<SurfaceId>, n: nat)
    requires 1 <= n <= |ss| && start < |rows| && rows[start].surface == Some(ss[0])
    requires IsBlock(rows, start + 1, ss[1..][..n - 1])
    ensures IsBlock(rows, start, ss[..n])
  {
    assert forall k :: 1 <= k < n ==> ss[..n][k] == ss[1..][..n - 1][k - 1];
  }

  /** How many of the surfaces are shown from row `at` on, one row each. */
  function RunLength(rows: seq<Row>, at: nat, ss: seq<SurfaceId>): (n: nat)
    requires at <= |rows|
    ensures n <= |ss| && IsBlock(rows, at, ss[..n])
    ensures n < |ss| ==> at + n == |rows| || IndexOf(rows, ss[n]) != at + n
    decreases |ss|
  {
    if ss == [] || at == |rows| || IndexOf(rows, ss[0]) != at then 0
    else
      var n := 1 + RunLength(rows, at + 1, ss[1..]);
      BlockCons(rows, at, ss, n);
      n
  }

  /** The length of the block that the first surface opens. */
  function BlockLength(rows: seq<Row>, ss: seq<SurfaceId>): (n: nat)
    requires ss != []
    ensures 1 <= n <= |ss|
    ensures IndexOf(rows, ss[0]) < |rows| ==> IsBlock(rows, IndexOf(rows, ss[0]), ss[..n])
    ensures n < |ss| && IndexOf(rows, ss[0]) + n < |rows| ==> IndexOf(rows, ss[n]) != IndexOf(rows, ss[0]) + n
    ensures IndexOf(rows, ss[0]) == |rows| ==> n == 1
  {
    var start := IndexOf(rows, ss[0]);
    if start == |rows| then 1
    else
      var n := 1 + RunLength(rows, start + 1, ss[1..]);
      BlockCons(rows, start, ss, n);
      n
  }

  /** The rows without the block that the first surface opens. */
  function AfterBlock(rows: seq<Row>, ss: seq<SurfaceId>): seq<Row>
    requires ss != []
  {
    var start := IndexOf(rows, ss[0]);
    if start == |rows| then rows else RemoveRange(rows, start, start + BlockLength(rows, ss) - 1)
  }

  /** The rows that are left after block by block was removed. */
  function RemainingRows(rows: seq<Row>, ss: seq<SurfaceId>): seq<Row>
    decreases |ss|
  {
    if ss == [] then rows else RemainingRows(AfterBlock(rows, ss), ss[BlockLength(rows, ss)..])
  }

  /** Only the surface that opens a block is taken out of the set of all surfaces. */
  function Forgotten(rows: seq<Row>, ss: seq<SurfaceId>): (f: set<SurfaceId>)
    ensures f <= Listed(ss)
    decreases |ss|
  {
    if ss == [] then {} else {ss[0]} + Forgotten(AfterBlock(rows, ss), ss[BlockLength(rows, ss)..])
  }

  lemma NoRowShows(rows: seq<Row>, s: SurfaceId)
    requires IndexOf(rows, s) == |rows|
    ensures forall r <- rows :: !Shows(r, {s})
  {
  }

  lemma AfterBlockMeaning(rows: seq<Row>, ss: seq<SurfaceId>)
    requires UniqueSurfaces(rows) && ss != []
    ensures AfterBlock(rows, ss) == Others(rows, Listed(ss[..BlockLength(rows, ss)]))
    ensures UniqueSurfaces(AfterBlock(rows, ss))
  {
    hide Others, UniqueSurfaces, BlockLength, IndexOf;
    var n := BlockLength(rows, ss);
    OthersMembers(rows, Listed(ss[..n]));
    if IndexOf(rows, ss[0]) == |rows| {
      assert Listed(ss[..1]) == {ss[0]};
      NoRowShows(rows, ss[0]);
      OthersAll(rows, {ss[0]});
    } else {
      BlockOut(rows, IndexOf(rows, ss[0]), ss[..n]);
    }
  }

  /** When no surface is shown twice, exactly the rows that show no listed surface remain. */
  lemma {:induction false} RemainingMeaning(rows: seq<Row>, ss: seq<SurfaceId>)
    requires UniqueSurfaces(rows)
    ensures RemainingRows(rows, ss) == Others(rows, Listed(ss))
    decreases |ss|
  {
    hide Others, UniqueSurfaces, BlockLength, AfterBlock, Shows;
    if ss == [] {
      NothingListed(rows);
    } else {
      var n := BlockLength(rows, ss);
      AfterBlockMeaning(rows, ss);
      RemainingMeaning(AfterBlock(rows, ss), ss[n..]);
      OthersTwice(rows, Listed(ss[..n]), Listed(ss[n..]));
      ListedSplit(ss, n);
    }
  }

  lemma NothingListed(rows: seq<Row>)
    ensures Listed([]) == {} && Others(rows, {}) == rows
  {
    OthersAll(rows, {});
  }

  lemma ListedSplit(ss: seq<SurfaceId>, n: nat)
    requires n <= |ss|
    ensures Listed(ss) == Listed(ss[..n]) + Listed(ss[n..])
  {
    assert ss == ss[..n] + ss[n..];
  }

  lemma BlockStart(rows: seq<Row>, ss: seq<SurfaceId>, first: nat)
    requires first < |ss| && IndexOf(rows, ss[first]) < |rows|
    ensures BlockLength(rows, ss[first..]) == 1 + RunLength(rows, IndexOf(rows, ss[first]) + 1, ss[first + 1..])
  {
    hide IndexOf, RunLength, IsBlock;
    assert ss[first..][1..] == ss[first + 1..] && ss[first..][0] == ss[first];
  }

  lemma RunStep(rows: seq<Row>, at: nat, ss: seq<SurfaceId>, i: nat)
    requires at <= |rows| && i < |ss|
    ensures RunLength(rows, at, ss[i..])
            == if at < |rows| && IndexOf(rows, ss[i]) == at then 1 + RunLength(rows, at + 1, ss[i + 1..]) else 0
  {
    assert ss[i..][1..] == ss[i + 1..];
  }

  /** One block of the surfaces from `first` on. */
  lemma RemovalStep(rows: seq<Row>, ss: seq<SurfaceId>, first: nat, iter: nat)
    requires first < iter <= |ss| && BlockLength(rows, ss[first..]) == iter - first
    ensures RemainingRows(rows, ss[first..]) == RemainingRows(AfterBlock(rows, ss[first..]), ss[iter..])
    ensures Forgotten(rows, ss[first..]) == {ss[first]} + Forgotten(AfterBlock(rows, ss[first..]), ss[iter..])
  {
    hide AfterBlock, BlockLength;
    assert ss[first..][iter - first..] == ss[iter..];
  }

  lemma RemovalDone(rows: seq<Row>)
    ensures RemainingRows(rows, []) == rows && Forgotten(rows, []) == {}
  {
  }

  // ---------- which surfaces the removal forgets ----------

  /** The row of `b` lies directly below the row of `a`. */
  predicate DirectlyBelow(rows: seq<Row>, a: SurfaceId, b: SurfaceId) {
    IndexOf(rows, a) + 1 == IndexOf(rows, b) < |rows|
  }

  /** The row of surface j + 1 lies directly below that of surface j once those before j are gone. */
  predicate Touching(rows: seq<Row>, ss: seq<SurfaceId>, j: nat)
    requires j + 1 < |ss|
  {
    DirectlyBelow(Others(rows, Listed(ss[..j])), ss[j], ss[j + 1])
  }

  lemma TouchingLater(rows: seq<Row>, ss: seq<SurfaceId>, n: nat, j: nat)
    requires n + j + 1 < |ss|
    ensures Touching(Others(rows, Listed(ss[..n])), ss[n..], j) == Touching(rows, ss, n + j)
  {
    hide Others, DirectlyBelow;
    OthersTwice(rows, Listed(ss[..n]), Listed(ss[n..][..j]));
    ListedSplit(ss[..n + j], n);
    assert ss[..n + j][..n] == ss[..n] && ss[..n + j][n..] == ss[n..][..j];
  }

  lemma OnlyRow(rows: seq<Row>, i: nat, s: SurfaceId)
    requires UniqueSurfaces(rows) && i < |rows| && rows[i].surface == Some(s)
    ensures IndexOf(rows, s) == i
  {
  }

  /** Where the row of a surface is once `k` rows from `start` on are gone. */
  lemma IndexAfterRange(rows: seq<Row>, start: nat, k: nat, s: SurfaceId)
    requires UniqueSurfaces(rows) && start + k <= |rows|
    requires !(start <= IndexOf(rows, s) < start + k)
    ensures UniqueSurfaces(RemoveRange(rows, start, start + k - 1))
    ensures var i := IndexOf(rows, s);
            IndexOf(RemoveRange(rows, start, start + k - 1), s) == if i < start then i else i - k
  {
    var i, left := IndexOf(rows, s), RemoveRange(rows, start, start + k - 1);
    if i < |rows| {
      OnlyRow(left, if i < start then i else i - k, s);
    }
  }

  /** The rows without the first `k` surfaces of a block. */
  lemma BlockPrefixOut(rows: seq<Row>, start: nat, block: seq<SurfaceId>, k: nat)
    requires UniqueSurfaces(rows) && IsBlock(rows, start, block) && k <= |block|
    ensures Others(rows, Listed(block[..k])) == RemoveRange(rows, start, start + k - 1)
  {
    if k == 0 {
      NothingListed(rows);
      assert block[..0] == [];
    } else {
      BlockOut(rows, start, block[..k]);
    }
  }

  /** Within a block neighbours touch; the first surface behind it does not touch the last one in it. */
  lemma BlockTouches(rows: seq<Row>, ss: seq<SurfaceId>, j: nat)
    requires UniqueSurfaces(rows) && Distinct(ss) && j + 1 < |ss| && j + 1 <= BlockLength(rows, ss)
    ensures Touching(rows, ss, j) <==> j + 1 < BlockLength(rows, ss)
  {
    hide Others, UniqueSurfaces, BlockLength;
    var start, n := IndexOf(rows, ss[0]), BlockLength(rows, ss);
    if start == |rows| {
      NothingListed(rows);
      assert ss[..0] == [];
    } else {
      var block := ss[..n];
      BlockPrefixOut(rows, start, block, j);
      assert block[..j] == ss[..j];
      assert rows[start + j].surface == Some(block[j]);
      OnlyRow(rows, start + j, ss[j]);
      IndexAfterRange(rows, start, j, ss[j]);
      NotInBlock(rows, start, ss, j);
      if j + 1 < n {
        assert rows[start + j + 1].surface == Some(block[j + 1]);
        OnlyRow(rows, start + j + 1, ss[j + 1]);
      }
      IndexAfterRange(rows, start, j, ss[j + 1]);
    }
  }

  lemma NotInBlock(rows: seq<Row>, start: nat, ss: seq<SurfaceId>, j: nat)
    requires Distinct(ss) && j + 1 < |ss| && IsBlock(rows, start, ss[..j + 1])
    ensures !(start <= IndexOf(rows, ss[j + 1]) <= start + j)
  {
    forall i | start <= i <= start + j ensures rows[i].surface != Some(ss[j + 1]) {
      assert rows[start + (i - start)].surface == Some(ss[..j + 1][i - start]);
    }
  }

  lemma DistinctTail(ss: seq<SurfaceId>, n: nat, j: nat)
    requires Distinct(ss) && n <= |ss| && 0 < j < |ss|
    ensures ss[j] != ss[0] && Distinct(ss[n..])
    ensures j < n ==> ss[j] !in Listed(ss[n..])
    ensures j >= n ==> ss[n..][j - n] == ss[j]
  {
  }

  /** Surface by surface: the first is forgotten, any other exactly when it does not touch the one before it. */
  lemma {:induction false} ForgottenIff(rows: seq<Row>, ss: seq<SurfaceId>, j: nat)
    requires UniqueSurfaces(rows) && Distinct(ss) && j < |ss|
    ensures ss[j] in Forgotten(rows, ss) <==> j == 0 || !Touching(rows, ss, j - 1)
    decreases |ss|
  {
    hide Others, UniqueSurfaces, Touching, BlockLength, AfterBlock, Distinct;
    if j > 0 {
      var n, next := BlockLength(rows, ss), AfterBlock(rows, ss);
      AfterBlockMeaning(rows, ss);
      DistinctTail(ss, n, j);
      if j <= n {
        BlockTouches(rows, ss, j - 1);
        if j == n {
          ForgottenIff(next, ss[n..], 0);
        }
      } else {
        ForgottenIff(next, ss[n..], j - n);
        TouchingLater(rows, ss, n, j - n - 1);
      }
    }
  }

  /** Every listed surface is forgotten exactly when no two list neighbours touch. */
  lemma ForgetsAllIff(rows: seq<Row>, ss: seq<SurfaceId>)
    requires UniqueSurfaces(rows) && Distinct(ss)
    ensures Forgotten(rows, ss) == Listed(ss) <==> forall j: nat :: j + 1 < |ss| ==> !Touching(rows, ss, j)
  {
    hide UniqueSurfaces, Touching, Forgotten;
    forall j: nat | j < |ss| ensures ss[j] in Forgotten(rows, ss) <==> j == 0 || !Touching(rows, ss, j - 1) {
      ForgottenIff(rows, ss, j);
    }
    forall j: nat | j + 1 < |ss| ensures Touching(rows, ss, j) <==> ss[j + 1] !in Forgotten(rows, ss) {
    }
    if forall j: nat :: j + 1 < |ss| ==> !Touching(rows, ss, j) {
      forall s <- Listed(ss) ensures s in Forgotten(rows, ss) {
        var j :| 0 <= j < |ss| && ss[j] == s;
        if j > 0 {
          assert !Touching(rows, ss, j - 1);
        }
      }
    } else {
      var j: nat :| j + 1 < |ss| && Touching(rows, ss, j);
      assert ss[j + 1] in Listed(ss);
    }
  }

  /** An input: of two surfaces in adjacent rows only the first is forgotten. */
  lemma AdjacentNotForgotten()
    ensures var rows := [Row(0, Some(1), 0), Row(1, Some(2), 0)];
            UniqueSurfaces(rows) && Touching(rows, [1, 2], 0) && Forgotten(rows, [1, 2]) == {1}
  {
    hide Forgotten;
    var rows := [Row(0, Some(1), 0), Row(1, Some(2), 0)];
    assert [1, 2][..0] == [] && Others(rows, {}) == rows;
    ForgottenIff(rows, [1, 2], 0);
    ForgottenIff(rows, [1, 2], 1);
  }

  // ---------- raising surfaces ----------

  function Raised(rows: seq<Row>, s: SurfaceId): seq<Row> {
    var i := IndexOf(rows, s);
    if i == |rows| then rows else MoveRow(rows, i, 0)
  }

  function RaisedAll(rows: seq<Row>, ss: seq<SurfaceId>): seq<Row> {
    if ss == [] then rows else Raised(RaisedAll(rows, ss[..|ss| - 1]), ss[|ss| - 1])
  }

  /** The listed rows in reverse order of the list. */
  function OnTop(rows: seq<Row>, ss: seq<SurfaceId>): seq<Row> {
    if ss == [] then []
    else
      var s, rest := ss[|ss| - 1], OnTop(rows, ss[..|ss| - 1]);
      var i := IndexOf(rows, s);
      if i == |rows| then rest else [rows[i]] + rest
  }

  lemma {:induction false} OnTopShows(rows: seq<Row>, ss: seq<SurfaceId>)
    ensures forall r <- OnTop(rows, ss) :: Shows(r, Listed(ss))
  {
    if ss != [] {
      OnTopShows(rows, ss[..|ss| - 1]);
      assert ss == ss[..|ss| - 1] + [ss[|ss| - 1]];
    }
  }

  lemma {:induction false} IndexOfAppend(a: seq<Row>, b: seq<Row>, s: SurfaceId)
    requires forall r <- a :: r.surface != Some(s)
    ensures IndexOf(a + b, s) == |a| + IndexOf(b, s)
  {
    if a == [] {
      assert a + b == b;
    } else {
      assert (a + b)[0] == a[0] && (a + b)[1..] == a[1..] + b;
      IndexOfAppend(a[1..], b, s);
    }
  }

  /** Listed later is further up. */
  lemma {:induction false} OnTopAppend(rows: seq<Row>, a: seq<SurfaceId>, b: seq<SurfaceId>)
    ensures OnTop(rows, a + b) == OnTop(rows, b) + OnTop(rows, a)
  {
    if b == [] {
      assert a + b == a && [] + OnTop(rows, a) == OnTop(rows, a);
    } else {
      var before, s := b[..|b| - 1], b[|b| - 1];
      assert (a + b)[..|a + b| - 1] == a + before;
      OnTopAppend(rows, a, before);
      var i := IndexOf(rows, s);
      if i < |rows| {
        assert [rows[i]] + (OnTop(rows, before) + OnTop(rows, a)) == ([rows[i]] + OnTop(rows, before)) + OnTop(rows, a);
      }
    }
  }

  /** Of one surface it is the first row that shows it, if there is one. */
  lemma OnTopOne(rows: seq<Row>, s: SurfaceId)
    ensures (forall r <- rows :: r.surface != Some(s)) ==> OnTop(rows, [s]) == []
    ensures (exists r <- rows :: r.surface == Some(s)) ==>
              exists i | 0 <= i < |rows| ::
                && OnTop(rows, [s]) == [rows[i]] && rows[i].surface == Some(s)
                && forall j :: 0 <= j < i ==> rows[j].surface != Some(s)
  {
    var i := IndexOf(rows, s);
    assert [s][..0] == [];
    if i < |rows| {
      assert OnTop(rows, [s]) == [rows[i]];
    }
  }

  /** A surface not yet taken out is found in the remaining rows as in all of them. */
  lemma {:induction false} FoundAmongOthers(rows: seq<Row>, ss: set<SurfaceId>, s: SurfaceId)
    requires s !in ss
    ensures var i, k := IndexOf(rows, s), IndexOf(Others(rows, ss), s);
            && (i == |rows| <==> k == |Others(rows, ss)|)
            && (i < |rows| ==> Others(rows, ss)[k] == rows[i])
  {
    if rows != [] {
      var rest := Others(rows[1..], ss);
      if rows[0].surface == Some(s) {
        IndexOfCons(rows[0], rest, s);
      } else {
        FoundAmongOthers(rows[1..], ss, s);
        IndexOfCons(rows[0], rest, s);
      }
    }
  }

  lemma IndexOfCons(row: Row, rows: seq<Row>, s: SurfaceId)
    ensures IndexOf([row] + rows, s) == if row.surface == Some(s) then 0 else 1 + IndexOf(rows, s)
  {
    assert ([row] + rows)[0] == row && ([row] + rows)[1..] == rows;
  }

  /** Taking one surface out of rows in which it is shown once. */
  lemma OneOut(rows: seq<Row>, s: SurfaceId)
    requires UniqueSurfaces(rows)
    ensures var i := IndexOf(rows, s);
            Others(rows, {s}) == if i == |rows| then rows else rows[..i] + rows[i + 1..]
  {
    var i := IndexOf(rows, s);
    if i == |rows| {
      OthersAll(rows, {s});
    } else {
      BlockOut(rows, i, [s]);
      assert Listed([s]) == {s};
    }
  }

  /**
   Raising a list of surfaces leaves their rows on top, the last one raised first, above all
   other rows in unchanged order.
   */
  lemma {:induction false} RaisedMeaning(rows: seq<Row>, ss: seq<SurfaceId>)
    requires UniqueSurfaces(rows) && Distinct(ss)
    ensures RaisedAll(rows, ss) == OnTop(rows, ss) + Others(rows, Listed(ss))
  {
    if ss == [] {
      OthersAll(rows, Listed(ss));
    } else {
      var before, s := ss[..|ss| - 1], ss[|ss| - 1];
      assert ss == before + [s];
      assert Listed(ss) == Listed(before) + {s};
      assert Distinct(before) && s !in before;
      RaisedMeaning(rows, before);
      RaiseOne(rows, before, s);
    }
  }

  lemma MoveToFront(top: seq<Row>, rest: seq<Row>, k: nat)
    requires k < |rest|
    ensures MoveRow(top + rest, |top| + k, 0) == [rest[k]] + (top + (rest[..k] + rest[k + 1..]))
  {
    var all := top + rest;
    assert all[..|top| + k] == top + rest[..k];
    assert all[|top| + k + 1..] == rest[k + 1..];
    assert (top + rest[..k]) + rest[k + 1..] == top + (rest[..k] + rest[k + 1..]);
  }

  lemma RaiseFound(top: seq<Row>, rest: seq<Row>, s: SurfaceId)
    requires UniqueSurfaces(rest) && forall r <- top :: r.surface != Some(s)
    ensures var k := IndexOf(rest, s);
            Raised(top + rest, s) == if k == |rest| then top + rest else [rest[k]] + (top + Others(rest, {s}))
  {
    hide Others, UniqueSurfaces, MoveRow, IndexOf, Raised;
    IndexOfAppend(top, rest, s);
    OneOut(rest, s);
    var k := IndexOf(rest, s);
    RaisedAt(top + rest, |top| + k, s);
    if k < |rest| {
      MoveToFront(top, rest, k);
    }
  }

  lemma RaisedAt(rows: seq<Row>, i: nat, s: SurfaceId)
    requires i == IndexOf(rows, s)
    ensures Raised(rows, s) == if i == |rows| then rows else MoveRow(rows, i, 0)
  {
  }

  lemma RaiseOne(rows: seq<Row>, before: seq<SurfaceId>, s: SurfaceId)
    requires UniqueSurfaces(rows) && s !in before
    ensures Raised(OnTop(rows, before) + Others(rows, Listed(before)), s)
            == OnTop(rows, before + [s]) + Others(rows, Listed(before) + {s})
  {
    hide Others, UniqueSurfaces, Raised, IndexOf;
    var top, rest := OnTop(rows, before), Others(rows, Listed(before));
    assert (before + [s])[..|before|] == before;
    OnTopShows(rows, before);
    FoundAmongOthers(rows, Listed(before), s);
    OthersMembers(rows, Listed(before));
    OthersTwice(rows, Listed(before), {s});
    OneOut(rest, s);
    RaiseFound(top, rest, s);
    var i := IndexOf(rows, s);
    var out := Others(rest, {s});
    if i < |rows| {
      assert ([rows[i]] + top) + out == [rows[i]] + (top + out);
    }
  }
}

/** The window model itself. */
module WindowModels {
  import opened Wrappers
  import opened WindowRowSpec

  class TopLevelWindowModel {
    var windowModel: seq<Row>
    var allSurfaces: set<SurfaceId>
    // an observer that replays the notifications
    ghost var seen: seq<Row>

    ghost predicate Valid()
      reads this
    {
      seen == windowModel
    }

    ghost predicate NoSurfaceTwice()
      reads this
    {
      UniqueSurfaces(windowModel)
    }

    constructor ()
      ensures Valid() && NoSurfaceTwice() && windowModel == []
    {
      windowModel, allSurfaces, seen := [], {}, [];
    }

    ghost method Notify(n: Notice)
      requires LegalNotice(|seen|, n) && (n.RowsInserted? ==> n.last < |windowModel|)
      modifies this`seen
      ensures seen == Replayed(old(seen), n, windowModel)
    {
      seen := Replayed(seen, n, windowModel);
    }

    method FindSurface(s: SurfaceId) returns (index: int)
      ensures index == if IndexOf(windowModel, s) == |windowModel| then -1 else IndexOf(windowModel, s)
    {
      for i := 0 to |windowModel|
        invariant forall j :: 0 <= j < i ==> windowModel[j].surface != Some(s)
      {
        if windowModel[i].surface == Some(s) {
          return i;
        }
      }
      return -1;
    }

    method PrependWindow(row: Row)
      requires Valid()
      modifies this`windowModel, this`seen
      ensures Valid() && windowModel == [row] + old(windowModel)
      ensures old(NoSurfaceTwice()) ==>
                (NoSurfaceTwice()
                 <==> row.surface == None || forall r <- old(windowModel) :: r.surface != row.surface)
    {
      windowModel := [row] + windowModel;
      Notify(RowsInserted(0, 0));
      assert seen == windowModel;
      if old(NoSurfaceTwice()) {
        PrependUnique(old(windowModel), row);
      }
    }

    method RemoveAt(index: nat)
      requires Valid() && index < |windowModel|
      modifies this
      ensures Valid() && windowModel == RemoveRange(old(windowModel), index, index)
      ensures allSurfaces == old(allSurfaces) - SurfaceOf(old(windowModel)[index])
      ensures old(NoSurfaceTwice()) ==> NoSurfaceTwice()
    {
      var surface := windowModel[index].surface;
      windowModel := windowModel[..index] + windowModel[index + 1..];
      if surface.Some? {
        allSurfaces := allSurfaces - {surface.value};
      }
      Notify(RowsRemoved(index, index));
    }

    /** All rows of an application go. */
    method RemoveApplication(application: AppId)
      requires Valid()
      modifies this
      ensures Valid()
      ensures windowModel == WithoutApp(old(windowModel), application)
      ensures allSurfaces == old(allSurfaces) - AppSurfaces(old(windowModel), application)
      ensures old(NoSurfaceTwice()) ==> NoSurfaceTwice()
    {
      hide UniqueSurfaces, SurfaceOf, WithoutApp, AppSurfaces, RemoveRange;
      var i := 0;
      ghost var gone: set<SurfaceId> := {};
      AppNothing(windowModel, application);
      while i < |windowModel|
        invariant Valid() && 0 <= i <= |windowModel| && (old(NoSurfaceTwice()) ==> NoSurfaceTwice())
        invariant WithoutApp(old(windowModel), application)
                    == windowModel[..i] + WithoutApp(windowModel[i..], application)
        invariant AppSurfaces(old(windowModel), application) == gone + AppSurfaces(windowModel[i..], application)
        invariant allSurfaces == old(allSurfaces) - gone
        decreases |windowModel| - i
      {
        AppStep(windowModel, i, application);
        if windowModel[i].app == application {
          gone := gone + SurfaceOf(windowModel[i]);
          RemoveAt(i);
        } else {
          i := i + 1;
        }
      }
      AppNothing(windowModel, application);
    }

    method Move(from: int, to: int)
      requires Valid()
      modifies this`windowModel, this`seen
      ensures Valid()
      ensures windowModel == if 0 <= from < |old(windowModel)| && 0 <= to < |old(windowModel)| && from != to
                             then MoveRow(old(windowModel), from, to) else old(windowModel)
      ensures old(NoSurfaceTwice()) ==> NoSurfaceTwice()
    {
      if from == to {
        return;
      }
      if from >= 0 && from < |windowModel| && to >= 0 && to < |windowModel| {
        MoveNotice(windowModel, from, to);
        if NoSurfaceTwice() {
          MovedUnique(windowModel, from, to);
        }
        windowModel := MoveRow(windowModel, from, to);
        Notify(RowsMoved(from, from, to + if to > from then 1 else 0));
      }
    }

    method OnSurfacesRaised(surfaces: seq<SurfaceId>)
      requires Valid()
      modifies this`windowModel, this`seen
      ensures Valid()
      ensures windowModel == RaisedAll(old(windowModel), surfaces)
      ensures old(NoSurfaceTwice()) ==> NoSurfaceTwice()
      ensures old(NoSurfaceTwice()) && Distinct(surfaces) ==>
                windowModel == OnTop(old(windowModel), surfaces) + Others(old(windowModel), Listed(surfaces))
    {
      if NoSurfaceTwice() && Distinct(surfaces) {
        RaisedMeaning(windowModel, surfaces);
      }
      assert surfaces[..0] == [];
      for i := 0 to |surfaces|
        invariant Valid() && windowModel == RaisedAll(old(windowModel), surfaces[..i])
        invariant old(NoSurfaceTwice()) ==> NoSurfaceTwice()
      {
        assert surfaces[..i + 1][..i] == surfaces[..i];
        var fromIndex := FindSurface(surfaces[i]);
        if fromIndex != -1 {
          FrontAlready(windowModel);
          Move(fromIndex, 0);
        }
      }
      assert surfaces[..|surfaces|] == surfaces;
    }

    /** Removes the rows of the listed surfaces, one block of adjacent rows at a time. */
    method RemoveSurfaces(surfaces: seq<SurfaceId>)
      requires Valid()
      modifies this
      ensures Valid()
      ensures windowModel == RemainingRows(old(windowModel), surfaces)
      ensures allSurfaces == old(allSurfaces) - Forgotten(old(windowModel), surfaces)
      ensures old(NoSurfaceTwice()) ==>
                NoSurfaceTwice() && windowModel == Others(old(windowModel), Listed(surfaces))
    {
      hide IndexOf, RemoveRange, RemainingRows, Forgotten, RunLength, BlockLength, UniqueSurfaces;
      ghost var rows, forgotten := windowModel, {};
      if NoSurfaceTwice() {
        RemainingMeaning(rows, surfaces);
        OthersMembers(rows, Listed(surfaces));
      }
      var iter := 0;
      assert surfaces[0..] == surfaces;
      while iter < |surfaces|
        invariant 0 <= iter <= |surfaces| && Valid()
        invariant RemainingRows(rows, surfaces) == RemainingRows(windowModel, surfaces[iter..])
        invariant allSurfaces == old(allSurfaces) - forgotten
        invariant Forgotten(rows, surfaces) == forgotten + Forgotten(windowModel, surfaces[iter..])
        decreases |surfaces| - iter
      {
        var surface := surfaces[iter];
        ghost var first := iter;
        iter := iter + 1;
        forgotten := forgotten + {surface};
        var start := FindSurface(surface);
        if start == -1 {
          RemovalStep(windowModel, surfaces, first, iter);
          allSurfaces := allSurfaces - {surface};
          continue;
        }
        var end: nat;
        iter, end := ExtendBlock(surfaces, iter - 1, start);
        RemovalStep(windowModel, surfaces, first, iter);
        TakeOut(start, end, surface);
      }
      assert surfaces[iter..] == [];
      RemovalDone(windowModel);
    }

    /** Adds the surfaces after `first` to the block as long as each is shown in the row below. */
    method ExtendBlock(surfaces: seq<SurfaceId>, first: nat, start: nat) returns (iter: nat, end: nat)
      requires first < |surfaces| && start == IndexOf(windowModel, surfaces[first]) < |windowModel|
      ensures first < iter <= |surfaces| && start <= end < |windowModel| && end - start == iter - first - 1
      ensures BlockLength(windowModel, surfaces[first..]) == iter - first
    {
      hide IndexOf, RunLength, BlockLength, IsBlock;
      iter, end := first + 1, start;
      BlockStart(windowModel, surfaces, first);
      while iter < |surfaces|
        invariant first < iter <= |surfaces| && start <= end < |windowModel|
        invariant end - start == iter - first - 1
        invariant BlockLength(windowModel, surfaces[first..])
                  == iter - first + RunLength(windowModel, end + 1, surfaces[iter..])
        decreases |surfaces| - iter
      {
        var index := FindSurface(surfaces[iter]);
        RunStep(windowModel, end + 1, surfaces, iter);
        if index != end + 1 {
          break;
        }
        end := end + 1;
        iter := iter + 1;
      }
    }

    /** The removal of one block: row after row at the same place. Only its first surface is forgotten. */
    method TakeOut(start: nat, end: nat, surface: SurfaceId)
      requires Valid() && start <= end < |windowModel|
      modifies this
      ensures Valid()
      ensures windowModel == RemoveRange(old(windowModel), start, end)
      ensures allSurfaces == old(allSurfaces) - {surface}
    {
      ghost var rows := windowModel;
      for index := start to end + 1
        invariant windowModel == rows[..start] + rows[index..]
        invariant seen == rows
        invariant allSurfaces == if index == start then old(allSurfaces) else old(allSurfaces) - {surface}
      {
        assert windowModel[..start] == rows[..start] && windowModel[start + 1..] == rows[index + 1..];
        windowModel := windowModel[..start] + windowModel[start + 1..];
        allSurfaces := allSurfaces - {surface};
      }
      Notify(RowsRemoved(start, end));
    }
  }

  /** Before the first and behind the last row. */
  lemma AppNothing(rows: seq<Row>, application: AppId)
    ensures rows[..0] + WithoutApp(rows[0..], application) == WithoutApp(rows, application)
    ensures {} + AppSurfaces(rows[0..], application) == AppSurfaces(rows, application)
    ensures rows[..|rows|] + WithoutApp(rows[|rows|..], application) == rows
    ensures AppSurfaces(rows[|rows|..], application) == {}
  {
    assert rows[0..] == rows && rows[..|rows|] == rows;
  }

  /** One row: it goes, or the next one is looked at. */
  lemma AppStep(rows: seq<Row>, i: nat, application: AppId)
    requires i < |rows|
    ensures rows[i].app == application ==>
              var left := RemoveRange(rows, i, i);
              && |left| == |rows| - 1 && left[..i] == rows[..i]
              && WithoutApp(left[i..], application) == WithoutApp(rows[i..], application)
              && AppSurfaces(rows[i..], application) == SurfaceOf(rows[i]) + AppSurfaces(left[i..], application)
    ensures rows[i].app != application ==>
              && rows[..i] + WithoutApp(rows[i..], application)
                 == rows[..i + 1] + WithoutApp(rows[i + 1..], application)
              && AppSurfaces(rows[i..], application) == AppSurfaces(rows[i + 1..], application)
  {
    hide SurfaceOf;
    assert rows[i..][0] == rows[i] && rows[i..][1..] == rows[i + 1..];
    if rows[i].app == application {
      var left := RemoveRange(rows, i, i);
      assert left[..i] == rows[..i] && left[i..] == rows[i + 1..];
    } else {
      assert rows[..i + 1] == rows[..i] + [rows[i]];
      assert rows[..i] + ([rows[i]] + WithoutApp(rows[i + 1..], application))
          == rows[..i + 1] + WithoutApp(rows[i + 1..], application);
    }
  }

  lemma PrependUnique(rows: seq<Row>, row: Row)
    requires UniqueSurfaces(rows)
    ensures UniqueSurfaces([row] + rows) <==> row.surface == None || forall r <- rows :: r.surface != row.surface
  {
    var all := [row] + rows;
    if UniqueSurfaces(all) && row.surface.Some? {
      forall r <- rows ensures r.surface != row.surface {
        var j :| 0 <= j < |rows| && rows[j] == r;
        assert all[0].surface.Some? && all[j + 1] == r;
      }
    }
  }

  function SurfaceOf(row: Row): set<SurfaceId> {
    if row.surface.Some? then {row.surface.value} else {}
  }

  /** The surfaces of the rows of an application. */
  function AppSurfaces(rows: seq<Row>, application: AppId): set<SurfaceId> {
    if rows == [] then {}
    else (if rows[0].app == application then SurfaceOf(rows[0]) else {}) + AppSurfaces(rows[1..], application)
  }

  function WithoutApp(rows: seq<Row>, application: AppId): seq<Row> {
    if rows == [] then []
    else if rows[0].app == application then WithoutApp(rows[1..], application)
    else [rows[0]] + WithoutApp(rows[1..], application)
  }

  /** Exactly the rows of other applications are left, and exactly the surfaces of this one's rows are meant. */
  lemma {:induction false} AppMembers(rows: seq<Row>, application: AppId)
    ensures forall r :: r in WithoutApp(rows, application) <==> r in rows && r.app != application
    ensures forall s :: s in AppSurfaces(rows, application)
                        <==> exists r <- rows :: r.app == application && r.surface == Some(s)
  {
    if rows != [] {
      AppMembers(rows[1..], application);
      assert rows == [rows[0]] + rows[1..];
    }
  }

  /** The rows that are left keep their order: the rows above come before the rows below. */
  lemma {:induction false} AppOrder(a: seq<Row>, b: seq<Row>, application: AppId)
    ensures WithoutApp(a + b, application) == WithoutApp(a, application) + WithoutApp(b, application)
    ensures (forall r <- a :: r.app != application) ==> WithoutApp(a, application) == a
  {
    if a == [] {
      assert a + b == b;
    } else {
      assert (a + b)[0] == a[0] && (a + b)[1..] == a[1..] + b;
      AppOrder(a[1..], b, application);
    }
  }

  lemma MovedUnique(rows: seq<Row>, from: nat, to: nat)
    requires UniqueSurfaces(rows) && from < |rows| && to < |rows|
    ensures UniqueSurfaces(MoveRow(rows, from, to))
    ensures forall r :: r in MoveRow(rows, from, to) <==> r in rows
  {
    var rest, moved := rows[..from] + rows[from + 1..], MoveRow(rows, from, to);
    // where the row at a place of the result came from
    var source := (k: int) =>
        var p := if k < to then k else k - 1;
        if k == to then from else if p < from then p else p + 1;
    forall k | 0 <= k < |moved| ensures 0 <= source(k) < |rows| && moved[k] == rows[source(k)] {
    }
    forall i, j | 0 <= i < j < |moved| && moved[i].surface.Some? ensures moved[i].surface != moved[j].surface {
      assert source(i) != source(j);
    }
    forall r | r in rows ensures r in moved {
      var i :| 0 <= i < |rows| && rows[i] == r;
      if i != from {
        assert rest[if i < from then i else i - 1] == r;
        assert rest == rest[..to] + rest[to..];
      }
    }
  }

  lemma FrontAlready(rows: seq<Row>)
    ensures rows != [] ==> MoveRow(rows, 0, 0) == rows
  {
  }
}
