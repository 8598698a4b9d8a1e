// The greedy O(ND) line differ.  GetShortestPath fills one array of diagonals in
// place and saves a copy of it after every round; Backtrack replays the copies
// from the end; Diff turns the moves into edit records, last line first.

module MyersDiffer {
  import opened EditGraph
  import opened Wrappers

  // ---------- What the search computes ----------

  // Round d touches the diagonals -d, -d + 2, ..., d.
  ghost predicate InRound(d: int, k: int)
  {
    0 <= d && -d <= k <= d && (d + k) % 2 == 0
  }

  // Diagonal k can be followed from (x, x - k).
  ghost predicate OnRun(a: seq<FileLine>, b: seq<FileLine>, x: int, k: int)
  {
    Matches(a, b, x, x - k)
  }

  // The end of the run of common lines that starts at (x, x - k).
  ghost function Slide(a: seq<FileLine>, b: seq<FileLine>, x: int, k: int): (r: int)
    ensures x <= r && !OnRun(a, b, r, k)
    ensures forall i :: x <= i < r ==> OnRun(a, b, i, k)
    decreases |a| - x
  {
    if OnRun(a, b, x, k) then Slide(a, b, x + 1, k) else x
  }

  // The x coordinates at which the rounds end: row d lists diagonals -d to d.
  type Table = seq<seq<int>>

  // Before round 0, and on diagonals a round does not have, the cell is zero.
  ghost function At(ends: Table, d: int, k: int): int
  {
    if 0 <= d < |ends| && 0 <= d + k < |ends[d]| then ends[d][d + k] else 0
  }

  // Round d enters diagonal k by an insertion (from diagonal k + 1) rather than a
  // deletion (from diagonal k - 1).
  ghost predicate Down(ends: Table, d: int, k: int)
  {
    k == -d || (k != d && At(ends, d - 1, k - 1) < At(ends, d - 1, k + 1))
  }

  ghost function Start(ends: Table, d: int, k: int): int
  {
    if Down(ends, d, k) then At(ends, d - 1, k + 1) else At(ends, d - 1, k - 1) + 1
  }

  // Each round extends the better of its neighbours along the common lines.
  ghost predicate GreedyAt(a: seq<FileLine>, b: seq<FileLine>, ends: Table, d: int, k: int)
  {
    InRound(d, k) && d < |ends| ==> At(ends, d, k) == Slide(a, b, Start(ends, d, k), k)
  }

  ghost predicate GreedyRounds(a: seq<FileLine>, b: seq<FileLine>, ends: Table, rounds: nat)
  {
    |ends| == rounds && forall d, k :: GreedyAt(a, b, ends, d, k)
  }

  ghost predicate Greedy(a: seq<FileLine>, b: seq<FileLine>, ends: Table)
  {
    GreedyRounds(a, b, ends, |a| + |b| + 1)
  }

  // The table of two files.
  ghost function EndsOf(a: seq<FileLine>, b: seq<FileLine>): (ends: Table)
    ensures Greedy(a, b, ends)
  {
    GreedyTableExists(a, b, |a| + |b| + 1);
    var ends :| GreedyRounds(a, b, ends, |a| + |b| + 1);
    ends
  }

  lemma {:induction false} GreedyTableExists(a: seq<FileLine>, b: seq<FileLine>, rounds: nat)
    ensures exists ends: Table :: GreedyRounds(a, b, ends, rounds)
  {
    if rounds == 0 {
      var none: Table := [];
      assert GreedyRounds(a, b, none, 0);
    } else {
      GreedyTableExists(a, b, rounds - 1);
      var prev: Table :| GreedyRounds(a, b, prev, rounds - 1);
      var last := rounds - 1;
      var row := seq(2 * last + 1, i => Slide(a, b, Start(prev, last, i - last), i - last));
      var ends := prev + [row];
      forall d, k ensures GreedyAt(a, b, ends, d, k) {
        assert GreedyAt(a, b, prev, d, k);
        assert d <= last ==> Start(ends, d, k) == Start(prev, d, k);
      }
      assert GreedyRounds(a, b, ends, rounds);
    }
  }

  // ---------- The table holds the furthest reachable points ----------

  lemma {:induction false} SlideReached(a: seq<FileLine>, b: seq<FileLine>, d: int, x: int, k: int)
    requires Reach(a, b, d, x, x - k)
    ensures Reach(a, b, d, Slide(a, b, x, k), Slide(a, b, x, k) - k)
    decreases |a| - x
  {
    if OnRun(a, b, x, k) {
      SlideReached(a, b, d, x + 1, k);
    }
  }

  lemma {:induction false} EndsAreReached(a: seq<FileLine>, b: seq<FileLine>, ends: Table, d: int, k: int)
    requires d <= |a| + |b|
    requires InRound(d, k) && Greedy(a, b, ends)
    ensures Reach(a, b, d, Start(ends, d, k), Start(ends, d, k) - k)
    ensures Reach(a, b, d, At(ends, d, k), At(ends, d, k) - k)
    decreases d
  {
    assert GreedyAt(a, b, ends, d, k);
    var s := Start(ends, d, k);
    if d == 0 {
    } else if Down(ends, d, k) {
      EndsAreReached(a, b, ends, d - 1, k + 1);
      ReachDown(a, b, d, s, s - k);
    } else {
      EndsAreReached(a, b, ends, d - 1, k - 1);
      ReachRight(a, b, d, s, s - k);
    }
    SlideReached(a, b, d, s, k);
  }

  lemma ReachDown(a: seq<FileLine>, b: seq<FileLine>, d: int, x: int, y: int)
    requires Reach(a, b, d - 1, x, y - 1)
    ensures Reach(a, b, d, x, y)
  {
  }

  lemma ReachRight(a: seq<FileLine>, b: seq<FileLine>, d: int, x: int, y: int)
    requires Reach(a, b, d - 1, x - 1, y)
    ensures Reach(a, b, d, x, y)
  {
  }

  lemma StartIsOnAxis(a: seq<FileLine>, b: seq<FileLine>, ends: Table, d: int, k: int)
    requires d <= |a| + |b|
    requires InRound(d, k) && Greedy(a, b, ends)
    ensures 0 <= Start(ends, d, k) && k <= Start(ends, d, k) <= At(ends, d, k) == Slide(a, b, Start(ends, d, k), k)
  {
    assert GreedyAt(a, b, ends, d, k);
    EndsAreReached(a, b, ends, d, k);
  }

  // A run of common lines passes every earlier point of its diagonal.
  lemma SlideBound(a: seq<FileLine>, b: seq<FileLine>, s: int, x: int, k: int)
    requires x - 1 <= Slide(a, b, s, k) && OnRun(a, b, x - 1, k)
    ensures x <= Slide(a, b, s, k)
  {
  }

  // The furthest-reaching lemma: no d-edit path gets past round d.
  lemma {:induction false} EndsAreFurthest(a: seq<FileLine>, b: seq<FileLine>, ends: Table, d: int, x: int, y: int)
    requires d <= |a| + |b|
    requires Reach(a, b, d, x, y) && Greedy(a, b, ends)
    ensures InRound(d, x - y) && x <= At(ends, d, x - y)
    decreases x + y
  {
    ReachParity(a, b, d, x, y);
    var k := x - y;
    assert GreedyAt(a, b, ends, d, k);
    if d == 0 && x == 0 && y == 0 {
    } else if x > 0 && Reach(a, b, d - 1, x - 1, y) {
      EndsAreFurthest(a, b, ends, d - 1, x - 1, y);
    } else if y > 0 && Reach(a, b, d - 1, x, y - 1) {
      EndsAreFurthest(a, b, ends, d - 1, x, y - 1);
    } else {
      EndsAreFurthest(a, b, ends, d, x - 1, y - 1);
      SlideBound(a, b, Start(ends, d, k), x, k);
    }
  }

  // Where an insertion and a deletion lead equally far, the insertion is taken: a
  // round enters a diagonal by an insertion exactly if one can lead to that point.
  lemma InsertionIsPreferred(a: seq<FileLine>, b: seq<FileLine>, ends: Table, d: int, k: int)
    requires 0 < d <= |a| + |b| && InRound(d, k) && Greedy(a, b, ends)
    ensures Down(ends, d, k) <==> Reach(a, b, d - 1, Start(ends, d, k), Start(ends, d, k) - k - 1)
  {
    hide Reach, Greedy, At;
    var x := Start(ends, d, k);
    if Down(ends, d, k) {
      EndsAreReached(a, b, ends, d - 1, k + 1);
    } else if Reach(a, b, d - 1, x, x - k - 1) {
      EndsAreFurthest(a, b, ends, d - 1, x, x - k - 1);
      assert false;
    }
  }

  // (n, m) is not reached by fewer than d edits.
  ghost predicate Unreached(a: seq<FileLine>, b: seq<FileLine>, d: int)
  {
    forall e :: 0 <= e < d ==> !Reach(a, b, e, |a|, |b|)
  }

  // The search may look past the far corner only after it has reached it: the
  // first point with x >= n and y >= m is (n, m) itself, in round Distance.
  lemma FirstStopIsTheCorner(a: seq<FileLine>, b: seq<FileLine>, ends: Table, d: int, k: int)
    requires d <= |a| + |b|
    requires InRound(d, k) && Unreached(a, b, d) && Greedy(a, b, ends)
    requires At(ends, d, k) >= |a| && At(ends, d, k) - k >= |b|
    ensures At(ends, d, k) == |a| && k == |a| - |b| && d == Distance(a, b)
  {
    EndsAreReached(a, b, ends, d, k);
    Clip(a, b, d, At(ends, d, k), At(ends, d, k) - k);
    DistanceIsMinimal(a, b);
  }

  // No diagonal of round d below k ends at or past the far corner.
  ghost predicate NoStopBelow(a: seq<FileLine>, b: seq<FileLine>, ends: Table, d: int, k: int)
  {
    forall j :: InRound(d, j) && j < k ==> At(ends, d, j) < |a| || At(ends, d, j) - j < |b|
  }

  lemma NoStopNoCorner(a: seq<FileLine>, b: seq<FileLine>, ends: Table, d: int)
    requires d <= |a| + |b|
    requires NoStopBelow(a, b, ends, d, d + 2) && Unreached(a, b, d) && Greedy(a, b, ends)
    ensures Unreached(a, b, d + 1)
  {
    if Reach(a, b, d, |a|, |b|) {
      EndsAreFurthest(a, b, ends, d, |a|, |b|);
      assert false;
    }
  }

  lemma NoStopNext(a: seq<FileLine>, b: seq<FileLine>, ends: Table, d: int, k: int)
    requires InRound(d, k) && NoStopBelow(a, b, ends, d, k)
    requires At(ends, d, k) < |a| || At(ends, d, k) - k < |b|
    ensures NoStopBelow(a, b, ends, d, k + 2)
  {
    forall j | InRound(d, j) && j < k + 2 ensures j < k || j == k {
    }
  }

  // ---------- The search ----------

  function GetIndexV(lenA: int, lenB: int, val: int): int
  {
    val + (lenA + lenB)
  }

  // The first cell the search reads exists unless both files are empty; that
  // one input makes the source index out of range.
  lemma FirstReadInRange(lenA: nat, lenB: nat)
    ensures 0 <= GetIndexV(lenA, lenB, 1) < 2 * (lenA + lenB) + 1 <==> !(lenA == 0 && lenB == 0)
  {
  }

  // The array cell of diagonal k.
  ghost function Cell(row: seq<int>, max: int, k: int): int
    requires 0 <= max + k < |row|
  {
    row[max + k]
  }

  // Round d reads cell j: one of the cells the round before it wrote, or, in
  // round 0, the initial zero of cell 1.
  ghost predicate ReadBy(d: int, j: int)
  {
    if d == 0 then j == 1 else InRound(d - 1, j)
  }

  ghost predicate IsRow(max: int, d: int, row: seq<int>)
  {
    0 < max && 0 <= d <= max && |row| == 2 * max + 1
  }

  // What a saved copy of the array must hold for round d to be replayed: the
  // cells round d read.  Round d itself only wrote cells of the other parity.
  ghost predicate RowFor(max: int, ends: Table, d: int, row: seq<int>)
  {
    && IsRow(max, d, row)
    && forall j {:trigger Cell(row, max, j)} :: ReadBy(d, j) ==> Cell(row, max, j) == At(ends, d - 1, j)
  }

  // The cells of round d below diagonal k have been written.
  ghost predicate WrittenBelow(max: int, ends: Table, d: int, k: int, row: seq<int>)
  {
    && IsRow(max, d, row)
    && forall j {:trigger Cell(row, max, j)} :: InRound(d, j) && j < k ==> Cell(row, max, j) == At(ends, d, j)
  }

  // The test the search makes on two cells finds the start of round d, and the
  // cell it picks.
  lemma StartIsRead(max: int, ends: Table, d: int, k: int, row: seq<int>)
    requires InRound(d, k) && RowFor(max, ends, d, row)
    ensures var at := max + k;
            && (Down(ends, d, k) <==> k == -d || (k != d && row[at - 1] < row[at + 1]))
            && (Down(ends, d, k) ==> row[at + 1] == At(ends, d - 1, k + 1))
            && (!Down(ends, d, k) ==> row[at - 1] == At(ends, d - 1, k - 1))
  {
    assert k != d || d == 0 ==> Cell(row, max, k + 1) == At(ends, d - 1, k + 1);
    assert k != -d ==> Cell(row, max, k - 1) == At(ends, d - 1, k - 1);
  }

  // Writing a cell of round d leaves the cells round d reads alone.
  lemma WriteKeepsRow(max: int, ends: Table, d: int, k: int, x: int, row: seq<int>)
    requires InRound(d, k) && RowFor(max, ends, d, row)
    ensures RowFor(max, ends, d, row[max + k := x])
  {
    var row' := row[max + k := x];
    forall j {:trigger Cell(row', max, j)} | ReadBy(d, j) ensures Cell(row', max, j) == At(ends, d - 1, j) {
      assert j != k;
      assert Cell(row', max, j) == Cell(row, max, j);
    }
  }

  lemma WriteExtends(max: int, ends: Table, d: int, k: int, row: seq<int>)
    requires InRound(d, k) && WrittenBelow(max, ends, d, k, row)
    ensures WrittenBelow(max, ends, d, k + 2, row[max + k := At(ends, d, k)])
  {
    var row' := row[max + k := At(ends, d, k)];
    forall j {:trigger Cell(row', max, j)} | InRound(d, j) && j < k + 2
      ensures Cell(row', max, j) == At(ends, d, j)
    {
      assert j < k || j == k;
      assert j < k ==> Cell(row', max, j) == Cell(row, max, j);
    }
  }

  // What round d wrote is what round d + 1 reads.
  lemma NextRoundIsReady(max: int, ends: Table, d: int, row: seq<int>)
    requires WrittenBelow(max, ends, d, d + 2, row) && d < max
    ensures RowFor(max, ends, d + 1, row)
  {
    forall j {:trigger Cell(row, max, j)} | ReadBy(d + 1, j) ensures Cell(row, max, j) == At(ends, d, j) {
      assert InRound(d, j);
    }
  }

  // The loop over common lines.
  method FollowRun(a: seq<FileLine>, b: seq<FileLine>, from: int, k: int) returns (x: int)
    requires 0 <= from && k <= from
    ensures x == Slide(a, b, from, k)
  {
    x := from;
    var y := x - k;
    while x < |a| && y < |b| && a[x].text == b[y].text
      invariant 0 <= x && 0 <= y == x - k
      invariant Slide(a, b, x, k) == Slide(a, b, from, k)
    {
      x := x + 1;
      y := y + 1;
    }
  }

  // One diagonal of one round.
  method SearchDiagonal(a: seq<FileLine>, b: seq<FileLine>, v: array<int>, d: int, k: int, ghost ends: Table)
    returns (x: int)
    requires InRound(d, k) && Greedy(a, b, ends)
    requires RowFor(|a| + |b|, ends, d, v[..]) && WrittenBelow(|a| + |b|, ends, d, k, v[..])
    modifies v
    ensures x == At(ends, d, k)
    ensures RowFor(|a| + |b|, ends, d, v[..]) && WrittenBelow(|a| + |b|, ends, d, k + 2, v[..])
  {
    hide Greedy, Cell, ReadBy, At;
    var lenA, lenB := |a|, |b|;
    ghost var row := v[..];
    StartIsRead(lenA + lenB, ends, d, k, row);
    var i1 := GetIndexV(lenA, lenB, k - 1);
    var i2 := GetIndexV(lenA, lenB, k + 1);
    if k == -d || (k != d && v[i1] < v[i2]) {
      var i := GetIndexV(lenA, lenB, k + 1);
      x := v[i];
    } else {
      var i := GetIndexV(lenA, lenB, k - 1);
      x := v[i] + 1;
    }
    StartIsOnAxis(a, b, ends, d, k);
    x := FollowRun(a, b, x, k);
    var i := GetIndexV(lenA, lenB, k);
    v[i] := x;
    assert v[..] == row[lenA + lenB + k := x];
    WriteKeepsRow(lenA + lenB, ends, d, k, x, row);
    WriteExtends(lenA + lenB, ends, d, k, row);
  }

  // One round of the search: its diagonals in turn, until a point at or past
  // the far corner is found.
  method SearchRound(a: seq<FileLine>, b: seq<FileLine>, v: array<int>, d: int, ghost ends: Table)
    returns (found: bool)
    requires RowFor(|a| + |b|, ends, d, v[..]) && Unreached(a, b, d) && Greedy(a, b, ends)
    modifies v
    ensures RowFor(|a| + |b|, ends, d, v[..])
    ensures found ==> d == Distance(a, b)
    ensures !found ==> WrittenBelow(|a| + |b|, ends, d, d + 2, v[..]) && Unreached(a, b, d + 1)
  {
    var k := -d;
    while k <= d
      invariant -d <= k <= d + 2 && (d + k) % 2 == 0
      invariant RowFor(|a| + |b|, ends, d, v[..]) && WrittenBelow(|a| + |b|, ends, d, k, v[..])
      invariant NoStopBelow(a, b, ends, d, k)
    {
      var x := SearchDiagonal(a, b, v, d, k, ends);
      if x >= |a| && x - k >= |b| {
        FirstStopIsTheCorner(a, b, ends, d, k);
        return true;
      }
      NoStopNext(a, b, ends, d, k);
      k := k + 2;
    }
    NoStopNoCorner(a, b, ends, d);
    return false;
  }

  // Row d of a trace can be replayed, for every round up to the edit distance.
  ghost predicate IsTrace(a: seq<FileLine>, b: seq<FileLine>, trace: seq<seq<int>>)
  {
    && |trace| == Distance(a, b) + 1
    && forall d :: 0 <= d < |trace| ==> RowFor(|a| + |b|, EndsOf(a, b), d, trace[d])
  }

  // In particular the search never runs out of rounds.
  method GetShortestPath(a: seq<FileLine>, b: seq<FileLine>) returns (trace: seq<seq<int>>)
    requires |a| + |b| > 0
    ensures IsTrace(a, b, trace)
  {
    ghost var ends := EndsOf(a, b);
    var max := |a| + |b|;
    var v := new int[2 * max + 1](_ => 0);
    trace := [];
    var d := 0;
    while d <= max
      invariant 0 <= d <= max + 1 && |trace| == d
      invariant Unreached(a, b, d)
      invariant forall e :: 0 <= e < d ==> RowFor(max, ends, e, trace[e])
      invariant d <= max ==> RowFor(max, ends, d, v[..])
    {
      var found := SearchRound(a, b, v, d, ends);
      var temp := v[..];
      trace := trace + [temp];
      if found {
        return trace;
      }
      if d < max {
        NextRoundIsReady(max, ends, d, temp);
      }
      d := d + 1;
    }
    DistanceIsMinimal(a, b);
    assert false;
  }

  // ---------- Replaying the trace ----------

  datatype BacktrackEl = BacktrackEl(prevX: int, prevY: int, x: int, y: int)

  // One move inside the grid: an insertion, a deletion, or a step over a line
  // both files share.
  ghost predicate IsMove(a: seq<FileLine>, b: seq<FileLine>, el: BacktrackEl)
  {
    && 0 <= el.prevX <= el.x <= |a| && 0 <= el.prevY <= el.y <= |b|
    && (|| (el.prevX == el.x && el.prevY == el.y - 1)
        || (el.prevX == el.x - 1 && el.prevY == el.y)
        || (el.prevX == el.x - 1 && el.prevY == el.y - 1 && Matches(a, b, el.prevX, el.prevY)))
  }

  // A connected walk from (x, y) back to the origin.
  ghost predicate IsEditPath(a: seq<FileLine>, b: seq<FileLine>, path: seq<BacktrackEl>, x: int, y: int)
  {
    if path == [] then x == 0 && y == 0
    else
      && path[0].x == x && path[0].y == y && IsMove(a, b, path[0])
      && IsEditPath(a, b, path[1..], path[0].prevX, path[0].prevY)
  }

  // The number of moves that are not diagonal.
  ghost function EditMoves(path: seq<BacktrackEl>): nat
  {
    if path == [] then 0
    else EditMoves(path[1..]) + if path[0].x == path[0].prevX || path[0].y == path[0].prevY then 1 else 0
  }

  // The move by which round d entered (x, y).
  ghost function Entry(ends: Table, d: int, x: int, y: int): BacktrackEl
  {
    if Down(ends, d, x - y) then BacktrackEl(x, y - 1, x, y) else BacktrackEl(x - 1, y, x, y)
  }

  // The walk back from (x, y), a point between the start and the end of round d.
  ghost function BackPath(ends: Table, d: nat, x: int, y: int): seq<BacktrackEl>
    decreases d, x - Start(ends, d, x - y)
  {
    if Start(ends, d, x - y) < x then [BacktrackEl(x - 1, y - 1, x, y)] + BackPath(ends, d, x - 1, y - 1)
    else if d == 0 then []
    else
      var el := Entry(ends, d, x, y);
      [el] + BackPath(ends, d - 1, el.prevX, el.prevY)
  }

  ghost predicate IsEditPathOf(a: seq<FileLine>, b: seq<FileLine>, path: seq<BacktrackEl>, x: int, y: int, edits: int)
  {
    IsEditPath(a, b, path, x, y) && EditMoves(path) == edits
  }

  lemma BackPathUnfolds(ends: Table, d: nat, x: int, y: int)
    ensures BackPath(ends, d, x, y) ==
            if Start(ends, d, x - y) < x then [BacktrackEl(x - 1, y - 1, x, y)] + BackPath(ends, d, x - 1, y - 1)
            else if d == 0 then []
            else [Entry(ends, d, x, y)] + BackPath(ends, d - 1, Entry(ends, d, x, y).prevX, Entry(ends, d, x, y).prevY)
  {
  }

  lemma {:induction false} BackPathIsEditPath(a: seq<FileLine>, b: seq<FileLine>, ends: Table, d: nat, x: int, y: int)
    requires d <= |a| + |b|
    requires Greedy(a, b, ends) && InRound(d, x - y) && Start(ends, d, x - y) <= x <= At(ends, d, x - y)
    requires x <= |a| && y <= |b|
    ensures IsEditPathOf(a, b, BackPath(ends, d, x, y), x, y, d)
    decreases d, x - Start(ends, d, x - y)
  {
    hide BackPath, IsEditPathOf, Greedy, At;
    var k := x - y;
    BackPathUnfolds(ends, d, x, y);
    StartIsOnAxis(a, b, ends, d, k);
    if Start(ends, d, k) < x {
      assert OnRun(a, b, x - 1, k);
      BackPathIsEditPath(a, b, ends, d, x - 1, y - 1);
      ExtendEditPath(a, b, BacktrackEl(x - 1, y - 1, x, y), BackPath(ends, d, x - 1, y - 1), d);
    } else if d > 0 {
      var el := Entry(ends, d, x, y);
      EntryIsMove(a, b, ends, d, x, y);
      BackPathIsEditPath(a, b, ends, d - 1, el.prevX, el.prevY);
      ExtendEditPath(a, b, el, BackPath(ends, d - 1, el.prevX, el.prevY), d - 1);
    } else {
      FirstStart(ends);
      EmptyEditPath(a, b);
    }
  }

  lemma FirstStart(ends: Table)
    ensures Start(ends, 0, 0) == 0
  {
  }

  lemma EmptyEditPath(a: seq<FileLine>, b: seq<FileLine>)
    ensures IsEditPathOf(a, b, [], 0, 0, 0)
  {
  }

  // Round d was entered from the end of the round before it.
  lemma EntryIsMove(a: seq<FileLine>, b: seq<FileLine>, ends: Table, d: nat, x: int, y: int)
    requires 0 < d <= |a| + |b| && Greedy(a, b, ends) && InRound(d, x - y)
    requires x == Start(ends, d, x - y) && x <= |a| && y <= |b|
    ensures var el := Entry(ends, d, x, y);
            var k := el.prevX - el.prevY;
            && IsMove(a, b, el) && (el.prevX == el.x || el.prevY == el.y)
            && InRound(d - 1, k) && Start(ends, d - 1, k) <= el.prevX == At(ends, d - 1, k)
  {
    var el := Entry(ends, d, x, y);
    StartIsOnAxis(a, b, ends, d - 1, el.prevX - el.prevY);
  }

  lemma ExtendEditPath(a: seq<FileLine>, b: seq<FileLine>, el: BacktrackEl, rest: seq<BacktrackEl>, edits: int)
    requires IsMove(a, b, el) && IsEditPathOf(a, b, rest, el.prevX, el.prevY, edits)
    ensures IsEditPathOf(a, b, [el] + rest, el.x, el.y, edits + if el.prevX < el.x && el.prevY < el.y then 0 else 1)
  {
    assert ([el] + rest)[1..] == rest;
  }

  // Round Distance ends exactly on the far corner.
  lemma LastRoundEndsAtTheCorner(a: seq<FileLine>, b: seq<FileLine>, ends: Table)
    requires Greedy(a, b, ends)
    ensures var d, k := Distance(a, b), |a| - |b|;
            InRound(d, k) && Start(ends, d, k) <= At(ends, d, k) == |a|
  {
    DistanceIsMinimal(a, b);
    EndsAreFurthest(a, b, ends, Distance(a, b), |a|, |b|);
    FirstStopIsTheCorner(a, b, ends, Distance(a, b), |a| - |b|);
    StartIsOnAxis(a, b, ends, Distance(a, b), |a| - |b|);
  }

  // The walk the differ reports for two files.
  ghost function ShortestPath(a: seq<FileLine>, b: seq<FileLine>): seq<BacktrackEl>
  {
    DistanceIsMinimal(a, b);
    BackPath(EndsOf(a, b), Distance(a, b), |a|, |b|)
  }

  lemma ShortestPathIsShortest(a: seq<FileLine>, b: seq<FileLine>)
    ensures IsEditPathOf(a, b, ShortestPath(a, b), |a|, |b|, Distance(a, b))
  {
    LastRoundEndsAtTheCorner(a, b, EndsOf(a, b));
    BackPathIsEditPath(a, b, EndsOf(a, b), Distance(a, b), |a|, |b|);
  }

  // What is left of the walk once path has been emitted.
  ghost predicate Completes(path: seq<BacktrackEl>, ends: Table, d: nat, x: int, y: int, whole: seq<BacktrackEl>)
  {
    path + BackPath(ends, d, x, y) == whole
  }

  lemma EmitDiagonal(path: seq<BacktrackEl>, ends: Table, d: nat, x: int, y: int, whole: seq<BacktrackEl>)
    requires Completes(path, ends, d, x, y, whole) && Start(ends, d, x - y) < x
    ensures Completes(path + [BacktrackEl(x - 1, y - 1, x, y)], ends, d, x - 1, y - 1, whole)
  {
    Regroup(path, BacktrackEl(x - 1, y - 1, x, y), BackPath(ends, d, x - 1, y - 1));
  }

  lemma EmitEntry(path: seq<BacktrackEl>, ends: Table, d: nat, x: int, y: int, el: BacktrackEl, whole: seq<BacktrackEl>)
    requires Completes(path, ends, d, x, y, whole) && Start(ends, d, x - y) == x
    requires d > 0 && el == Entry(ends, d, x, y)
    ensures Completes(path + [el], ends, d - 1, el.prevX, el.prevY, whole)
  {
    Regroup(path, el, BackPath(ends, d - 1, el.prevX, el.prevY));
  }

  lemma EmitNothing(path: seq<BacktrackEl>, ends: Table, x: int, y: int, whole: seq<BacktrackEl>)
    requires Completes(path, ends, 0, x, y, whole) && Start(ends, 0, x - y) == x
    ensures path == whole
  {
  }

  // What one row of the trace adds to the walk, and the point where the round
  // before it ended.
  method BacktrackRound(lenA: nat, lenB: nat, v: seq<int>, d: int, fromX: int, fromY: int,
                        before: seq<BacktrackEl>, ghost ends: Table, ghost whole: seq<BacktrackEl>)
    returns (path: seq<BacktrackEl>, prevX: int, prevY: int)
    requires InRound(d, fromX - fromY) && RowFor(lenA + lenB, ends, d, v)
    requires Start(ends, d, fromX - fromY) <= fromX
    requires Completes(before, ends, d, fromX, fromY, whole)
    ensures d > 0 ==> Resumes(ends, d - 1, prevX, prevY, path, whole)
    ensures d == 0 ==> path == whole
  {
    hide Completes;
    path := before;
    var x, y := fromX, fromY;
    var k := x - y;
    var prevK;
    var j1 := GetIndexV(lenA, lenB, k - 1);
    var j2 := GetIndexV(lenA, lenB, k + 1);
    StartIsRead(lenA + lenB, ends, d, k, v);
    if k == -d || (k != d && v[j1] < v[j2]) {
      prevK := k + 1;
    } else {
      prevK := k - 1;
    }
    var j := GetIndexV(lenA, lenB, prevK);
    prevX := v[j];
    prevY := prevX - prevK;
    ghost var s := Start(ends, d, k);
    assert (prevX == s && prevY == s - k - 1) || (prevX == s - 1 && prevY == s - k);
    while x > prevX && y > prevY
      invariant x - y == k && s <= x
      invariant Completes(path, ends, d, x, y, whole)
      decreases x - s
    {
      EmitDiagonal(path, ends, d, x, y, whole);
      path := path + [BacktrackEl(x - 1, y - 1, x, y)];
      x, y := x - 1, y - 1;
    }
    if d == 0 {
      EmitNothing(path, ends, x, y, whole);
    }
    if d > 0 {
      EmitEntry(path, ends, d, x, y, BacktrackEl(prevX, prevY, x, y), whole);
      path := path + [BacktrackEl(prevX, prevY, x, y)];
    }
  }

  // (x, y) is the end of round d, and the walk from there completes path.
  ghost predicate Resumes(ends: Table, d: int, x: int, y: int, path: seq<BacktrackEl>, whole: seq<BacktrackEl>)
  {
    d >= 0 && InRound(d, x - y) && x == At(ends, d, x - y) && Completes(path, ends, d, x, y, whole)
  }

  method Backtrack(a: seq<FileLine>, b: seq<FileLine>, trace: seq<seq<int>>) returns (path: seq<BacktrackEl>)
    requires |a| + |b| > 0 && IsTrace(a, b, trace)
    ensures path == ShortestPath(a, b)
  {
    ghost var ends := EndsOf(a, b);
    ghost var whole := ShortestPath(a, b);
    LastRoundEndsAtTheCorner(a, b, ends);
    var x, y := |a|, |b|;
    var trLen := |trace|;
    path := [];
    var i := 0;
    while i < trLen
      invariant 0 <= i <= trLen
      invariant i < trLen ==> Resumes(ends, trLen - i - 1, x, y, path, whole)
      invariant i == trLen ==> path == whole
    {
      var d := trLen - i - 1;
      StartIsOnAxis(a, b, ends, d, x - y);
      path, x, y := BacktrackRound(|a|, |b|, trace[d], d, x, y, path, ends, whole);
      i := i + 1;
    }
  }
}
