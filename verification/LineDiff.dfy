// Edit records.  The differ lists them last line first; read backwards they are
// a script that turns the old file into the new one, and the lines it keeps are
// the matches the three-way merge is built on.

module LineDiff {
  import opened EditGraph
  import opened MyersDiffer

  datatype FileDiff = Ins(lineB: FileLine) | Del(lineA: FileLine) | Eql(lineA: FileLine, lineB: FileLine)

  // ---------- What a list of records means ----------

  // The lines the records take from the old and from the new file, first line first.
  ghost function OldSide(diff: seq<FileDiff>): seq<FileLine>
  {
    if diff == [] then [] else OldSide(diff[1..]) + if diff[0].Ins? then [] else [diff[0].lineA]
  }

  ghost function NewSide(diff: seq<FileDiff>): seq<FileLine>
  {
    if diff == [] then [] else NewSide(diff[1..]) + if diff[0].Del? then [] else [diff[0].lineB]
  }

  ghost function Edits(diff: seq<FileDiff>): nat
  {
    if diff == [] then 0 else Edits(diff[1..]) + if diff[0].Eql? then 0 else 1
  }

  // The records replay the first x lines of a into the first y lines of b.
  ghost predicate Replays(a: seq<FileLine>, b: seq<FileLine>, diff: seq<FileDiff>, x: nat, y: nat)
  {
    && x <= |a| && y <= |b|
    && OldSide(diff) == a[..x] && NewSide(diff) == b[..y]
    && forall i :: 0 <= i < |diff| && diff[i].Eql? ==> diff[i].lineA.text == diff[i].lineB.text
  }

  // The last line of a replayed prefix is the last record's.
  lemma ReplaysTail(a: seq<FileLine>, b: seq<FileLine>, diff: seq<FileDiff>, x: nat, y: nat)
    requires Replays(a, b, diff, x, y) && diff != []
    ensures var el := diff[0];
            var x', y' := x - (if el.Ins? then 0 else 1), y - (if el.Del? then 0 else 1);
            && x' >= 0 && y' >= 0 && Replays(a, b, diff[1..], x', y')
            && (!el.Ins? ==> el.lineA == a[x']) && (!el.Del? ==> el.lineB == b[y'])
            && (el.Eql? ==> Matches(a, b, x', y'))
  {
    var el := diff[0];
    var olds, news := OldSide(diff[1..]), NewSide(diff[1..]);
    if !el.Ins? {
      assert olds == (olds + [el.lineA])[..x - 1] == a[..x][..x - 1];
      assert el.lineA == (olds + [el.lineA])[x - 1];
    }
    if !el.Del? {
      assert news == (news + [el.lineB])[..y - 1] == b[..y][..y - 1];
      assert el.lineB == (news + [el.lineB])[y - 1];
    }
  }

  // Any script, however found, is a walk through the edit graph, so none is
  // shorter than the edit distance.
  lemma {:induction false} ReplaysReaches(a: seq<FileLine>, b: seq<FileLine>, diff: seq<FileDiff>, x: nat, y: nat)
    requires Replays(a, b, diff, x, y)
    ensures Reach(a, b, Edits(diff), x, y)
  {
    if diff == [] {
    } else {
      ReplaysTail(a, b, diff, x, y);
      var el := diff[0];
      ReplaysReaches(a, b, diff[1..], x - (if el.Ins? then 0 else 1), y - (if el.Del? then 0 else 1));
    }
  }

  lemma NoScriptIsShorter(a: seq<FileLine>, b: seq<FileLine>, diff: seq<FileDiff>)
    requires Replays(a, b, diff, |a|, |b|)
    ensures Edits(diff) >= Distance(a, b)
  {
    ReplaysReaches(a, b, diff, |a|, |b|);
    DistanceIsMinimal(a, b);
  }

  // ---------- Diff ----------

  // The record of one move; a line the move does not have stays the zero line.
  function Record(a: seq<FileLine>, b: seq<FileLine>, el: BacktrackEl): FileDiff
    requires 0 <= el.prevX && 0 <= el.prevY
  {
    var lineA := if el.prevX < |a| then a[el.prevX] else FileLine(0, "");
    var lineB := if el.prevY < |b| then b[el.prevY] else FileLine(0, "");
    if el.x == el.prevX then Ins(lineB)
    else if el.y == el.prevY then Del(lineA)
    else Eql(lineA, lineB)
  }

  ghost predicate InGrid(path: seq<BacktrackEl>)
  {
    forall i :: 0 <= i < |path| ==> 0 <= path[i].prevX && 0 <= path[i].prevY
  }

  ghost function Records(a: seq<FileLine>, b: seq<FileLine>, path: seq<BacktrackEl>): seq<FileDiff>
    requires InGrid(path)
  {
    if path == [] then [] else [Record(a, b, path[0])] + Records(a, b, path[1..])
  }

  lemma {:induction false} RecordsAppend(a: seq<FileLine>, b: seq<FileLine>, path: seq<BacktrackEl>, el: BacktrackEl)
    requires InGrid(path) && 0 <= el.prevX && 0 <= el.prevY
    ensures Records(a, b, path + [el]) == Records(a, b, path) + [Record(a, b, el)]
  {
    if path == [] {
    } else {
      RecordsAppend(a, b, path[1..], el);
      assert (path + [el])[1..] == path[1..] + [el];
    }
  }

  lemma {:induction false} EditPathInGrid(a: seq<FileLine>, b: seq<FileLine>, path: seq<BacktrackEl>, x: int, y: int)
    requires IsEditPath(a, b, path, x, y)
    ensures InGrid(path)
  {
    if path != [] {
      EditPathInGrid(a, b, path[1..], path[0].prevX, path[0].prevY);
      forall i | 0 <= i < |path| ensures 0 <= path[i].prevX && 0 <= path[i].prevY {
        assert i > 0 ==> path[i] == path[1..][i - 1];
      }
    }
  }

  // The records of an edit path replay it, one edit per edit move.
  lemma {:induction false} RecordsReplay(a: seq<FileLine>, b: seq<FileLine>, path: seq<BacktrackEl>, x: int, y: int)
    requires IsEditPath(a, b, path, x, y) && InGrid(path)
    ensures 0 <= x && 0 <= y && Replays(a, b, Records(a, b, path), x, y)
    ensures Edits(Records(a, b, path)) == EditMoves(path)
  {
    if path != [] {
      var el := path[0];
      var rest := Records(a, b, path[1..]);
      RecordsReplay(a, b, path[1..], el.prevX, el.prevY);
      assert ([Record(a, b, el)] + rest)[1..] == rest;
      assert x == el.prevX + 1 ==> a[..x] == a[..el.prevX] + [a[el.prevX]];
      assert y == el.prevY + 1 ==> b[..y] == b[..el.prevY] + [b[el.prevY]];
    }
  }

  // The list of records the differ returns for two files.
  ghost function DiffOf(a: seq<FileLine>, b: seq<FileLine>): seq<FileDiff>
  {
    ShortestPathIsShortest(a, b);
    EditPathInGrid(a, b, ShortestPath(a, b), |a|, |b|);
    Records(a, b, ShortestPath(a, b))
  }

  // It turns a into b, with as few insertions and deletions as any script.
  lemma DiffIsShortestScript(a: seq<FileLine>, b: seq<FileLine>)
    ensures Replays(a, b, DiffOf(a, b), |a|, |b|)
    ensures OldSide(DiffOf(a, b)) == a && NewSide(DiffOf(a, b)) == b
    ensures Edits(DiffOf(a, b)) == Distance(a, b)
    ensures forall other :: Replays(a, b, other, |a|, |b|) ==> Edits(DiffOf(a, b)) <= Edits(other)
  {
    ShortestPathIsShortest(a, b);
    EditPathInGrid(a, b, ShortestPath(a, b), |a|, |b|);
    RecordsReplay(a, b, ShortestPath(a, b), |a|, |b|);
    assert a[..|a|] == a && b[..|b|] == b;
    forall other | Replays(a, b, other, |a|, |b|) ensures Edits(DiffOf(a, b)) <= Edits(other) {
      NoScriptIsShorter(a, b, other);
    }
  }

  method Diff(a: seq<FileLine>, b: seq<FileLine>) returns (diff: seq<FileDiff>)
    requires |a| + |b| > 0
    ensures diff == DiffOf(a, b)
  {
    var trace := GetShortestPath(a, b);
    var path := Backtrack(a, b, trace);
    ShortestPathIsShortest(a, b);
    EditPathInGrid(a, b, path, |a|, |b|);
    diff := [];
    for i := 0 to |path|
      invariant diff == Records(a, b, path[..i])
    {
      var res := path[i];
      diff := diff + [Record(a, b, res)];
      RecordsAppend(a, b, path[..i], res);
      assert path[..i] + [res] == path[..i + 1];
    }
    assert path[..|path|] == path;
  }

  // ---------- Matches ----------

  // Lines carry their own position, as the reader of a file numbers them.
  ghost predicate Numbered(lines: seq<FileLine>)
  {
    forall i :: 0 <= i < |lines| ==> lines[i].number == i
  }

  ghost function MatchesOf(diff: seq<FileDiff>): map<int, int>
  {
    if diff == [] then map[]
    else if diff[0].Eql? then map[diff[0].lineA.number := diff[0].lineB.number] + MatchesOf(diff[1..])
    else MatchesOf(diff[1..])
  }

  method GetMatches(fd: seq<FileDiff>) returns (matches: map<int, int>)
    ensures matches == MatchesOf(fd)
  {
    matches := map[];
    for i := 0 to |fd|
      invariant matches + MatchesOf(fd[i..]) == MatchesOf(fd)
    {
      var el := fd[i];
      assert fd[i..][1..] == fd[i + 1..];
      if el.Eql? {
        matches := matches[el.lineA.number := el.lineB.number];
      }
    }
  }

  // A matching of the first x lines of a with the first y lines of b: a strictly
  // increasing partial map between lines of equal text.
  ghost predicate IsMatching(a: seq<FileLine>, b: seq<FileLine>, m: map<int, int>, x: int, y: int)
  {
    && (forall i :: i in m ==> i < x && m[i] < y && Matches(a, b, i, m[i]))
    && (forall i, j :: i in m && j in m && i < j ==> m[i] < m[j])
  }

  lemma ExtendMatching(a: seq<FileLine>, b: seq<FileLine>, m: map<int, int>, x: int, y: int)
    requires IsMatching(a, b, m, x, y) && Matches(a, b, x, y)
    ensures IsMatching(a, b, m[x := y], x + 1, y + 1) && |m[x := y]| == |m| + 1
  {
    assert x !in m;
  }

  lemma {:induction false} ScriptMatches(a: seq<FileLine>, b: seq<FileLine>, diff: seq<FileDiff>, x: nat, y: nat)
    requires Numbered(a) && Numbered(b) && Replays(a, b, diff, x, y)
    ensures IsMatching(a, b, MatchesOf(diff), x, y)
    ensures 2 * |MatchesOf(diff)| + Edits(diff) == x + y
  {
    if diff == [] {
    } else {
      ReplaysTail(a, b, diff, x, y);
      var el, rest := diff[0], MatchesOf(diff[1..]);
      var x', y' := x - (if el.Ins? then 0 else 1), y - (if el.Del? then 0 else 1);
      ScriptMatches(a, b, diff[1..], x', y');
      if el.Eql? {
        ExtendMatching(a, b, rest, x', y');
        assert MatchesOf(diff) == rest[x' := y'];
      }
    }
  }

  // The matches of a diff: strictly increasing, between equal lines, and as many
  // as a longest common subsequence has.
  lemma DiffMatches(a: seq<FileLine>, b: seq<FileLine>)
    requires Numbered(a) && Numbered(b)
    ensures IsMatching(a, b, MatchesOf(DiffOf(a, b)), |a|, |b|)
    ensures |MatchesOf(DiffOf(a, b))| == Lcs(a, b, |a|, |b|)
  {
    DiffIsShortestScript(a, b);
    ScriptMatches(a, b, DiffOf(a, b), |a|, |b|);
  }

  // m pairs every one of the first x lines with itself, and nothing else.
  ghost predicate IsIdentity(m: map<int, int>, x: int)
  {
    forall i :: (i in m <==> 0 <= i < x) && (i in m ==> m[i] == i)
  }

  lemma {:induction false} NoEditsIsIdentity(a: seq<FileLine>, diff: seq<FileDiff>, x: nat)
    requires Numbered(a) && Replays(a, a, diff, x, x) && Edits(diff) == 0
    ensures IsIdentity(MatchesOf(diff), x)
  {
    if diff == [] {
    } else {
      ReplaysTail(a, a, diff, x, x);
      NoEditsIsIdentity(a, diff[1..], x - 1);
    }
  }

  lemma {:induction false} LcsOfEqual(a: seq<FileLine>, x: nat)
    requires x <= |a|
    ensures Lcs(a, a, x, x) == x
  {
    if x > 0 {
      LcsOfEqual(a, x - 1);
    }
  }

  // A file diffed with itself matches every line with itself.
  lemma SelfMatches(a: seq<FileLine>)
    requires Numbered(a)
    ensures IsIdentity(MatchesOf(DiffOf(a, a)), |a|)
  {
    LcsOfEqual(a, |a|);
    DiffIsShortestScript(a, a);
    NoEditsIsIdentity(a, DiffOf(a, a), |a|);
  }
}
