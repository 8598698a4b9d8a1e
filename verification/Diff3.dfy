// The three-way merge as it runs: read and number the lines, diff base against
// each side, walk the three files chunk by chunk, and decide each chunk.

module Diff3Merge {
  import opened EditGraph
  import opened LineDiff
  import opened ThreeWayMerge
  import opened Wrappers

  // The merge of three files given as lines, or the crash of the differ on two
  // empty files.
  datatype MergeOutcome = Merged(pieces: seq<Piece>, conflicts: int) | IndexOutOfRange

  ghost function Number(texts: seq<string>): (lines: seq<FileLine>)
    ensures Numbered(lines) && Texts(lines) == texts
  {
    var lines := seq(|texts|, i requires 0 <= i < |texts| => FileLine(i, texts[i]));
    assert Texts(lines) == texts;
    lines
  }

  method GetFileLines(texts: seq<string>) returns (res: seq<FileLine>)
    ensures res == Number(texts)
  {
    res := [];
    for i := 0 to |texts|
      invariant |res| == i && forall j :: 0 <= j < i ==> res[j] == FileLine(j, texts[j])
    {
      res := res + [FileLine(i, texts[i])];
    }
  }

  ghost function MatchesBetween(base: seq<FileLine>, side: seq<FileLine>): map<int, int>
  {
    MatchesOf(DiffOf(base, side))
  }

  lemma DiffIsTextMatching(base: seq<FileLine>, side: seq<FileLine>)
    requires Numbered(base) && Numbered(side)
    ensures TextMatching(MatchesBetween(base, side), Texts(base), Texts(side))
  {
    DiffMatches(base, side);
  }

  // The pair of matchings the merge walks.
  ghost predicate CanMerge(base: seq<FileLine>, a: seq<FileLine>, b: seq<FileLine>)
  {
    Mergeable(Files(Texts(base), Texts(a), Texts(b)), MatchesBetween(base, a), MatchesBetween(base, b))
  }

  ghost function ChunksOf(base: seq<FileLine>, a: seq<FileLine>, b: seq<FileLine>): seq<Chunk>
    requires CanMerge(base, a, b)
  {
    AllChunks(Files(Texts(base), Texts(a), Texts(b)), MatchesBetween(base, a), MatchesBetween(base, b))
  }

  ghost function MergeOf(base: seq<string>, a: seq<string>, b: seq<string>): MergeOutcome
  {
    if base == [] && (a == [] || b == []) then IndexOutOfRange
    else
      DiffIsTextMatching(Number(base), Number(a));
      DiffIsTextMatching(Number(base), Number(b));
      var f := Files(base, a, b);
      var chunks := ChunksOf(Number(base), Number(a), Number(b));
      Merged(Output(f, chunks), Conflicts(f, chunks))
  }

  // ---------- The laws of the whole merge ----------

  // A side that is base leaves the other side, without conflicts, whenever the
  // differ survives: it is never given two empty files.
  lemma MergeWithBaseOnTheirs(base: seq<string>, x: seq<string>)
    ensures MergeOf(base, x, base) == Merged(Plain(x), 0) <==> base != []
  {
    if base != [] {
      var nb, nx := Number(base), Number(x);
      var f := Files(base, x, base);
      var mA, mB := MatchesBetween(nb, nx), MatchesBetween(nb, nb);
      DiffIsTextMatching(nb, nx);
      DiffIsTextMatching(nb, nb);
      SelfMatches(nb);
      IdentityKeepsPace(f, mA, mB, ORIGIN);
      ChunksCoverFiles(f, mA, mB);
      OutputIsOurs(f, AllChunks(f, mA, mB));
    }
  }

  lemma MergeWithBaseOnOurs(base: seq<string>, x: seq<string>)
    ensures MergeOf(base, base, x) == Merged(Plain(x), 0) <==> base != []
  {
    if base != [] {
      MergeWithBaseOnTheirs(base, x);
      SwapMergeOf(base, x, base);
      assert SwapPieces(Plain(x)) == Plain(x);
    }
  }

  // A change both sides made is taken once.
  lemma MergeSameChange(base: seq<string>, x: seq<string>)
    ensures MergeOf(base, x, x) == Merged(Plain(x), 0) <==> base != [] || x != []
  {
    if base != [] || x != [] {
      var nb, nx := Number(base), Number(x);
      var f := Files(base, x, x);
      var m := MatchesBetween(nb, nx);
      DiffIsTextMatching(nb, nx);
      SameMatchingKeepsPace(f, m, ORIGIN);
      ChunksCoverFiles(f, m, m);
      OutputIsOurs(f, AllChunks(f, m, m));
    }
  }

  ghost function SwapOutcome(r: MergeOutcome): MergeOutcome
  {
    if r.Merged? then Merged(SwapPieces(r.pieces), r.conflicts) else r
  }

  // Exchanging ours and theirs exchanges the halves of the conflict blocks.
  lemma SwapMergeOf(base: seq<string>, a: seq<string>, b: seq<string>)
    ensures MergeOf(base, b, a) == SwapOutcome(MergeOf(base, a, b))
  {
    if !(base == [] && (a == [] || b == [])) {
      var nb, na, nc := Number(base), Number(a), Number(b);
      DiffIsTextMatching(nb, na);
      DiffIsTextMatching(nb, nc);
      SwapMerge(Files(base, a, b), MatchesBetween(nb, na), MatchesBetween(nb, nc));
    }
  }

  // The count returned is the number of conflict blocks written.
  lemma CountIsBlocks(base: seq<string>, a: seq<string>, b: seq<string>)
    ensures var r := MergeOf(base, a, b); r.Merged? ==> r.conflicts == Blocks(r.pieces)
  {
    if !(base == [] && (a == [] || b == [])) {
      DiffIsTextMatching(Number(base), Number(a));
      DiffIsTextMatching(Number(base), Number(b));
      ConflictsAreBlocks(Files(base, a, b), ChunksOf(Number(base), Number(a), Number(b)));
    }
  }

  // A merge without conflicts does not depend on which side is which.
  lemma CleanMergeIsSymmetric(base: seq<string>, a: seq<string>, b: seq<string>)
    requires MergeOf(base, a, b).Merged? && MergeOf(base, a, b).conflicts == 0
    ensures MergeOf(base, b, a) == MergeOf(base, a, b)
  {
    var r := MergeOf(base, a, b);
    SwapMergeOf(base, a, b);
    CountIsBlocks(base, a, b);
    NoBlocksIff(r.pieces);
    assert SwapPieces(r.pieces) == r.pieces;
  }

  // The chunks of every merge cover the three files exactly; stable ones agree, and
  // unstable ones hold no base line that both sides match.
  lemma MergeChunks(base: seq<string>, a: seq<string>, b: seq<string>)
    ensures var nb, na, nc := Number(base), Number(a), Number(b);
            && CanMerge(nb, na, nc)
            && Joined(Files(base, a, b), ChunksOf(nb, na, nc)) == Files(base, a, b)
            && StableAgree(Files(base, a, b), ChunksOf(nb, na, nc))
            && Alternates(ChunksOf(nb, na, nc))
            && UnstableUnmatched(MatchesBetween(nb, na), MatchesBetween(nb, nc), ChunksOf(nb, na, nc))
  {
    var nb, na, nc := Number(base), Number(a), Number(b);
    DiffIsTextMatching(nb, na);
    DiffIsTextMatching(nb, nc);
    hide TextMatching, Joined, StableAgree, Alternates, UnstableUnmatched, AllChunks, MatchesBetween;
    ChunksAreWhole(Files(Texts(nb), Texts(na), Texts(nc)), MatchesBetween(nb, na), MatchesBetween(nb, nc));
  }

  // One pass over base gives the same output: lines matched on both sides are
  // written, and what lies between two of them is decided by itself.
  lemma MergeIsByGaps(base: seq<string>, a: seq<string>, b: seq<string>)
    requires MergeOf(base, a, b).Merged?
    ensures var mA, mB := MatchesBetween(Number(base), Number(a)), MatchesBetween(Number(base), Number(b));
            MergeOf(base, a, b).pieces == MergeByGaps(Files(base, a, b), mA, mB, ORIGIN, 0)
  {
    DiffIsTextMatching(Number(base), Number(a));
    DiffIsTextMatching(Number(base), Number(b));
    ChunksMergeByGaps(Files(base, a, b), MatchesBetween(Number(base), Number(a)), MatchesBetween(Number(base), Number(b)), ORIGIN);
  }

  // So changes on the two sides that are separated by a line matched on both merge
  // without a conflict, and only changes that are not do conflict.
  lemma MergeIsCleanIff(base: seq<string>, a: seq<string>, b: seq<string>)
    requires MergeOf(base, a, b).Merged?
    ensures var f, mA, mB := Files(base, a, b), MatchesBetween(Number(base), Number(a)), MatchesBetween(Number(base), Number(b));
            MergeOf(base, a, b).conflicts == 0 <==>
            forall from, to :: IsGap(f, mA, mB, from, to) ==> !GapConflicts(f, from, to)
  {
    DiffIsTextMatching(Number(base), Number(a));
    DiffIsTextMatching(Number(base), Number(b));
    CleanIffGapsAgree(Files(base, a, b), MatchesBetween(Number(base), Number(a)), MatchesBetween(Number(base), Number(b)));
  }

  // A conflict block holds the ours block of a chunk first, its theirs block second.
  lemma ConflictHalves(base: seq<string>, a: seq<string>, b: seq<string>, k: nat)
    requires var r := MergeOf(base, a, b); r.Merged? && k < |r.pieces| && r.pieces[k].Conflict?
    ensures var f, nb, na, nc := Files(base, a, b), Number(base), Number(a), Number(b);
            && CanMerge(nb, na, nc)
            && exists c ::
                 && c in ChunksOf(nb, na, nc) && Conflicting(f, c)
                 && MergeOf(base, a, b).pieces[k] == Conflict(OursBlock(f, c), TheirsBlock(f, c))
  {
    DiffIsTextMatching(Number(base), Number(a));
    DiffIsTextMatching(Number(base), Number(b));
    HalvesAreBlocks(Files(base, a, b), ChunksOf(Number(base), Number(a), Number(b)), k);
  }

  // ---------- One side of a chunk ----------

  // The lines of a side that writeChunk has collected when it is at line j of it,
  // having compared those that have a base line beside them.
  ghost predicate Collected(base: seq<string>, side: seq<string>, fromBase: int, toBase: int, from: int, j: int,
                            block: seq<string>, notEql: seq<FileLine>)
  {
    && 0 <= fromBase <= toBase <= |base| && 0 <= from <= j <= |side|
    && block == side[from..j]
    && (notEql == [] <==> j - from <= toBase - fromBase && base[fromBase..fromBase + (j - from)] == block)
  }

  lemma CollectCompared(base: seq<string>, side: seq<string>, fromBase: int, toBase: int, from: int, j: int,
                        block: seq<string>, notEql: seq<FileLine>, line: FileLine)
    requires Collected(base, side, fromBase, toBase, from, j, block, notEql)
    requires j < |side| && line.text == side[j] && fromBase + (j - from) < toBase
    ensures Collected(base, side, fromBase, toBase, from, j + 1, block + [line.text],
                      if base[fromBase + (j - from)] != line.text then notEql + [line] else notEql)
  {
    var i := fromBase + (j - from);
    assert base[fromBase..i + 1] == base[fromBase..i] + [base[i]];
    assert block + [line.text] == side[from..j + 1];
    assert base[fromBase..i + 1][..i - fromBase] == base[fromBase..i];
    assert (block + [line.text])[..j - from] == block;
    assert base[fromBase..i + 1][i - fromBase] == base[i];
    assert (block + [line.text])[j - from] == line.text;
  }

  lemma CollectExtra(base: seq<string>, side: seq<string>, fromBase: int, toBase: int, from: int, j: int,
                     block: seq<string>, notEql: seq<FileLine>, line: FileLine)
    requires Collected(base, side, fromBase, toBase, from, j, block, notEql)
    requires j < |side| && line.text == side[j] && j - from >= toBase - fromBase
    ensures Collected(base, side, fromBase, toBase, from, j + 1, block + [line.text], notEql + [line])
  {
    assert block + [line.text] == side[from..j + 1];
  }

  // The test writeChunk makes is equality of the two blocks.
  lemma EqualityTest(base: seq<string>, side: seq<string>, fromBase: int, toBase: int, from: int, to: int,
                     block: seq<string>, notEql: seq<FileLine>)
    requires Collected(base, side, fromBase, toBase, from, to, block, notEql)
    ensures var lenBase, len := toBase - fromBase, to - from;
            ((lenBase < 1 && len < 1) || (lenBase == len && from != to && |notEql| == 0)) <==> block == base[fromBase..toBase]
  {
  }

  // The line of a side that is reached after n base lines.
  ghost function BesideBase(n: int, from: int, to: int): int
  {
    if n < to - from then from + n else to
  }

  // A side when the comparison with base has reached base line i.
  ghost predicate Beside(base: seq<FileLine>, side: seq<FileLine>, fromBase: int, toBase: int, i: int,
                         from: int, to: int, j: int, block: seq<string>, notEql: seq<FileLine>)
  {
    && from <= to <= |side| && j == BesideBase(i - fromBase, from, to)
    && Collected(Texts(base), Texts(side), fromBase, toBase, from, j, block, notEql)
  }

  // Takes the next line of a side, if it has one beside base line i.
  method CollectLine(base: seq<FileLine>, side: seq<FileLine>, ghost fromBase: int, ghost toBase: int, i: int,
                     ghost from: int, to: int, j: int, block: seq<string>, notEql: seq<FileLine>)
    returns (j': int, block': seq<string>, notEql': seq<FileLine>)
    requires Beside(base, side, fromBase, toBase, i, from, to, j, block, notEql)
    requires fromBase <= i < toBase
    ensures Beside(base, side, fromBase, toBase, i + 1, from, to, j', block', notEql')
  {
    j', block', notEql' := j, block, notEql;
    if j < to {
      var baseLine, line := base[i], side[j];
      if baseLine.text != line.text {
        notEql' := notEql' + [line];
      }
      block' := block + [line.text];
      j' := j + 1;
      CollectCompared(Texts(base), Texts(side), fromBase, toBase, from, j, block, notEql, line);
    }
  }

  // Takes the lines of a side that have no base line beside them.
  method CollectRest(ghost base: seq<FileLine>, side: seq<FileLine>, ghost fromBase: int, ghost toBase: int,
                     ghost from: int, start: int, to: int, block: seq<string>, notEql: seq<FileLine>)
    returns (block': seq<string>, notEql': seq<FileLine>)
    requires Beside(base, side, fromBase, toBase, toBase, from, to, start, block, notEql)
    ensures Collected(Texts(base), Texts(side), fromBase, toBase, from, to, block', notEql')
  {
    block', notEql' := block, notEql;
    var j := start;
    while j < to
      invariant start <= j <= to
      invariant Collected(Texts(base), Texts(side), fromBase, toBase, from, j, block', notEql')
    {
      var line := side[j];
      CollectExtra(Texts(base), Texts(side), fromBase, toBase, from, j, block', notEql', line);
      notEql' := notEql' + [line];
      block' := block' + [line.text];
      j := j + 1;
    }
  }

  method IsBlockEqual(blA: seq<string>, blB: seq<string>) returns (equal: bool)
    ensures equal <==> blA == blB
  {
    if |blA| != |blB| {
      return false;
    }
    for i := 0 to |blA|
      invariant forall j :: 0 <= j < i ==> blA[j] == blB[j]
    {
      if blA[i] != blB[i] {
        return false;
      }
    }
    return true;
  }

  method WriteBlock(bl: seq<string>) returns (out: seq<Piece>)
    ensures out == Plain(bl)
  {
    out := [];
    for i := 0 to |bl|
      invariant |out| == i && forall j :: 0 <= j < i ==> out[j] == Line(bl[j])
    {
      out := out + [Line(bl[i])];
    }
  }

  // ---------- The merge ----------

  class Diff3 {
    var diffA: seq<FileDiff>
    var diffB: seq<FileDiff>
    var base: seq<FileLine>
    var a: seq<FileLine>
    var b: seq<FileLine>

    constructor ()
      ensures base == a == b == [] && diffA == diffB == []
    {
      base, a, b := [], [], [];
      diffA, diffB := [], [];
    }

    // The fields are what Setup leaves behind.
    ghost predicate Valid()
      reads this
    {
      && Numbered(base) && Numbered(a) && Numbered(b)
      && diffA == DiffOf(base, a) && diffB == DiffOf(base, b)
    }

    ghost function Contents(): Files
      reads this
    {
      Files(Texts(base), Texts(a), Texts(b))
    }

    // Fails, leaving the fields alone, exactly where the differ would crash.
    method Setup(textBase: seq<string>, textOurs: seq<string>, textTheirs: seq<string>) returns (ok: bool)
      modifies this
      ensures ok <==> textBase != [] || (textOurs != [] && textTheirs != [])
      ensures ok ==> Valid() && base == Number(textBase) && a == Number(textOurs) && b == Number(textTheirs)
      ensures !ok ==> unchanged(this)
    {
      var linesBase := GetFileLines(textBase);
      var linesOurs := GetFileLines(textOurs);
      var linesTheirs := GetFileLines(textTheirs);
      if |linesBase| + |linesOurs| == 0 || |linesBase| + |linesTheirs| == 0 {
        return false;
      }
      var diffOurs := Diff(linesBase, linesOurs);
      var diffTheirs := Diff(linesBase, linesTheirs);
      base, a, b := linesBase, linesOurs, linesTheirs;
      diffA, diffB := diffOurs, diffTheirs;
      return true;
    }

    predicate IsInBounds(i: int, lineBase: int, lineA: int, lineB: int)
      reads this
    {
      lineBase + i <= |base| || lineA + i <= |a| || lineB + i <= |b|
    }

    static predicate IsMatch(matches: map<int, int>, lineBase: int, offset: int, i: int)
    {
      lineBase + i in matches && matches[lineBase + i] == offset + i
    }

    // Never -1: the run stops at or before the end of base.
    method GetNextMismatch(matchesA: map<int, int>, matchesB: map<int, int>, lineBase: int, lineA: int, lineB: int)
      returns (res: int)
      requires Aligned(matchesA, matchesB, Indexes(lineBase, lineA, lineB), Contents().End())
      ensures res == RunLength(matchesA, matchesB, Indexes(lineBase, lineA, lineB), Contents().End())
    {
      ghost var at, end := Indexes(lineBase, lineA, lineB), Contents().End();
      var i := 0;
      while IsInBounds(i, lineBase, lineA, lineB) && IsMatch(matchesA, lineBase, lineA, i) && IsMatch(matchesB, lineBase, lineB, i)
        invariant 0 <= i && lineBase + i <= |base|
        invariant i + RunLength(matchesA, matchesB, at.Plus(i), end) == RunLength(matchesA, matchesB, at, end)
        decreases |base| - (lineBase + i)
      {
        assert BothMatch(matchesA, matchesB, at.Plus(i));
        assert at.Plus(i).Plus(1) == at.Plus(i + 1);
        i := i + 1;
      }
      if IsInBounds(i, lineBase, lineA, lineB) {
        res := i;
      } else {
        assert false;
      }
    }

    method GetNextMatch(matchesA: map<int, int>, matchesB: map<int, int>, lineBase: int) returns (res: Option<Indexes>)
      ensures res == NextMatch(matchesA, matchesB, lineBase, Contents().End())
    {
      var baseNum := lineBase;
      while baseNum < |base|
        invariant NextMatch(matchesA, matchesB, baseNum, Contents().End()) == NextMatch(matchesA, matchesB, lineBase, Contents().End())
      {
        if baseNum in matchesA && baseNum in matchesB {
          return Some(Indexes(baseNum, matchesA[baseNum], matchesB[baseNum]));
        }
        baseNum := baseNum + 1;
      }
      return None;
    }

    // Both sides of a chunk, line by line beside base.
    method CollectBesideBase(from: Indexes, to: Indexes)
      returns (j: int, k: int, blockA: seq<string>, blockB: seq<string>, notEqlA: seq<FileLine>, notEqlB: seq<FileLine>)
      requires ORIGIN.Within(from) && from.Within(to) && to.Within(Contents().End())
      ensures Beside(base, a, from.baseIndex, to.baseIndex, to.baseIndex, from.aIndex, to.aIndex, j, blockA, notEqlA)
      ensures Beside(base, b, from.baseIndex, to.baseIndex, to.baseIndex, from.bIndex, to.bIndex, k, blockB, notEqlB)
    {
      j := from.aIndex;
      k := from.bIndex;
      blockA, blockB := [], [];
      notEqlA, notEqlB := [], [];
      var i := from.baseIndex;
      while i < to.baseIndex
        invariant from.baseIndex <= i <= to.baseIndex
        invariant Beside(base, a, from.baseIndex, to.baseIndex, i, from.aIndex, to.aIndex, j, blockA, notEqlA)
        invariant Beside(base, b, from.baseIndex, to.baseIndex, i, from.bIndex, to.bIndex, k, blockB, notEqlB)
      {
        j, blockA, notEqlA := CollectLine(base, a, from.baseIndex, to.baseIndex, i, from.aIndex, to.aIndex, j, blockA, notEqlA);
        k, blockB, notEqlB := CollectLine(base, b, from.baseIndex, to.baseIndex, i, from.bIndex, to.bIndex, k, blockB, notEqlB);
        i := i + 1;
      }
    }

    method WriteChunk(from: Indexes, to: Indexes, ghost stable: bool) returns (out: seq<Piece>, conflicts: int)
      requires ORIGIN.Within(from) && from.Within(to) && to.Within(Contents().End())
      ensures out == Written(Contents(), Chunk(from, to, stable))
      ensures conflicts == if Conflicting(Contents(), Chunk(from, to, stable)) then 1 else 0
    {
      ghost var f := Contents();
      conflicts := 0;
      var j, k, blockA, blockB, notEqlA, notEqlB := CollectBesideBase(from, to);
      blockA, notEqlA := CollectRest(base, a, from.baseIndex, to.baseIndex, from.aIndex, j, to.aIndex, blockA, notEqlA);
      blockB, notEqlB := CollectRest(base, b, from.baseIndex, to.baseIndex, from.bIndex, k, to.bIndex, blockB, notEqlB);
      EqualityTest(f.base, f.a, from.baseIndex, to.baseIndex, from.aIndex, to.aIndex, blockA, notEqlA);
      EqualityTest(f.base, f.b, from.baseIndex, to.baseIndex, from.bIndex, to.bIndex, blockB, notEqlB);
      var lenBase := to.baseIndex - from.baseIndex;
      var lenA := to.aIndex - from.aIndex;
      var lenB := to.bIndex - from.bIndex;
      var isEqlA := (lenBase < 1 && lenA < 1) || (lenBase == lenA && from.aIndex != to.aIndex && |notEqlA| == 0);
      var isEqlB := (lenBase < 1 && lenB < 1) || (lenBase == lenB && from.bIndex != to.bIndex && |notEqlB| == 0);
      var areBothEmpty := from.aIndex >= to.aIndex && from.bIndex >= to.bIndex;
      out := [];
      if isEqlA && isEqlB {
        out := WriteBlock(blockA);
      } else if isEqlA {
        out := WriteBlock(blockB);
      } else if isEqlB {
        out := WriteBlock(blockA);
      } else if !areBothEmpty {
        var equal := IsBlockEqual(blockA, blockB);
        if equal {
          out := WriteBlock(blockA);
        } else {
          out := [Conflict(blockA, blockB)];
          conflicts := conflicts + 1;
        }
      }
    }

    // Where the next chunk ends, if it is not the last.
    method NextBoundary(matchesA: map<int, int>, matchesB: map<int, int>, at: Indexes) returns (next: Option<Indexes>)
      requires Aligned(matchesA, matchesB, at, Contents().End())
      ensures var c := NextChunk(matchesA, matchesB, at, Contents().End());
              next == if c.Some? then Some(c.value.to) else None
    {
      var i := GetNextMismatch(matchesA, matchesB, at.baseIndex, at.aIndex, at.bIndex);
      if i == 0 {
        next := GetNextMatch(matchesA, matchesB, at.baseIndex);
      } else if i != -1 {
        next := Some(Indexes(at.baseIndex + i, at.aIndex + i, at.bIndex + i));
      } else {
        assert false;
      }
    }

    // Emits every chunk in turn; the count is of the chunks in which all three
    // files differ.
    method WriteMatched(matchesA: map<int, int>, matchesB: map<int, int>) returns (out: seq<Piece>, conflicts: int)
      requires Mergeable(Contents(), matchesA, matchesB)
      ensures out == Output(Contents(), AllChunks(Contents(), matchesA, matchesB))
      ensures conflicts == Conflicts(Contents(), AllChunks(Contents(), matchesA, matchesB))
    {
      ghost var f, end := Contents(), Contents().End();
      ghost var done: seq<Chunk> := [];
      var at := Indexes(0, 0, 0);
      conflicts := 0;
      out := [];
      while true
        invariant Aligned(matchesA, matchesB, at, end)
        invariant done + Chunks(matchesA, matchesB, at, end) == AllChunks(f, matchesA, matchesB)
        invariant out == Output(f, done) && conflicts == Conflicts(f, done)
        decreases end.Sum() - at.Sum()
      {
        NextChunkAdvances(matchesA, matchesB, at, end);
        ghost var chunk := NextChunk(matchesA, matchesB, at, end);
        var next := NextBoundary(matchesA, matchesB, at);
        if next.None? {
          var piece, conf := WriteChunk(at, Indexes(|base|, |a|, |b|), false);
          OutputAppend(f, done, Chunk(at, end, false));
          MoveOn(done, matchesA, matchesB, at, end);
          return out + piece, conflicts + conf;
        }
        var piece, conf := WriteChunk(at, next.value, chunk.value.stable);
        OutputAppend(f, done, chunk.value);
        MoveOn(done, matchesA, matchesB, at, end);
        done := done + [chunk.value];
        out := out + piece;
        conflicts := conflicts + conf;
        at := next.value;
      }
    }

    method WriteChunks() returns (out: seq<Piece>, conflicts: int)
      requires Valid()
      ensures CanMerge(base, a, b)
      ensures out == Output(Contents(), ChunksOf(base, a, b))
      ensures conflicts == Conflicts(Contents(), ChunksOf(base, a, b))
    {
      var matchesA := GetMatches(diffA);
      var matchesB := GetMatches(diffB);
      DiffIsTextMatching(base, a);
      DiffIsTextMatching(base, b);
      out, conflicts := WriteMatched(matchesA, matchesB);
    }

    method Merge(baseB: seq<string>, oursB: seq<string>, theirsB: seq<string>) returns (res: MergeOutcome)
      modifies this
      ensures res == MergeOf(baseB, oursB, theirsB)
    {
      var ok := Setup(baseB, oursB, theirsB);
      if !ok {
        return IndexOutOfRange;
      }
      var out, conflicts := WriteChunks();
      return Merged(out, conflicts);
    }
  }

  lemma {:induction false} OutputAppend(f: Files, chunks: seq<Chunk>, c: Chunk)
    ensures Output(f, chunks + [c]) == Output(f, chunks) + Written(f, c)
    ensures Conflicts(f, chunks + [c]) == Conflicts(f, chunks) + if Conflicting(f, c) then 1 else 0
  {
    if chunks == [] {
      assert [c][1..] == [] && [] + [c] == [c];
    } else {
      OutputAppend(f, chunks[1..], c);
      assert (chunks + [c])[1..] == chunks[1..] + [c];
    }
  }

  // The first chunk still to come joins those already written.
  lemma MoveOn(done: seq<Chunk>, mA: map<int, int>, mB: map<int, int>, at: Indexes, end: Indexes)
    requires Aligned(mA, mB, at, end)
    ensures var c := NextChunk(mA, mB, at, end);
            if c.Some?
            then Aligned(mA, mB, c.value.to, end) &&
                 done + Chunks(mA, mB, at, end) == (done + [c.value]) + Chunks(mA, mB, c.value.to, end)
            else done + Chunks(mA, mB, at, end) == done + [Chunk(at, end, false)]
  {
    NextChunkAdvances(mA, mB, at, end);
    hide NextChunk, Aligned;
    var c := NextChunk(mA, mB, at, end);
    if c.Some? {
      Regroup(done, c.value, Chunks(mA, mB, c.value.to, end));
    }
  }
}
