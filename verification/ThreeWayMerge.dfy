// The specification of the line-level three-way merge.  Two matchings, of base
// with ours and of base with theirs, cut the three files into chunks; each chunk
// is decided on its three blocks alone.  Files are sequences of lines.

module ThreeWayMerge {
  import opened EditGraph
  import opened LineDiff
  import opened Wrappers

  // A position in each of the three files.
  datatype Indexes = Indexes(baseIndex: int, aIndex: int, bIndex: int)
  {
    ghost function Plus(i: int): Indexes
    {
      Indexes(baseIndex + i, aIndex + i, bIndex + i)
    }

    ghost predicate Within(to: Indexes)
    {
      0 <= baseIndex <= to.baseIndex && 0 <= aIndex <= to.aIndex && 0 <= bIndex <= to.bIndex
    }

    ghost function Sum(): int
    {
      baseIndex + aIndex + bIndex
    }

    ghost function Swap(): Indexes
    {
      Indexes(baseIndex, bIndex, aIndex)
    }
  }

  // What the merge writes: plain lines and conflict blocks.
  datatype Piece = Line(text: string) | Conflict(ours: seq<string>, theirs: seq<string>)

  // ---------- Deciding one chunk ----------

  ghost function Texts(lines: seq<FileLine>): (r: seq<string>)
    ensures |r| == |lines| && forall i :: 0 <= i < |r| ==> r[i] == lines[i].text
  {
    seq(|lines|, i requires 0 <= i < |lines| => lines[i].text)
  }

  ghost function Plain(block: seq<string>): (r: seq<Piece>)
    ensures |r| == |block| && forall i :: 0 <= i < |r| ==> r[i] == Line(block[i])
  {
    seq(|block|, i requires 0 <= i < |block| => Line(block[i]))
  }

  // A side that did not change yields to the other; a change both sides made is
  // taken once; anything else is a conflict.
  ghost function Decide(base: seq<string>, a: seq<string>, b: seq<string>): seq<Piece>
  {
    if a == base then Plain(b)
    else if b == base then Plain(a)
    else if a == b then Plain(a)
    else [Conflict(a, b)]
  }

  ghost predicate AllDiffer(base: seq<string>, a: seq<string>, b: seq<string>)
  {
    a != base && b != base && a != b
  }

  // ---------- Cutting the files into chunks ----------

  // Both sides match base at this position.
  ghost predicate BothMatch(mA: map<int, int>, mB: map<int, int>, at: Indexes)
  {
    && at.baseIndex in mA && mA[at.baseIndex] == at.aIndex
    && at.baseIndex in mB && mB[at.baseIndex] == at.bIndex
  }

  // How many positions from here on both sides match base line for line.
  ghost function RunLength(mA: map<int, int>, mB: map<int, int>, at: Indexes, end: Indexes): (i: nat)
    ensures forall j :: 0 <= j < i ==> BothMatch(mA, mB, at.Plus(j))
    ensures i > 0 ==> at.baseIndex + i <= end.baseIndex
    decreases end.baseIndex - at.baseIndex
  {
    if at.baseIndex < end.baseIndex && BothMatch(mA, mB, at)
    then
      var rest := RunLength(mA, mB, at.Plus(1), end);
      assert forall j :: 1 <= j < rest + 1 ==> at.Plus(j) == at.Plus(1).Plus(j - 1);
      rest + 1
    else 0
  }

  // The first base line, from here on, that both sides match anywhere.
  ghost function NextMatch(mA: map<int, int>, mB: map<int, int>, baseIndex: int, end: Indexes): Option<Indexes>
    decreases end.baseIndex - baseIndex
  {
    if baseIndex >= end.baseIndex then None
    else if baseIndex in mA && baseIndex in mB then Some(Indexes(baseIndex, mA[baseIndex], mB[baseIndex]))
    else NextMatch(mA, mB, baseIndex + 1, end)
  }

  // A chunk; stable if both sides match base throughout.
  datatype Chunk = Chunk(from: Indexes, to: Indexes, stable: bool)
  {
    ghost function Swap(): Chunk
    {
      Chunk(from.Swap(), to.Swap(), stable)
    }
  }

  // A strictly increasing partial map from the n lines of base to the lines of a
  // side, which takes every line at or beyond `from` at or beyond `to`.
  ghost predicate Ahead(m: map<int, int>, n: int, len: int, from: int, to: int)
  {
    && (forall i :: i in m ==> 0 <= i < n && 0 <= m[i] < len)
    && (forall i, j :: i in m && j in m && i < j ==> m[i] < m[j])
    && (forall i :: i in m && from <= i ==> to <= m[i])
  }

  // The state the merge is in between two chunks.
  ghost predicate Aligned(mA: map<int, int>, mB: map<int, int>, at: Indexes, end: Indexes)
  {
    && at.Within(end)
    && Ahead(mA, end.baseIndex, end.aIndex, at.baseIndex, at.aIndex)
    && Ahead(mB, end.baseIndex, end.bIndex, at.baseIndex, at.bIndex)
  }

  // No base line in this range is matched by both sides.
  ghost predicate NoneBothMatch(mA: map<int, int>, mB: map<int, int>, from: int, to: int)
  {
    forall i :: from <= i < to ==> !(i in mA && i in mB)
  }

  // It is a match, and the first.
  lemma {:induction false} NextMatchIsMatch(mA: map<int, int>, mB: map<int, int>, baseIndex: int, end: Indexes)
    ensures var r := NextMatch(mA, mB, baseIndex, end);
            && (r.Some? ==> BothMatch(mA, mB, r.value) && baseIndex <= r.value.baseIndex < end.baseIndex)
            && NoneBothMatch(mA, mB, baseIndex, if r.Some? then r.value.baseIndex else end.baseIndex)
    decreases end.baseIndex - baseIndex
  {
    if baseIndex < end.baseIndex && !(baseIndex in mA && baseIndex in mB) {
      NextMatchIsMatch(mA, mB, baseIndex + 1, end);
    }
  }

  // The chunk that starts here, if it is not the last one.
  ghost function NextChunk(mA: map<int, int>, mB: map<int, int>, at: Indexes, end: Indexes): Option<Chunk>
  {
    var i := RunLength(mA, mB, at, end);
    if i > 0 then Some(Chunk(at, at.Plus(i), true))
    else
      var next := NextMatch(mA, mB, at.baseIndex, end);
      if next.Some? then Some(Chunk(at, next.value, false)) else None
  }

  // Every chunk but the last makes progress and leaves the merge aligned: a match
  // at or beyond the current base line lies at or beyond the current lines of
  // both sides, and it cannot be the current position, which does not match.
  lemma NextChunkAdvances(mA: map<int, int>, mB: map<int, int>, at: Indexes, end: Indexes)
    requires Aligned(mA, mB, at, end)
    ensures var c := NextChunk(mA, mB, at, end);
            c.Some? ==> at.Within(c.value.to) && Aligned(mA, mB, c.value.to, end) && at.Sum() < c.value.to.Sum()
  {
    NextMatchIsMatch(mA, mB, at.baseIndex, end);
    var i := RunLength(mA, mB, at, end);
    if i > 0 {
      assert BothMatch(mA, mB, at.Plus(i - 1));
    } else {
      assert !(at.baseIndex < end.baseIndex && BothMatch(mA, mB, at));
    }
  }

  ghost function Chunks(mA: map<int, int>, mB: map<int, int>, at: Indexes, end: Indexes): seq<Chunk>
    requires Aligned(mA, mB, at, end)
    decreases end.Sum() - at.Sum()
  {
    NextChunkAdvances(mA, mB, at, end);
    var c := NextChunk(mA, mB, at, end);
    if c.Some? then [c.value] + Chunks(mA, mB, c.value.to, end) else [Chunk(at, end, false)]
  }

  // The chunks join up: they cover all three files exactly, in order.
  ghost predicate Chain(chunks: seq<Chunk>, at: Indexes, end: Indexes)
  {
    if chunks == [] then at == end
    else chunks[0].from == at && at.Within(chunks[0].to) && Chain(chunks[1..], chunks[0].to, end)
  }

  lemma {:induction false} ChunksPartition(mA: map<int, int>, mB: map<int, int>, at: Indexes, end: Indexes)
    requires Aligned(mA, mB, at, end)
    ensures Chain(Chunks(mA, mB, at, end), at, end)
    decreases end.Sum() - at.Sum()
  {
    NextChunkAdvances(mA, mB, at, end);
    var c := NextChunk(mA, mB, at, end);
    if c.Some? {
      ChunksPartition(mA, mB, c.value.to, end);
      assert ([c.value] + Chunks(mA, mB, c.value.to, end))[1..] == Chunks(mA, mB, c.value.to, end);
    } else {
      var last := [Chunk(at, end, false)];
      assert last[1..] == [];
    }
  }

  // ---------- The merge of three files ----------

  datatype Files = Files(base: seq<string>, a: seq<string>, b: seq<string>)
  {
    ghost function End(): Indexes
    {
      Indexes(|base|, |a|, |b|)
    }

    ghost function Swap(): Files
    {
      Files(base, b, a)
    }
  }

  // The lines of a file between two positions.
  ghost function Block(file: seq<string>, from: int, to: int): seq<string>
  {
    if 0 <= from <= to <= |file| then file[from..to] else []
  }

  ghost function BaseBlock(f: Files, c: Chunk): seq<string>
  {
    Block(f.base, c.from.baseIndex, c.to.baseIndex)
  }

  ghost function OursBlock(f: Files, c: Chunk): seq<string>
  {
    Block(f.a, c.from.aIndex, c.to.aIndex)
  }

  ghost function TheirsBlock(f: Files, c: Chunk): seq<string>
  {
    Block(f.b, c.from.bIndex, c.to.bIndex)
  }

  ghost function Written(f: Files, c: Chunk): seq<Piece>
  {
    Decide(BaseBlock(f, c), OursBlock(f, c), TheirsBlock(f, c))
  }

  ghost predicate Conflicting(f: Files, c: Chunk)
  {
    AllDiffer(BaseBlock(f, c), OursBlock(f, c), TheirsBlock(f, c))
  }

  ghost function Output(f: Files, chunks: seq<Chunk>): seq<Piece>
  {
    if chunks == [] then [] else Written(f, chunks[0]) + Output(f, chunks[1..])
  }

  ghost function Conflicts(f: Files, chunks: seq<Chunk>): nat
  {
    if chunks == [] then 0 else (if Conflicting(f, chunks[0]) then 1 else 0) + Conflicts(f, chunks[1..])
  }

  // A matching on texts: what the differ supplies for base and one side.
  ghost predicate TextMatching(m: map<int, int>, base: seq<string>, side: seq<string>)
  {
    && Ahead(m, |base|, |side|, 0, 0)
    && forall i :: i in m ==> base[i] == side[m[i]]
  }

  ghost predicate Mergeable(f: Files, mA: map<int, int>, mB: map<int, int>)
  {
    TextMatching(mA, f.base, f.a) && TextMatching(mB, f.base, f.b)
  }

  const ORIGIN := Indexes(0, 0, 0)

  ghost function AllChunks(f: Files, mA: map<int, int>, mB: map<int, int>): seq<Chunk>
    requires Mergeable(f, mA, mB)
  {
    Chunks(mA, mB, ORIGIN, f.End())
  }

  // ---------- Chunk properties ----------

  // Every stable chunk is the same nonempty block in all three files.
  lemma StableBlocksAgree(f: Files, mA: map<int, int>, mB: map<int, int>, at: Indexes)
    requires Mergeable(f, mA, mB) && Aligned(mA, mB, at, f.End())
    ensures var c := NextChunk(mA, mB, at, f.End());
            c.Some? && c.value.stable ==>
              && BaseBlock(f, c.value) == OursBlock(f, c.value) == TheirsBlock(f, c.value)
              && BaseBlock(f, c.value) != []
  {
    var c := NextChunk(mA, mB, at, f.End());
    if c.Some? && c.value.stable {
      NextChunkAdvances(mA, mB, at, f.End());
      var base, a, b := BaseBlock(f, c.value), OursBlock(f, c.value), TheirsBlock(f, c.value);
      forall j | 0 <= j < |base| ensures base[j] == a[j] && base[j] == b[j] {
        assert BothMatch(mA, mB, at.Plus(j));
      }
    }
  }

  ghost predicate Alternates(chunks: seq<Chunk>)
  {
    forall i :: 0 <= i < |chunks| - 1 ==> chunks[i].stable != chunks[i + 1].stable
  }

  ghost predicate UnstableUnmatched(mA: map<int, int>, mB: map<int, int>, chunks: seq<Chunk>)
  {
    forall i :: 0 <= i < |chunks| && !chunks[i].stable ==>
                  NoneBothMatch(mA, mB, chunks[i].from.baseIndex, chunks[i].to.baseIndex)
  }

  ghost predicate StableAgree(f: Files, chunks: seq<Chunk>)
  {
    forall i :: 0 <= i < |chunks| && chunks[i].stable ==>
                  && BaseBlock(f, chunks[i]) == OursBlock(f, chunks[i]) == TheirsBlock(f, chunks[i])
                  && BaseBlock(f, chunks[i]) != []
  }

  // A run of matches is followed as far as it goes.
  lemma {:induction false} RunIsLongest(mA: map<int, int>, mB: map<int, int>, at: Indexes, end: Indexes)
    ensures RunLength(mA, mB, at.Plus(RunLength(mA, mB, at, end)), end) == 0
    decreases end.baseIndex - at.baseIndex
  {
    if RunLength(mA, mB, at, end) > 0 {
      RunIsLongest(mA, mB, at.Plus(1), end);
      assert at.Plus(RunLength(mA, mB, at, end)) == at.Plus(1).Plus(RunLength(mA, mB, at.Plus(1), end));
    } else {
      assert at.Plus(0) == at;
    }
  }

  // Stable chunks agree in all three files; unstable ones hold no base line that
  // both sides match; and the two kinds alternate: a chunk that ends on a match is
  // followed by a stable one, and that takes the whole run of matches.
  lemma {:induction false} ChunkShapes(f: Files, mA: map<int, int>, mB: map<int, int>, at: Indexes)
    requires Mergeable(f, mA, mB) && Aligned(mA, mB, at, f.End())
    ensures var chunks := Chunks(mA, mB, at, f.End());
            && Alternates(chunks) && StableAgree(f, chunks) && UnstableUnmatched(mA, mB, chunks)
            && (chunks[0].stable <==> RunLength(mA, mB, at, f.End()) > 0)
    decreases f.End().Sum() - at.Sum()
  {
    NextChunkAdvances(mA, mB, at, f.End());
    StableBlocksAgree(f, mA, mB, at);
    NextChunkShape(mA, mB, at, f.End());
    hide NextChunk, RunLength, NoneBothMatch, Aligned, TextMatching, BaseBlock, OursBlock, TheirsBlock;
    var c := NextChunk(mA, mB, at, f.End());
    if c.Some? {
      ChunkShapes(f, mA, mB, c.value.to);
      PrependChunk(f, mA, mB, c.value, Chunks(mA, mB, c.value.to, f.End()));
    }
  }

  lemma PrependChunk(f: Files, mA: map<int, int>, mB: map<int, int>, c: Chunk, rest: seq<Chunk>)
    requires rest != [] && Alternates(rest) && StableAgree(f, rest) && UnstableUnmatched(mA, mB, rest)
    requires c.stable != rest[0].stable && StableAgree(f, [c]) && UnstableUnmatched(mA, mB, [c])
    ensures var chunks := [c] + rest;
            Alternates(chunks) && StableAgree(f, chunks) && UnstableUnmatched(mA, mB, chunks)
  {
    hide NoneBothMatch, BaseBlock, OursBlock, TheirsBlock;
    var chunks := [c] + rest;
    assert [c][0] == c;
    assert forall i :: 0 < i < |chunks| ==> chunks[i] == rest[i - 1];
  }

  lemma NextChunkShape(mA: map<int, int>, mB: map<int, int>, at: Indexes, end: Indexes)
    requires Aligned(mA, mB, at, end)
    ensures var c := NextChunk(mA, mB, at, end);
            && (c.None? ==> RunLength(mA, mB, at, end) == 0 && NoneBothMatch(mA, mB, at.baseIndex, end.baseIndex))
            && (c.Some? ==>
                  && c.value.from == at
                  && (c.value.stable <==> RunLength(mA, mB, at, end) > 0)
                  && (c.value.stable <==> RunLength(mA, mB, c.value.to, end) == 0)
                  && (!c.value.stable ==> NoneBothMatch(mA, mB, at.baseIndex, c.value.to.baseIndex)))
  {
    NextMatchIsMatch(mA, mB, at.baseIndex, end);
    RunIsLongest(mA, mB, at, end);
  }

  // Putting the blocks of one file back together gives the file.
  ghost function Joined(f: Files, chunks: seq<Chunk>): Files
  {
    if chunks == [] then Files([], [], [])
    else
      var rest := Joined(f, chunks[1..]);
      Files(BaseBlock(f, chunks[0]) + rest.base, OursBlock(f, chunks[0]) + rest.a, TheirsBlock(f, chunks[0]) + rest.b)
  }

  lemma BlockJoin(file: seq<string>, from: int, mid: int, to: int)
    requires 0 <= from <= mid <= to <= |file|
    ensures Block(file, from, mid) + Block(file, mid, to) == Block(file, from, to)
  {
  }

  lemma {:induction false} ChainWithin(chunks: seq<Chunk>, at: Indexes, end: Indexes)
    requires Chain(chunks, at, end) && ORIGIN.Within(at)
    ensures at.Within(end)
  {
    if chunks != [] {
      ChainWithin(chunks[1..], chunks[0].to, end);
    }
  }

  lemma {:induction false} ChainJoins(f: Files, chunks: seq<Chunk>, at: Indexes)
    requires Chain(chunks, at, f.End()) && ORIGIN.Within(at)
    ensures var end := f.End();
            at.Within(end) &&
            Joined(f, chunks) == Files(Block(f.base, at.baseIndex, end.baseIndex),
                                       Block(f.a, at.aIndex, end.aIndex),
                                       Block(f.b, at.bIndex, end.bIndex))
  {
    var end := f.End();
    if chunks != [] {
      var to := chunks[0].to;
      ChainJoins(f, chunks[1..], to);
      BlockJoin(f.base, at.baseIndex, to.baseIndex, end.baseIndex);
      BlockJoin(f.a, at.aIndex, to.aIndex, end.aIndex);
      BlockJoin(f.b, at.bIndex, to.bIndex, end.bIndex);
    }
  }

  // The chunks of a merge split all three files, losing and repeating nothing.
  lemma ChunksCoverFiles(f: Files, mA: map<int, int>, mB: map<int, int>)
    requires Mergeable(f, mA, mB)
    ensures Chain(AllChunks(f, mA, mB), ORIGIN, f.End())
    ensures Joined(f, AllChunks(f, mA, mB)) == f
  {
    hide Chain, Joined, Chunks;
    ChunksPartition(mA, mB, ORIGIN, f.End());
    ChainJoins(f, AllChunks(f, mA, mB), ORIGIN);
  }

  lemma ChunksAreWhole(f: Files, mA: map<int, int>, mB: map<int, int>)
    requires Mergeable(f, mA, mB)
    ensures var chunks := AllChunks(f, mA, mB);
            Joined(f, chunks) == f && StableAgree(f, chunks) && Alternates(chunks) && UnstableUnmatched(mA, mB, chunks)
  {
    ChunksCoverFiles(f, mA, mB);
    ChunkShapes(f, mA, mB, ORIGIN);
  }

  // ---------- Swapping the two sides ----------

  ghost function SwapPiece(p: Piece): Piece
  {
    if p.Line? then p else Conflict(p.theirs, p.ours)
  }

  ghost function SwapPieces(ps: seq<Piece>): (r: seq<Piece>)
    ensures |r| == |ps| && forall i :: 0 <= i < |r| ==> r[i] == SwapPiece(ps[i])
  {
    seq(|ps|, i requires 0 <= i < |ps| => SwapPiece(ps[i]))
  }

  ghost function SwapChunks(chunks: seq<Chunk>): (r: seq<Chunk>)
    ensures |r| == |chunks| && forall i :: 0 <= i < |r| ==> r[i] == chunks[i].Swap()
  {
    seq(|chunks|, i requires 0 <= i < |chunks| => chunks[i].Swap())
  }

  lemma {:induction false} SwapRun(mA: map<int, int>, mB: map<int, int>, at: Indexes, end: Indexes)
    ensures RunLength(mB, mA, at.Swap(), end.Swap()) == RunLength(mA, mB, at, end)
    decreases end.baseIndex - at.baseIndex
  {
    if at.baseIndex < end.baseIndex && BothMatch(mA, mB, at) {
      SwapRun(mA, mB, at.Plus(1), end);
      assert at.Swap().Plus(1) == at.Plus(1).Swap();
    }
  }

  lemma {:induction false} SwapNextMatch(mA: map<int, int>, mB: map<int, int>, baseIndex: int, end: Indexes)
    ensures var r, r' := NextMatch(mA, mB, baseIndex, end), NextMatch(mB, mA, baseIndex, end.Swap());
            r' == if r.Some? then Some(r.value.Swap()) else None
    decreases end.baseIndex - baseIndex
  {
    if baseIndex < end.baseIndex && !(baseIndex in mA && baseIndex in mB) {
      SwapNextMatch(mA, mB, baseIndex + 1, end);
    }
  }

  lemma {:induction false} SwapSameChunks(mA: map<int, int>, mB: map<int, int>, at: Indexes, end: Indexes)
    requires Aligned(mA, mB, at, end)
    ensures Aligned(mB, mA, at.Swap(), end.Swap())
    ensures Chunks(mB, mA, at.Swap(), end.Swap()) == SwapChunks(Chunks(mA, mB, at, end))
    decreases end.Sum() - at.Sum()
  {
    SwapRun(mA, mB, at, end);
    SwapNextMatch(mA, mB, at.baseIndex, end);
    NextChunkAdvances(mA, mB, at, end);
    var c := NextChunk(mA, mB, at, end);
    if c.Some? {
      assert NextChunk(mB, mA, at.Swap(), end.Swap()) == Some(c.value.Swap());
      SwapSameChunks(mA, mB, c.value.to, end);
    }
  }

  lemma {:induction false} SwapOutput(f: Files, chunks: seq<Chunk>)
    ensures Output(f.Swap(), SwapChunks(chunks)) == SwapPieces(Output(f, chunks))
    ensures Conflicts(f.Swap(), SwapChunks(chunks)) == Conflicts(f, chunks)
  {
    if chunks != [] {
      SwapOutput(f, chunks[1..]);
      assert SwapChunks(chunks)[1..] == SwapChunks(chunks[1..]);
      assert Written(f.Swap(), chunks[0].Swap()) == SwapPieces(Written(f, chunks[0]));
    }
  }

  // Exchanging ours and theirs changes nothing but the order of the two halves
  // of each conflict block.
  lemma SwapMerge(f: Files, mA: map<int, int>, mB: map<int, int>)
    requires Mergeable(f, mA, mB)
    ensures AllChunks(f.Swap(), mB, mA) == SwapChunks(AllChunks(f, mA, mB))
    ensures Output(f.Swap(), AllChunks(f.Swap(), mB, mA)) == SwapPieces(Output(f, AllChunks(f, mA, mB)))
    ensures Conflicts(f.Swap(), AllChunks(f.Swap(), mB, mA)) == Conflicts(f, AllChunks(f, mA, mB))
  {
    SwapSameChunks(mA, mB, ORIGIN, f.End());
    SwapOutput(f, AllChunks(f, mA, mB));
  }

  // ---------- Conflict blocks ----------

  ghost function Blocks(ps: seq<Piece>): nat
  {
    if ps == [] then 0 else (if ps[0].Conflict? then 1 else 0) + Blocks(ps[1..])
  }

  lemma {:induction false} BlocksConcat(ps: seq<Piece>, qs: seq<Piece>)
    ensures Blocks(ps + qs) == Blocks(ps) + Blocks(qs)
  {
    if ps == [] {
      assert ps + qs == qs;
    } else {
      BlocksConcat(ps[1..], qs);
      assert (ps + qs)[1..] == ps[1..] + qs;
    }
  }

  lemma {:induction false} NoBlocksIff(ps: seq<Piece>)
    ensures Blocks(ps) == 0 <==> forall i :: 0 <= i < |ps| ==> ps[i].Line?
  {
    if ps != [] {
      NoBlocksIff(ps[1..]);
      assert ps == [ps[0]] + ps[1..];
    }
  }

  // The count the merge returns is the number of conflict blocks it writes.
  lemma {:induction false} ConflictsAreBlocks(f: Files, chunks: seq<Chunk>)
    ensures Conflicts(f, chunks) == Blocks(Output(f, chunks))
  {
    if chunks != [] {
      ConflictsAreBlocks(f, chunks[1..]);
      var written := Written(f, chunks[0]);
      BlocksConcat(written, Output(f, chunks[1..]));
      NoBlocksIff(written);
      if Conflicting(f, chunks[0]) {
        assert written[1..] == [];
      }
    }
  }

  // ---------- Merges that must not conflict ----------

  // One side left base alone, line for line, up to here.
  ghost predicate TheirsIsBase(f: Files, chunks: seq<Chunk>)
  {
    forall i :: 0 <= i < |chunks| ==> BaseBlock(f, chunks[i]) == TheirsBlock(f, chunks[i])
  }

  ghost predicate SidesAgree(f: Files, chunks: seq<Chunk>)
  {
    forall i :: 0 <= i < |chunks| ==> OursBlock(f, chunks[i]) == TheirsBlock(f, chunks[i])
  }

  // If in every chunk theirs equals base, or theirs equals ours, the output is ours.
  lemma {:induction false} OutputIsOurs(f: Files, chunks: seq<Chunk>)
    requires TheirsIsBase(f, chunks) || SidesAgree(f, chunks)
    ensures Output(f, chunks) == Plain(Joined(f, chunks).a) && Conflicts(f, chunks) == 0
  {
    if chunks != [] {
      OutputIsOurs(f, chunks[1..]);
    }
  }

  lemma {:induction false} IdentityKeepsPace(f: Files, mA: map<int, int>, mB: map<int, int>, at: Indexes)
    requires Mergeable(f, mA, mB) && Aligned(mA, mB, at, f.End())
    requires f.b == f.base && IsIdentity(mB, |f.base|) && at.bIndex == at.baseIndex
    ensures TheirsIsBase(f, Chunks(mA, mB, at, f.End()))
    decreases f.End().Sum() - at.Sum()
  {
    NextChunkAdvances(mA, mB, at, f.End());
    NextMatchIsMatch(mA, mB, at.baseIndex, f.End());
    var c := NextChunk(mA, mB, at, f.End());
    if c.Some? {
      IdentityKeepsPace(f, mA, mB, c.value.to);
    }
  }

  lemma {:induction false} SameMatchingKeepsPace(f: Files, m: map<int, int>, at: Indexes)
    requires Mergeable(f, m, m) && Aligned(m, m, at, f.End())
    requires f.a == f.b && at.aIndex == at.bIndex
    ensures SidesAgree(f, Chunks(m, m, at, f.End()))
    decreases f.End().Sum() - at.Sum()
  {
    NextChunkAdvances(m, m, at, f.End());
    NextMatchIsMatch(m, m, at.baseIndex, f.End());
    var c := NextChunk(m, m, at, f.End());
    if c.Some? {
      SameMatchingKeepsPace(f, m, c.value.to);
    }
  }

  // ---------- The merge without chunks ----------

  // One pass over base: every line that both sides match is written, and what lies
  // between two such lines is decided by itself.
  ghost function MergeByGaps(f: Files, mA: map<int, int>, mB: map<int, int>, from: Indexes, i: int): seq<Piece>
    decreases |f.base| - i
  {
    if i >= |f.base| then DecideGap(f, from, f.End())
    else if i in mA && i in mB then
      var to := Indexes(i, mA[i], mB[i]);
      DecideGap(f, from, to) + [Line(if 0 <= i then f.base[i] else "")] + MergeByGaps(f, mA, mB, to.Plus(1), i + 1)
    else MergeByGaps(f, mA, mB, from, i + 1)
  }

  ghost function DecideGap(f: Files, from: Indexes, to: Indexes): seq<Piece>
  {
    Written(f, Chunk(from, to, false))
  }

  lemma {:induction false} SkipUnmatched(f: Files, mA: map<int, int>, mB: map<int, int>, from: Indexes, i: int, j: int)
    requires i <= j <= |f.base| && NoneBothMatch(mA, mB, i, j)
    ensures MergeByGaps(f, mA, mB, from, i) == MergeByGaps(f, mA, mB, from, j)
    decreases j - i
  {
    if i < j {
      SkipUnmatched(f, mA, mB, from, i + 1, j);
    }
  }

  lemma EmptyGap(f: Files, at: Indexes)
    ensures DecideGap(f, at, at) == []
  {
  }

  lemma GapStep(f: Files, mA: map<int, int>, mB: map<int, int>, at: Indexes)
    requires 0 <= at.baseIndex < |f.base| && BothMatch(mA, mB, at)
    ensures MergeByGaps(f, mA, mB, at, at.baseIndex) ==
            [Line(f.base[at.baseIndex])] + MergeByGaps(f, mA, mB, at.Plus(1), at.baseIndex + 1)
  {
    EmptyGap(f, at);
  }

  // Within a run of matches there is nothing between the lines.
  lemma {:induction false} GapsInRun(f: Files, mA: map<int, int>, mB: map<int, int>, at: Indexes, n: nat)
    requires at.baseIndex >= 0 && at.baseIndex + n <= |f.base|
    requires forall j :: 0 <= j < n ==> BothMatch(mA, mB, at.Plus(j))
    ensures MergeByGaps(f, mA, mB, at, at.baseIndex) ==
            Plain(f.base[at.baseIndex..at.baseIndex + n]) + MergeByGaps(f, mA, mB, at.Plus(n), at.baseIndex + n)
    decreases n
  {
    hide MergeByGaps, BothMatch;
    assert at.Plus(0) == at;
    if n > 0 {
      GapStep(f, mA, mB, at);
      forall j | 0 <= j < n - 1 ensures BothMatch(mA, mB, at.Plus(1).Plus(j)) {
        assert at.Plus(1).Plus(j) == at.Plus(j + 1);
      }
      GapsInRun(f, mA, mB, at.Plus(1), n - 1);
      assert at.Plus(1).Plus(n - 1) == at.Plus(n);
      var i := at.baseIndex;
      assert Plain(f.base[i..i + n]) == [Line(f.base[i])] + Plain(f.base[i + 1..i + n]);
    }
  }

  lemma StableChunkIsPlain(f: Files, mA: map<int, int>, mB: map<int, int>, at: Indexes)
    requires Mergeable(f, mA, mB) && Aligned(mA, mB, at, f.End())
    ensures var c := NextChunk(mA, mB, at, f.End());
            c.Some? && c.value.stable ==>
              && 0 <= at.baseIndex <= c.value.to.baseIndex <= |f.base|
              && Written(f, c.value) == Plain(f.base[at.baseIndex..c.value.to.baseIndex])
  {
    StableBlocksAgree(f, mA, mB, at);
    NextChunkAdvances(mA, mB, at, f.End());
    hide OursBlock, TheirsBlock, TextMatching, Ahead, RunLength, NextMatch;
  }

  lemma StableChunkByGaps(f: Files, mA: map<int, int>, mB: map<int, int>, at: Indexes)
    requires Mergeable(f, mA, mB) && Aligned(mA, mB, at, f.End())
    ensures var c := NextChunk(mA, mB, at, f.End());
            c.Some? && c.value.stable ==>
              MergeByGaps(f, mA, mB, at, at.baseIndex) ==
              Written(f, c.value) + MergeByGaps(f, mA, mB, c.value.to, c.value.to.baseIndex)
  {
    StableChunkIsPlain(f, mA, mB, at);
    hide MergeByGaps, TextMatching, Aligned, BothMatch, NextMatch, Written, RunLength;
    var n := RunLength(mA, mB, at, f.End());
    if n > 0 {
      assert NextChunk(mA, mB, at, f.End()) == Some(Chunk(at, at.Plus(n), true));
      GapsInRun(f, mA, mB, at, n);
    }
  }

  lemma UnstableChunkByGaps(f: Files, mA: map<int, int>, mB: map<int, int>, at: Indexes)
    requires Mergeable(f, mA, mB) && Aligned(mA, mB, at, f.End())
    ensures var c := NextChunk(mA, mB, at, f.End());
            c.Some? && !c.value.stable ==>
              MergeByGaps(f, mA, mB, at, at.baseIndex) ==
              Written(f, c.value) + MergeByGaps(f, mA, mB, c.value.to, c.value.to.baseIndex)
  {
    NextMatchIsMatch(mA, mB, at.baseIndex, f.End());
    var c := NextChunk(mA, mB, at, f.End());
    if c.Some? && !c.value.stable {
      SkipUnmatched(f, mA, mB, at, at.baseIndex, c.value.to.baseIndex);
      GapStep(f, mA, mB, c.value.to);
    }
  }

  // The chunks compute exactly that.
  lemma {:induction false} ChunksMergeByGaps(f: Files, mA: map<int, int>, mB: map<int, int>, at: Indexes)
    requires Mergeable(f, mA, mB) && Aligned(mA, mB, at, f.End())
    ensures Output(f, Chunks(mA, mB, at, f.End())) == MergeByGaps(f, mA, mB, at, at.baseIndex)
    decreases f.End().Sum() - at.Sum()
  {
    var end := f.End();
    NextChunkAdvances(mA, mB, at, end);
    NextChunkShape(mA, mB, at, end);
    StableChunkByGaps(f, mA, mB, at);
    UnstableChunkByGaps(f, mA, mB, at);
    var c := NextChunk(mA, mB, at, end);
    if c.None? {
      SkipUnmatched(f, mA, mB, at, at.baseIndex, end.baseIndex);
      var last := [Chunk(at, end, false)];
      assert last[1..] == [];
    } else {
      ChunksMergeByGaps(f, mA, mB, c.value.to);
      assert ([c.value] + Chunks(mA, mB, c.value.to, end))[1..] == Chunks(mA, mB, c.value.to, end);
    }
  }

  // ---------- When a merge conflicts ----------

  // The range between two lines that both sides match, or an end of the files, with
  // no such line inside.
  ghost predicate IsGap(f: Files, mA: map<int, int>, mB: map<int, int>, from: Indexes, to: Indexes)
  {
    && (from == ORIGIN || BothMatch(mA, mB, from.Plus(-1)))
    && (to == f.End() || BothMatch(mA, mB, to))
    && from.baseIndex <= to.baseIndex && NoneBothMatch(mA, mB, from.baseIndex, to.baseIndex)
  }

  ghost predicate GapConflicts(f: Files, from: Indexes, to: Indexes)
  {
    Conflicting(f, Chunk(from, to, false))
  }

  lemma DecideGapBlocks(f: Files, from: Indexes, to: Indexes)
    ensures Blocks(DecideGap(f, from, to)) == if GapConflicts(f, from, to) then 1 else 0
  {
    var written := DecideGap(f, from, to);
    NoBlocksIff(written);
    if GapConflicts(f, from, to) {
      assert written[1..] == [];
    }
  }

  // No gap from this base line on conflicts.
  ghost predicate CleanGaps(f: Files, mA: map<int, int>, mB: map<int, int>, bound: int)
  {
    forall from, to :: IsGap(f, mA, mB, from, to) && bound <= from.baseIndex ==> !GapConflicts(f, from, to)
  }

  // Gaps do not overlap.
  lemma GapsApart(f: Files, mA: map<int, int>, mB: map<int, int>, from: Indexes, to: Indexes, from': Indexes, to': Indexes)
    requires Mergeable(f, mA, mB) && IsGap(f, mA, mB, from, to) && IsGap(f, mA, mB, from', to')
    requires 0 <= from.baseIndex <= from'.baseIndex <= to.baseIndex
    ensures from' == from && to' == to
  {
  }

  // The first of the gaps, and the others.
  lemma FirstGap(f: Files, mA: map<int, int>, mB: map<int, int>, from: Indexes, to: Indexes)
    requires Mergeable(f, mA, mB) && IsGap(f, mA, mB, from, to) && 0 <= from.baseIndex
    ensures CleanGaps(f, mA, mB, from.baseIndex) <==> !GapConflicts(f, from, to) && CleanGaps(f, mA, mB, to.baseIndex + 1)
  {
    forall from', to' | IsGap(f, mA, mB, from', to') && from.baseIndex <= from'.baseIndex <= to.baseIndex
      ensures from' == from && to' == to
    {
      GapsApart(f, mA, mB, from, to, from', to');
    }
    hide IsGap;
  }

  lemma NoGapsBeyond(f: Files, mA: map<int, int>, mB: map<int, int>)
    requires Mergeable(f, mA, mB)
    ensures CleanGaps(f, mA, mB, |f.base| + 1)
  {
  }

  lemma {:induction false} CleanFrom(f: Files, mA: map<int, int>, mB: map<int, int>, from: Indexes, i: int)
    requires Mergeable(f, mA, mB) && 0 <= from.baseIndex <= i <= |f.base| && NoneBothMatch(mA, mB, from.baseIndex, i)
    requires from == ORIGIN || BothMatch(mA, mB, from.Plus(-1))
    ensures Blocks(MergeByGaps(f, mA, mB, from, i)) == 0 <==> CleanGaps(f, mA, mB, from.baseIndex)
    decreases |f.base| - i
  {
    hide CleanGaps, Written, Conflicting, TextMatching, Blocks;
    if i == |f.base| {
      DecideGapBlocks(f, from, f.End());
      FirstGap(f, mA, mB, from, f.End());
      NoGapsBeyond(f, mA, mB);
    } else if i in mA && i in mB {
      var to := Indexes(i, mA[i], mB[i]);
      assert to.Plus(1).Plus(-1) == to;
      CleanFrom(f, mA, mB, to.Plus(1), i + 1);
      DecideGapBlocks(f, from, to);
      FirstGap(f, mA, mB, from, to);
      var line, rest := [Line(f.base[i])], MergeByGaps(f, mA, mB, to.Plus(1), i + 1);
      NoBlocksIff(line);
      BlocksConcat(DecideGap(f, from, to), line);
      BlocksConcat(DecideGap(f, from, to) + line, rest);
    } else {
      CleanFrom(f, mA, mB, from, i + 1);
    }
  }

  // The merge is clean exactly if in every range between two neighbouring lines
  // matched on both sides one side is unchanged, or both are changed alike.
  lemma CleanIffGapsAgree(f: Files, mA: map<int, int>, mB: map<int, int>)
    requires Mergeable(f, mA, mB)
    ensures Conflicts(f, AllChunks(f, mA, mB)) == 0 <==>
            forall from, to :: IsGap(f, mA, mB, from, to) ==> !GapConflicts(f, from, to)
  {
    ConflictsAreBlocks(f, AllChunks(f, mA, mB));
    ChunksMergeByGaps(f, mA, mB, ORIGIN);
    CleanFrom(f, mA, mB, ORIGIN, 0);
  }

  // The halves of a conflict block are the blocks of ours and theirs of a chunk in
  // which all three files differ.
  lemma {:induction false} HalvesAreBlocks(f: Files, chunks: seq<Chunk>, k: int)
    requires 0 <= k < |Output(f, chunks)| && Output(f, chunks)[k].Conflict?
    ensures exists c :: c in chunks && Conflicting(f, c) && Output(f, chunks)[k] == Conflict(OursBlock(f, c), TheirsBlock(f, c))
  {
    var first := Written(f, chunks[0]);
    if k < |first| {
      assert chunks[0] in chunks;
    } else {
      HalvesAreBlocks(f, chunks[1..], k - |first|);
    }
  }
}
