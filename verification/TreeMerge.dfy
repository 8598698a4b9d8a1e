// Merging two commits path by path, starting from a work tree and an index that
// hold ours.

module TreeMerge {
  import opened ThreeWayMerge
  import opened Diff3Merge
  import opened Wrappers

  type Path = string

  // Of a mode only equality matters.
  type Mode = int

  type Blob = seq<string>

  // A commit's tree maps paths to files.
  datatype File = File(mode: Mode, lines: Blob)

  type Tree = map<Path, File>

  // ---------- Changes between two trees ----------

  datatype Status = Added | Modified | Deleted

  ghost predicate Changed(from: Tree, to: Tree, p: Path)
  {
    (p in from <==> p !in to) || (p in from && p in to && from[p] != to[p])
  }

  function StatusOf(from: Tree, to: Tree, p: Path): Status
  {
    if p !in from then Added else if p !in to then Deleted else Modified
  }

  // What a tree diff reports: exactly the paths that differ.
  function Changes(from: Tree, to: Tree): (m: map<Path, Status>)
    ensures forall p :: p in m <==> Changed(from, to, p)
    ensures forall p :: p in m ==> m[p] == StatusOf(from, to, p)
  {
    map p | p in from.Keys + to.Keys && !(p in from && p in to && from[p] == to[p]) :: StatusOf(from, to, p)
  }

  // ---------- The result of a path ----------

  datatype DiffType =
    | NoConflict
    | BothModifiedWithConflicts
    | BothModifiedWithoutConflicts
    | BothAdded
    | ModifiedDeleted
    | DeletedModified

  datatype MergingResult = MergingResult(diffType: DiffType, ours: Option<Status>, theirs: Option<Status>)

  // An index entry: merged, or the stages of a conflict.
  datatype Staged =
    | Resolved(content: seq<Piece>)
    | Unmerged(base: Option<Blob>, ours: Option<Blob>, theirs: Option<Blob>)

  // What is known of a path: its file, its index entry and the reported result.
  datatype Outcome = Outcome(file: Option<seq<Piece>>, staged: Option<Staged>, result: Option<MergingResult>)

  ghost function At(t: Tree, p: Path): Option<File>
  {
    if p in t then Some(t[p]) else None
  }

  ghost function LinesOf(f: Option<File>): Option<Blob>
  {
    if f.Some? then Some(f.value.lines) else None
  }

  ghost function Holding(f: Option<File>, result: Option<MergingResult>): Outcome
  {
    if f.Some?
    then Outcome(Some(Plain(f.value.lines)), Some(Resolved(Plain(f.value.lines))), result)
    else Outcome(None, None, result)
  }

  ghost function OneSided(ours: Option<Status>, theirs: Option<Status>): Option<MergingResult>
  {
    Some(MergingResult(NoConflict, ours, theirs))
  }

  // Both sides modified the file, and the differ is handed two empty files.
  ghost predicate Crashes(base: Option<File>, ours: Option<File>, theirs: Option<File>)
  {
    && base.Some? && ours.Some? && theirs.Some? && ours != base && theirs != base
    && MergeOf(base.value.lines, ours.value.lines, theirs.value.lines).IndexOutOfRange?
  }

  // The three-way rule for one path on which the merge does not crash.  The files
  // written for a conflict are the marked-up merge of both sides; a deletion
  // against a change leaves the work tree as it is.
  ghost function MergePath(base: Option<File>, ours: Option<File>, theirs: Option<File>): Outcome
  {
    if (ours == base && theirs == base) || Crashes(base, ours, theirs) then Holding(ours, None)
    else if ours == base then Holding(theirs, OneSided(None, Some(SideStatus(base, theirs))))
    else if theirs == base then Holding(ours, OneSided(Some(SideStatus(base, ours)), None))
    else
      var so, st := SideStatus(base, ours), SideStatus(base, theirs);
      var result := (t: DiffType) => Some(MergingResult(t, Some(so), Some(st)));
      var unmerged := Some(Unmerged(LinesOf(base), LinesOf(ours), LinesOf(theirs)));
      if base.None? then
        Outcome(Some([Conflict(ours.value.lines, theirs.value.lines)]), unmerged, result(BothAdded))
      else if ours.None? && theirs.None? then Outcome(None, None, result(NoConflict))
      else if ours.None? then Outcome(None, unmerged, result(DeletedModified))
      else if theirs.None? then Outcome(Some(Plain(ours.value.lines)), unmerged, result(ModifiedDeleted))
      else
        var m := MergeOf(base.value.lines, ours.value.lines, theirs.value.lines);
        if m.conflicts == 0 then Outcome(Some(m.pieces), Some(Resolved(m.pieces)), result(BothModifiedWithoutConflicts))
        else Outcome(Some(m.pieces), unmerged, result(BothModifiedWithConflicts))
  }

  ghost function MergeAt(base: Tree, ours: Tree, theirs: Tree, p: Path): Outcome
  {
    MergePath(At(base, p), At(ours, p), At(theirs, p))
  }

  ghost function SideStatus(base: Option<File>, side: Option<File>): Status
  {
    if base.None? then Added else if side.None? then Deleted else Modified
  }

  // A path both sides modified crashes the differ exactly if its file was empty
  // and one side changed nothing but its mode.
  lemma ModifiedPathCrashesIff(base: File, ours: File, theirs: File)
    requires ours != base && theirs != base
    ensures Crashes(Some(base), Some(ours), Some(theirs)) <==>
            base.lines == [] && (OnlyModeDiffers(base, ours) || OnlyModeDiffers(base, theirs))
  {
  }

  ghost predicate OnlyModeDiffers(f: File, g: File)
  {
    f.lines == g.lines && f.mode != g.mode
  }

  // ---------- Content of files and of the index ----------

  type Index = map<Path, Staged>

  function PlainPieces(lines: Blob): (r: seq<Piece>)
    ensures r == Plain(lines)
  {
    seq(|lines|, i requires 0 <= i < |lines| => Line(lines[i]))
  }

  // The lines of a file written by a merge.
  function Text(content: seq<Piece>): Blob
  {
    if content == [] then [] else PieceText(content[0]) + Text(content[1..])
  }

  function PieceText(piece: Piece): Blob
  {
    match piece
    case Line(text) => [text]
    case Conflict(ours, theirs) => ["<<<<<<< yours"] + ours + ["======="] + theirs + [">>>>>>> theirs"]
  }

  lemma {:induction false} TextOfPlain(lines: Blob)
    ensures Text(Plain(lines)) == lines
  {
    if lines != [] {
      TextOfPlain(lines[1..]);
      assert Plain(lines)[1..] == Plain(lines[1..]);
    }
  }

  // A conflict shows ours and theirs in full between its three marker lines.
  lemma ConflictText(ours: Blob, theirs: Blob)
    ensures var t, n := Text([Conflict(ours, theirs)]), |ours|;
            && |t| == n + |theirs| + 3 && t[1..n + 1] == ours && t[n + 2..|t| - 1] == theirs
            && t[0] == "<<<<<<< yours" && t[n + 1] == "=======" && t[|t| - 1] == ">>>>>>> theirs"
  {
    var one := [Conflict(ours, theirs)];
    assert one[1..] == [] && Text(one) == PieceText(one[0]) + [];
  }

  // What resetting the index to a tree leaves in it.
  function IndexOf(tree: Tree): Index
  {
    map p | p in tree :: Resolved(PlainPieces(tree[p].lines))
  }

  ghost function EntryAt(index: Index, p: Path): Option<Staged>
  {
    if p in index then Some(index[p]) else None
  }

  // ---------- The merge as it runs ----------

  ghost function Shown(files: map<Path, seq<Piece>>, index: Index, res: map<Path, MergingResult>, p: Path): Outcome
  {
    Outcome(if p in files then Some(files[p]) else None,
            if p in index then Some(index[p]) else None,
            if p in res then Some(res[p]) else None)
  }

  ghost predicate CrashesAt(base: Tree, ours: Tree, theirs: Tree, p: Path)
  {
    Crashes(At(base, p), At(ours, p), At(theirs, p))
  }

  // Paths in todo still hold ours and have no result; the others are merged.
  ghost predicate Pass(files: map<Path, seq<Piece>>, index: Index, res: map<Path, MergingResult>,
                       base: Tree, ours: Tree, theirs: Tree, todo: iset<Path>)
  {
    forall p ::
      && (p !in todo ==> !CrashesAt(base, ours, theirs, p))
      && Shown(files, index, res, p) ==
         if p in todo then Holding(At(ours, p), None) else MergeAt(base, ours, theirs, p)
  }

  // What a crash leaves: every path is as it was, or merged.
  ghost predicate HalfMerged(files: map<Path, seq<Piece>>, index: Index, base: Tree, ours: Tree, theirs: Tree)
  {
    forall p :: var o := Shown(files, index, map[], p);
                o == Holding(At(ours, p), None) || o == MergeAt(base, ours, theirs, p).(result := None)
  }

  lemma PassIsHalf(files: map<Path, seq<Piece>>, index: Index, res: map<Path, MergingResult>,
                   base: Tree, ours: Tree, theirs: Tree, todo: iset<Path>)
    requires Pass(files, index, res, base, ours, theirs, todo)
    ensures HalfMerged(files, index, base, ours, theirs)
  {
    hide MergePath;
    forall p ensures Shown(files, index, map[], p) == Shown(files, index, res, p).(result := None) {
    }
  }

  // Handling one path leaves the others as they are.
  lemma PassStep(files: map<Path, seq<Piece>>, index: Index, res: map<Path, MergingResult>,
                 files': map<Path, seq<Piece>>, index': Index, c: MergingResult,
                 base: Tree, ours: Tree, theirs: Tree, todo: iset<Path>, path: Path)
    requires Pass(files, index, res, base, ours, theirs, todo)
    requires files' - {path} == files - {path} && index' - {path} == index - {path}
    requires !CrashesAt(base, ours, theirs, path)
    requires Shown(files', index', map[path := c], path) == MergeAt(base, ours, theirs, path)
    ensures Pass(files', index', res[path := c], base, ours, theirs, todo - iset{path})
  {
    hide MergePath, CrashesAt;
    forall p ensures Shown(files', index', res[path := c], p) ==
                     if p in todo - iset{path} then Holding(At(ours, p), None) else MergeAt(base, ours, theirs, p)
    {
      if p != path {
        OthersUnmoved(files, files', path, p);
        OthersUnmoved(index, index', path, p);
        assert Shown(files', index', res[path := c], p) == Shown(files, index, res, p);
      }
    }
  }

  // A path theirs left alone keeps what it holds; so does one nobody touched; and
  // neither crashes.
  lemma OneSidedPaths(base: Tree, ours: Tree, theirs: Tree, p: Path)
    ensures Changed(base, ours, p) && !Changed(base, theirs, p) ==>
              MergeAt(base, ours, theirs, p) ==
              Holding(At(ours, p), Some(MergingResult(NoConflict, Some(StatusOf(base, ours, p)), None)))
    ensures !Changed(base, ours, p) && Changed(base, theirs, p) ==>
              MergeAt(base, ours, theirs, p) ==
              Holding(At(theirs, p), Some(MergingResult(NoConflict, None, Some(StatusOf(base, theirs, p)))))
    ensures !Changed(base, ours, p) && !Changed(base, theirs, p) ==>
              MergeAt(base, ours, theirs, p) == Holding(At(ours, p), None)
    ensures CrashesAt(base, ours, theirs, p) ==> Changed(base, ours, p) && Changed(base, theirs, p)
  {
  }

  method MergeLines(baseB: Blob, oursB: Blob, theirsB: Blob) returns (res: MergeOutcome)
    ensures res == MergeOf(baseB, oursB, theirsB)
  {
    hide MergeOf;
    var diff3 := new Diff3();
    res := diff3.Merge(baseB, oursB, theirsB);
  }

  class Worktree {
    var files: map<Path, seq<Piece>>
    var index: Index

    // An index reset to a tree, and a work tree that holds it.
    constructor (tree: Tree)
      ensures forall p :: State(p, map[]) == Holding(At(tree, p), None)
    {
      files := map p | p in tree :: PlainPieces(tree[p].lines);
      index := IndexOf(tree);
    }

    ghost function State(p: Path, res: map<Path, MergingResult>): Outcome
      reads this
    {
      Shown(files, index, res, p)
    }

    // Stages what the work tree has.
    method Add(path: Path)
      requires path in files
      modifies this`index
      ensures index == old(index)[path := Resolved(files[path])]
    {
      index := index[path := Resolved(files[path])];
    }

    method Remove(path: Path)
      modifies this
      ensures files == old(files) - {path} && index == old(index) - {path}
    {
      files, index := files - {path}, index - {path};
    }

    method AddConflictFile(path: Path, base: Option<Blob>, ours: Option<Blob>, theirs: Option<Blob>)
      modifies this`index
      ensures index == old(index)[path := Unmerged(base, ours, theirs)]
    {
      index := index[path := Unmerged(base, ours, theirs)];
    }

    method CopyFileToOurs(path: Path, theirs: Tree)
      requires path in theirs
      modifies this
      ensures files == old(files)[path := Plain(theirs[path].lines)]
      ensures index == old(index)[path := Resolved(Plain(theirs[path].lines))]
    {
      var content := WriteBlock(theirs[path].lines);
      files := files[path := content];
      Add(path);
    }

    // Returns the number of conflicts left in the file, unless the differ crashes.
    method MergeFiles(path: Path, baseB: Blob, oursB: Blob, theirsB: Blob) returns (conflicts: Option<int>)
      modifies this
      ensures var m := MergeOf(baseB, oursB, theirsB);
              if m.IndexOutOfRange?
              then conflicts == None && files == old(files) && index == old(index)
              else
                && conflicts == Some(m.conflicts) && files == old(files)[path := m.pieces]
                && index == old(index)[path := if m.conflicts == 0 then Resolved(m.pieces)
                                               else Unmerged(Some(baseB), Some(oursB), Some(theirsB))]
    {
      hide MergeOf;
      var res := MergeLines(baseB, oursB, theirsB);
      if res.IndexOutOfRange? {
        return None;
      }
      files := files[path := res.pieces];
      if res.conflicts != 0 {
        AddConflictFile(path, Some(baseB), Some(oursB), Some(theirsB));
      } else {
        Add(path);
      }
      return Some(res.conflicts);
    }

    // A path both sides changed.
    method MergeBoth(path: Path, base: Tree, ours: Tree, theirs: Tree, s1: Status, s2: Status)
      returns (c: Option<MergingResult>)
      requires Changed(base, ours, path) && Changed(base, theirs, path)
      requires s1 == StatusOf(base, ours, path) && s2 == StatusOf(base, theirs, path)
      requires State(path, map[]) == Holding(At(ours, path), None)
      modifies this
      ensures c.None? <==> CrashesAt(base, ours, theirs, path)
      ensures if c.None? then files == old(files) && index == old(index)
              else State(path, map[path := c.value]) == MergeAt(base, ours, theirs, path)
      ensures files - {path} == old(files) - {path} && index - {path} == old(index) - {path}
    {
      hide MergeOf;
      var result := NoConflict;
      if s1 == s2 {
        match s1 {
          case Modified =>
            var conflicts := MergeFiles(path, base[path].lines, ours[path].lines, theirs[path].lines);
            if conflicts.None? {
              return None;
            }
            result := if conflicts.value == 0 then BothModifiedWithoutConflicts else BothModifiedWithConflicts;
          case Added =>
            result := BothAdded;
            files := files[path := [Conflict(ours[path].lines, theirs[path].lines)]];
            AddConflictFile(path, None, Some(ours[path].lines), Some(theirs[path].lines));
          case Deleted =>
        }
      } else {
        match s1 {
          case Modified =>
            if s2 == Deleted {
              result := ModifiedDeleted;
              AddConflictFile(path, Some(base[path].lines), Some(ours[path].lines), None);
            } else {
              assert false;
            }
          case Added =>
            assert false;
          case Deleted =>
            if s2 == Modified {
              result := DeletedModified;
              AddConflictFile(path, Some(base[path].lines), None, Some(theirs[path].lines));
            } else {
              assert false;
            }
        }
      }
      return Some(MergingResult(result, Some(s1), Some(s2)));
    }

    // A path only theirs changed.
    method TakeTheirs(path: Path, base: Tree, ours: Tree, theirs: Tree, s2: Status)
      requires !Changed(base, ours, path) && Changed(base, theirs, path) && s2 == StatusOf(base, theirs, path)
      requires State(path, map[]) == Holding(At(ours, path), None)
      modifies this
      ensures State(path, map[]) == Holding(At(theirs, path), None)
      ensures files - {path} == old(files) - {path} && index - {path} == old(index) - {path}
    {
      match s2 {
        case Modified =>
          CopyFileToOurs(path, theirs);
        case Added =>
          CopyFileToOurs(path, theirs);
        case Deleted =>
          Remove(path);
      }
    }

    // The paths ours changed, until the differ crashes.
    method MergeOurs(base: Tree, ours: Tree, theirs: Tree, statuses1: map<Path, Status>, statuses2: map<Path, Status>)
      returns (res: Option<map<Path, MergingResult>>)
      requires statuses1 == Changes(base, ours) && statuses2 == Changes(base, theirs)
      requires Pass(files, index, map[], base, ours, theirs, iset p: Path | p in statuses1 || !Changed(base, ours, p))
      modifies this
      ensures res.Some? ==> Pass(files, index, res.value, base, ours, theirs, iset p: Path | !Changed(base, ours, p))
      ensures res.None? ==> HalfMerged(files, index, base, ours, theirs) && exists p :: CrashesAt(base, ours, theirs, p)
    {
      hide MergePath, CrashesAt, HalfMerged;
      var done: map<Path, MergingResult> := map[];
      var left := statuses1.Keys;
      ghost var todo := iset p: Path | p in statuses1 || !Changed(base, ours, p);
      while left != {}
        invariant left <= statuses1.Keys
        invariant todo == iset p: Path | p in left || !Changed(base, ours, p)
        invariant Pass(files, index, done, base, ours, theirs, todo)
        decreases left
      {
        var path :| path in left;
        ghost var files0, index0, done0 := files, index, done;
        assert State(path, done) == Holding(At(ours, path), None);
        OneSidedPaths(base, ours, theirs, path);
        var c := Some(MergingResult(NoConflict, Some(statuses1[path]), None));
        if path in statuses2 {
          c := MergeBoth(path, base, ours, theirs, statuses1[path], statuses2[path]);
          if c.None? {
            PassIsHalf(files, index, done, base, ours, theirs, todo);
            return None;
          }
        }
        PassStep(files0, index0, done0, files, index, c.value, base, ours, theirs, todo, path);
        done := done[path := c.value];
        left := left - {path};
        todo := todo - iset{path};
      }
      return Some(done);
    }

    // The paths only theirs changed.
    method MergeTheirs(base: Tree, ours: Tree, theirs: Tree, statuses1: map<Path, Status>, statuses2: map<Path, Status>,
                       res0: map<Path, MergingResult>) returns (res: map<Path, MergingResult>)
      requires statuses1 == Changes(base, ours) && statuses2 == Changes(base, theirs)
      requires Pass(files, index, res0, base, ours, theirs, iset p: Path | !Changed(base, ours, p))
      modifies this
      ensures Pass(files, index, res, base, ours, theirs, iset{})
    {
      hide MergePath;
      res := res0;
      var left := statuses2.Keys - statuses1.Keys;
      ghost var todo := iset p: Path | p in left;
      UntouchedPass(files, index, res, base, ours, theirs);
      while left != {}
        invariant left <= statuses2.Keys - statuses1.Keys
        invariant todo == iset p: Path | p in left
        invariant Pass(files, index, res, base, ours, theirs, todo)
        decreases left
      {
        var path :| path in left;
        ghost var files0, index0, resBefore := files, index, res;
        assert State(path, res) == Holding(At(ours, path), None);
        OneSidedPaths(base, ours, theirs, path);
        TakeTheirs(path, base, ours, theirs, statuses2[path]);
        var c := MergingResult(NoConflict, None, Some(statuses2[path]));
        PassStep(files0, index0, resBefore, files, index, c, base, ours, theirs, todo, path);
        res := res[path := c];
        left := left - {path};
        todo := todo - iset{path};
      }
      assert todo == iset{};
    }

    // Every path ends as the three-way rule says, unless some path crashes.
    method CompareCommitsChanges(base: Tree, ours: Tree, theirs: Tree) returns (res: Option<map<Path, MergingResult>>)
      requires forall p :: State(p, map[]) == Holding(At(ours, p), None)
      modifies this
      ensures res.None? <==> exists p :: CrashesAt(base, ours, theirs, p)
      ensures if res.None? then HalfMerged(files, index, base, ours, theirs)
              else forall p :: State(p, res.value) == MergeAt(base, ours, theirs, p)
      ensures res.Some? ==> forall p :: Accounted(State(p, res.value), base, ours, theirs, p)
    {
      hide MergePath, Accounted;
      var statuses1 := Changes(base, ours);
      var statuses2 := Changes(base, theirs);
      res := MergeOurs(base, ours, theirs, statuses1, statuses2);
      if res.Some? {
        var all := MergeTheirs(base, ours, theirs, statuses1, statuses2, res.value);
        res := Some(all);
        forall p ensures Accounted(State(p, res.value), base, ours, theirs, p) {
          MergeIsAccounted(base, ours, theirs, p);
        }
      }
    }
  }

  // What neither side changed is merged as it stands.
  lemma UntouchedPass(files: map<Path, seq<Piece>>, index: Index, res: map<Path, MergingResult>,
                      base: Tree, ours: Tree, theirs: Tree)
    requires Pass(files, index, res, base, ours, theirs, iset p: Path | !Changed(base, ours, p))
    ensures Pass(files, index, res, base, ours, theirs,
                 iset p: Path | p in Changes(base, theirs).Keys - Changes(base, ours).Keys)
  {
    hide MergePath;
    forall p | !Changed(base, ours, p) && !Changed(base, theirs, p)
      ensures MergeAt(base, ours, theirs, p) == Holding(At(ours, p), None)
    {
      OneSidedPaths(base, ours, theirs, p);
    }
  }

  lemma OthersUnmoved<V>(m: map<Path, V>, m': map<Path, V>, path: Path, p: Path)
    requires m - {path} == m' - {path} && p != path
    ensures (p in m <==> p in m') && (p in m ==> m[p] == m'[p])
  {
    assert p in m <==> p in m - {path};
    assert p in m' <==> p in m' - {path};
    assert p in m ==> (m - {path})[p] == m[p];
    assert p in m' ==> (m' - {path})[p] == m'[p];
  }

  // ---------- What becomes of a path, told from the three trees ----------

  ghost predicate Reports(o: Outcome, t: DiffType, ours: Option<Status>, theirs: Option<Status>)
  {
    o.result == Some(MergingResult(t, ours, theirs))
  }

  // The path holds what the tree has for it, in the work tree and in the index.
  ghost predicate Holds(o: Outcome, tree: Tree, p: Path)
  {
    if p in tree
    then o.file == Some(Plain(tree[p].lines)) && o.staged == Some(Resolved(Plain(tree[p].lines)))
    else o.file == None && o.staged == None
  }

  // A path that at most one side changed ends as that side has it.
  ghost predicate OneSideAccounted(o: Outcome, base: Tree, ours: Tree, theirs: Tree, p: Path)
  {
    && (!Changed(base, ours, p) && !Changed(base, theirs, p) ==> Holds(o, ours, p) && o.result == None)
    && (Changed(base, ours, p) && !Changed(base, theirs, p) ==>
          Holds(o, ours, p) && Reports(o, NoConflict, Some(StatusOf(base, ours, p)), None))
    && (!Changed(base, ours, p) && Changed(base, theirs, p) ==>
          Holds(o, theirs, p) && Reports(o, NoConflict, None, Some(StatusOf(base, theirs, p))))
  }

  // What ours modified and theirs deleted stays in the work tree, what ours deleted
  // and theirs modified stays out of it; the index has the stages there are.
  ghost predicate DeletionAccounted(o: Outcome, base: Tree, ours: Tree, theirs: Tree, p: Path)
  {
    && (p in base && p in ours && p !in theirs && ours[p] != base[p] ==>
          && o.file == Some(Plain(ours[p].lines))
          && o.staged == Some(Unmerged(Some(base[p].lines), Some(ours[p].lines), None))
          && Reports(o, ModifiedDeleted, Some(Modified), Some(Deleted)))
    && (p in base && p !in ours && p in theirs && theirs[p] != base[p] ==>
          && o.file == None
          && o.staged == Some(Unmerged(Some(base[p].lines), None, Some(theirs[p].lines)))
          && Reports(o, DeletedModified, Some(Deleted), Some(Modified)))
    && (p in base && p !in ours && p !in theirs ==>
          o.file == None && o.staged == None && Reports(o, NoConflict, Some(Deleted), Some(Deleted)))
  }

  // A path both sides added holds one conflict block, ours first; one both sides
  // modified holds the merge of the three files, and is staged if that is clean.
  ghost predicate BothAccounted(o: Outcome, base: Tree, ours: Tree, theirs: Tree, p: Path)
  {
    && (p !in base && p in ours && p in theirs ==>
          && o.file == Some([Conflict(ours[p].lines, theirs[p].lines)])
          && o.staged == Some(Unmerged(None, Some(ours[p].lines), Some(theirs[p].lines)))
          && Reports(o, BothAdded, Some(Added), Some(Added)))
    && (p in base && p in ours && p in theirs && ours[p] != base[p] && theirs[p] != base[p] ==>
          var m := MergeOf(base[p].lines, ours[p].lines, theirs[p].lines);
          && m.Merged? && o.file == Some(m.pieces)
          && (m.conflicts == 0 ==>
                o.staged == Some(Resolved(m.pieces)) && Reports(o, BothModifiedWithoutConflicts, Some(Modified), Some(Modified)))
          && (m.conflicts != 0 ==>
                && o.staged == Some(Unmerged(Some(base[p].lines), Some(ours[p].lines), Some(theirs[p].lines)))
                && Reports(o, BothModifiedWithConflicts, Some(Modified), Some(Modified))))
  }

  ghost predicate Accounted(o: Outcome, base: Tree, ours: Tree, theirs: Tree, p: Path)
  {
    && OneSideAccounted(o, base, ours, theirs, p)
    && DeletionAccounted(o, base, ours, theirs, p)
    && BothAccounted(o, base, ours, theirs, p)
  }

  // The rule does this to every path of every three trees.
  lemma MergeIsAccounted(base: Tree, ours: Tree, theirs: Tree, p: Path)
    requires !CrashesAt(base, ours, theirs, p)
    ensures Accounted(MergeAt(base, ours, theirs, p), base, ours, theirs, p)
  {
    hide MergeOf;
  }

  // And a conflict loses nothing: the index has every version there is, and the
  // work tree has the file exactly if ours does.
  lemma ConflictLosesNothing(base: Tree, ours: Tree, theirs: Tree, p: Path)
    ensures var o := MergeAt(base, ours, theirs, p);
            InConflict(o) ==>
              && o.staged == Some(Unmerged(LinesOf(At(base, p)), LinesOf(At(ours, p)), LinesOf(At(theirs, p))))
              && (o.file.Some? <==> p in ours)
  {
    hide MergeOf;
  }

  // ---------- Laws of the merge of trees ----------

  // The kinds of result that are reported as conflicts.
  ghost predicate IsConflict(t: DiffType)
  {
    t == BothAdded || t == BothModifiedWithConflicts || t == ModifiedDeleted || t == DeletedModified
  }

  ghost predicate InConflict(o: Outcome)
  {
    o.staged.Some? && o.staged.value.Unmerged?
  }

  // There is a result for exactly the changed paths, and a conflict is reported
  // for exactly the unmerged ones: both sides added the path, one changed what
  // the other deleted, or their changes to its lines conflict.
  lemma ReportedConflicts(base: Tree, ours: Tree, theirs: Tree, p: Path)
    requires !CrashesAt(base, ours, theirs, p)
    ensures var o := MergeAt(base, ours, theirs, p);
            && (o.result.Some? <==> Changed(base, ours, p) || Changed(base, theirs, p))
            && (InConflict(o) <==> o.result.Some? && IsConflict(o.result.value.diffType))
            && (InConflict(o) <==>
                  && Changed(base, ours, p) && Changed(base, theirs, p)
                  && (|| p !in base
                      || (p in ours <==> p !in theirs)
                      || (p in ours && p in theirs && MergeOf(base[p].lines, ours[p].lines, theirs[p].lines).conflicts != 0)))
  {
    hide MergeOf;
  }

  // The same change on both sides is taken once, except that a path both sides
  // added is a conflict even if they added the same file, and that a new mode for
  // an empty file crashes the merge.
  lemma SameChangeOnPath(base: Option<File>, x: Option<File>)
    ensures !Crashes(base, x, x) && MergePath(base, x, x) == Holding(x, MergePath(base, x, x).result) <==>
            (x.Some? ==> base.Some? && (base.value.lines == [] ==> !OnlyModeDiffers(base.value, x.value)))
  {
    if base.Some? && x.Some? && base != x {
      ModifiedPathCrashesIff(base.value, x.value, x.value);
      MergeSameChange(base.value.lines, x.value.lines);
    }
    hide MergeOf;
  }

  // So merging a tree with itself gives the tree back exactly if it adds nothing
  // and gives no empty file a new mode.
  lemma SameTreesMergeIff(base: Tree, x: Tree)
    ensures (forall p :: var o := MergeAt(base, x, x, p);
                         !CrashesAt(base, x, x, p) && o == Holding(At(x, p), o.result))
            <==> forall p :: p in x ==> p in base && (base[p].lines == [] ==> !OnlyModeDiffers(base[p], x[p]))
  {
    hide MergePath, Crashes;
    forall p
      ensures (var o := MergeAt(base, x, x, p); !CrashesAt(base, x, x, p) && o == Holding(At(x, p), o.result))
              <==> (p in x ==> p in base && (base[p].lines == [] ==> !OnlyModeDiffers(base[p], x[p])))
    {
      SameChangeOnPath(At(base, p), At(x, p));
    }
  }

  // ---------- The index a merge leaves ----------

  ghost predicate TreesCrash(base: Tree, ours: Tree, theirs: Tree)
  {
    exists p :: CrashesAt(base, ours, theirs, p)
  }

  ghost predicate TreesConflict(base: Tree, ours: Tree, theirs: Tree)
  {
    exists p :: InConflict(MergeAt(base, ours, theirs, p))
  }

  ghost function MergedIndex(base: Tree, ours: Tree, theirs: Tree): (index: Index)
    ensures forall p :: EntryAt(index, p) == MergeAt(base, ours, theirs, p).staged
  {
    var paths := base.Keys + ours.Keys + theirs.Keys;
    map p | p in paths && MergeAt(base, ours, theirs, p).staged.Some? :: MergeAt(base, ours, theirs, p).staged.value
  }

  // After a crash every index entry is that of ours, or merged.
  ghost predicate HalfStaged(index: Index, base: Tree, ours: Tree, theirs: Tree)
  {
    forall p :: EntryAt(index, p) == EntryAt(IndexOf(ours), p) || EntryAt(index, p) == MergeAt(base, ours, theirs, p).staged
  }

  // Merged paths are staged as they are in the work tree.
  lemma CleanPathIsStaged(base: Tree, ours: Tree, theirs: Tree, p: Path)
    ensures var o := MergeAt(base, ours, theirs, p);
            !InConflict(o) ==> o.staged == if o.file.Some? then Some(Resolved(o.file.value)) else None
  {
    hide MergeOf;
  }

  // ---------- Exchanging the sides ----------

  ghost function MirrorType(t: DiffType): DiffType
  {
    if t == ModifiedDeleted then DeletedModified else if t == DeletedModified then ModifiedDeleted else t
  }

  // Exchanging the sides gives the same conflicts with ours and theirs exchanged,
  // and the same index entry for a path that is not in conflict.
  lemma SwapPath(base: Option<File>, ours: Option<File>, theirs: Option<File>)
    ensures Crashes(base, ours, theirs) <==> Crashes(base, theirs, ours)
    ensures var o, o' := MergePath(base, ours, theirs), MergePath(base, theirs, ours);
            !Crashes(base, ours, theirs) ==>
              && (InConflict(o) <==> InConflict(o'))
              && (!InConflict(o) ==> o'.staged == o.staged && o'.file == o.file)
              && (InConflict(o) ==> o'.staged == Some(Unmerged(o.staged.value.base, o.staged.value.theirs, o.staged.value.ours)))
              && (o'.result == if o.result.None? then None
                               else Some(MergingResult(MirrorType(o.result.value.diffType), o.result.value.theirs, o.result.value.ours)))
  {
    hide MergeOf;
    if base.Some? && ours.Some? && theirs.Some? && ours != base && theirs != base {
      SwapMergeOf(base.value.lines, ours.value.lines, theirs.value.lines);
      var m := MergeOf(base.value.lines, ours.value.lines, theirs.value.lines);
      if m.Merged? && m.conflicts == 0 {
        CleanMergeIsSymmetric(base.value.lines, ours.value.lines, theirs.value.lines);
      }
    }
  }
}
