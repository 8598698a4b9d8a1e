// The life of a merge: MERGE_HEAD and ORIG_HEAD across Merge, Commit and
// AbortMerge, over a history of commits with their trees, and the index in between.
// Storage calls succeed.

module MergeLifecycle {
  import opened Wrappers
  import opened History
  import opened ThreeWayMerge
  import opened TreeMerge
  import MergeBase

  // ---------- The state ----------

  // Commits are stored with the trees they hold.
  datatype State = State(
    head: Option<Hash>,
    mergeHead: Option<Hash>,
    origHead: Option<Hash>,
    index: Index,
    history: Store,
    trees: map<Hash, Tree>)

  ghost predicate Stored(s: State, ref: Option<Hash>)
  {
    ref.Some? ==> ref.value in s.history
  }

  ghost predicate WellFormed(s: State)
  {
    && Acyclic(s.history) && s.trees.Keys == s.history.Keys
    && Stored(s, s.head) && Stored(s, s.mergeHead) && Stored(s, s.origHead)
  }

  ghost predicate InProgress(s: State)
  {
    s.mergeHead.Some?
  }

  // The paths in conflict, which keep a commit from being made.
  ghost function UnmergedPaths(index: Index): set<Path>
  {
    set p | p in index && index[p].Unmerged?
  }

  // ---------- The operations and what decides them ----------

  // An operation, with what is decided outside the state.  For a merge: whether
  // there are uncommitted files, the answer of the search for a base, the tree of
  // the base if that is virtual, and the index if the merge fails half-way.  For a
  // commit: its hash and date, and the modes the index has for its files.
  datatype Operation =
    | Merge(theirs: Hash, uncommitted: bool, parent: MergeBase.Result<MergeBase.MergingCommit>, virtualTree: Tree, left: Index)
    | Commit(parents: seq<Hash>, hasAuthor: bool, hash: Hash, date: int, modes: Path -> Mode)
    | AbortMerge
    | Stage(path: Path, content: Option<seq<Piece>>)

  datatype Answer =
    | Done
    | MergeCommitNeeded
    | MergeWithConflicts
    | Crashed
    | HeadNotFound
    | CommitNotFound
    | MergeInProgress
    | HasUncommittedFiles
    | NoCommonParent
    | MissingAuthor
    | HasUnmergedFiles
    | ReferenceNotFound

  ghost predicate IsFastForward(s: State, theirs: Hash)
    requires WellFormed(s) && s.head.Some?
  {
    Ancestor(s.history, s.head.value, theirs)
  }

  // The merge is neither a fast-forward nor refused, and looks for its base.
  ghost predicate NeedsBase(s: State, op: Operation)
    requires WellFormed(s) && op.Merge?
  {
    && s.head.Some? && op.theirs in s.history && !IsFastForward(s, op.theirs)
    && !InProgress(s) && !op.uncommitted
  }

  // It has found one.
  ghost predicate Starts(s: State, op: Operation)
    requires WellFormed(s) && op.Merge?
  {
    && NeedsBase(s, op) && op.parent.Ok?
    && MergeBase.IsComputed(s.history, s.head.value, op.theirs, op.parent)
  }

  ghost function BaseTree(s: State, op: Operation): Tree
    requires WellFormed(s) && op.Merge? && Starts(s, op)
  {
    if op.parent.value.isVirtual then op.virtualTree else s.trees[op.parent.value.commit]
  }

  // What the merge makes of a path.
  ghost function MergedAt(s: State, op: Operation, p: Path): Outcome
    requires WellFormed(s) && op.Merge? && Starts(s, op)
  {
    MergeAt(BaseTree(s, op), s.trees[s.head.value], s.trees[op.theirs], p)
  }

  ghost predicate MergeCrashes(s: State, op: Operation)
    requires WellFormed(s) && op.Merge? && Starts(s, op)
  {
    TreesCrash(BaseTree(s, op), s.trees[s.head.value], s.trees[op.theirs])
  }

  ghost function CommitFor(s: State, op: Operation): History.Commit
    requires op.Commit?
  {
    History.Commit(op.date, ParentsFor(s, op))
  }

  // A hash stands for its content: it is new, and known to no commit, or the hash
  // of the same commit made before.
  ghost predicate IsHashOf(s: State, hash: Hash, commit: History.Commit, tree: Tree)
  {
    if hash in s.history then s.history[hash] == commit && hash in s.trees && s.trees[hash] == tree
    else hash !in commit.parents && forall c :: c in s.history ==> hash !in s.history[c].parents
  }

  // What is decided outside the state is decided as the history, the trees and the
  // hashes allow.
  ghost predicate Possible(s: State, op: Operation)
    requires WellFormed(s)
  {
    match op
    case Merge(theirs, _, parent, _, _) =>
      NeedsBase(s, op) ==>
        && MergeBase.IsComputed(s.history, s.head.value, theirs, parent)
        && (parent.Ok? && MergeCrashes(s, op) ==>
              HalfStaged(op.left, BaseTree(s, op), s.trees[s.head.value], s.trees[theirs]))
    case Commit(_, hasAuthor, hash, _, modes) =>
      hasAuthor && UnmergedPaths(s.index) == {} ==> IsHashOf(s, hash, CommitFor(s, op), TreeFrom(s.index, modes))
    case AbortMerge => true
    case Stage(_, _) => true
  }

  // ---------- What each operation does to the state ----------

  ghost function AfterMerge(s: State, op: Operation): (State, Answer)
    requires WellFormed(s) && op.Merge? && Possible(s, op)
  {
    if s.head.None? then (s, HeadNotFound)
    else if op.theirs !in s.history then (s, CommitNotFound)
    else if IsFastForward(s, op.theirs) then (s.(head := Some(op.theirs), index := IndexOf(s.trees[op.theirs])), Done)
    else if InProgress(s) then (s, MergeInProgress)
    else if op.uncommitted then (s, HasUncommittedFiles)
    else if !op.parent.Ok? then
      (if op.parent == MergeBase.NoCommonParent(s.head.value, op.theirs) then s else s.(index := op.left),
       if op.parent.NoCommonParent? then NoCommonParent else CommitNotFound)
    else
      var started := s.(mergeHead := Some(op.theirs), origHead := s.head);
      var base, ours, theirs := BaseTree(s, op), s.trees[s.head.value], s.trees[op.theirs];
      if TreesCrash(base, ours, theirs) then (started.(index := op.left), Crashed)
      else
        (started.(index := MergedIndex(base, ours, theirs)),
         if TreesConflict(base, ours, theirs) then MergeWithConflicts else MergeCommitNeeded)
  }

  ghost function ParentsFor(s: State, op: Operation): seq<Hash>
    requires op.Commit?
  {
    var head := if s.head.Some? then [s.head.value] else [];
    if InProgress(s) then (if s.head.Some? then head else op.parents) + [s.mergeHead.value]
    else if op.parents == [] then head
    else op.parents
  }

  // The tree of the entries of an index without conflicts.
  function TreeFrom(index: Index, modes: Path -> Mode): Tree
  {
    map p | p in index && index[p].Resolved? :: File(modes(p), Text(index[p].content))
  }

  ghost function AfterCommit(s: State, op: Operation): (State, Answer)
    requires op.Commit?
  {
    if !op.hasAuthor then (s, MissingAuthor)
    else if UnmergedPaths(s.index) != {} then (s, HasUnmergedFiles)
    else
      (s.(head := Some(op.hash), mergeHead := None, origHead := None,
          history := s.history[op.hash := CommitFor(s, op)],
          trees := s.trees[op.hash := TreeFrom(s.index, op.modes)]),
       Done)
  }

  ghost function AfterAbort(s: State): (State, Answer)
    requires WellFormed(s)
  {
    if s.origHead.None? then (s.(mergeHead := None), ReferenceNotFound)
    else (s.(head := s.origHead, mergeHead := None, origHead := None, index := IndexOf(s.trees[s.origHead.value])), Done)
  }

  ghost function After(s: State, op: Operation): (State, Answer)
    requires WellFormed(s) && Possible(s, op)
  {
    match op
    case Merge(_, _, _, _, _) => AfterMerge(s, op)
    case Commit(_, _, _, _, _) => AfterCommit(s, op)
    case AbortMerge => AfterAbort(s)
    case Stage(path, content) =>
      (s.(index := if content.Some? then s.index[path := Resolved(content.value)] else s.index - {path}), Done)
  }

  lemma AddedCommitKeepsAcyclic(s: Store, hash: Hash, commit: History.Commit)
    requires Acyclic(s) && hash !in s && forall c :: c in s ==> hash !in s[c].parents
    requires hash !in commit.parents
    ensures Acyclic(s[hash := commit])
  {
    var rank, top := Rank(s), TopRank(s, s.Keys);
    assert IsRank(s[hash := commit], rank[hash := top + 1]);
  }

  ghost function TopRank(s: Store, cs: set<Hash>): (top: nat)
    requires Acyclic(s) && cs <= s.Keys
    ensures forall c :: c in cs ==> Rank(s)[c] <= top
  {
    if c :| c in cs then
      var rest := TopRank(s, cs - {c});
      if Rank(s)[c] > rest then Rank(s)[c] else rest
    else 0
  }

  lemma StepKeepsWellFormed(s: State, op: Operation)
    requires WellFormed(s) && Possible(s, op)
    ensures WellFormed(After(s, op).0)
  {
    if op.Commit? && op.hasAuthor && UnmergedPaths(s.index) == {} {
      if op.hash in s.history {
        assert After(s, op).0.history == s.history;
      } else {
        AddedCommitKeepsAcyclic(s.history, op.hash, CommitFor(s, op));
      }
    }
  }

  // ---------- The operations ----------

  class Worktree {
    var head: Option<Hash>
    var mergeHead: Option<Hash>
    var origHead: Option<Hash>
    var index: Index
    var history: Store
    var trees: map<Hash, Tree>

    constructor (head: Option<Hash>, history: Store, trees: map<Hash, Tree>)
      requires WellFormed(State(head, None, None, map[], history, trees))
      ensures WellFormed(Now())
      ensures Now() == State(head, None, None, if head.Some? then IndexOf(trees[head.value]) else map[], history, trees)
    {
      this.head, mergeHead, origHead := head, None, None;
      index := if head.Some? then IndexOf(trees[head.value]) else map[];
      this.history, this.trees := history, trees;
    }

    ghost function Now(): State
      reads this
    {
      State(head, mergeHead, origHead, index, history, trees)
    }

    // fastForward is what isFastForward finds; virtualTree and left stand for what
    // the search for a base leaves in the index.
    method MergeBranch(theirs: Hash, fastForward: bool, uncommitted: bool, virtualTree: Tree, left: Index)
      returns (answer: Answer, ghost op: Operation)
      requires WellFormed(Now())
      requires head.Some? && theirs in history ==> (fastForward <==> IsFastForward(Now(), theirs))
      modifies this
      ensures op.Merge? && op.theirs == theirs && op.uncommitted == uncommitted && op.virtualTree == virtualTree
      ensures Possible(old(Now()), op) && (Now(), answer) == AfterMerge(old(Now()), op)
    {
      op := Merge(theirs, uncommitted, MergeBase.NoCommonParent(theirs, theirs), virtualTree, left);
      if head.None? {
        return HeadNotFound, op;
      }
      if theirs !in history {
        return CommitNotFound, op;
      }
      if fastForward {
        head := Some(theirs);
        HardReset(theirs);
        return Done, op;
      }
      answer, op := NonFastForwardMerge(head.value, theirs, uncommitted, virtualTree, left);
    }

    method NonFastForwardMerge(ours: Hash, theirs: Hash, uncommitted: bool, virtualTree: Tree, left: Index)
      returns (answer: Answer, ghost op: Operation)
      requires WellFormed(Now()) && head == Some(ours) && theirs in history && !IsFastForward(Now(), theirs)
      modifies this
      ensures op.Merge? && op.theirs == theirs && op.uncommitted == uncommitted && op.virtualTree == virtualTree
      ensures Possible(old(Now()), op) && (Now(), answer) == AfterMerge(old(Now()), op)
    {
      hide MergeBase.IsComputed, TreesCrash, TreesConflict, HalfStaged, MergedIndex, MergeAt;
      op := Merge(theirs, uncommitted, MergeBase.NoCommonParent(theirs, theirs), virtualTree, left);
      if mergeHead.Some? {
        return MergeInProgress, op;
      }
      if uncommitted {
        return HasUncommittedFiles, op;
      }
      var parent := MergeBase.ComputeParent(history, ours, theirs);
      op := op.(parent := parent);
      if !parent.Ok? {
        if parent != MergeBase.NoCommonParent(ours, theirs) {
          index := left;
        }
        return if parent.NoCommonParent? then NoCommonParent else CommitNotFound, op;
      }
      mergeHead := Some(theirs);
      origHead := Some(ours);
      var baseTree := if parent.value.isVirtual then virtualTree else trees[parent.value.commit];
      answer, index := MergeTrees(baseTree, trees[ours], trees[theirs]);
      op := op.(left := index);
    }

    method HardReset(commit: Hash)
      requires commit in trees
      modifies this
      ensures Now() == old(Now().(head := Some(commit), index := IndexOf(trees[commit])))
    {
      head, index := Some(commit), IndexOf(trees[commit]);
    }

    method RemoveMergeHead()
      modifies this
      ensures Now() == old(Now()).(mergeHead := None)
    {
      if mergeHead.Some? {
        mergeHead := None;
      }
    }

    method RemoveOrigHead()
      modifies this
      ensures Now() == old(Now()).(origHead := None)
    {
      if origHead.Some? {
        origHead := None;
      }
    }

    method GetUnmergedFiles() returns (unmerged: set<Path>)
      ensures unmerged == UnmergedPaths(index)
    {
      unmerged := {};
      var left := index.Keys;
      while left != {}
        invariant left <= index.Keys
        invariant unmerged == set p | p in index && p !in left && index[p].Unmerged?
        decreases left
      {
        var path :| path in left;
        if index[path].Unmerged? {
          unmerged := unmerged + {path};
        }
        left := left - {path};
      }
    }

    method MakeCommit(optsParents: seq<Hash>, hasAuthor: bool, hash: Hash, date: int, modes: Path -> Mode)
      returns (answer: Answer)
      requires WellFormed(Now()) && Possible(Now(), Operation.Commit(optsParents, hasAuthor, hash, date, modes))
      modifies this
      ensures (Now(), answer) == old(AfterCommit(Now(), Operation.Commit(optsParents, hasAuthor, hash, date, modes)))
    {
      var parents := optsParents;
      if mergeHead.Some? {
        if head.Some? {
          parents := [head.value];
        }
        parents := parents + [mergeHead.value];
      }
      if !hasAuthor {
        return MissingAuthor;
      }
      if |parents| == 0 && head.Some? {
        parents := [head.value];
      }
      var unmerged := GetUnmergedFiles();
      if |unmerged| != 0 {
        return HasUnmergedFiles;
      }
      trees := trees[hash := TreeFrom(index, modes)];
      history := history[hash := History.Commit(date, parents)];
      head := Some(hash);
      RemoveMergeHead();
      RemoveOrigHead();
      return Done;
    }

    method Abort() returns (answer: Answer)
      requires WellFormed(Now())
      modifies this
      ensures (Now(), answer) == old(AfterAbort(Now()))
    {
      RemoveMergeHead();
      if origHead.None? {
        return ReferenceNotFound;
      }
      HardReset(origHead.value);
      RemoveOrigHead();
      return Done;
    }
  }

  // Resets the index to ours and merges the trees path by path.
  method MergeTrees(base: Tree, ours: Tree, theirs: Tree) returns (answer: Answer, index: Index)
    ensures if TreesCrash(base, ours, theirs) then answer == Crashed && HalfStaged(index, base, ours, theirs)
            else
              && answer == (if TreesConflict(base, ours, theirs) then MergeWithConflicts else MergeCommitNeeded)
              && index == MergedIndex(base, ours, theirs)
  {
    hide MergePath, InConflict, IsConflict, Crashes;
    var area := new TreeMerge.Worktree(ours);
    var res := area.CompareCommitsChanges(base, ours, theirs);
    index := area.index;
    if res.None? {
      HalfMergedIsStaged(area.files, index, base, ours, theirs);
      return Crashed, index;
    }
    MergedIsStaged(area.files, index, res.value, base, ours, theirs);
    var hasConflicts := HasConflicts(res.value);
    return if hasConflicts then MergeWithConflicts else MergeCommitNeeded, index;
  }

  lemma HalfMergedIsStaged(files: map<Path, seq<Piece>>, index: Index, base: Tree, ours: Tree, theirs: Tree)
    requires HalfMerged(files, index, base, ours, theirs)
    ensures HalfStaged(index, base, ours, theirs)
  {
    hide MergePath;
    forall p ensures EntryAt(index, p) == Shown(files, index, map[], p).staged {
    }
  }

  // The index is that of the merged paths, and a conflict is reported exactly if
  // there is one in it.
  lemma MergedIsStaged(files: map<Path, seq<Piece>>, index: Index, res: map<Path, MergingResult>,
                       base: Tree, ours: Tree, theirs: Tree)
    requires !TreesCrash(base, ours, theirs)
    requires forall p :: Shown(files, index, res, p) == MergeAt(base, ours, theirs, p)
    ensures index == MergedIndex(base, ours, theirs)
    ensures TreesConflict(base, ours, theirs) <==> exists p :: p in res && IsConflict(res[p].diffType)
  {
    hide MergeAt, IsConflict, CrashesAt, InConflict, MergedIndex;
    forall p ensures EntryAt(index, p) == EntryAt(MergedIndex(base, ours, theirs), p) {
      assert EntryAt(index, p) == Shown(files, index, res, p).staged;
    }
    SameEntries(index, MergedIndex(base, ours, theirs));
    forall p ensures InConflict(MergeAt(base, ours, theirs, p)) <==> p in res && IsConflict(res[p].diffType) {
      assert Shown(files, index, res, p).result == if p in res then Some(res[p]) else None;
      ReportedConflicts(base, ours, theirs, p);
    }
  }

  lemma SameEntries(index: Index, index': Index)
    requires forall p :: EntryAt(index, p) == EntryAt(index', p)
    ensures index == index'
  {
    forall p ensures (p in index <==> p in index') && (p in index ==> index[p] == index'[p]) {
      assert EntryAt(index, p) == EntryAt(index', p);
    }
  }

  // Some result is reported as a conflict.
  method HasConflicts(mergeResult: map<Path, MergingResult>) returns (hasConflicts: bool)
    ensures hasConflicts <==> exists p :: p in mergeResult && IsConflict(mergeResult[p].diffType)
  {
    hasConflicts := false;
    var left := mergeResult.Keys;
    while left != {}
      invariant left <= mergeResult.Keys
      invariant hasConflicts <==> exists p :: p in mergeResult && p !in left && IsConflict(mergeResult[p].diffType)
      decreases left
    {
      var path :| path in left;
      match mergeResult[path].diffType {
        case BothAdded => hasConflicts := true;
        case BothModifiedWithConflicts => hasConflicts := true;
        case ModifiedDeleted => hasConflicts := true;
        case DeletedModified => hasConflicts := true;
        case NoConflict =>
        case BothModifiedWithoutConflicts =>
      }
      left := left - {path};
    }
  }

  // ---------- Runs ----------

  // The states a run goes through; StepKeepsWellFormed shows that it never leaves
  // the well-formed ones.
  ghost predicate IsRun(states: seq<State>, ops: seq<Operation>)
  {
    && |states| == |ops| + 1
    && (forall i :: 0 <= i <= |ops| ==> WellFormed(states[i]))
    && (forall i :: 0 <= i < |ops| ==> Possible(states[i], ops[i]) && states[i + 1] == After(states[i], ops[i]).0)
  }

  ghost predicate AtRest(s: State)
  {
    s.mergeHead.None? && s.origHead.None? && s.head.Some?
  }

  ghost predicate Paired(s: State)
  {
    s.head.Some? && (s.mergeHead.Some? <==> s.origHead.Some?)
  }

  // What one operation does to the refs.
  lemma StepAndRefs(s: State, op: Operation)
    requires WellFormed(s) && Possible(s, op)
    ensures var next := After(s, op).0;
            && (Paired(s) ==> Paired(next))
            && (InProgress(s) && InProgress(next) ==> next.mergeHead == s.mergeHead && next.origHead == s.origHead)
            && (!InProgress(s) && InProgress(next) ==>
                  op.Merge? && Starts(s, op) && next.mergeHead == Some(op.theirs) && next.origHead == s.head)
  {
    hide MergeBase.IsComputed, IsFastForward, TreesCrash, TreesConflict, HalfStaged, MergedIndex, IndexOf, IsHashOf, UnmergedPaths;
  }

  // MERGE_HEAD and ORIG_HEAD come and go together, even if a merge crashes.
  lemma {:induction false} RefsArePaired(states: seq<State>, ops: seq<Operation>, i: nat)
    requires IsRun(states, ops) && AtRest(states[0]) && i <= |ops|
    ensures Paired(states[i])
  {
    hide After, Possible, WellFormed;
    if i > 0 {
      RefsArePaired(states, ops, i - 1);
      StepAndRefs(states[i - 1], ops[i - 1]);
    }
  }

  // Operation i starts a merge that is still under way before operation k.
  ghost predicate MergeSince(states: seq<State>, ops: seq<Operation>, i: nat, k: nat)
    requires IsRun(states, ops)
  {
    && i < k <= |ops| && !InProgress(states[i])
    && forall j :: i < j <= k ==> InProgress(states[j])
  }

  // While it is, the two refs stay what they were when it began.
  lemma {:induction false} RefsAreKept(states: seq<State>, ops: seq<Operation>, i: nat, k: nat)
    requires IsRun(states, ops) && MergeSince(states, ops, i, k) && states[i].head.Some?
    ensures ops[i].Merge? && Starts(states[i], ops[i])
    ensures states[k].mergeHead == Some(ops[i].theirs) && states[k].origHead == states[i].head
  {
    hide After, Possible, WellFormed, Starts;
    StepAndRefs(states[k - 1], ops[k - 1]);
    assert InProgress(states[k]);
    if k > i + 1 {
      assert InProgress(states[k - 1]);
      RefsAreKept(states, ops, i, k - 1);
    }
  }

  // An abort returns HEAD and the index to where they were when the merge began,
  // whatever has happened since; and it always succeeds while a merge is in progress.
  lemma AbortRestores(states: seq<State>, ops: seq<Operation>, i: nat, k: nat)
    requires IsRun(states, ops) && AtRest(states[0]) && k < |ops| && MergeSince(states, ops, i, k) && ops[k].AbortMerge?
    ensures After(states[k], ops[k]).1 == Done
    ensures var head := states[i].head;
            && head.Some? && states[k + 1].head == head && AtRest(states[k + 1])
            && head.value in states[k].trees && states[k + 1].index == IndexOf(states[k].trees[head.value])
  {
    RefsArePaired(states, ops, i);
    RefsArePaired(states, ops, k);
    RefsAreKept(states, ops, i, k);
    assert states[k + 1] == After(states[k], ops[k]).0;
  }

  // The commit that concludes a merge joins HEAD with the commit merged, and clears
  // both refs; if it is refused nothing changes.
  lemma CommitConcludes(states: seq<State>, ops: seq<Operation>, i: nat, k: nat)
    requires IsRun(states, ops) && AtRest(states[0]) && k < |ops| && MergeSince(states, ops, i, k) && ops[k].Commit?
    ensures var (next, answer) := After(states[k], ops[k]);
            && ops[i].Merge? && states[k].head.Some?
            && (answer == Done ==>
                  && UnmergedPaths(states[k].index) == {} && AtRest(next) && next.head == Some(ops[k].hash)
                  && ops[k].hash in next.history && next.history[ops[k].hash].parents == [states[k].head.value, ops[i].theirs])
            && (answer != Done ==> next == states[k])
  {
    RefsArePaired(states, ops, i);
    RefsArePaired(states, ops, k);
    RefsAreKept(states, ops, i, k);
    var head, theirs := states[k].head.value, ops[i].theirs;
    assert [head] + [theirs] == [head, theirs];
  }

  // Of a merge in progress, only Commit and AbortMerge dispose: a merge is refused
  // unless it is a fast-forward, and that moves HEAD but not the refs.
  lemma NothingElseEndsIt(states: seq<State>, ops: seq<Operation>, k: nat)
    requires IsRun(states, ops) && AtRest(states[0]) && k < |ops| && InProgress(states[k])
    ensures var (next, answer) := After(states[k], ops[k]);
            && (ops[k].Merge? && answer != Done ==> next == states[k])
            && (ops[k].Merge? && ops[k].theirs in states[k].history && states[k].head.Some? && !IsFastForward(states[k], ops[k].theirs) ==>
                  answer == MergeInProgress)
            && (!InProgress(next) ==> answer == Done && (ops[k].Commit? || ops[k].AbortMerge?))
  {
    RefsArePaired(states, ops, k);
  }

  // Outside a merge AbortMerge only reports that there is nothing to abort.
  lemma AbortNeedsMerge(states: seq<State>, ops: seq<Operation>, k: nat)
    requires IsRun(states, ops) && AtRest(states[0]) && k < |ops| && !InProgress(states[k]) && ops[k].AbortMerge?
    ensures After(states[k], ops[k]) == (states[k], ReferenceNotFound)
  {
    RefsArePaired(states, ops, k);
  }

  // ---------- HEAD, and the history below it ----------

  // A merge is answered Done exactly if HEAD can be moved forward to the other
  // commit; then HEAD and the index are those of that commit, and nothing else moves.
  lemma FastForwardMovesHead(s: State, op: Operation)
    requires WellFormed(s) && op.Merge? && Possible(s, op)
    ensures After(s, op).1 == Done <==>
            s.head.Some? && op.theirs in s.history && Ancestor(s.history, s.head.value, op.theirs)
    ensures After(s, op).1 == Done ==>
              op.theirs in s.trees && After(s, op).0 == s.(head := Some(op.theirs), index := IndexOf(s.trees[op.theirs]))
  {
  }

  // A commit that is made becomes HEAD, with the tree of the index.  Its parents are
  // those given or else the old HEAD; in a merge the old HEAD and MERGE_HEAD.
  lemma CommitMovesHead(s: State, op: Operation)
    requires WellFormed(s) && op.Commit? && Possible(s, op)
    ensures After(s, op).1 == Done <==> op.hasAuthor && forall p :: p in s.index ==> s.index[p].Resolved?
    ensures var (next, answer) := After(s, op);
            answer == Done ==>
              && next.head == Some(op.hash) && next.index == s.index
              && op.hash in next.history && next.history[op.hash].date == op.date
              && op.hash in next.trees && next.trees[op.hash] == TreeFrom(s.index, op.modes)
              && var parents := next.history[op.hash].parents;
                 && (s.mergeHead.None? && s.head.Some? && op.parents == [] ==> parents == [s.head.value])
                 && (s.mergeHead.None? && s.head.None? && op.parents == [] ==> parents == [])
                 && (s.mergeHead.None? && op.parents != [] ==> parents == op.parents)
                 && (s.mergeHead.Some? && s.head.Some? ==> parents == [s.head.value, s.mergeHead.value])
                 && (s.mergeHead.Some? && s.head.None? ==> parents == op.parents + [s.mergeHead.value])
  {
    NoneUnmerged(s.index);
  }

  lemma NoneUnmerged(index: Index)
    ensures UnmergedPaths(index) == {} <==> forall p :: p in index ==> index[p].Resolved?
  {
    if UnmergedPaths(index) == {} {
      forall p | p in index ensures index[p].Resolved? {
        assert p !in UnmergedPaths(index);
      }
    }
  }

  // Commits are only ever added, one by each commit that is made, and HEAD moves by
  // operations that are done only.
  lemma HistoryOnlyGrows(s: State, op: Operation)
    requires WellFormed(s) && Possible(s, op)
    ensures var (next, answer) := After(s, op);
            && Extends(s.history, next.history)
            && (forall c :: c in s.trees ==> c in next.trees && next.trees[c] == s.trees[c])
            && (forall c :: c in next.history && c !in s.history ==> op.Commit? && answer == Done && c == op.hash)
            && (next.head != s.head ==> answer == Done && !op.Stage?)
  {
    hide MergeBase.IsComputed, TreesCrash, TreesConflict, HalfStaged, MergedIndex, IndexOf, UnmergedPaths, CommitFor, TreeFrom;
  }

  // The operation neither abandons HEAD nor names other parents for a commit on it.
  ghost predicate BuildsOnHead(s: State, op: Operation)
  {
    !op.AbortMerge? && (op.Commit? && op.parents != [] ==> InProgress(s))
  }

  lemma StepMovesForward(s: State, op: Operation)
    requires WellFormed(s) && Possible(s, op) && s.head.Some? && BuildsOnHead(s, op)
    ensures var next := After(s, op).0;
            WellFormed(next) && next.head.Some? && Ancestor(next.history, s.head.value, next.head.value)
    ensures op.Commit? && After(s, op).1 == Done && InProgress(s) ==>
              Ancestor(After(s, op).0.history, s.mergeHead.value, op.hash)
  {
    StepKeepsWellFormed(s, op);
    HistoryOnlyGrows(s, op);
    var next := After(s, op).0;
    if op.Merge? {
      FastForwardMovesHead(s, op);
    } else if op.Commit? && After(s, op).1 == Done {
      CommitMovesHead(s, op);
      hide After, Possible, WellFormed;
      assert IsParent(next.history, s.head.value, op.hash);
      ParentIsAncestor(next.history, s.head.value, op.hash);
      if InProgress(s) {
        assert IsParent(next.history, s.mergeHead.value, op.hash);
        ParentIsAncestor(next.history, s.mergeHead.value, op.hash);
      }
    }
  }

  // Over every stretch of a run that only builds on HEAD, HEAD moves forward.
  lemma {:induction false} HeadMovesForward(states: seq<State>, ops: seq<Operation>, i: nat, k: nat)
    requires IsRun(states, ops) && i <= k <= |ops| && states[i].head.Some?
    requires forall j :: i <= j < k ==> BuildsOnHead(states[j], ops[j])
    ensures states[k].head.Some? && Ancestor(states[k].history, states[i].head.value, states[k].head.value)
    ensures Extends(states[i].history, states[k].history)
    decreases k
  {
    hide After, Possible;
    if k > i {
      var s, op, next := states[k - 1], ops[k - 1], states[k];
      HeadMovesForward(states, ops, i, k - 1);
      StepMovesForward(s, op);
      HistoryOnlyGrows(s, op);
      AncestorSurvives(s.history, next.history, states[i].head.value, s.head.value);
      AncestorTransitive(next.history, states[i].head.value, s.head.value, next.head.value);
    }
  }

  // The commit that concludes a merge has both the HEAD the merge began on and the
  // commit merged among its ancestors.
  lemma MergedStaysBelowHead(states: seq<State>, ops: seq<Operation>, i: nat, k: nat)
    requires IsRun(states, ops) && AtRest(states[0]) && k < |ops| && MergeSince(states, ops, i, k)
    requires ops[k].Commit? && After(states[k], ops[k]).1 == Done
    ensures ops[i].Merge? && states[i].head.Some?
    ensures Ancestor(states[k + 1].history, states[i].head.value, ops[k].hash)
    ensures Ancestor(states[k + 1].history, ops[i].theirs, ops[k].hash)
  {
    hide After, Possible, WellFormed, Starts;
    RefsArePaired(states, ops, i);
    RefsArePaired(states, ops, k);
    RefsAreKept(states, ops, i, k);
    assert InProgress(states[k]);
    forall j | i <= j <= k ensures BuildsOnHead(states[j], ops[j]) {
      if i < j < k {
        assert InProgress(states[j]) && InProgress(states[j + 1]);
        AbortEndsIt(states[j], ops[j]);
      }
    }
    HeadMovesForward(states, ops, i, k + 1);
    StepMovesForward(states[k], ops[k]);
    CommitMovesHead(states[k], ops[k]);
  }

  lemma AbortEndsIt(s: State, op: Operation)
    requires WellFormed(s) && Possible(s, op)
    ensures op.AbortMerge? ==> !InProgress(After(s, op).0)
    ensures op.Commit? && After(s, op).1 == Done ==> !InProgress(After(s, op).0)
  {
  }

  // ---------- Refusals, and what is staged ----------

  ghost predicate IsRefusal(answer: Answer)
  {
    answer == HeadNotFound || answer == MergeInProgress || answer == HasUncommittedFiles
    || answer == MissingAuthor || answer == HasUnmergedFiles
  }

  // Refusals change nothing; and which of them a merge that cannot fast-forward
  // meets first.
  lemma RefusalsChangeNothing(s: State, op: Operation)
    requires WellFormed(s) && Possible(s, op)
    ensures IsRefusal(After(s, op).1) ==> After(s, op).0 == s
    ensures op.Merge? ==>
              && (After(s, op).1 == HeadNotFound <==> s.head.None?)
              && (s.head.Some? && op.theirs !in s.history ==> After(s, op) == (s, CommitNotFound))
    ensures op.Merge? && s.head.Some? && op.theirs in s.history && !IsFastForward(s, op.theirs) ==>
              && (After(s, op).1 == MergeInProgress <==> InProgress(s))
              && (After(s, op).1 == HasUncommittedFiles <==> !InProgress(s) && op.uncommitted)
    ensures op.Commit? ==>
              && (After(s, op).1 == MissingAuthor <==> !op.hasAuthor)
              && (After(s, op).1 == HasUnmergedFiles <==> op.hasAuthor && exists p :: p in s.index && s.index[p].Unmerged?)
  {
    NoneUnmerged(s.index);
    hide MergeBase.IsComputed, TreesCrash, TreesConflict, HalfStaged, MergedIndex, IndexOf, UnmergedPaths, IsHashOf, CommitFor;
  }

  // The operation does not touch the index entry of the path.
  ghost predicate Spares(s: State, op: Operation, p: Path)
    requires WellFormed(s) && Possible(s, op)
  {
    (op.Stage? && op.path != p) || op.Commit? || IsRefusal(After(s, op).1)
  }

  lemma SparedEntryStays(s: State, op: Operation, p: Path)
    requires WellFormed(s) && Possible(s, op) && Spares(s, op, p)
    ensures EntryAt(After(s, op).0.index, p) == EntryAt(s.index, p)
  {
    RefusalsChangeNothing(s, op);
  }

  lemma {:induction false} EntryStays(states: seq<State>, ops: seq<Operation>, j: nat, k: nat, p: Path)
    requires IsRun(states, ops) && j <= k <= |ops| && forall m :: j <= m < k ==> Spares(states[m], ops[m], p)
    ensures EntryAt(states[k].index, p) == EntryAt(states[j].index, p)
    decreases k
  {
    hide After, Possible, WellFormed, Spares;
    if k > j {
      EntryStays(states, ops, j, k - 1, p);
      SparedEntryStays(states[k - 1], ops[k - 1], p);
    }
  }

  lemma StageSetsEntry(s: State, op: Operation)
    requires WellFormed(s) && Possible(s, op) && op.Stage?
    ensures EntryAt(After(s, op).0.index, op.path) == if op.content.Some? then Some(Resolved(op.content.value)) else None
  {
  }

  // What was staged last is what the next commit holds.
  lemma StagedIsCommitted(states: seq<State>, ops: seq<Operation>, j: nat, k: nat, p: Path)
    requires IsRun(states, ops) && j < k < |ops| && ops[j].Stage? && ops[j].path == p
    requires forall m :: j < m < k ==> Spares(states[m], ops[m], p)
    requires ops[k].Commit? && After(states[k], ops[k]).1 == Done
    ensures var next := After(states[k], ops[k]).0;
            && ops[k].hash in next.trees
            && At(next.trees[ops[k].hash], p) ==
               if ops[j].content.Some? then Some(File(ops[k].modes(p), Text(ops[j].content.value))) else None
  {
    EntryStays(states, ops, j + 1, k, p);
    StageSetsEntry(states[j], ops[j]);
    CommitMovesHead(states[k], ops[k]);
    hide After, Possible, WellFormed, IsRun;
    assert EntryAt(states[k].index, p).Some? <==> p in states[k].index;
  }

  // ---------- From the conflicts of a merge to the commit that concludes it ----------

  // The operation takes path p out of conflict, if it was in one.
  ghost predicate Settles(s: State, op: Operation, p: Path)
    requires WellFormed(s) && Possible(s, op)
  {
    (op.Stage? && op.path == p) || (op.Merge? && After(s, op).1 == Done)
  }

  ghost predicate SettledSince(states: seq<State>, ops: seq<Operation>, i: nat, k: nat, p: Path)
    requires IsRun(states, ops) && k <= |ops|
  {
    exists j :: i < j < k && Settles(states[j], ops[j], p)
  }

  lemma ResetHasNoConflicts(tree: Tree)
    ensures UnmergedPaths(IndexOf(tree)) == {}
  {
  }

  // The paths in conflict right after a merge are those its three trees conflict on,
  // and the answer says whether there are any.
  lemma MergeLeavesConflicts(s: State, op: Operation)
    requires WellFormed(s) && op.Merge? && Possible(s, op) && Starts(s, op) && !MergeCrashes(s, op)
    ensures var (next, answer) := After(s, op);
            && (forall p :: p in UnmergedPaths(next.index) <==> InConflict(MergedAt(s, op, p)))
            && answer == if UnmergedPaths(next.index) == {} then MergeCommitNeeded else MergeWithConflicts
  {
    hide MergeAt, MergedIndex, TreesCrash;
    var next := After(s, op).0;
    forall p ensures p in UnmergedPaths(next.index) <==> InConflict(MergedAt(s, op, p)) {
      assert EntryAt(next.index, p) == MergedAt(s, op, p).staged;
    }
    assert UnmergedPaths(next.index) == {} <==> forall p :: p !in UnmergedPaths(next.index);
    assert forall p :: MergedAt(s, op, p) == MergeAt(BaseTree(s, op), s.trees[s.head.value], s.trees[op.theirs], p);
  }

  // Of these, the unmerged paths are those that have not been settled since.
  lemma {:induction false} ConflictsUntilSettled(states: seq<State>, ops: seq<Operation>, i: nat, k: nat, p: Path)
    requires IsRun(states, ops) && AtRest(states[0]) && MergeSince(states, ops, i, k)
    requires ops[i].Merge? && Starts(states[i], ops[i]) && !MergeCrashes(states[i], ops[i])
    ensures p in UnmergedPaths(states[k].index) <==>
            InConflict(MergedAt(states[i], ops[i], p)) && !SettledSince(states, ops, i, k, p)
  {
    hide After, Possible, WellFormed, Starts, MergeCrashes, MergedAt, UnmergedPaths, Settles;
    var s, op := states[k - 1], ops[k - 1];
    if k == i + 1 {
      MergeLeavesConflicts(s, op);
    } else {
      assert InProgress(s) && InProgress(states[k]);
      ConflictsUntilSettled(states, ops, i, k - 1, p);
      RefsArePaired(states, ops, k - 1);
      UnmergedNext(s, op, p);
      assert SettledSince(states, ops, i, k, p) <==> SettledSince(states, ops, i, k - 1, p) || Settles(s, op, p);
    }
  }

  // What one operation does to them while the merge goes on.
  lemma UnmergedNext(s: State, op: Operation, p: Path)
    requires WellFormed(s) && Possible(s, op) && Paired(s) && InProgress(s) && InProgress(After(s, op).0)
    ensures p in UnmergedPaths(After(s, op).0.index) <==> p in UnmergedPaths(s.index) && !Settles(s, op, p)
  {
    if op.Merge? && op.theirs in s.history {
      ResetHasNoConflicts(s.trees[op.theirs]);
    }
  }

  // So the commit that concludes the merge is made exactly if every path the merge
  // left in conflict has been settled.
  lemma CommitSucceedsIff(states: seq<State>, ops: seq<Operation>, i: nat, k: nat)
    requires IsRun(states, ops) && AtRest(states[0]) && MergeSince(states, ops, i, k)
    requires ops[i].Merge? && Starts(states[i], ops[i]) && !MergeCrashes(states[i], ops[i])
    requires k < |ops| && ops[k].Commit? && ops[k].hasAuthor
    ensures After(states[k], ops[k]).1 == Done <==>
            forall p :: InConflict(MergedAt(states[i], ops[i], p)) ==> SettledSince(states, ops, i, k, p)
  {
    forall p ensures p in UnmergedPaths(states[k].index) <==>
                     InConflict(MergedAt(states[i], ops[i], p)) && !SettledSince(states, ops, i, k, p)
    {
      ConflictsUntilSettled(states, ops, i, k, p);
    }
  }

  // A path that nothing touched since the merge is committed as the merge left it.
  lemma MergedIsCommitted(states: seq<State>, ops: seq<Operation>, i: nat, k: nat, p: Path)
    requires IsRun(states, ops) && i < k < |ops|
    requires ops[i].Merge? && Starts(states[i], ops[i]) && !MergeCrashes(states[i], ops[i])
    requires forall m :: i < m < k ==> Spares(states[m], ops[m], p)
    requires ops[k].Commit? && After(states[k], ops[k]).1 == Done
    ensures var next, file := After(states[k], ops[k]).0, MergedAt(states[i], ops[i], p).file;
            && ops[k].hash in next.trees
            && LinesOf(At(next.trees[ops[k].hash], p)) == if file.Some? then Some(Text(file.value)) else None
  {
    var s, op := states[i], ops[i];
    hide MergeBase.IsComputed, MergePath;
    EntryStays(states, ops, i + 1, k, p);
    MergeSetsEntry(s, op, p);
    CommitMovesHead(states[k], ops[k]);
    CleanPathIsStaged(BaseTree(s, op), s.trees[s.head.value], s.trees[op.theirs], p);
    hide After, Possible, WellFormed, IsRun, MergeCrashes, TreesCrash;
    assert EntryAt(states[k].index, p).Some? <==> p in states[k].index;
  }

  lemma MergeSetsEntry(s: State, op: Operation, p: Path)
    requires WellFormed(s) && op.Merge? && Possible(s, op) && Starts(s, op) && !MergeCrashes(s, op)
    ensures EntryAt(After(s, op).0.index, p) == MergedAt(s, op, p).staged
  {
    hide MergeAt, MergedIndex, TreesConflict;
  }

  // A merge without conflicts, committed at once, makes a commit of both heads that
  // holds the merged files.
  lemma CleanMergeIsCommitted(s: State, merge: Operation, commit: Operation, p: Path)
    requires WellFormed(s) && merge.Merge? && Possible(s, merge) && After(s, merge).1 == MergeCommitNeeded
    requires commit.Commit? && commit.hasAuthor && WellFormed(After(s, merge).0) && Possible(After(s, merge).0, commit)
    ensures s.head.Some? && Starts(s, merge)
    ensures var (next, answer) := After(After(s, merge).0, commit);
            && answer == Done && next.head == Some(commit.hash)
            && commit.hash in next.history && next.history[commit.hash].parents == [s.head.value, merge.theirs]
            && commit.hash in next.trees
            && LinesOf(At(next.trees[commit.hash], p)) ==
               var file := MergedAt(s, merge, p).file; if file.Some? then Some(Text(file.value)) else None
  {
    var mid := After(s, merge).0;
    StepAndRefs(s, merge);
    MergeLeavesConflicts(s, merge);
    NoneUnmerged(mid.index);
    CommitMovesHead(mid, commit);
    var states, ops := [s, mid, After(mid, commit).0], [merge, commit];
    StepKeepsWellFormed(mid, commit);
    MergedIsCommitted(states, ops, 0, 1, p);
  }

  // ---------- From the history to the base of a merge ----------

  // With decreasing dates, a merge uses the only merge base of the two commits.
  lemma MergeUsesTheBase(s: State, op: Operation, b: Hash)
    requires WellFormed(s) && op.Merge? && Possible(s, op) && NeedsBase(s, op)
    requires StrictDates(s.history) && MergeBase.Closed(s.history)
    requires forall x :: IsMergeBase(s.history, s.head.value, op.theirs, x) <==> x == b
    ensures Starts(s, op) && b in s.trees && BaseTree(s, op) == s.trees[b]
  {
    assert IsMergeBase(s.history, s.head.value, op.theirs, b);
  }

  // Two commits without a common ancestor are refused, and nothing changes.
  lemma UnrelatedAreRefused(s: State, op: Operation)
    requires WellFormed(s) && op.Merge? && Possible(s, op) && NeedsBase(s, op)
    requires StrictDates(s.history) && MergeBase.Closed(s.history)
    requires MergeBase.Unrelated(s.history, s.head.value, op.theirs)
    ensures After(s, op) == (s, NoCommonParent)
  {
  }

  // Merging a commit that is merged already starts a merge that changes no file.
  lemma MergedAlreadyYieldsOurs(s: State, op: Operation)
    requires WellFormed(s) && op.Merge? && Possible(s, op) && NeedsBase(s, op)
    requires StrictDates(s.history) && MergeBase.Closed(s.history)
    requires Ancestor(s.history, op.theirs, s.head.value)
    ensures var (next, answer) := After(s, op);
            answer == MergeCommitNeeded && next.index == IndexOf(s.trees[s.head.value])
  {
    var h, ours, theirs := s.history, s.head.value, op.theirs;
    assert Ancestor(h, theirs, theirs);
    forall x ensures IsMergeBase(h, ours, theirs, x) <==> x == theirs {
      MergeBase.AncestorIsTheBase(h, ours, theirs, theirs, x);
    }
    MergeUsesTheBase(s, op, theirs);
    TheirsIsBase(s.trees[theirs], s.trees[ours]);
    MergeLeavesConflicts(s, op);
  }

  lemma TheirsIsBase(base: Tree, ours: Tree)
    ensures !TreesCrash(base, ours, base) && MergedIndex(base, ours, base) == IndexOf(ours)
  {
    forall p ensures EntryAt(MergedIndex(base, ours, base), p) == EntryAt(IndexOf(ours), p) {
      OneSidedPaths(base, ours, base, p);
    }
    SameEntries(MergedIndex(base, ours, base), IndexOf(ours));
  }
}
