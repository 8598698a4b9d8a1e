# Verified model of merging, diffing and tree building

This project models, in Dafny 4.11, the parts of the Git implementation where correctness is hardest to see by
reading: the line differ, the three-way file merge, the search for merge bases, the path-by-path merge of two commits
with the life of a merge around it, the building of tree objects, the history of a file, and the object caches. It
proves what each of them is for, on all inputs. `dafny verify dfyconfig.toml` checks everything.

## How it is organised

| module | file | what it models |
|---|---|---|
| EditGraph | EditGraph.dfy | the reference notions: reachability in the edit graph, longest common subsequence, edit distance |
| MyersDiffer | MyersDiffer.dfy | the greedy search over one array of diagonals, and the replay of its trace |
| LineDiff | LineDiff.dfy | edit records, what they replay, and the matching they give |
| ThreeWayMerge | ThreeWayMerge.dfy | the specification of the file merge: chunks, the rule for one chunk, the laws |
| Diff3Merge | Diff3.dfy | the file merge as it runs, on top of the differ |
| History | History.dfy | commits, ancestors, merge bases, and the measure of a walk |
| PriorityQueues | PriorityQueue.dfy | the queue of marked commits as a heap of mutable items |
| MergeBase | MergeBase.dfy | the flag-painting walk and the recursive virtual base |
| TreeMerge | TreeMerge.dfy | the merge of two commits path by path |
| MergeLifecycle | MergeLifecycle.dfy | runs of merge, commit and abort over the history, its trees and the index |
| TreeBuilder | TreeBuilder.dfy | index entries to nested, sorted, stored trees |
| FileHistory | FileHistory.dfy | the walk over the commits that made a file, and adjacent duplicates |
| RecencyList, ObjectCache | RecencyList.dfy, ObjectCache.dfy | the LRU caches |
| Wrappers | Wrappers.dfy | an optional value, and a fact about sequences |

Code that works in place is modelled in place: the search writes one array, the heap swaps mutable items, the tree
builder, the work tree, the repository state and the caches are classes whose methods reassign their fields. Each such
method is tied to a specification, and the promises are lemmas about the specification.

## Main results

* **The differ is optimal and its trace can be replayed.** `EndsAreFurthest` is the furthest-reaching lemma of Myers'
  "An O(ND) Difference Algorithm and Its Variations", for search points that may leave the grid. From it the search
  stops in round n + m - 2 LCS, exactly at the far corner, and never runs out of rounds; the records read backwards
  turn the old file into the new one with as few insertions and deletions as any script at all; the lines kept form a
  strictly increasing matching as large as a longest common subsequence. Of the shortest scripts it is the one that
  takes an insertion wherever one leads as far as a deletion.
* **The three-way merge is one pass over base.** Cutting the files into chunks gives what `MergeByGaps` gives: lines
  matched on both sides are written, and what lies between two neighbouring ones is decided by itself. So the merge is
  clean exactly if in each of these gaps one side is unchanged or both changed alike.
* **It obeys its laws through the whole stack.** Termination, bounds and the exact partition of the
  three files rest on the matchings being increasing. merge(base, x, base) = merge(base, base, x) = merge(base, x, x) = x
  without conflicts, each exactly when the differ is not handed two empty files; exchanging the sides exchanges the
  halves of the conflict blocks and nothing else; the number returned is the number of conflict blocks written.
* **Merge bases are exact exactly when dates decrease.** The walk ends for any dates. In a store that has all its
  parents it returns the merge bases, each once and latest first, for every pair of commits if and only if dates
  strictly decrease from child to parent (`ExactIffStrictDates`): stopping as soon as everything queued is stale loses
  nothing, while a commit dated no later than its parent makes the walk from the two miss the parent, which is their
  merge base. For a commit and its parent the condition is exact for the pair, ties included (`ParentIsFoundIff`); two
  commits of which neither is an ancestor of the other can lose their base too (`SkewedDatesLoseTheBase`). The recursive
  base terminates for any dates. With decreasing dates it is refused for related commits only if two of their common
  ancestors are unrelated, and always if two of their merge bases are: a criss-cross of two roots cannot be merged.
* **Stored trees are canonical.** Every set of entries has one canonical tree, and the root returned is that of the
  entries kept, whose leaves it lists in the byte order of their full paths; flattening it gives the index back exactly
  if no path comes after a path below it, and all orders of the entries give the same root exactly if no path is a
  directory of another.
* **Merging commits.** Every path ends as a three-way rule says; conflicts are exactly the three documented kinds, and
  lose no version of a file. A path modified on both sides crashes the differ exactly if its file is empty and one side
  changed nothing but its mode; a commit merged with itself comes back exactly if it adds no path, because a path added
  on both sides is a conflict even when the two files are equal, and gives no empty file a new mode.
* **Runs of merge, commit and abort** keep the two refs paired, even through a crash, and restore HEAD and the index on
  abort. A merge answers that there are conflicts exactly if the three trees conflict on some path, and the commit that
  concludes it is made exactly if each of those paths has been settled since; it joins both heads and holds, path by
  path, what was staged last or else what the merge left. As long as nothing is aborted, and
  no commit is given other parents, HEAD only moves forward. A commit that is merged already changes no file.
* **The caches** keep a coherent map and list, hold the longest prefix of the most recently used items that fits, and
  over every run list them in the order of last use.

## Model

| member | source | states |
|---|---|---|
| EditGraph.Clip | myers_differer.go:60-71 | a search point outside the grid costs at least its overshoot more than the nearest grid point |
| EditGraph.DistanceIsMinimal | myers_differer.go:39-85 | n + m - 2 LCS edits reach the far corner, and no fewer do |
| MyersDiffer.FirstReadInRange | myers_differer.go:39-53 | the first cell read exists unless both files are empty |
| MyersDiffer.EndsAreReached | myers_differer.go:46-69 | where a round starts and ends on a diagonal is reachable with that many edits |
| MyersDiffer.EndsAreFurthest | myers_differer.go:43-78 | no path of d edits, in or out of the grid, gets past the end of round d on its diagonal |
| MyersDiffer.InsertionIsPreferred | myers_differer.go:48-58 | a round enters a diagonal by an insertion exactly if an insertion can lead to that point |
| MyersDiffer.FirstStopIsTheCorner | myers_differer.go:71-77 | the first point with x >= n and y >= m is (n, m), in round n + m - 2 LCS |
| MyersDiffer.NoStopNoCorner | myers_differer.go:43-83 | a round that does not stop proves (n, m) needs more edits |
| MyersDiffer.StartIsRead | myers_differer.go:48-58 | the comparison of two array cells picks the better predecessor, in round 0 too |
| MyersDiffer.WriteKeepsRow | myers_differer.go:67-69 | a round writes only cells of its own parity, so what it read stays in the array |
| MyersDiffer.NextRoundIsReady | myers_differer.go:80-82 | what a round wrote is what the next one reads |
| MyersDiffer.FollowRun | myers_differer.go:60-65 | follows the common lines to their end |
| MyersDiffer.SearchDiagonal | myers_differer.go:46-69 | one diagonal: returns and stores the furthest point, keeps the cells still needed |
| MyersDiffer.SearchRound | myers_differer.go:45-78 | one round: either it stops, at the edit distance, or the corner needs more edits |
| MyersDiffer.GetShortestPath | myers_differer.go:34-86 | one row per round up to the edit distance, each row fit for replay; the final nil is never returned |
| MyersDiffer.EntryIsMove | myers_differer.go:114-129 | the cell replayed leads to the end of the previous round by one insertion or deletion inside the grid |
| MyersDiffer.BackPathIsEditPath | myers_differer.go:110-143 | the replay is a connected walk inside the grid with exactly d edits |
| MyersDiffer.LastRoundEndsAtTheCorner | myers_differer.go:106-114 | the last round ends exactly at (n, m) |
| MyersDiffer.ShortestPathIsShortest | myers_differer.go:101-148 | the walk of two files reaches the origin with as many edits as their distance |
| MyersDiffer.BacktrackRound | myers_differer.go:110-142 | the moves of one row, and where the previous round ended |
| MyersDiffer.Backtrack | myers_differer.go:101-148 | sends exactly that walk, from the end |
| LineDiff.RecordsReplay | myers_differer.go:157-175 | the records of an edit path replay a prefix of each file, one edit per edit move |
| LineDiff.NoScriptIsShorter | myers_differer.go:150-178 | no list of records that replays a into b has fewer insertions and deletions than the edit distance |
| LineDiff.DiffIsShortestScript | myers_differer.go:150-178 | the records spell a on one side and b on the other, with the fewest edits of all scripts |
| LineDiff.Diff | myers_differer.go:151-178 | returns those records, last line first |
| LineDiff.GetMatches | diff3.go:166-177 | the map of the kept lines |
| LineDiff.ScriptMatches | diff3.go:166-177 | the kept lines of any script are a strictly increasing map between equal lines |
| LineDiff.DiffMatches | diff3.go:158-177 | the matches of a diff are increasing, join equal lines, and number LCS(base, other) |
| LineDiff.SelfMatches | diff3.go:158-177 | a file diffed with itself matches every line with itself |
| ThreeWayMerge.NextChunkAdvances | diff3.go:188-224 | each round moves forward in base, ours and theirs together, and later matches stay ahead |
| ThreeWayMerge.ChunksPartition | diff3.go:185-238 | the chunks join up from the first lines to the last |
| ThreeWayMerge.ChunksCoverFiles | diff3.go:180-239 | put together, the blocks give back all three files |
| ThreeWayMerge.StableBlocksAgree | diff3.go:216-224 | a stable chunk is the same nonempty block in all three files |
| ThreeWayMerge.ChunkShapes | diff3.go:188-237 | stable chunks agree and take whole runs of matches, unstable ones hold no base line matched on both sides, and the two alternate |
| ThreeWayMerge.NextMatchIsMatch | diff3.go:433-448 | what ends an unstable chunk is the first base line that both sides match |
| ThreeWayMerge.ChunksMergeByGaps | diff3.go:185-238 | chunk by chunk the output is that of one pass over base, each gap between two matched lines decided by itself |
| ThreeWayMerge.CleanIffGapsAgree | diff3.go:179-349 | there is no conflict exactly if in every gap one side is unchanged or both are changed alike |
| ThreeWayMerge.HalvesAreBlocks | diff3.go:325-348 | a conflict block is the ours block, then the theirs block, of a chunk in which all three files differ |
| ThreeWayMerge.SwapSameChunks | diff3.go:412-458 | exchanging the sides gives the same chunk boundaries |
| ThreeWayMerge.SwapMerge | diff3.go:180-349 | exchanging the sides exchanges the halves of the conflict blocks, nothing else |
| ThreeWayMerge.ConflictsAreBlocks | diff3.go:325-348 | as many conflicts are counted as blocks are written |
| ThreeWayMerge.IdentityKeepsPace | diff3.go:188-237 | a side equal to base stays level with base in every chunk |
| ThreeWayMerge.SameMatchingKeepsPace | diff3.go:188-237 | equal sides stay level with each other in every chunk |
| ThreeWayMerge.OutputIsOurs | diff3.go:307-346 | if theirs is base, or is ours, in every chunk, the output is ours and there is no conflict |
| Diff3Merge.GetFileLines | diff3.go:549-566 | lines are numbered by position |
| Diff3Merge.DiffIsTextMatching | diff3.go:102-110 | what the differ supplies is a matching the merge can walk |
| Diff3Merge.CollectLine | diff3.go:250-278 | keeps the block, and whether it has differed from base so far |
| Diff3Merge.CollectRest | diff3.go:280-294 | the lines beyond the base block |
| Diff3Merge.EqualityTest | diff3.go:298-303 | the test on lengths and unequal lines is equality of the two blocks |
| Diff3Merge.IsBlockEqual | diff3.go:351-363 | true exactly for equal blocks |
| Diff3Merge.Diff3.Setup | diff3.go:84-119 | fills the fields, or fails exactly where the differ is given two empty files |
| Diff3Merge.Diff3.GetNextMismatch | diff3.go:412-431 | the length of the common run from here, never -1 |
| Diff3Merge.Diff3.GetNextMatch | diff3.go:433-448 | the first base line from here that both sides match |
| Diff3Merge.Diff3.CollectBesideBase | diff3.go:241-278 | both sides of a chunk compared with base line by line |
| Diff3Merge.Diff3.WriteChunk | diff3.go:241-349 | writes the decision on the three blocks; counts 1 exactly if all three differ |
| Diff3Merge.Diff3.WriteMatched | diff3.go:185-238 | terminates and writes every chunk in turn |
| Diff3Merge.Diff3.WriteChunks | diff3.go:180-239 | the same from the stored diffs; the count is of the chunks in which all three files differ |
| Diff3Merge.Diff3.Merge | diff3.go:54-82 | the merge of three files, from texts to output |
| Diff3Merge.MergeChunks | diff3.go:180-239 | in every merge the chunks cover the files, stable ones agree, unstable ones hold no line matched on both sides, and they alternate |
| Diff3Merge.MergeIsByGaps | diff3.go:180-239 | the output of the whole merge, told without chunks |
| Diff3Merge.MergeIsCleanIff | diff3.go:179-349 | changes separated by a line matched on both sides do not conflict; only changes to the same gap do |
| Diff3Merge.ConflictHalves | diff3.go:325-348 | which blocks the halves of each conflict block are |
| Diff3Merge.MergeWithBaseOnTheirs | diff3.go:84-119 | merge(base, x, base) = x without conflicts, exactly if base is not empty |
| Diff3Merge.MergeWithBaseOnOurs | diff3.go:84-119 | merge(base, base, x) = x without conflicts, exactly if base is not empty |
| Diff3Merge.MergeSameChange | diff3.go:326-328 | merge(base, x, x) = x without conflicts, exactly if base and x are not both empty |
| Diff3Merge.SwapMergeOf | diff3.go:180-349 | the whole merge with the sides exchanged |
| Diff3Merge.CountIsBlocks | diff3.go:179-239 | the number returned is the number of conflict blocks in the output |
| Diff3Merge.CleanMergeIsSymmetric | diff3.go:180-349 | a merge without conflicts does not depend on which side is which |
| PriorityQueues.RootIsLatestOfAll | worktree_priority_queue.go:30-33 | in heap order the first item has a latest date |
| PriorityQueues.PriorityQueue.Swap | worktree_priority_queue.go:35-39 | exchanges two items and keeps every index right |
| PriorityQueues.PriorityQueue.Push | worktree_priority_queue.go:41-59 | a queued commit takes over the marks; a new one is appended |
| PriorityQueues.PriorityQueue.Pop | worktree_priority_queue.go:61-69 | takes the last item off |
| PriorityQueues.PriorityQueue.Interesting | worktree_priority_queue.go:71-79 | some queued item is not stale |
| PriorityQueues.PriorityQueue.HeapPush | worktree_merge.go:447-448 | keeps heap order, unique commits and indexes; a duplicate only adds marks; an item no later than the first does not take its place |
| PriorityQueues.PriorityQueue.HeapPop | worktree_merge.go:454-454 | keeps them too, and returns the first item, a latest |
| MergeBase.PassedOnIsTruthful | worktree_merge.go:455-474 | marks handed to a parent are true of it |
| MergeBase.QueueCovers | worktree_merge.go:472-474 | whatever has not been popped is an ancestor of something queued |
| MergeBase.ChildrenArePopped | worktree_merge.go:454-474 | with decreasing dates a commit is popped after its children |
| MergeBase.PoppedIsExact | worktree_merge.go:455-464 | a popped commit has exactly both marks if and only if it is a merge base |
| MergeBase.StepKeepsFound | worktree_merge.go:457-464 | the result so far is exactly the merge bases popped, each once, latest first |
| MergeBase.StoppingIsSafe | worktree_priority_queue.go:71-79 | stopping when everything queued is stale loses no merge base |
| MergeBase.StepLightensQueue | worktree_merge.go:452-476 | each step lowers the total number of paths below the queue, for any dates |
| MergeBase.GetParents | worktree_merge.go:1079-1094 | all parents, or the first one the store does not have |
| MergeBase.PopAndMark | worktree_merge.go:454-474 | one pass of the loop body is one step of the walk |
| MergeBase.WalkOnce | worktree_merge.go:452-476 | keeps the invariant of the walk and lightens the queue |
| MergeBase.RunCanEnd | worktree_merge.go:452-476 | every walk, however ties are broken, can be completed |
| MergeBase.ExactIffStrictDates | worktree_merge.go:443-479 | in a store with all its parents, every walk from every pair ends with exactly the merge bases if and only if dates strictly decrease; the same for the walks the queue admits |
| MergeBase.ChildMustComeFirst | worktree_merge.go:454-474 | the walk from a commit and its parent finds their base, the parent, exactly if it pops the commit first |
| MergeBase.ParentIsFoundIff | worktree_merge.go:443-479 | so it does exactly if the parent is dated earlier, or the same when the commit was pushed first |
| MergeBase.LateParentLosesTheBase | worktree_merge.go:443-479 | a commit dated no later than its parent has a walk that loses the base |
| MergeBase.GetCommonParents | worktree_merge.go:443-479 | terminates for any dates with common ancestors only; with decreasing dates with exactly the merge bases; the result is that of a complete run in which the first commit wins ties |
| MergeBase.AncestorIsTheBase | merge_test.go:66-69 | of a commit and its ancestor the ancestor is the only merge base |
| MergeBase.MergeBaseExists | worktree_merge.go:424-428 | related commits have a merge base, so an empty result means unrelated |
| MergeBase.BasesAreLower | worktree_merge.go:432-438 | two bases of different commits lie strictly lower than the two |
| MergeBase.ComputeParent | worktree_merge.go:417-441 | terminates; the base is a common ancestor; with decreasing dates it fails with the pair itself exactly if the two are unrelated, is the merge base if there is only one, and otherwise fails only with two unrelated common ancestors |
| MergeBase.SharedRootIsEnough | worktree_merge.go:428-438 | related commits get a base if some commit lies below all their common ancestors |
| MergeBase.UnrelatedBasesAreRefused | worktree_merge.go:428-438 | related commits are refused, with an error about other commits, if two of their merge bases are unrelated |
| MergeBase.CrissCrossOfRootsIsRefused | worktree_merge.go:428-438 | two merges of the same two roots are such commits |
| MergeBase.CreateVirtualParent | worktree_merge.go:483-515 | the virtual base carries an ancestor of every merge base: what a fold of base searches over them arrives at |
| MergeBase.FoldCarriesOnlyBase | worktree_merge.go:483-515 | with decreasing dates, of two merge bases with one merge base of their own it carries that one |
| MergeBase.SkewedDatesLoseTheBase | worktree_merge.go:443-479 | also two commits of which neither is an ancestor of the other can lose their only base, without any choice in the walk |
| TreeMerge.Changes | worktree_merge.go:606-639 | exactly the paths that differ, in mode or in lines, with their kind of change |
| TreeMerge.ModifiedPathCrashesIff | worktree_merge.go:651-685 | a path both sides modified hands the differ two empty files exactly if its file is empty and one side changed only its mode |
| TreeMerge.Worktree.MergeFiles | worktree_merge.go:1010-1039 | the file becomes the merge; it is staged if clean and a conflict entry if not; a crash leaves it alone |
| TreeMerge.Worktree.MergeBoth | worktree_merge.go:646-796 | a path both sides changed ends as the three-way rule says; the mixed branches are never taken |
| TreeMerge.Worktree.TakeTheirs | worktree_merge.go:802-835 | a path only theirs changed ends as theirs |
| TreeMerge.Worktree.CompareCommitsChanges | worktree_merge.go:599-839 | every path ends as the three-way rule says, so one that a side left alone ends as the other side has it; or, exactly if some path crashes, each path is as it was or merged |
| TreeMerge.MergeIsAccounted | worktree_merge.go:643-835 | file, index entry, kind and statuses of every path, told from the three trees: what only one side changed, each kind of conflict, deletions and merges |
| TreeMerge.ConflictLosesNothing | worktree_merge.go:646-796 | a path in conflict has every version in the index, and its file exactly if ours has one |
| TreeMerge.ConflictText | worktree_merge.go:841-903 | a conflict shows ours and theirs in full between the three markers |
| TreeMerge.ReportedConflicts | worktree_merge.go:306-357 | results for exactly the changed paths, conflicts for exactly the three kinds, each with an unmerged entry |
| TreeMerge.SameChangeOnPath | worktree_merge.go:649-720 | the same change is taken once, except that a path added twice is a conflict and a new mode for an empty file a crash |
| TreeMerge.SameTreesMergeIff | worktree_merge.go:651-715 | a commit merged with itself comes back exactly if it adds no path and gives no empty file a new mode |
| TreeMerge.SwapPath | worktree_merge.go:643-800 | exchanging the sides mirrors conflicts and index stages, and crashes on the same paths |
| TreeMerge.CleanPathIsStaged | worktree_merge.go:797-835 | a path not in conflict is staged as it is in the work tree |
| MergeLifecycle.Worktree.MergeBranch | worktree_merge.go:59-102 | a fast-forward moves HEAD and resets the index; anything else starts a merge or is refused |
| MergeLifecycle.Worktree.NonFastForwardMerge | worktree_merge.go:194-258 | the order of refusals, the base as the history has it, and both refs set before the trees are merged, so that a crash leaves them set |
| MergeLifecycle.MergeTrees | worktree_merge.go:517-555 | the index of the three-way rule on the three trees, and an answer that says whether there is a conflict |
| MergeLifecycle.HasConflicts | worktree_merge.go:306-357 | some result is of one of the kinds reported as conflicts |
| MergeLifecycle.MergedIsStaged | worktree_merge.go:306-357 | the reported results have a conflict exactly if the index has one |
| MergeLifecycle.Worktree.GetUnmergedFiles | worktree_commit.go:120-140 | exactly the paths with a conflict entry |
| MergeLifecycle.Worktree.MakeCommit | worktree_commit.go:31-118 | parents, refusals, the tree of the index, and both refs cleared |
| MergeLifecycle.Worktree.RemoveMergeHead | worktree_commit.go:158-173 | the ref is gone, whether or not it was there |
| MergeLifecycle.Worktree.RemoveOrigHead | worktree_commit.go:175-194 | the ref is gone, whether or not it was there |
| MergeLifecycle.Worktree.Abort | worktree_merge.go:386-410 | back to ORIG_HEAD, or an error if there is none |
| MergeLifecycle.StepKeepsWellFormed | worktree_commit.go:87-101 | every operation keeps the history acyclic, each commit with its tree, and the refs on stored commits |
| MergeLifecycle.RefsArePaired | worktree_merge.go:227-239 | over every run MERGE_HEAD is present exactly if ORIG_HEAD is |
| MergeLifecycle.RefsAreKept | worktree_merge.go:196-204 | while a merge is in progress the refs stay what they were when it began |
| MergeLifecycle.AbortRestores | worktree_merge.go:386-410 | an abort succeeds and returns HEAD and the index to the commit the merge began on |
| MergeLifecycle.CommitConcludes | worktree_commit.go:38-115 | the concluding commit joins HEAD and the merged commit, clears both refs, and needs a merged index |
| MergeLifecycle.NothingElseEndsIt | worktree_merge.go:194-204 | only commit and abort end a merge; another is refused unless it is a fast-forward |
| MergeLifecycle.AbortNeedsMerge | worktree_merge.go:394-398 | outside a merge an abort changes nothing and reports a missing ref |
| MergeLifecycle.FastForwardMovesHead | worktree_merge.go:77-91 | Done is answered exactly if HEAD can move forward; then HEAD and the index are those of the other commit and nothing else changes |
| MergeLifecycle.CommitMovesHead | worktree_commit.go:38-101 | a commit becomes HEAD with the tree of the index; its parents are those given, else the old HEAD, and in a merge HEAD and MERGE_HEAD |
| MergeLifecycle.HistoryOnlyGrows | worktree_commit.go:87-101 | no operation changes a commit or its tree; only a commit adds one |
| MergeLifecycle.HeadMovesForward | worktree_merge.go:77-91 | over every stretch of a run without aborts or other parents the old HEAD is an ancestor of HEAD |
| MergeLifecycle.MergedStaysBelowHead | worktree_commit.go:38-101 | the concluding commit has the HEAD the merge began on and the commit merged as ancestors |
| MergeLifecycle.RefusalsChangeNothing | worktree_merge.go:194-209 | which refusal is met first, and that it changes nothing |
| MergeLifecycle.StagedIsCommitted | worktree_commit.go:72-90 | what was staged last at a path is what the next commit holds there |
| MergeLifecycle.MergedIsCommitted | worktree_commit.go:72-90 | a path nothing touched since the merge is committed as the merge left it |
| MergeLifecycle.MergeLeavesConflicts | worktree_merge.go:241-257 | the unmerged paths are those the three trees conflict on, and the answer says whether there are any |
| MergeLifecycle.ConflictsUntilSettled | worktree_commit.go:120-140 | later in the run, those of them that have not been staged, or reset by a fast-forward, since |
| MergeLifecycle.CommitSucceedsIff | worktree_commit.go:65-75 | the concluding commit is made exactly if every path the trees conflict on has been settled |
| MergeLifecycle.CleanMergeIsCommitted | worktree_commit.go:83-115 | a clean merge committed at once gives a commit of both heads that holds the merged files |
| MergeLifecycle.MergeUsesTheBase | worktree_merge.go:221-241 | with decreasing dates a merge uses the tree of the only merge base |
| MergeLifecycle.UnrelatedAreRefused | worktree_merge.go:221-225 | with decreasing dates unrelated commits are refused and nothing changes |
| MergeLifecycle.MergedAlreadyYieldsOurs | worktree_merge.go:221-257 | with decreasing dates, merging a commit merged already needs a commit and leaves the index of ours |
| TreeBuilder.SortEntries | worktree_commit.go:333-346 | the same entries, strictly sorted with a directory ordered as if its name ended in a separator |
| TreeBuilder.BuildTreeHelper.DoBuildTree | worktree_commit.go:311-331 | adds a leaf, adds a directory, or stops at a known directory |
| TreeBuilder.BuildTreeHelper.CommitIndexEntry | worktree_commit.go:297-309 | an entry is kept unless its path is already a directory |
| TreeBuilder.BuildTreeHelper.CopyTreeToStorageRecursive | worktree_commit.go:345-369 | the hash is that of the canonical tree of the path; trees outside it are untouched |
| TreeBuilder.BuildTreeHelper.BuildTree | worktree_commit.go:283-295 | the root is canonical for the entries kept, and flattens to them |
| TreeBuilder.RootIsInPathOrder | worktree_commit.go:333-342 | the leaves of the root, in the order of its trees, are the entries kept in the byte order of their full paths |
| TreeBuilder.KeepsExactly | worktree_commit.go:311-314 | an entry is kept exactly if no entry before it lies below its path |
| TreeBuilder.CanonicalIsUnique | worktree_commit.go:345-369 | the entries alone determine the stored tree |
| TreeBuilder.CanonicalExists | worktree_commit.go:345-369 | and every set of clean entries has one |
| TreeBuilder.FlattenIsBelow | worktree_commit.go:345-369 | a stored tree holds exactly the entries below its path |
| TreeBuilder.KeepsAllIff | worktree_commit.go:311-314 | no entry is lost exactly if no path comes after a path below it |
| TreeBuilder.RoundTripIff | worktree_commit.go:281-295 | flattening the root gives the index exactly under that condition |
| TreeBuilder.OrderDoesNotMatter | worktree_commit.go:283-295 | two orders of entries without clashes give the same root |
| TreeBuilder.OrderMattersIff | worktree_commit.go:283-314 | all orders of the entries give the same root exactly if no path is a directory of another |
| FileHistory.ParentsContainingPath | references.go:117-134 | the parents with the file, in order, or failure if a parent is missing |
| FileHistory.PathParentsInOrder | references.go:117-134 | every parent with the file, in the order of the parents |
| FileHistory.RecordedMeans | references.go:89-112 | recorded if no parent has the file, never if several do, and if one does exactly if its blob differs |
| FileHistory.OriginIsRecorded | references.go:67-115 | where no two parents have the file, the blob of every commit comes from a recorded commit the walk reaches |
| FileHistory.FileWalk.WalkGraph | references.go:67-115 | terminates; visits what is reached and not yet visited; records each qualifying commit once |
| FileHistory.FileCommits | references.go:27-32 | exactly the commits reached through parents with the file that created or changed it |
| FileHistory.RemoveComp | references.go:167-183 | the input without the elements equated with their predecessor |
| FileHistory.DropsExactlyEquated | references.go:164-183 | an element is dropped exactly if the comparator equates it with its immediate predecessor in the input |
| FileHistory.NoNeighboursEquated | references.go:164-166 | with a symmetric and transitive comparator no two neighbours of the result are equated |
| RecencyList.FittingIsLongest | buffer_lru.go:63-72 | eviction from the back leaves the longest prefix that fits |
| RecencyList.PutLeaves | buffer_lru.go:38-73 | a refused put changes nothing; an accepted one leaves the new item and the others in their order, the longest prefix that fits |
| RecencyList.TouchLeaves | buffer_lru.go:77-88 | a hit moves the item to the front, the others keep their order; a miss changes nothing |
| RecencyList.RunsAreInUseOrder | buffer_lru.go:38-98 | over every run the list is in the order of last use |
| RecencyList.RunsAreCoherent | buffer_lru.go:38-98 | over every run: unique keys, the budget, and for each key the value last put |
| ObjectCache.LRU.Evict | object_lru.go:61-75 | the longest prefix that fits; the list is never empty when its back is read |
| ObjectCache.LRU.Put | buffer_lru.go:38-73 | refuses a new item too big alone, else the new item first and the longest prefix that fits |
| ObjectCache.LRU.Get | buffer_lru.go:77-88 | the value of the key, moved to the front |
| ObjectCache.LRU.Clear | buffer_lru.go:91-98 | empty, with nothing accounted |

## Left out

- MyersDiffer.GetShortestPath: requires that the files are not both empty, because the source then indexes an array of one cell out of range (`FirstReadInRange`); `Diff3Merge.MergeOf` has that crash as an outcome.
- MyersDiffer.Backtrack: the goroutine and channel are one producer and one consumer, so the moves are a sequence.
- Diff3Merge.Diff3.Merge: works on sequences of lines; temporary files, trailing newlines and read or write errors are not modelled.
- LineDiff.DiffMatches: for lines numbered by position, as the file reader numbers them.
- MergeBase.GetCommonParents: when dates do not strictly decrease, the condition is exact for the store as a whole and for a commit with its parent; for any other single pair only termination and that results are common ancestors are stated.
- MergeBase.ComputeParent: related commits with unrelated common ancestors that are not merge bases may or may not be refused, depending on the order of bases of the same date.
- MergeBase.CreateVirtualParent: only the commit a virtual base carries, not its index, which the index noder reads (not part of this model), nor the files written while it is made.
- PriorityQueues.PriorityQueue.HeapPush: Go's container/heap is written out as its two sifts over the slice.
- TreeMerge.Worktree.CompareCommitsChanges: starts with a work tree and an index that hold ours, takes tree differences as exact map differences from one base tree, and leaves out the modes of the files it writes, which the file system decides, and the cache of blobs by stage.
- MergeLifecycle.Worktree.NonFastForwardMerge: whether there are uncommitted files, and the tree of a virtual base, are inputs; storage succeeds; merge messages are left out.
- MergeLifecycle.Worktree.MergeBranch: `isFastForward` is not part of this model and is taken to mean that HEAD is the other commit or its ancestor.
- MergeLifecycle.Worktree.MakeCommit: the tree is taken from the index as TreeBuilder shows it to be, with the modes of the entries as an input; the option that stages changed files first is left out.
- TreeBuilder.BuildTreeHelper.BuildTree: paths are lists of clean components (no empty, `.` or `..` component), entries have distinct paths, nonzero hashes and no directory mode; a hash of a stored tree stands for its content.
- FileHistory.FileCommits: the sort by date between the walk and the removal of duplicates, and the comparator on patches, are not modelled.
- ObjectCache.LRU.Put: each method is atomic; `container/list` is a sequence of elements; sizes do not overflow; BufferLRU and ObjectLRU share one class.
- SQL and file-system storage, references, options, remotes, submodules, blame, status and platform files: plumbing, or resting on code outside the repository.
