// The merge-base walk over the history, and the recursive base built on it.

module MergeBase {
  import opened History
  import opened PriorityQueues

  datatype Result<T> = Ok(value: T) | MissingCommit(hash: Hash) | NoCommonParent(one: Hash, two: Hash)

  // ---------- The state of the walk ----------

  // queue: the marks of the queued commits; passed: the commits already popped,
  // with the marks they handed to their parents; found: the result so far.
  datatype Walk = Walk(queue: map<Hash, Flags>, passed: map<Hash, Flags>, found: seq<Hash>)

  // What marks mean, for any dates: they are never wrong.
  ghost predicate Truthful(s: Store, one: Hash, two: Hash, c: Hash, flags: Flags)
    requires Acyclic(s)
  {
    && c in s && Result !in flags
    && (Parent1 in flags ==> Ancestor(s, c, one))
    && (Parent2 in flags ==> Ancestor(s, c, two))
    && (Stale in flags ==> Behind(s, one, two, c))
  }

  ghost predicate Sound(s: Store, one: Hash, two: Hash, w: Walk)
    requires Acyclic(s)
  {
    && (forall c :: c in w.queue ==> Truthful(s, one, two, c, w.queue[c]))
    && (forall i :: 0 <= i < |w.found| ==> w.found[i] in s && Common(s, one, two, w.found[i]))
  }

  ghost predicate Seen(w: Walk, c: Hash)
  {
    c in w.passed || c in w.queue
  }

  // Nothing is lost: the parents of every popped commit have been queued.
  ghost predicate Frontier(s: Store, one: Hash, two: Hash, w: Walk)
  {
    && Seen(w, one) && Seen(w, two)
    && (forall c, p :: c in w.passed && IsParent(s, p, c) ==> Seen(w, p))
    && (forall c :: Seen(w, c) ==> c in s)
  }

  // With decreasing dates, commits are popped latest first, and once.
  ghost predicate InDateOrder(s: Store, w: Walk)
  {
    forall c, q :: c in w.passed && q in w.queue ==> c != q && c in s && q in s && s[q].date <= s[c].date
  }

  ghost function MarksOf(w: Walk, c: Hash): Flags
  {
    if c in w.queue then w.queue[c] else if c in w.passed then w.passed[c] else {}
  }

  // Marks arrive: on the commits the walk starts from, and on every parent.
  ghost predicate Delivered(s: Store, one: Hash, two: Hash, w: Walk)
  {
    && Parent1 in MarksOf(w, one) && Parent2 in MarksOf(w, two)
    && (forall c :: c in w.passed ==> w.passed[c] <= {Parent1, Parent2, Stale})
    && (forall c, p :: c in w.passed && IsParent(s, p, c) ==> w.passed[c] <= MarksOf(w, p))
  }

  // The marks a commit passes on say all there is to say about it.
  ghost predicate Exact(s: Store, one: Hash, two: Hash, c: Hash, flags: Flags)
    requires Acyclic(s)
  {
    && (Parent1 in flags <==> Ancestor(s, c, one))
    && (Parent2 in flags <==> Ancestor(s, c, two))
    && (Stale in flags <==> Common(s, one, two, c))
  }

  ghost predicate AllExact(s: Store, one: Hash, two: Hash, w: Walk)
    requires Acyclic(s)
  {
    forall c :: c in w.passed ==> Exact(s, one, two, c, w.passed[c])
  }

  ghost predicate FoundExactly(s: Store, one: Hash, two: Hash, w: Walk)
    requires Acyclic(s)
  {
    && (forall c :: c in w.found <==> c in w.passed && IsMergeBase(s, one, two, c))
    && (forall i, j :: 0 <= i < j < |w.found| ==> w.found[i] != w.found[j])
    && (forall i, j :: 0 <= i < j < |w.found| ==> w.found[i] in s && w.found[j] in s && s[w.found[i]].date >= s[w.found[j]].date)
  }

  ghost predicate Complete(s: Store, one: Hash, two: Hash, w: Walk)
    requires Acyclic(s)
  {
    InDateOrder(s, w) && Delivered(s, one, two, w) && AllExact(s, one, two, w) && FoundExactly(s, one, two, w)
  }

  // Both starts are queued with their marks; one item if they are the same.
  ghost function StartOf(one: Hash, two: Hash): Walk
  {
    var first := map[one := {Parent1}];
    Walk(first[two := (if two in first then first[two] else {}) + {Parent2}], map[], [])
  }

  // ---------- One step of the walk ----------

  // The marks a popped commit hands to its parents.
  ghost function PassedOn(flags: Flags): Flags
  {
    var masked := flags * {Parent1, Parent2, Stale};
    if masked == {Parent1, Parent2} then masked + {Stale} else masked
  }

  // The queue after handing flags to the parents of the popped commit.
  ghost predicate Handed(queue: map<Hash, Flags>, queue': map<Hash, Flags>, parents: seq<Hash>, flags: Flags)
  {
    forall c ::
      && (c in queue' <==> c in queue || c in parents)
      && (c in queue' ==> queue'[c] == (if c in queue then queue[c] else {}) + (if c in parents then flags else {}))
  }

  // Pop c, record it if its marks are exactly those of both sides, mark its parents.
  ghost predicate Step(s: Store, w: Walk, c: Hash, w': Walk)
  {
    && c in w.queue && c in s
    && Handed(w.queue - {c}, w'.queue, s[c].parents, PassedOn(w.queue[c]))
    && w'.passed == w.passed[c := PassedOn(w.queue[c])]
    && w'.found == w.found + (if w.queue[c] * {Parent1, Parent2, Stale} == {Parent1, Parent2} then [c] else [])
    && forall p :: p in s[c].parents ==> p in s
  }

  lemma PassedOnIsTruthful(s: Store, one: Hash, two: Hash, c: Hash, p: Hash, flags: Flags)
    requires Acyclic(s) && Truthful(s, one, two, c, flags) && IsParent(s, p, c) && p in s
    ensures Truthful(s, one, two, p, PassedOn(flags))
  {
    ParentIsAncestor(s, p, c);
    if Parent1 in flags {
      AncestorTransitive(s, p, c, one);
    }
    if Parent2 in flags {
      AncestorTransitive(s, p, c, two);
    }
    if Stale in PassedOn(flags) {
      BehindIsClosed(s, one, two, p, c);
    }
  }

  lemma StepKeepsSound(s: Store, one: Hash, two: Hash, w: Walk, c: Hash, w': Walk)
    requires Acyclic(s) && Sound(s, one, two, w) && Step(s, w, c, w')
    ensures Sound(s, one, two, w')
  {
    forall x | x in w'.queue ensures Truthful(s, one, two, x, w'.queue[x]) {
      if x in s[c].parents {
        PassedOnIsTruthful(s, one, two, c, x, w.queue[c]);
      }
    }
  }

  lemma StepKeepsFrontier(s: Store, one: Hash, two: Hash, w: Walk, c: Hash, w': Walk)
    requires Frontier(s, one, two, w) && Step(s, w, c, w')
    ensures Frontier(s, one, two, w')
  {
    forall x | Seen(w, x) ensures Seen(w', x) {
    }
  }

  // Whatever has not been popped is an ancestor of something queued.
  lemma {:induction false} QueueCovers(s: Store, one: Hash, two: Hash, w: Walk, x: Hash, c: Hash) returns (y: Hash)
    requires Acyclic(s) && Frontier(s, one, two, w)
    requires Seen(w, c) && Ancestor(s, x, c) && x !in w.passed
    ensures y in w.queue && Ancestor(s, x, y)
    decreases Height(s, c)
  {
    if c in w.queue {
      y := c;
    } else {
      var p :| IsParent(s, p, c) && Height(s, p) < Height(s, c) && Ancestor(s, x, p);
      y := QueueCovers(s, one, two, w, x, p);
    }
  }

  ghost predicate IsLatest(s: Store, queue: map<Hash, Flags>, c: Hash)
  {
    c in queue && forall q :: q in queue ==> q in s && c in s && s[q].date <= s[c].date
  }

  // When c is popped, the children of c on the way to either start have been
  // popped before, and have handed c their marks.
  lemma ChildrenArePopped(s: Store, one: Hash, two: Hash, w: Walk, c: Hash, y: Hash, start: Hash)
    requires Acyclic(s) && StrictDates(s) && Frontier(s, one, two, w) && IsLatest(s, w.queue, c)
    requires IsParent(s, c, y) && Ancestor(s, y, start) && (start == one || start == two)
    ensures y in w.passed
  {
    if y !in w.passed {
      var q := QueueCovers(s, one, two, w, y, start);
      AncestorIsStoredEarlier(s, y, q);
      assert false;
    }
  }

  ghost predicate Invariant(s: Store, one: Hash, two: Hash, w: Walk)
    requires Acyclic(s)
  {
    Sound(s, one, two, w) && Frontier(s, one, two, w) && (StrictDates(s) ==> Complete(s, one, two, w))
  }

  // A popped commit carries the mark of a start exactly if it is its ancestor.
  lemma StartMarkArrives(s: Store, one: Hash, two: Hash, w: Walk, c: Hash, start: Hash, mark: Mark)
    requires Acyclic(s) && StrictDates(s) && Invariant(s, one, two, w) && IsLatest(s, w.queue, c)
    requires (start == one && mark == Parent1) || (start == two && mark == Parent2)
    ensures mark in w.queue[c] <==> Ancestor(s, c, start)
  {
    if Ancestor(s, c, start) && c != start {
      var y := LastStep(s, c, start);
      ChildrenArePopped(s, one, two, w, c, y, start);
      assert Exact(s, one, two, y, w.passed[y]);
    }
    assert Truthful(s, one, two, c, w.queue[c]);
  }

  // It is stale exactly if it is behind another common ancestor.
  lemma StaleMarkArrives(s: Store, one: Hash, two: Hash, w: Walk, c: Hash)
    requires Acyclic(s) && StrictDates(s) && Invariant(s, one, two, w) && IsLatest(s, w.queue, c)
    ensures Stale in w.queue[c] <==> Behind(s, one, two, c)
  {
    if Behind(s, one, two, c) {
      var d :| Common(s, one, two, d) && ProperAncestor(s, c, d);
      var y := LastStep(s, c, d);
      AncestorTransitive(s, y, d, one);
      AncestorTransitive(s, y, d, two);
      ChildrenArePopped(s, one, two, w, c, y, one);
      assert Exact(s, one, two, y, w.passed[y]);
    }
    assert Truthful(s, one, two, c, w.queue[c]);
  }

  lemma PoppedIsExact(s: Store, one: Hash, two: Hash, w: Walk, c: Hash)
    requires Acyclic(s) && StrictDates(s) && Invariant(s, one, two, w) && IsLatest(s, w.queue, c)
    ensures Exact(s, one, two, c, PassedOn(w.queue[c]))
    ensures w.queue[c] * {Parent1, Parent2, Stale} == {Parent1, Parent2} <==> IsMergeBase(s, one, two, c)
  {
    var masked := w.queue[c] * {Parent1, Parent2, Stale};
    StartMarkArrives(s, one, two, w, c, one, Parent1);
    StartMarkArrives(s, one, two, w, c, two, Parent2);
    StaleMarkArrives(s, one, two, w, c);
    if Behind(s, one, two, c) {
      BehindIsCommon(s, one, two, c);
    }
    if IsMergeBase(s, one, two, c) {
      assert masked == {Parent1, Parent2};
    }
  }

  lemma StepKeepsDateOrder(s: Store, one: Hash, two: Hash, w: Walk, c: Hash, w': Walk)
    requires StrictDates(s) && InDateOrder(s, w) && Frontier(s, one, two, w) && IsLatest(s, w.queue, c) && Step(s, w, c, w')
    ensures InDateOrder(s, w')
  {
    forall x, q | x in w'.passed && q in w'.queue ensures x != q && x in s && q in s && s[q].date <= s[x].date {
      assert Seen(w, x) && (q in w.queue || q in s[c].parents);
    }
  }

  lemma StepKeepsDelivered(s: Store, one: Hash, two: Hash, w: Walk, c: Hash, w': Walk)
    requires Frontier(s, one, two, w) && InDateOrder(s, w) && InDateOrder(s, w') && Delivered(s, one, two, w) && Step(s, w, c, w')
    ensures Delivered(s, one, two, w')
  {
    MarksGrow(s, one, two, w, c, w', one);
    MarksGrow(s, one, two, w, c, w', two);
    forall x, p | x in w'.passed && IsParent(s, p, x) ensures w'.passed[x] <= MarksOf(w', p) {
      if x == c {
      } else {
        MarksGrow(s, one, two, w, c, w', p);
      }
    }
  }

  // A step takes no marks (of the three that count) from any commit.
  lemma MarksGrow(s: Store, one: Hash, two: Hash, w: Walk, c: Hash, w': Walk, x: Hash)
    requires InDateOrder(s, w) && InDateOrder(s, w') && Step(s, w, c, w') && Seen(w, x)
    ensures MarksOf(w, x) * {Parent1, Parent2, Stale} <= MarksOf(w', x)
  {
  }

  lemma StepKeepsFound(s: Store, one: Hash, two: Hash, w: Walk, c: Hash, w': Walk)
    requires Acyclic(s) && StrictDates(s) && Invariant(s, one, two, w) && IsLatest(s, w.queue, c) && Step(s, w, c, w')
    ensures FoundExactly(s, one, two, w')
  {
    PoppedIsExact(s, one, two, w, c);
    assert c !in w.passed && c !in w.found;
  }

  lemma StepKeepsInvariant(s: Store, one: Hash, two: Hash, w: Walk, c: Hash, w': Walk)
    requires Acyclic(s) && Invariant(s, one, two, w) && IsLatest(s, w.queue, c) && Step(s, w, c, w')
    ensures Invariant(s, one, two, w')
  {
    if w.queue[c] * {Parent1, Parent2, Stale} == {Parent1, Parent2} {
      assert Truthful(s, one, two, c, w.queue[c]);
    }
    StepKeepsSound(s, one, two, w, c, w');
    StepKeepsFrontier(s, one, two, w, c, w');
    if StrictDates(s) {
      StepKeepsDateOrder(s, one, two, w, c, w');
      StepKeepsDelivered(s, one, two, w, c, w');
      PoppedIsExact(s, one, two, w, c);
      StepKeepsFound(s, one, two, w, c, w');
    }
  }

  ghost predicate AllStale(w: Walk)
  {
    forall c :: c in w.queue ==> Stale in w.queue[c]
  }

  // The result of the walk: each merge base once, latest first.
  ghost predicate AreMergeBases(s: Store, one: Hash, two: Hash, found: seq<Hash>)
    requires Acyclic(s)
  {
    && (forall c :: c in found <==> IsMergeBase(s, one, two, c))
    && (forall i, j :: 0 <= i < j < |found| ==> found[i] != found[j])
    && (forall i, j :: 0 <= i < j < |found| ==> found[i] in s && found[j] in s && s[found[i]].date >= s[found[j]].date)
  }

  // Stopping as soon as everything queued is stale loses no merge base.
  lemma StoppingIsSafe(s: Store, one: Hash, two: Hash, w: Walk)
    requires Acyclic(s) && StrictDates(s) && Invariant(s, one, two, w) && AllStale(w)
    ensures AreMergeBases(s, one, two, w.found)
  {
    forall c | IsMergeBase(s, one, two, c) ensures c in w.passed {
      if c !in w.passed {
        var q := QueueCovers(s, one, two, w, c, one);
        assert Truthful(s, one, two, q, w.queue[q]);
        BehindIsClosed(s, one, two, c, q);
        assert false;
      }
    }
  }

  // Each step lightens the queue, whatever the dates are.
  lemma {:induction false} HandingAddsAtMost(s: Store, cs: set<Hash>, c: Hash, parents: seq<Hash>)
    requires Acyclic(s) && c in s && forall p :: p in parents ==> p in s[c].parents
    ensures TotalWeight(s, cs + (set p | p in parents)) <= TotalWeight(s, cs) + WeightOfAll(s, c, parents)
  {
    if parents == [] {
      assert cs + (set p | p in parents) == cs;
    } else {
      var last := parents[|parents| - 1];
      var rest := parents[..|parents| - 1];
      HandingAddsAtMost(s, cs, c, rest);
      TotalWeightAdd(s, cs + (set p | p in rest), last);
      assert parents == rest + [last];
      assert cs + (set p | p in parents) == cs + (set p | p in rest) + {last};
    }
  }

  lemma StepLightensQueue(s: Store, w: Walk, c: Hash, w': Walk)
    requires Acyclic(s) && Step(s, w, c, w')
    ensures TotalWeight(s, w'.queue.Keys) < TotalWeight(s, w.queue.Keys)
  {
    var rest := w.queue.Keys - {c};
    HandingAddsAtMost(s, rest, c, s[c].parents);
    TotalWeightRemove(s, w.queue.Keys, c);
    forall x ensures x in w'.queue <==> x in rest + (set p | p in s[c].parents) {
      assert x in w'.queue <==> x in w.queue - {c} || x in s[c].parents;
    }
    assert w'.queue.Keys == rest + (set p | p in s[c].parents);
  }

  // A walk from one commit to itself stops at once.
  ghost predicate SameStart(one: Hash, two: Hash, w: Walk)
  {
    one == two ==>
      || w == Walk(map[one := {Parent1, Parent2}], map[], [])
      || (w.found == [one] && AllStale(w))
  }

  lemma StepKeepsSameStart(s: Store, one: Hash, two: Hash, w: Walk, c: Hash, w': Walk)
    requires SameStart(one, two, w) && !AllStale(w) && Step(s, w, c, w')
    ensures SameStart(one, two, w')
  {
    if one == two {
      assert PassedOn({Parent1, Parent2}) == {Parent1, Parent2, Stale};
    }
  }

  // ---------- Runs of the walk ----------

  // What holds of the walk between two steps.
  ghost predicate Walking(s: Store, one: Hash, two: Hash, w: Walk)
    requires Acyclic(s)
  {
    Invariant(s, one, two, w) && SameStart(one, two, w)
  }

  lemma StepKeepsWalking(s: Store, one: Hash, two: Hash, w: Walk, c: Hash, w': Walk)
    requires Acyclic(s) && Walking(s, one, two, w) && !AllStale(w) && IsLatest(s, w.queue, c) && Step(s, w, c, w')
    ensures Walking(s, one, two, w') && TotalWeight(s, w'.queue.Keys) < TotalWeight(s, w.queue.Keys)
  {
    StepKeepsInvariant(s, one, two, w, c, w');
    StepKeepsSameStart(s, one, two, w, c, w');
    StepLightensQueue(s, w, c, w');
  }

  lemma StartIsInvariant(s: Store, one: Hash, two: Hash)
    requires Acyclic(s) && one in s && two in s
    ensures Walking(s, one, two, StartOf(one, two))
  {
    assert {Parent1} + {Parent2} == {Parent1, Parent2};
    var w := StartOf(one, two);
    var queue := w.queue;
    assert Ancestor(s, one, one) && Ancestor(s, two, two);
    assert forall c :: c in queue ==> Truthful(s, one, two, c, queue[c]);
    assert Parent1 in MarksOf(w, one) && Parent2 in MarksOf(w, two);
  }

  // One move of the walk: it goes on, and pops a latest commit.
  ghost predicate Moves(s: Store, w: Walk, c: Hash, w': Walk)
  {
    !AllStale(w) && IsLatest(s, w.queue, c) && Step(s, w, c, w')
  }

  // The states of a walk from one and two, and the commits popped in between.
  ghost predicate IsRun(s: Store, one: Hash, two: Hash, states: seq<Walk>, popped: seq<Hash>)
  {
    && |states| == |popped| + 1 && states[0] == StartOf(one, two)
    && forall i :: 0 <= i < |popped| ==> Moves(s, states[i], popped[i], states[i + 1])
  }

  ghost predicate IsCompleteRun(s: Store, one: Hash, two: Hash, states: seq<Walk>, popped: seq<Hash>)
  {
    IsRun(s, one, two, states, popped) && AllStale(states[|popped|])
  }

  lemma {:induction false} RunIsWalking(s: Store, one: Hash, two: Hash, states: seq<Walk>, popped: seq<Hash>, i: nat)
    requires Acyclic(s) && one in s && two in s && IsRun(s, one, two, states, popped) && i <= |popped|
    ensures Walking(s, one, two, states[i])
  {
    hide Walking;
    if i == 0 {
      StartIsInvariant(s, one, two);
    } else {
      RunIsWalking(s, one, two, states, popped, i - 1);
      StepKeepsWalking(s, one, two, states[i - 1], popped[i - 1], states[i]);
    }
  }

  lemma ExtendRun(s: Store, one: Hash, two: Hash, states: seq<Walk>, popped: seq<Hash>, c: Hash, w: Walk)
    requires IsRun(s, one, two, states, popped) && Moves(s, states[|popped|], c, w)
    ensures IsRun(s, one, two, states + [w], popped + [c])
  {
  }

  // The store has every parent of its commits.
  ghost predicate Closed(s: Store)
  {
    forall c, p :: IsParent(s, p, c) ==> p in s
  }

  lemma {:induction false} LatestExists(s: Store, cs: set<Hash>, q: Hash) returns (c: Hash)
    requires q in cs && forall x :: x in cs ==> x in s
    ensures c in cs && forall x :: x in cs ==> s[x].date <= s[c].date
    decreases cs
  {
    c := q;
    if other :| other in cs && other != q {
      var d := LatestExists(s, cs - {q}, other);
      if s[q].date < s[d].date {
        c := d;
      }
    }
  }

  lemma StepExists(s: Store, w: Walk, c: Hash) returns (w': Walk)
    requires Closed(s) && c in w.queue && c in s
    ensures Step(s, w, c, w')
  {
    var rest, parents, flags := w.queue - {c}, s[c].parents, PassedOn(w.queue[c]);
    var queue := map x | x in rest.Keys + (set p | p in parents) ::
      (if x in rest then rest[x] else {}) + (if x in parents then flags else {});
    w' := Walk(queue, w.passed[c := flags],
               w.found + (if w.queue[c] * {Parent1, Parent2, Stale} == {Parent1, Parent2} then [c] else []));
    assert forall p :: p in parents ==> IsParent(s, p, c);
  }

  // Every run can be completed.
  lemma {:induction false} RunCanEnd(s: Store, one: Hash, two: Hash, states: seq<Walk>, popped: seq<Hash>)
    returns (states': seq<Walk>, popped': seq<Hash>)
    requires Acyclic(s) && Closed(s) && one in s && two in s && IsRun(s, one, two, states, popped)
    ensures IsCompleteRun(s, one, two, states', popped') && popped <= popped'
    decreases TotalWeight(s, states[|popped|].queue.Keys)
  {
    var w := states[|popped|];
    if AllStale(w) {
      return states, popped;
    }
    RunIsWalking(s, one, two, states, popped, |popped|);
    var q :| q in w.queue && Stale !in w.queue[q];
    var c := LatestExists(s, w.queue.Keys, q);
    var w' := StepExists(s, w, c);
    StepLightensQueue(s, w, c, w');
    ExtendRun(s, one, two, states, popped, c, w');
    states', popped' := RunCanEnd(s, one, two, states + [w'], popped + [c]);
  }

  // What the walk promises of its result.
  ghost predicate IsWalkResult(s: Store, one: Hash, two: Hash, found: seq<Hash>)
    requires Acyclic(s)
  {
    && (forall i :: 0 <= i < |found| ==> found[i] in s && Common(s, one, two, found[i]))
    && (StrictDates(s) ==> AreMergeBases(s, one, two, found))
    && (one == two ==> found == [one])
  }

  lemma StoppedWalkIsResult(s: Store, one: Hash, two: Hash, w: Walk)
    requires Acyclic(s) && Walking(s, one, two, w) && AllStale(w)
    ensures IsWalkResult(s, one, two, w.found)
  {
    if StrictDates(s) {
      StoppingIsSafe(s, one, two, w);
    }
    assert Stale !in {Parent1, Parent2};
  }

  // ---------- When dates do not decrease ----------

  // One of the starts is a parent of the other.
  ghost predicate ParentAndChild(s: Store, one: Hash, two: Hash, p: Hash, c: Hash)
  {
    ((p == one && c == two) || (p == two && c == one)) && p in s && IsParent(s, p, c)
  }

  // Of two commits one of which is an ancestor of the other, that one is the only
  // merge base.
  lemma AncestorIsTheBase(s: Store, one: Hash, two: Hash, p: Hash, x: Hash)
    requires Acyclic(s) && Common(s, one, two, p) && (p == one || p == two)
    ensures IsMergeBase(s, one, two, x) <==> x == p
  {
    if x != p && Common(s, one, two, x) {
      assert ProperAncestor(s, x, p);
    }
    if Behind(s, one, two, p) {
      var d :| Common(s, one, two, d) && ProperAncestor(s, p, d);
      AncestorIsLower(s, p, d);
      AncestorIsLowerOrSame(s, d, p);
    }
  }

  ghost function MarkOf(one: Hash, start: Hash): Mark
  {
    if start == one then Parent1 else Parent2
  }

  // The parent, once popped without the mark of the child, is not recorded: its
  // own mark is on its proper ancestors only.
  ghost predicate ParentLost(s: Store, p: Hash, mark: Mark, w: Walk)
    requires Acyclic(s)
  {
    p !in w.found && forall x :: x in w.queue && Ancestor(s, p, x) ==> mark !in w.queue[x]
  }

  lemma StepKeepsLost(s: Store, p: Hash, mark: Mark, w: Walk, c: Hash, w': Walk)
    requires Acyclic(s) && (mark == Parent1 || mark == Parent2)
    requires ParentLost(s, p, mark, w) && Step(s, w, c, w')
    ensures ParentLost(s, p, mark, w')
  {
    forall x | x in w'.queue && Ancestor(s, p, x) ensures mark !in w'.queue[x] {
      if x in s[c].parents {
        ParentIsAncestor(s, x, c);
        AncestorTransitive(s, p, x, c);
      }
    }
    assert Ancestor(s, p, p);
    assert mark in {Parent1, Parent2};
  }

  lemma PoppedFirstIsLost(s: Store, one: Hash, two: Hash, p: Hash, c: Hash, w': Walk)
    requires Acyclic(s) && ParentAndChild(s, one, two, p, c) && Step(s, StartOf(one, two), p, w')
    ensures ParentLost(s, p, MarkOf(one, p), w')
  {
    ParentIsAncestor(s, p, c);
    SideMarkPassesOn(MarkOf(one, p));
    forall x | x in w'.queue && Ancestor(s, p, x) ensures MarkOf(one, p) !in w'.queue[x] {
      if x in s[p].parents {
        ParentIsLower(s, x, p);
        AncestorIsLowerOrSame(s, p, x);
      }
    }
  }

  lemma {:induction false} LostInRun(s: Store, one: Hash, two: Hash, p: Hash, c: Hash, states: seq<Walk>, popped: seq<Hash>, i: nat)
    requires Acyclic(s) && ParentAndChild(s, one, two, p, c) && IsRun(s, one, two, states, popped)
    requires popped != [] && popped[0] == p && 0 < i <= |popped|
    ensures ParentLost(s, p, MarkOf(one, p), states[i])
  {
    if i == 1 {
      assert Moves(s, states[0], popped[0], states[1]);
      PoppedFirstIsLost(s, one, two, p, c, states[1]);
    } else {
      LostInRun(s, one, two, p, c, states, popped, i - 1);
      StepKeepsLost(s, p, MarkOf(one, p), states[i - 1], popped[i - 1], states[i]);
    }
  }

  // With the child popped first, the parent waits with both marks, and from then
  // on its mark comes with the stale one.
  ghost predicate ParentKept(p: Hash, mark: Mark, w: Walk)
  {
    if w.found == []
    then p in w.queue && w.queue[p] == {Parent1, Parent2} &&
         forall x :: x in w.queue && x != p ==> mark !in w.queue[x] && Stale !in w.queue[x]
    else w.found == [p] && forall x :: x in w.queue && mark in w.queue[x] ==> Stale in w.queue[x]
  }

  lemma StepKeepsKept(s: Store, p: Hash, mark: Mark, w: Walk, c: Hash, w': Walk)
    requires (mark == Parent1 || mark == Parent2) && ParentKept(p, mark, w) && Step(s, w, c, w')
    requires forall x :: x in w.queue ==> Result !in w.queue[x]
    ensures ParentKept(p, mark, w')
  {
    var masked := w.queue[c] * {Parent1, Parent2, Stale};
    assert {Parent1, Parent2} * {Parent1, Parent2, Stale} == {Parent1, Parent2};
    assert Stale !in {Parent1, Parent2} && mark in {Parent1, Parent2};
    if w.found == [] && c != p {
      assert PassedOn(w.queue[c]) == masked;
      if p in s[c].parents {
        assert w'.queue[p] == {Parent1, Parent2} + masked == {Parent1, Parent2};
      }
    }
  }

  lemma ChildFirstIsKept(s: Store, one: Hash, two: Hash, p: Hash, c: Hash, w': Walk)
    requires Acyclic(s) && ParentAndChild(s, one, two, p, c) && Step(s, StartOf(one, two), c, w')
    ensures ParentKept(p, MarkOf(one, p), w')
  {
    ParentIsAncestor(s, p, c);
    var mark := MarkOf(one, c);
    SideMarkPassesOn(mark);
    assert {Parent1} + {Parent2} == {Parent1, Parent2} == {Parent2} + {Parent1};
  }

  lemma {:induction false} KeptInRun(s: Store, one: Hash, two: Hash, p: Hash, c: Hash, states: seq<Walk>, popped: seq<Hash>, i: nat)
    requires Acyclic(s) && ParentAndChild(s, one, two, p, c) && one in s && two in s && IsRun(s, one, two, states, popped)
    requires popped != [] && popped[0] == c && 0 < i <= |popped|
    ensures ParentKept(p, MarkOf(one, p), states[i])
  {
    if i == 1 {
      assert Moves(s, states[0], popped[0], states[1]);
      ChildFirstIsKept(s, one, two, p, c, states[1]);
    } else {
      KeptInRun(s, one, two, p, c, states, popped, i - 1);
      RunIsWalking(s, one, two, states, popped, i - 1);
      StepKeepsKept(s, p, MarkOf(one, p), states[i - 1], popped[i - 1], states[i]);
    }
  }

  // The walk from a commit and its parent starts by popping one of the two, and is
  // right exactly if that is the commit.
  lemma ChildMustComeFirst(s: Store, one: Hash, two: Hash, p: Hash, c: Hash, states: seq<Walk>, popped: seq<Hash>)
    requires Acyclic(s) && ParentAndChild(s, one, two, p, c) && IsCompleteRun(s, one, two, states, popped)
    ensures popped != [] && (popped[0] == p || popped[0] == c)
    ensures AreMergeBases(s, one, two, states[|popped|].found) <==> popped[0] == c
    ensures popped[0] == p <==> p !in states[|popped|].found
  {
    hide IsMergeBase;
    ParentIsAncestor(s, p, c);
    assert Ancestor(s, p, p);
    assert Stale !in StartOf(one, two).queue[one];
    assert one in StartOf(one, two).queue;
    assert Moves(s, states[0], popped[0], states[1]);
    forall x ensures IsMergeBase(s, one, two, x) <==> x == p {
      AncestorIsTheBase(s, one, two, p, x);
    }
    if popped[0] == p {
      LostInRun(s, one, two, p, c, states, popped, |popped|);
    } else {
      KeptInRun(s, one, two, p, c, states, popped, |popped|);
      assert Stale !in {Parent1, Parent2};
    }
  }

  // With a commit dated no later than its parent, a walk that pops the parent
  // first, as it can, loses the base.
  lemma LateParentLosesTheBase(s: Store, p: Hash, c: Hash) returns (states: seq<Walk>, popped: seq<Hash>)
    requires Acyclic(s) && Closed(s) && p in s && IsParent(s, p, c) && s[p].date >= s[c].date
    ensures IsCompleteRun(s, p, c, states, popped) && popped != [] && popped[0] == p && !AreMergeBases(s, p, c, states[|popped|].found)
  {
    ParentIsAncestor(s, p, c);
    var w := StartOf(p, c);
    assert Stale !in w.queue[p];
    var w' := StepExists(s, w, p);
    assert IsRun(s, p, c, [w], []);
    ExtendRun(s, p, c, [w], [], p, w');
    states, popped := RunCanEnd(s, p, c, [w] + [w'], [] + [p]);
    assert popped[0] == p;
    ChildMustComeFirst(s, p, c, p, c, states, popped);
  }

  // Of two starts with the same date the queue returns the first one first.
  ghost predicate FirstWinsTie(s: Store, one: Hash, two: Hash, popped: seq<Hash>)
    requires one in s && two in s
  {
    popped != [] && s[two].date <= s[one].date ==> popped[0] == one
  }

  ghost predicate FromRun(s: Store, one: Hash, two: Hash, found: seq<Hash>)
    requires one in s && two in s
  {
    exists states: seq<Walk>, popped: seq<Hash> :: IsCompleteRun(s, one, two, states, popped) &&
      FirstWinsTie(s, one, two, popped) && found == states[|popped|].found
  }

  // The walk is in state w.
  ghost predicate Reached(s: Store, one: Hash, two: Hash, states: seq<Walk>, popped: seq<Hash>, w: Walk)
    requires one in s && two in s
  {
    IsRun(s, one, two, states, popped) && states[|popped|] == w && FirstWinsTie(s, one, two, popped)
  }

  lemma ReachStart(s: Store, one: Hash, two: Hash)
    requires one in s && two in s
    ensures Reached(s, one, two, [StartOf(one, two)], [], StartOf(one, two)) && StartOf(one, two).found == []
  {
  }

  lemma ReachNext(s: Store, one: Hash, two: Hash, states: seq<Walk>, popped: seq<Hash>, w: Walk, c: Hash, w': Walk)
    requires one in s && two in s && Reached(s, one, two, states, popped, w) && Moves(s, w, c, w')
    requires popped == [] && s[two].date <= s[one].date ==> c == one
    ensures Reached(s, one, two, states + [w'], popped + [c], w')
  {
    ExtendRun(s, one, two, states, popped, c, w');
  }

  lemma ReachEnd(s: Store, one: Hash, two: Hash, states: seq<Walk>, popped: seq<Hash>, w: Walk)
    requires one in s && two in s && Reached(s, one, two, states, popped, w) && AllStale(w)
    ensures FromRun(s, one, two, w.found)
  {
    assert IsCompleteRun(s, one, two, states, popped);
  }

  // In a store that has all its parents, the walk is right whatever it starts from
  // exactly if dates strictly decrease; and that is so whether any latest commit
  // may be popped or only those the queue returns.
  lemma ExactIffStrictDates(s: Store)
    requires Acyclic(s) && Closed(s)
    ensures StrictDates(s) <==>
            forall one, two, states: seq<Walk>, popped: seq<Hash> ::
              one in s && two in s && IsCompleteRun(s, one, two, states, popped) ==>
              AreMergeBases(s, one, two, states[|popped|].found)
    ensures StrictDates(s) <==>
            forall one, two, found :: one in s && two in s && FromRun(s, one, two, found) ==> AreMergeBases(s, one, two, found)
  {
    hide AreMergeBases, Moves, Walking;
    if StrictDates(s) {
      forall one, two, states: seq<Walk>, popped: seq<Hash> | one in s && two in s && IsCompleteRun(s, one, two, states, popped)
        ensures AreMergeBases(s, one, two, states[|popped|].found)
      {
        RunIsWalking(s, one, two, states, popped, |popped|);
        StoppedWalkIsResult(s, one, two, states[|popped|]);
      }
    } else {
      var c, p :| c in s && p in s && p in s[c].parents && !(s[p].date < s[c].date);
      var states, popped := LateParentLosesTheBase(s, p, c);
      assert FromRun(s, p, c, states[|popped|].found);
    }
  }

  // Of a commit and its parent the walk finds the base exactly if the parent is
  // not dated later, nor the same when it is the first of the two.
  lemma ParentIsFoundIff(s: Store, one: Hash, two: Hash, p: Hash, c: Hash, found: seq<Hash>)
    requires Acyclic(s) && one in s && two in s && ParentAndChild(s, one, two, p, c) && FromRun(s, one, two, found)
    ensures AreMergeBases(s, one, two, found) <==> s[p].date < s[c].date || (s[p].date == s[c].date && c == one)
    ensures AreMergeBases(s, one, two, found) <==> p in found
  {
    hide AreMergeBases;
    var states: seq<Walk>, popped: seq<Hash> :| IsCompleteRun(s, one, two, states, popped) &&
      FirstWinsTie(s, one, two, popped) && found == states[|popped|].found;
    ChildMustComeFirst(s, one, two, p, c, states, popped);
    assert Moves(s, states[0], popped[0], states[1]);
    assert one in states[0].queue && two in states[0].queue;
    ParentIsAncestor(s, p, c);
  }

  // ---------- The queue shows the state of the walk ----------

  ghost predicate Shows(s: Store, items: Items, queue: map<Hash, Flags>)
    reads items
  {
    && (forall i :: 0 <= i < |items| ==>
          && items[i].value in queue && queue[items[i].value] == items[i].flags
          && items[i].value in s && items[i].priority == s[items[i].value].date)
    && (forall c :: c in queue ==> Queued(items, c))
  }

  method PushMarked(s: Store, pq: PriorityQueue, c: Hash, flags: Flags, ghost queue: map<Hash, Flags>)
    returns (ghost queue': map<Hash, Flags>)
    requires pq.Valid() && c in s && Shows(s, pq.items, queue)
    modifies pq, Elements(pq.items)
    ensures pq.Valid() && Shows(s, pq.items, queue')
    ensures queue' == queue[c := (if c in queue then queue[c] else {}) + flags]
    ensures fresh(Elements(pq.items) - old(Elements(pq.items)))
    ensures old(pq.items) != [] && s[c].date <= old(pq.items[0]).priority ==> pq.items != [] && pq.items[0] == old(pq.items[0])
  {
    var item := new PrioritizedCommit(c, flags, s[c].date);
    queue' := queue[c := (if c in queue then queue[c] else {}) + flags];
    ghost var before := pq.items;
    pq.HeapPush(item);
    forall i | 0 <= i < |pq.items|
      ensures && pq.items[i].value in queue' && queue'[pq.items[i].value] == pq.items[i].flags
              && pq.items[i].value in s && pq.items[i].priority == s[pq.items[i].value].date
    {
      assert pq.items[i] in Elements(pq.items);
    }
    forall x | x in queue' ensures Queued(pq.items, x) {
      QueuedIfElement(pq.items, before, item, x);
    }
  }

  lemma QueuedIfElement(items: Items, before: Items, item: PrioritizedCommit, x: Hash)
    requires Elements(items) == Elements(before) + if Queued(before, item.value) then {} else {item}
    requires Queued(before, x) || x == item.value
    ensures Queued(items, x)
  {
    if Queued(before, x) {
      var k :| 0 <= k < |before| && before[k].value == x;
      assert before[k] in Elements(items);
    } else {
      assert item in Elements(items);
    }
  }

  method PopLatest(s: Store, pq: PriorityQueue, ghost queue: map<Hash, Flags>) returns (el: PrioritizedCommit)
    requires pq.Valid() && pq.items != [] && Shows(s, pq.items, queue)
    modifies pq, Elements(pq.items)
    ensures pq.Valid() && Shows(s, pq.items, queue - {el.value})
    ensures IsLatest(s, queue, el.value) && el.flags == queue[el.value] && el == old(pq.items[0])
    ensures Elements(pq.items) == old(Elements(pq.items)) - {el} && el in old(Elements(pq.items))
  {
    ghost var before := pq.items;
    el := pq.HeapPop();
    forall q | q in queue ensures q in s && el.value in s && s[q].date <= s[el.value].date {
      var k :| 0 <= k < |before| && before[k].value == q;
      assert before[k] in before;
    }
    forall i | 0 <= i < |pq.items| ensures pq.items[i] in before && pq.items[i].value != el.value {
      assert pq.items[i] in Elements(pq.items);
    }
    forall x | x in queue && x != el.value ensures Queued(pq.items, x) {
      var k :| 0 <= k < |before| && before[k].value == x;
      assert before[k] in Elements(pq.items);
    }
  }

  method GetParents(s: Store, c: Hash) returns (res: Result<seq<Hash>>)
    requires c in s
    ensures match res
            case Ok(parents) => parents == s[c].parents && forall p :: p in parents ==> p in s
            case MissingCommit(p) => IsParent(s, p, c) && p !in s
            case NoCommonParent(_, _) => false
  {
    var parents := s[c].parents;
    for i := 0 to |parents|
      invariant forall k :: 0 <= k < i ==> parents[k] in s
    {
      if parents[i] !in s {
        return MissingCommit(parents[i]);
      }
    }
    return Ok(parents);
  }

  // Hands flags to the parents of a popped commit, in order.
  method PushParents(s: Store, pq: PriorityQueue, parents: seq<Hash>, flags: Flags, ghost queue: map<Hash, Flags>)
    returns (ghost queue': map<Hash, Flags>)
    requires pq.Valid() && Shows(s, pq.items, queue) && forall p :: p in parents ==> p in s
    modifies pq, Elements(pq.items)
    ensures pq.Valid() && Shows(s, pq.items, queue') && Handed(queue, queue', parents, flags)
    ensures fresh(Elements(pq.items) - old(Elements(pq.items)))
  {
    queue' := queue;
    for i := 0 to |parents|
      invariant pq.Valid() && Shows(s, pq.items, queue') && Handed(queue, queue', parents[..i], flags)
      invariant fresh(Elements(pq.items) - old(Elements(pq.items)))
    {
      ghost var before := queue';
      queue' := PushMarked(s, pq, parents[i], flags, queue');
      assert parents[..i + 1] == parents[..i] + [parents[i]];
    }
    assert parents[..|parents|] == parents;
  }

  // Pops one commit, records it if it is a base, and marks its parents.
  method PopAndMark(s: Store, prQ: PriorityQueue, found: seq<Hash>, ghost w: Walk)
    returns (res: Result<seq<Hash>>, ghost c: Hash, ghost w': Walk)
    requires prQ.Valid() && prQ.items != [] && Shows(s, prQ.items, w.queue) && w.found == found
    requires forall q :: q in w.queue ==> Result !in w.queue[q]
    modifies prQ, Elements(prQ.items)
    ensures fresh(Elements(prQ.items) - old(Elements(prQ.items)))
    ensures match res
            case Ok(found') =>
              && prQ.Valid() && Shows(s, prQ.items, w'.queue) && w'.found == found'
              && IsLatest(s, w.queue, c) && Step(s, w, c, w') && c == old(prQ.items[0]).value
            case MissingCommit(p) => c in w.queue && IsParent(s, p, c) && p !in s
            case NoCommonParent(_, _) => false
  {
    hide Shows;
    w' := w;
    var found' := found;
    var el := PopLatest(s, prQ, w.queue);
    c := el.value;
    var flags := el.flags * {Parent1, Parent2, Stale};
    if flags == {Parent1, Parent2} {
      if Result !in el.flags {
        el.flags := el.flags + {Result};
        found' := found' + [el.value];
      }
      flags := flags + {Stale};
    }
    var parents := GetParents(s, el.value);
    if !parents.Ok? {
      return MissingCommit(parents.hash), c, w;
    }
    ghost var queue := PushParents(s, prQ, parents.value, flags, w.queue - {c});
    return Ok(found'), c, Walk(queue, w.passed[c := flags], found');
  }

  method StartWalk(s: Store, oldC: Hash, newC: Hash) returns (prQ: PriorityQueue)
    requires oldC in s && newC in s
    ensures fresh(prQ) && fresh(Elements(prQ.items)) && prQ.Valid() && Shows(s, prQ.items, StartOf(oldC, newC).queue)
    ensures s[newC].date <= s[oldC].date ==> prQ.items != [] && prQ.items[0].value == oldC
  {
    prQ := new PriorityQueue();
    ghost var first := PushMarked(s, prQ, oldC, {Parent1}, map[]);
    assert {} + {Parent1} == {Parent1};
    assert first == map[oldC := {Parent1}];
    assert Queued(prQ.items, oldC);
    assert prQ.items[0].value in first;
    ghost var queue := PushMarked(s, prQ, newC, {Parent2}, first);
  }

  // One iteration of the walk.
  method WalkOnce(s: Store, oldC: Hash, newC: Hash, prQ: PriorityQueue, found: seq<Hash>, ghost w: Walk)
    returns (res: Result<seq<Hash>>, more: bool, ghost c: Hash, ghost w': Walk)
    requires Acyclic(s) && Walking(s, oldC, newC, w) && !AllStale(w)
    requires prQ.Valid() && Shows(s, prQ.items, w.queue) && w.found == found
    modifies prQ, Elements(prQ.items)
    ensures fresh(Elements(prQ.items) - old(Elements(prQ.items)))
    ensures !res.Ok? ==> IsMissing(s, res)
    ensures res.Ok? ==>
              && prQ.Valid() && Shows(s, prQ.items, w'.queue) && w'.found == res.value && (more <==> !AllStale(w'))
              && Moves(s, w, c, w') && Walking(s, oldC, newC, w')
              && old(prQ.items) != [] && c == old(prQ.items[0]).value
              && TotalWeight(s, w'.queue.Keys) < TotalWeight(s, w.queue.Keys)
  {
    NotStaleShown(s, prQ.items, w);
    assert forall q :: q in w.queue ==> Truthful(s, oldC, newC, q, w.queue[q]);
    res, c, w' := PopAndMark(s, prQ, found, w);
    more := false;
    if res.Ok? {
      StepKeepsWalking(s, oldC, newC, w, c, w');
      more := prQ.Interesting();
      NotStaleShown(s, prQ.items, w');
    }
  }

  // The walk met a parent the store does not have.
  ghost predicate IsMissing<T>(s: Store, res: Result<T>)
  {
    res.MissingCommit? && res.hash !in s && exists c :: IsParent(s, res.hash, c)
  }

  // For any dates, the walk ends and finds only common ancestors; if dates
  // decrease from child to parent it finds exactly the merge bases.
  method GetCommonParents(s: Store, oldC: Hash, newC: Hash) returns (res: Result<seq<Hash>>)
    requires Acyclic(s) && oldC in s && newC in s
    ensures if res.Ok? then IsWalkResult(s, oldC, newC, res.value) && FromRun(s, oldC, newC, res.value) else IsMissing(s, res)
  {
    hide Walking, AreMergeBases, IsWalkResult, Moves, Reached, FromRun, AllStale, IsMissing, Shows;
    var prQ := StartWalk(s, oldC, newC);
    ghost var w := StartOf(oldC, newC);
    ghost var states, popped := [w], [];
    ReachStart(s, oldC, newC);
    StartIsInvariant(s, oldC, newC);
    var found := [];
    var more := prQ.Interesting();
    NotStaleShown(s, prQ.items, w);
    while more
      invariant fresh(prQ) && fresh(Elements(prQ.items)) && prQ.Valid() && Shows(s, prQ.items, w.queue)
      invariant w.found == found && Walking(s, oldC, newC, w) && (more <==> !AllStale(w))
      invariant Reached(s, oldC, newC, states, popped, w)
      invariant popped == [] && s[newC].date <= s[oldC].date ==> prQ.items != [] && prQ.items[0].value == oldC
      decreases TotalWeight(s, w.queue.Keys)
    {
      ghost var c, w';
      res, more, c, w' := WalkOnce(s, oldC, newC, prQ, found, w);
      if !res.Ok? {
        return res;
      }
      ReachNext(s, oldC, newC, states, popped, w, c, w');
      states, popped, w := states + [w'], popped + [c], w';
      found := res.value;
    }
    StoppedWalkIsResult(s, oldC, newC, w);
    ReachEnd(s, oldC, newC, states, popped, w);
    return Ok(found);
  }

  lemma NotStaleShown(s: Store, items: Items, w: Walk)
    requires Shows(s, items, w.queue)
    ensures AllStale(w) <==> forall el :: el in items ==> Stale in el.flags
  {
    if forall el :: el in items ==> Stale in el.flags {
      forall c | c in w.queue ensures Stale in w.queue[c] {
        var k :| 0 <= k < |items| && items[k].value == c;
        assert items[k] in items;
      }
    }
  }

  // ---------- The recursive base ----------

  datatype MergingCommit = MergingCommit(commit: Hash, isVirtual: bool)

  // Two common ancestors of different commits lie strictly lower than the two.
  lemma BasesAreLower(s: Store, one: Hash, two: Hash, p: Hash, q: Hash)
    requires Acyclic(s) && one != two && Common(s, one, two, p) && Common(s, one, two, q)
    ensures Height(s, p) + Height(s, q) < Height(s, one) + Height(s, two)
  {
    StrictlyBelowOne(s, one, two, p);
    StrictlyBelowOne(s, one, two, q);
  }

  lemma StrictlyBelowOne(s: Store, one: Hash, two: Hash, p: Hash)
    requires Acyclic(s) && one != two && Common(s, one, two, p)
    ensures Height(s, p) <= Height(s, one) && Height(s, p) <= Height(s, two)
    ensures Height(s, p) < Height(s, one) || Height(s, p) < Height(s, two)
  {
    AncestorIsLowerOrSame(s, p, one);
    AncestorIsLowerOrSame(s, p, two);
    if p != one {
      AncestorIsLower(s, p, one);
    } else {
      AncestorIsLower(s, p, two);
    }
  }

  // An ancestor of a common ancestor is common.
  lemma CommonIsClosed(s: Store, one: Hash, two: Hash, x: Hash, c: Hash)
    requires Acyclic(s) && Common(s, one, two, c) && Ancestor(s, x, c)
    ensures Common(s, one, two, x) && Height(s, x) <= Height(s, c)
  {
    AncestorTransitive(s, x, c, one);
    AncestorTransitive(s, x, c, two);
    AncestorIsLowerOrSame(s, x, c);
  }

  // Unless two commits have no common ancestor, one of those is a merge base.
  lemma {:induction false} MergeBaseExists(s: Store, one: Hash, two: Hash, c: Hash) returns (b: Hash)
    requires Acyclic(s) && Common(s, one, two, c)
    ensures IsMergeBase(s, one, two, b) && Ancestor(s, c, b)
    decreases Height(s, one) - Height(s, c)
  {
    if Behind(s, one, two, c) {
      var d :| Common(s, one, two, d) && ProperAncestor(s, c, d);
      AncestorIsLower(s, c, d);
      AncestorIsLowerOrSame(s, d, one);
      b := MergeBaseExists(s, one, two, d);
      AncestorTransitive(s, c, d, b);
    } else {
      b := c;
    }
  }

  ghost predicate Unrelated(s: Store, one: Hash, two: Hash)
    requires Acyclic(s)
  {
    forall c :: !Common(s, one, two, c)
  }

  // The error names two unrelated commits: the pair itself or common ancestors of it.
  ghost predicate NamesUnrelated(s: Store, one: Hash, two: Hash, res: Result<MergingCommit>)
    requires Acyclic(s)
  {
    res.NoCommonParent? ==>
      && Unrelated(s, res.one, res.two)
      && (res == NoCommonParent(one, two) || (Common(s, one, two, res.one) && Common(s, one, two, res.two)))
  }

  ghost predicate OnlyBase(s: Store, one: Hash, two: Hash, m: Hash)
    requires Acyclic(s)
  {
    forall x :: IsMergeBase(s, one, two, x) <==> x == m
  }

  ghost predicate OnlyBases(s: Store, one: Hash, two: Hash, p: Hash, q: Hash)
    requires Acyclic(s)
  {
    p != q && forall x :: IsMergeBase(s, one, two, x) <==> x == p || x == q
  }

  // If two commits have two merge bases, and those have one, the virtual base
  // carries that one.
  ghost predicate CarriesOnlyBase(s: Store, one: Hash, two: Hash, commit: Hash)
    requires Acyclic(s)
  {
    forall p, q, m :: OnlyBases(s, one, two, p, q) && OnlyBase(s, p, q, m) ==> commit == m
  }

  // How the answer depends on the merge bases when dates decrease: with none
  // there is no base, one is the base itself, and only below several can the base
  // be virtual, with a commit that is an ancestor of them all, or the error name
  // other commits.
  ghost predicate IsBaseFor(s: Store, one: Hash, two: Hash, res: Result<MergingCommit>)
    requires Acyclic(s)
  {
    && (res == NoCommonParent(one, two) <==> Unrelated(s, one, two))
    && NamesUnrelated(s, one, two, res)
    && (res.Ok? && !res.value.isVirtual ==>
          && IsMergeBase(s, one, two, res.value.commit)
          && forall c :: IsMergeBase(s, one, two, c) ==> c == res.value.commit)
    && (res.Ok? && res.value.isVirtual ==> CarriesOnlyBase(s, one, two, res.value.commit))
    && (res.Ok? && res.value.isVirtual ==> forall c :: IsMergeBase(s, one, two, c) ==> Ancestor(s, res.value.commit, c))
    && ((if res.Ok? then res.value.isVirtual else res != NoCommonParent(one, two)) ==>
          exists c, d :: IsMergeBase(s, one, two, c) && IsMergeBase(s, one, two, d) && c != d)
  }

  // What ComputeParent promises.
  ghost predicate IsComputed(s: Store, one: Hash, two: Hash, res: Result<MergingCommit>)
    requires Acyclic(s)
  {
    && (res.Ok? ==> Common(s, one, two, res.value.commit) && res.value.commit in s)
    && (res.MissingCommit? ==> IsMissing(s, res))
    && (res.NoCommonParent? ==>
          res == NoCommonParent(one, two) || Height(s, res.one) + Height(s, res.two) < Height(s, one) + Height(s, two))
    && (StrictDates(s) && !res.MissingCommit? ==> IsBaseFor(s, one, two, res))
  }

  // The base of a merge.  The recursion ends for any dates: only different
  // commits have several bases, and those lie strictly lower.
  method ComputeParent(s: Store, oldC: Hash, newC: Hash) returns (res: Result<MergingCommit>)
    requires Acyclic(s) && oldC in s && newC in s
    ensures IsComputed(s, oldC, newC, res)
    decreases Height(s, oldC) + Height(s, newC), 1
  {
    var parents := GetCommonParents(s, oldC, newC);
    if !parents.Ok? {
      return MissingCommit(parents.hash);
    }
    var parLen := |parents.value|;
    if parLen == 0 {
      OneBaseDecides(s, oldC, newC, parents.value);
      return NoCommonParent(oldC, newC);
    }
    res := Ok(MergingCommit(parents.value[0], false));
    if parLen > 1 {
      res := CreateVirtualParent(s, oldC, newC, parents.value);
      SeveralBasesDecide(s, oldC, newC, parents.value, res);
    } else {
      OneBaseDecides(s, oldC, newC, parents.value);
    }
  }

  lemma OneBaseDecides(s: Store, one: Hash, two: Hash, found: seq<Hash>)
    requires Acyclic(s) && one in s && IsWalkResult(s, one, two, found) && |found| <= 1
    ensures var res := if found == [] then NoCommonParent(one, two) else Ok(MergingCommit(found[0], false));
            StrictDates(s) ==> IsBaseFor(s, one, two, res)
  {
    if StrictDates(s) && found == [] {
      forall c ensures !Common(s, one, two, c) {
        if Common(s, one, two, c) {
          var b := MergeBaseExists(s, one, two, c);
          assert false;
        }
      }
    }
  }

  lemma SeveralBasesDecide(s: Store, one: Hash, two: Hash, found: seq<Hash>, res: Result<MergingCommit>)
    requires Acyclic(s) && IsWalkResult(s, one, two, found) && |found| > 1
    requires res.Ok? ==> res.value.isVirtual && forall i :: 0 <= i < |found| ==> Ancestor(s, res.value.commit, found[i])
    requires res.NoCommonParent? ==> Height(s, res.one) + Height(s, res.two) < Height(s, one) + Height(s, two)
    requires StrictDates(s) ==> NamesUnrelated(s, one, two, res)
    requires res.Ok? ==> FoldsTo(s, found, res.value.commit)
    ensures StrictDates(s) && !res.MissingCommit? ==> IsBaseFor(s, one, two, res)
  {
    if StrictDates(s) {
      assert found[0] in found && found[1] in found && found[0] != found[1];
      if res.Ok? {
        FoldCarriesOnlyBase(s, one, two, found, res.value.commit);
      }
    }
  }

  // The commit a fold over the bases arrives at: each step is an answer for the
  // commit so far and the next base.
  ghost predicate Folds(s: Store, bases: seq<Hash>, commits: seq<Hash>)
    requires Acyclic(s)
  {
    && 0 < |commits| <= |bases| && commits[0] == bases[0]
    && forall i :: 0 < i < |commits| ==> IsBaseCommit(s, commits[i - 1], bases[i], commits[i])
  }

  ghost predicate FoldsTo(s: Store, bases: seq<Hash>, commit: Hash)
    requires Acyclic(s)
  {
    exists commits :: Folds(s, bases, commits) && |commits| == |bases| && commits[|commits| - 1] == commit
  }

  // The commit of a base of the two, virtual or not.
  ghost predicate IsBaseCommit(s: Store, one: Hash, two: Hash, commit: Hash)
    requires Acyclic(s)
  {
    exists isVirtual :: IsComputed(s, one, two, Ok(MergingCommit(commit, isVirtual)))
  }

  lemma FoldCarriesOnlyBase(s: Store, one: Hash, two: Hash, found: seq<Hash>, commit: Hash)
    requires Acyclic(s) && StrictDates(s) && AreMergeBases(s, one, two, found) && |found| > 1 && FoldsTo(s, found, commit)
    ensures CarriesOnlyBase(s, one, two, commit)
  {
    forall p, q, m | OnlyBases(s, one, two, p, q) && OnlyBase(s, p, q, m) ensures commit == m {
      assert forall i :: 0 <= i < |found| ==> found[i] in found;
      assert forall i :: 0 <= i < |found| ==> found[i] == p || found[i] == q;
      if |found| > 2 {
        ThirdIsOther(found, p, q);
        assert false;
      }
      var commits :| Folds(s, found, commits) && |commits| == |found| && commits[|commits| - 1] == commit;
      assert IsBaseCommit(s, found[0], found[1], commit);
      var isVirtual :| IsComputed(s, found[0], found[1], Ok(MergingCommit(commit, isVirtual)));
      forall x ensures IsMergeBase(s, found[0], found[1], x) <==> x == m {
        BaseIsSymmetric(s, p, q, x);
        assert OnlyBase(s, p, q, m);
      }
    }
  }

  lemma ThirdIsOther(found: seq<Hash>, p: Hash, q: Hash)
    requires |found| > 2 && forall i, j :: 0 <= i < j < |found| ==> found[i] != found[j]
    ensures exists i :: 0 <= i < |found| && found[i] != p && found[i] != q
  {
    assert found[0] != found[1] && found[1] != found[2] && found[0] != found[2];
  }

  lemma BaseIsSymmetric(s: Store, one: Hash, two: Hash, c: Hash)
    requires Acyclic(s)
    ensures IsMergeBase(s, one, two, c) <==> IsMergeBase(s, two, one, c)
  {
  }

  // The commits named below two common ancestors are common ancestors.
  lemma NamedAreCommon(s: Store, one: Hash, two: Hash, p: Hash, q: Hash, res: Result<MergingCommit>)
    requires Acyclic(s) && Common(s, one, two, p) && Common(s, one, two, q)
    ensures NamesUnrelated(s, p, q, res) ==> NamesUnrelated(s, one, two, res)
  {
    if NamesUnrelated(s, p, q, res) && res.NoCommonParent? && res != NoCommonParent(p, q) {
      CommonIsClosed(s, one, two, res.one, p);
      CommonIsClosed(s, one, two, res.two, p);
    }
  }

  // If some commit lies below every common ancestor, as when all commits share a
  // root, related commits get a base.
  lemma SharedRootIsEnough(s: Store, one: Hash, two: Hash, root: Hash, res: Result<MergingCommit>)
    requires Acyclic(s) && StrictDates(s) && IsComputed(s, one, two, res)
    requires !Unrelated(s, one, two) && forall c :: Common(s, one, two, c) ==> Ancestor(s, root, c)
    ensures !res.NoCommonParent?
  {
    if res.NoCommonParent? {
      assert Common(s, res.one, res.two, root);
      assert false;
    }
  }

  // But if two of their merge bases are unrelated, related commits are refused
  // with an error about commits other than the two.
  lemma UnrelatedBasesAreRefused(s: Store, one: Hash, two: Hash, p: Hash, q: Hash, res: Result<MergingCommit>)
    requires Acyclic(s) && StrictDates(s) && IsComputed(s, one, two, res) && !res.MissingCommit?
    requires IsMergeBase(s, one, two, p) && IsMergeBase(s, one, two, q) && Unrelated(s, p, q)
    ensures res.NoCommonParent? && res != NoCommonParent(one, two)
  {
    assert Ancestor(s, p, p);
    if res.Ok? {
      assert Common(s, p, q, res.value.commit);
      assert false;
    }
  }

  // Two merges, 3 and 4, of the same two roots.
  const CRISS_CROSS: Store := map[1 := Commit(1, []), 2 := Commit(1, []), 3 := Commit(2, [1, 2]), 4 := Commit(2, [1, 2])]

  lemma CrissCrossIsHistory()
    ensures Acyclic(CRISS_CROSS) && StrictDates(CRISS_CROSS)
  {
    assert IsRank(CRISS_CROSS, map[1 := 0, 2 := 0, 3 := 1, 4 := 1]);
  }

  lemma CrissCrossAncestors(x: Hash)
    requires Acyclic(CRISS_CROSS)
    ensures var s := CRISS_CROSS;
            && (Ancestor(s, x, 1) <==> x == 1) && (Ancestor(s, x, 2) <==> x == 2)
            && (Ancestor(s, x, 3) <==> x in {1, 2, 3}) && (Ancestor(s, x, 4) <==> x in {1, 2, 4})
  {
    hide Acyclic;
    var s := CRISS_CROSS;
    forall c, p | IsParent(s, p, c) ensures Height(s, p) < Height(s, c) && c in {3, 4} && p in {1, 2} {
      ParentIsLower(s, p, c);
    }
    assert IsParent(s, 1, 3) && IsParent(s, 2, 3) && IsParent(s, 1, 4) && IsParent(s, 2, 4);
  }

  lemma CrissCrossOfRootsIsRefused(res: Result<MergingCommit>)
    ensures Acyclic(CRISS_CROSS)
    ensures IsComputed(CRISS_CROSS, 3, 4, res) ==> res.NoCommonParent? && {res.one, res.two} == {1, 2}
  {
    var s := CRISS_CROSS;
    CrissCrossIsHistory();
    hide StrictDates, Ancestor, Acyclic;
    forall x ensures Common(s, 3, 4, x) <==> x in {1, 2} {
      CrissCrossAncestors(x);
    }
    forall x ensures !Common(s, 1, 2, x) {
      CrissCrossAncestors(x);
    }
    CrissCrossAncestors(1);
    CrissCrossAncestors(2);
    if IsComputed(s, 3, 4, res) {
      assert !res.MissingCommit?;
      UnrelatedBasesAreRefused(s, 3, 4, 1, 2, res);
      CrissCrossAncestors(res.one);
      assert Common(s, res.one, res.two, res.one) <==> res.one == res.two;
    }
  }

  // Merges the bases one after another.  A merge started without a base computes
  // one and returns it, so that is what is kept of each.
  method CreateVirtualParent(s: Store, ghost oldC: Hash, ghost newC: Hash, parents: seq<Hash>)
    returns (res: Result<MergingCommit>)
    requires Acyclic(s) && |parents| > 1 && IsWalkResult(s, oldC, newC, parents)
    ensures res.Ok? ==>
              && res.value.isVirtual && res.value.commit in s && Common(s, oldC, newC, res.value.commit)
              && FoldsTo(s, parents, res.value.commit)
              && forall i :: 0 <= i < |parents| ==> Ancestor(s, res.value.commit, parents[i])
    ensures res.MissingCommit? ==> IsMissing(s, res)
    ensures res.NoCommonParent? ==> Height(s, res.one) + Height(s, res.two) < Height(s, oldC) + Height(s, newC)
    ensures StrictDates(s) ==> NamesUnrelated(s, oldC, newC, res)
    decreases Height(s, oldC) + Height(s, newC), 0
  {
    var base := MergingCommit(parents[0], false);
    ghost var commits := [parents[0]];
    for i := 1 to |parents|
      invariant Folds(s, parents, commits) && |commits| == i && commits[i - 1] == base.commit
      invariant base.commit in s && Common(s, oldC, newC, base.commit)
      invariant forall k :: 0 <= k < i ==> Ancestor(s, base.commit, parents[k])
    {
      BasesAreLower(s, oldC, newC, base.commit, parents[i]);
      var newBase := ComputeParent(s, base.commit, parents[i]);
      if !newBase.Ok? {
        NamedAreCommon(s, oldC, newC, base.commit, parents[i], newBase);
        return newBase;
      }
      forall k | 0 <= k < i + 1 ensures Ancestor(s, newBase.value.commit, parents[k]) {
        if k < i {
          AncestorTransitive(s, newBase.value.commit, base.commit, parents[k]);
        }
      }
      CommonIsClosed(s, oldC, newC, newBase.value.commit, base.commit);
      FoldNext(s, parents, commits, newBase.value);
      commits := commits + [newBase.value.commit];
      base := newBase.value;
    }
    return Ok(MergingCommit(base.commit, true));
  }

  lemma FoldNext(s: Store, bases: seq<Hash>, commits: seq<Hash>, next: MergingCommit)
    requires Acyclic(s) && Folds(s, bases, commits) && |commits| < |bases|
    requires IsComputed(s, commits[|commits| - 1], bases[|commits|], Ok(next))
    ensures Folds(s, bases, commits + [next.commit])
  {
    assert next == MergingCommit(next.commit, next.isVirtual);
    assert IsBaseCommit(s, commits[|commits| - 1], bases[|commits|], next.commit);
  }

  // ---------- Skewed dates ----------

  // In no state of the run is there a choice of the commit to pop.
  ghost predicate Forced(s: Store, states: seq<Walk>, popped: seq<Hash>)
  {
    && |states| == |popped| + 1
    && forall i, d :: 0 <= i < |popped| && IsLatest(s, states[i].queue, d) ==> d == popped[i]
  }

  // Commits 1 and 2 share their ancestor 3, but 3 is dated after its child 4.
  const SKEWED: Store := map[1 := Commit(10, [3]), 2 := Commit(9, [4]), 4 := Commit(1, [3]), 3 := Commit(8, [])]

  const SKEWED_POPS: seq<Hash> := [1, 2, 3, 4, 3]

  ghost function SkewedState(i: nat): Walk
    requires i <= 5
  {
    var one, two: Flags := {Parent1}, {Parent2};
    var queue :=
      if i == 0 then map[1 := one, 2 := two]
      else if i == 1 then map[2 := two, 3 := one]
      else if i == 2 then map[3 := one, 4 := two]
      else if i == 3 then map[4 := two]
      else if i == 4 then map[3 := two]
      else map[];
    Walk(queue, SkewedPassed(i), [])
  }

  ghost function SkewedPassed(i: nat): map<Hash, Flags>
    requires i <= 5
  {
    if i == 0 then map[]
    else SkewedPassed(i - 1)[SKEWED_POPS[i - 1] := if i == 1 || i == 3 then {Parent1} else {Parent2}]
  }

  lemma SkewedStart()
    ensures SkewedState(0) == StartOf(1, 2) && AllStale(SkewedState(5)) && SkewedState(5).found == []
  {
    var none: Flags := {};
    assert none + {Parent2} == {Parent2};
    assert SkewedState(0).queue == StartOf(1, 2).queue;
  }

  lemma SkewedStep(i: nat)
    requires i < 5
    ensures Moves(SKEWED, SkewedState(i), SKEWED_POPS[i], SkewedState(i + 1))
    ensures forall d :: IsLatest(SKEWED, SkewedState(i).queue, d) ==> d == SKEWED_POPS[i]
  {
    SideMarkPassesOn(Parent1);
    SideMarkPassesOn(Parent2);
    var w, c := SkewedState(i), SKEWED_POPS[i];
    assert Stale !in w.queue[c];
  }

  lemma SkewedShareAncestor()
    ensures Acyclic(SKEWED) && !StrictDates(SKEWED) && Common(SKEWED, 1, 2, 3)
  {
    var s := SKEWED;
    assert IsRank(s, map[1 := 1, 2 := 2, 4 := 1, 3 := 0]);
    assert 4 in s && 3 in s[4].parents && s[3].date > s[4].date;
    ParentIsAncestor(s, 3, 1);
    ParentIsAncestor(s, 3, 4);
    ParentIsAncestor(s, 4, 2);
    AncestorTransitive(s, 3, 4, 2);
  }

  lemma SkewedHasBase()
    ensures Acyclic(SKEWED) && !AreMergeBases(SKEWED, 1, 2, [])
  {
    SkewedShareAncestor();
    var b := MergeBaseExists(SKEWED, 1, 2, 3);
    assert b !in [];
  }

  // Marks live on queue items only, so a commit popped once for each side is
  // recorded for neither: the base of two commits of which neither is an ancestor
  // of the other can be lost too, and then two related commits seem unrelated.
  lemma SkewedDatesLoseTheBase() returns (states: seq<Walk>)
    ensures Acyclic(SKEWED) && !StrictDates(SKEWED) && Common(SKEWED, 1, 2, 3)
    ensures IsCompleteRun(SKEWED, 1, 2, states, SKEWED_POPS) && Forced(SKEWED, states, SKEWED_POPS)
    ensures states[|SKEWED_POPS|].found == [] && !AreMergeBases(SKEWED, 1, 2, [])
  {
    hide Moves, IsLatest, AreMergeBases, StrictDates, IsRank, StartOf, AllStale, SkewedState;
    SkewedStart();
    SkewedShareAncestor();
    SkewedHasBase();
    states := seq(6, i requires 0 <= i < 6 => SkewedState(i));
    forall i | 0 <= i < 5
      ensures Moves(SKEWED, states[i], SKEWED_POPS[i], states[i + 1])
      ensures forall d :: IsLatest(SKEWED, states[i].queue, d) ==> d == SKEWED_POPS[i]
    {
      SkewedStep(i);
    }
  }

  lemma SideMarkPassesOn(mark: Mark)
    requires mark == Parent1 || mark == Parent2
    ensures PassedOn({mark}) == {mark} && {mark} * {Parent1, Parent2, Stale} != {Parent1, Parent2}
  {
    assert Parent1 !in {mark} || Parent2 !in {mark};
  }
}
