// The commits that made a file what it is: a depth-first walk through the parents
// that contain the file, and the removal of adjacent duplicates.

module FileHistory {
  import opened History

  // The blob of the file in each commit that contains it.
  type Contents = map<Hash, int>

  ghost function PathParents(contents: Contents, parents: seq<Hash>): (r: seq<Hash>)
    ensures forall i :: 0 <= i < |r| ==> r[i] in contents
  {
    if parents == [] then []
    else PathParents(contents, parents[..|parents| - 1]) +
         if parents[|parents| - 1] in contents then [parents[|parents| - 1]] else []
  }

  lemma {:induction false} PathParentsMembers(contents: Contents, parents: seq<Hash>)
    ensures forall p :: p in PathParents(contents, parents) <==> p in parents && p in contents
  {
    if parents != [] {
      var rest, last := parents[..|parents| - 1], parents[|parents| - 1];
      PathParentsMembers(contents, rest);
      assert parents == rest + [last];
    }
  }

  // p is a parent of c that contains the file, as c does.
  ghost predicate IsPathParent(s: Store, contents: Contents, p: Hash, c: Hash)
  {
    c in contents && p in contents && IsParent(s, p, c)
  }

  // x is reached from c through parents containing the file.
  ghost predicate Reached(s: Store, contents: Contents, c: Hash, x: Hash)
    requires Acyclic(s)
    decreases Height(s, c)
  {
    x == c || exists p :: IsPathParent(s, contents, p, c) && Height(s, p) < Height(s, c) && Reached(s, contents, p, x)
  }

  // The commit created the file, or changed it from its only parent that has it.
  ghost predicate Recorded(s: Store, contents: Contents, c: Hash)
  {
    && c in contents && c in s
    && var parents := PathParents(contents, s[c].parents);
       |parents| == 0 || (|parents| == 1 && contents[parents[0]] != contents[c])
  }

  // The parents that have the file are listed in their order.
  lemma {:induction false} PathParentsInOrder(contents: Contents, parents: seq<Hash>) returns (positions: seq<int>)
    ensures var r := PathParents(contents, parents);
            && |positions| == |r|
            && (forall k :: 0 <= k < |r| ==> 0 <= positions[k] < |parents| && r[k] == parents[positions[k]])
            && (forall k, l :: 0 <= k < l < |r| ==> positions[k] < positions[l])
            && (forall i :: 0 <= i < |parents| && parents[i] in contents ==> i in positions)
  {
    positions := [];
    if parents != [] {
      var n := |parents| - 1;
      positions := PathParentsInOrder(contents, parents[..n]);
      forall i | 0 <= i < n && parents[i] in contents ensures i in positions {
        assert parents[..n][i] in contents;
      }
      if parents[n] in contents {
        positions := positions + [n];
      }
    }
  }

  lemma PathParentsCount(contents: Contents, parents: seq<Hash>)
    ensures (forall i :: 0 <= i < |parents| ==> parents[i] !in contents) ==> PathParents(contents, parents) == []
    ensures forall i :: OnlyPathParent(contents, parents, i) ==> PathParents(contents, parents) == [parents[i]]
    ensures forall i, j :: 0 <= i < j < |parents| && parents[i] in contents && parents[j] in contents ==>
                             |PathParents(contents, parents)| > 1
  {
    var r := PathParents(contents, parents);
    var positions := PathParentsInOrder(contents, parents);
    hide PathParents;
    if r != [] {
      assert r[0] == parents[positions[0]] && r[0] in contents;
    }
    forall i, j | 0 <= i < j < |parents| && parents[i] in contents && parents[j] in contents ensures |r| > 1 {
      var k :| 0 <= k < |positions| && positions[k] == i;
      var l :| 0 <= l < |positions| && positions[l] == j;
    }
    forall i | OnlyPathParent(contents, parents, i) ensures r == [parents[i]] {
      assert i in positions;
      forall k | 0 <= k < |r| ensures positions[k] == i {
        assert r[k] == parents[positions[k]] && r[k] in contents;
      }
      if |r| > 1 {
        FirstTwoDiffer(positions);
        assert false;
      }
    }
  }

  lemma FirstTwoDiffer(positions: seq<int>)
    requires |positions| > 1 && forall k, l :: 0 <= k < l < |positions| ==> positions[k] < positions[l]
    ensures positions[0] != positions[1]
  {
    assert positions[0] < positions[1];
  }

  // Only the parent at position i has the file.
  ghost predicate OnlyPathParent(contents: Contents, parents: seq<Hash>, i: int)
  {
    && 0 <= i < |parents| && parents[i] in contents
    && forall j :: 0 <= j < |parents| && j != i ==> parents[j] !in contents
  }

  // A commit is recorded if no parent has the file, never if several do, and if one
  // does exactly if that one has another blob.
  lemma RecordedMeans(s: Store, contents: Contents, c: Hash)
    requires c in s && c in contents
    ensures var parents := s[c].parents;
            && ((forall i :: 0 <= i < |parents| ==> parents[i] !in contents) ==> Recorded(s, contents, c))
            && (forall i :: OnlyPathParent(contents, parents, i) ==> (Recorded(s, contents, c) <==> contents[parents[i]] != contents[c]))
            && (forall i, j :: 0 <= i < j < |parents| && parents[i] in contents && parents[j] in contents ==>
                                 !Recorded(s, contents, c))
  {
    PathParentsCount(contents, s[c].parents);
  }

  // Where no two parents have the file, the walk records where the blob of every
  // commit came from: a commit it reaches, with the same blob.
  lemma {:induction false} OriginIsRecorded(s: Store, contents: Contents, c: Hash) returns (origin: Hash)
    requires Acyclic(s) && c in s && c in contents && forall x, p :: IsParent(s, p, x) ==> p in s
    requires forall x :: Reached(s, contents, c, x) && x in s ==> |PathParents(contents, s[x].parents)| <= 1
    ensures Reached(s, contents, c, origin) && Recorded(s, contents, origin) && contents[origin] == contents[c]
    decreases Height(s, c)
  {
    assert Reached(s, contents, c, c);
    if Recorded(s, contents, c) {
      origin := c;
    } else {
      var p := PathParents(contents, s[c].parents)[0];
      PathParentsMembers(contents, s[c].parents);
      assert IsPathParent(s, contents, p, c);
      ParentIsLower(s, p, c);
      assert forall x :: Reached(s, contents, p, x) ==> Reached(s, contents, c, x);
      origin := OriginIsRecorded(s, contents, p);
    }
  }

  method ParentsContainingPath(s: Store, contents: Contents, c: Hash) returns (ok: bool, result: seq<Hash>)
    requires c in s
    ensures !ok ==> exists p :: IsParent(s, p, c) && p !in s
    ensures ok ==> forall p :: p in s[c].parents ==> p in s
    ensures ok ==> result == PathParents(contents, s[c].parents)
  {
    var parents := s[c].parents;
    result := [];
    for i := 0 to |parents|
      invariant forall k :: 0 <= k < i ==> parents[k] in s
      invariant result == PathParents(contents, parents[..i])
    {
      if parents[i] !in s {
        assert IsParent(s, parents[i], c);
        return false, [];
      }
      if parents[i] in contents {
        result := result + [parents[i]];
      }
      assert parents[..i + 1][..i] == parents[..i];
    }
    assert parents[..|parents|] == parents;
    return true, result;
  }

  // What a walk from c adds to the visited set: c, everything reached from there
  // unless it was visited before, and nothing else.
  ghost predicate Visits(s: Store, contents: Contents, from: seq<Hash>, seen: set<Hash>, seen': set<Hash>)
    requires Acyclic(s)
  {
    && seen <= seen' && (forall c :: c in from ==> c in seen')
    && (forall x :: x in seen' - seen ==> x in s && exists c :: c in from && Reached(s, contents, c, x))
    && (forall x, p :: x in seen' - seen && IsPathParent(s, contents, p, x) ==> p in seen')
  }

  // The new results are the recorded commits among the newly visited, each once.
  ghost predicate Records(s: Store, contents: Contents, seen: set<Hash>, seen': set<Hash>, added: seq<Hash>)
  {
    && (forall x :: x in added <==> x in seen' - seen && Recorded(s, contents, x))
    && (forall i, j :: 0 <= i < j < |added| ==> added[i] != added[j])
  }

  lemma VisitsThenVisits(s: Store, contents: Contents, from: seq<Hash>, c: Hash, seen: set<Hash>, mid: set<Hash>, seen': set<Hash>)
    requires Acyclic(s) && Visits(s, contents, from, seen, mid) && Visits(s, contents, [c], mid, seen')
    ensures Visits(s, contents, from + [c], seen, seen')
  {
    forall x | x in seen' - seen ensures x in s && exists c' :: c' in from + [c] && Reached(s, contents, c', x) {
      if x in mid {
        assert x in mid - seen;
        var c' :| c' in from && Reached(s, contents, c', x);
        assert c' in from + [c];
      } else {
        assert x in seen' - mid && c in from + [c];
      }
    }
  }

  lemma RecordsThenRecords(s: Store, contents: Contents, seen: set<Hash>, mid: set<Hash>, seen': set<Hash>, one: seq<Hash>, two: seq<Hash>)
    requires seen <= mid <= seen' && Records(s, contents, seen, mid, one) && Records(s, contents, mid, seen', two)
    ensures Records(s, contents, seen, seen', one + two)
  {
    forall i, j | 0 <= i < |one| && 0 <= j < |two| ensures one[i] != two[j] {
      assert one[i] in one && two[j] in two;
    }
  }

  // The same for results that grow at the end.
  lemma RecordsJoin(s: Store, contents: Contents, seen: set<Hash>, mid: set<Hash>, seen': set<Hash>,
                    r0: seq<Hash>, r1: seq<Hash>, r2: seq<Hash>)
    requires seen <= mid <= seen' && r0 <= r1 <= r2
    requires Records(s, contents, seen, mid, r1[|r0|..]) && Records(s, contents, mid, seen', r2[|r1|..])
    ensures r0 <= r2 && Records(s, contents, seen, seen', r2[|r0|..])
  {
    RecordsThenRecords(s, contents, seen, mid, seen', r1[|r0|..], r2[|r1|..]);
    assert r2[|r0|..] == r1[|r0|..] + r2[|r1|..];
  }

  // The walk's own step: c is recorded or not.
  lemma RecordsOne(s: Store, contents: Contents, c: Hash, seen: set<Hash>, r0: seq<Hash>, r1: seq<Hash>)
    requires c !in seen && r1 == r0 + if Recorded(s, contents, c) then [c] else []
    ensures r0 <= r1 && Records(s, contents, seen, seen + {c}, r1[|r0|..])
  {
    assert r1[|r0|..] == if Recorded(s, contents, c) then [c] else [];
  }

  // Visiting c and then the parents of c that have the file is a walk from c.
  lemma VisitsFromParents(s: Store, contents: Contents, c: Hash, seen: set<Hash>, seen': set<Hash>)
    requires Acyclic(s) && c in s && c in contents && c !in seen
    requires Visits(s, contents, PathParents(contents, s[c].parents), seen + {c}, seen')
    ensures Visits(s, contents, [c], seen, seen')
  {
    PathParentsMembers(contents, s[c].parents);
    var parents := PathParents(contents, s[c].parents);
    forall x | x in seen' - seen ensures x in s && Reached(s, contents, c, x) {
      if x != c {
        assert x in seen' - (seen + {c});
        var p :| p in parents && Reached(s, contents, p, x);
        assert IsPathParent(s, contents, p, c);
        ParentIsLower(s, p, c);
      }
    }
    assert c in [c];
  }

  class FileWalk {
    var result: seq<Hash>
    var seen: set<Hash>

    constructor ()
      ensures result == [] && seen == {}
    {
      result, seen := [], {};
    }

    method WalkGraph(s: Store, contents: Contents, current: Hash) returns (ok: bool)
      requires Acyclic(s) && current in s
      modifies this
      ensures ok ==> Visits(s, contents, [current], old(seen), seen)
      ensures ok ==> old(result) <= result && Records(s, contents, old(seen), seen, result[|old(result)|..])
      ensures !ok ==> exists c, p :: IsParent(s, p, c) && p !in s
      decreases Height(s, current), 1
    {
      ghost var seen0, result0 := seen, result;
      if current in seen {
        return true;
      }
      seen := seen + {current};
      if current !in contents {
        assert Reached(s, contents, current, current) && current in [current];
        return true;
      }
      var found, parents := ParentsContainingPath(s, contents, current);
      if !found {
        return false;
      }
      PathParentsMembers(contents, s[current].parents);
      if |parents| == 0 {
        result := result + [current];
        VisitsFromParents(s, contents, current, seen0, seen);
        RecordsOne(s, contents, current, seen0, result0, result);
        return true;
      }
      if |parents| == 1 {
        if contents[parents[0]] != contents[current] {
          result := result + [current];
        }
      }
      ghost var result1 := result;
      RecordsOne(s, contents, current, seen0, result0, result1);
      ok := WalkParents(s, contents, current, parents);
      if ok {
        VisitsFromParents(s, contents, current, seen0, seen);
        RecordsJoin(s, contents, seen0, seen0 + {current}, seen, result0, result1, result);
      }
    }

    // The parents in turn.
    method WalkParents(s: Store, contents: Contents, ghost current: Hash, parents: seq<Hash>) returns (ok: bool)
      requires Acyclic(s) && forall p :: p in parents ==> IsParent(s, p, current) && p in s
      modifies this
      ensures ok ==> Visits(s, contents, parents, old(seen), seen)
      ensures ok ==> old(result) <= result && Records(s, contents, old(seen), seen, result[|old(result)|..])
      ensures !ok ==> exists c, p :: IsParent(s, p, c) && p !in s
      decreases Height(s, current), 0
    {
      for i := 0 to |parents|
        invariant Visits(s, contents, parents[..i], old(seen), seen)
        invariant old(result) <= result && Records(s, contents, old(seen), seen, result[|old(result)|..])
      {
        ghost var mid, before := seen, result;
        ParentIsLower(s, parents[i], current);
        ok := WalkGraph(s, contents, parents[i]);
        if !ok {
          return false;
        }
        VisitsThenVisits(s, contents, parents[..i], parents[i], old(seen), mid, seen);
        RecordsJoin(s, contents, old(seen), mid, seen, old(result), before, result);
        assert parents[..i + 1] == parents[..i] + [parents[i]];
      }
      assert parents[..|parents|] == parents;
      return true;
    }
  }

  // A visited set closed under path parents holds everything reached.
  lemma {:induction false} ClosedHoldsReached(s: Store, contents: Contents, seen: set<Hash>, c: Hash, x: Hash)
    requires Acyclic(s) && c in seen && Reached(s, contents, c, x)
    requires forall y, p :: y in seen && IsPathParent(s, contents, p, y) ==> p in seen
    ensures x in seen
    decreases Height(s, c)
  {
    if x != c {
      var p :| IsPathParent(s, contents, p, c) && Height(s, p) < Height(s, c) && Reached(s, contents, p, x);
      ClosedHoldsReached(s, contents, seen, p, x);
    }
  }

  // From scratch, the walk returns each recorded commit that is reached, once.
  method FileCommits(s: Store, contents: Contents, c: Hash) returns (ok: bool, result: seq<Hash>)
    requires Acyclic(s) && c in s
    ensures ok ==> forall x :: x in result <==> Reached(s, contents, c, x) && Recorded(s, contents, x)
    ensures ok ==> forall i, j :: 0 <= i < j < |result| ==> result[i] != result[j]
    ensures !ok ==> exists c, p :: IsParent(s, p, c) && p !in s
  {
    var walk := new FileWalk();
    ok := walk.WalkGraph(s, contents, c);
    result := walk.result;
    if ok {
      assert walk.result[0..] == walk.result;
      WalkIsExact(s, contents, c, walk.seen, result);
    }
  }

  lemma WalkIsExact(s: Store, contents: Contents, c: Hash, seen: set<Hash>, result: seq<Hash>)
    requires Acyclic(s) && Visits(s, contents, [c], {}, seen) && Records(s, contents, {}, seen, result)
    ensures forall x :: x in result <==> Reached(s, contents, c, x) && Recorded(s, contents, x)
  {
    forall x ensures x in result <==> Reached(s, contents, c, x) && Recorded(s, contents, x) {
      assert x in seen <==> x in seen - {};
      if Recorded(s, contents, x) && Reached(s, contents, c, x) {
        VisitedIsClosed(s, contents, c, seen);
        ClosedHoldsReached(s, contents, seen, c, x);
      }
      hide Recorded;
    }
  }

  lemma VisitedIsClosed(s: Store, contents: Contents, c: Hash, seen: set<Hash>)
    requires Acyclic(s) && Visits(s, contents, [c], {}, seen)
    ensures c in seen && forall y, p :: y in seen && IsPathParent(s, contents, p, y) ==> p in seen
  {
    assert c in [c] && seen - {} == seen;
  }

  // ---------- Removing adjacent duplicates ----------

  type Comparator = (Hash, Hash) -> bool

  ghost predicate Same(comp: Comparator, a: Hash, b: Hash)
  {
    comp(a, b)
  }

  // Element i of the input is kept.
  ghost predicate Kept(cs: seq<Hash>, comp: Comparator, i: int)
    requires 0 <= i < |cs|
  {
    i == 0 || !Same(comp, cs[i], cs[i - 1])
  }

  ghost function Deduplicated(cs: seq<Hash>, comp: Comparator): seq<Hash>
  {
    if cs == [] then []
    else Deduplicated(cs[..|cs| - 1], comp) + if Kept(cs, comp, |cs| - 1) then [cs[|cs| - 1]] else []
  }

  method RemoveComp(cs: seq<Hash>, comp: Comparator) returns (result: seq<Hash>)
    ensures result == Deduplicated(cs, comp)
  {
    result := [];
    if |cs| == 0 {
      return;
    }
    result := [cs[0]];
    assert cs[..1][..0] == [] && Deduplicated(cs[..1], comp) == [] + [cs[0]];
    for i := 1 to |cs|
      invariant result == Deduplicated(cs[..i], comp)
    {
      assert cs[..i + 1][..i] == cs[..i];
      var equals := comp(cs[i], cs[i - 1]);
      if !equals {
        result := result + [cs[i]];
      }
    }
    assert cs[..|cs|] == cs;
  }

  // The positions that survive, in order.
  ghost predicate Selects(cs: seq<Hash>, comp: Comparator, positions: seq<int>, result: seq<Hash>)
  {
    && |positions| == |result|
    && (forall k :: 0 <= k < |positions| ==> 0 <= positions[k] < |cs| && result[k] == cs[positions[k]])
    && (forall k, l :: 0 <= k < l < |positions| ==> positions[k] < positions[l])
    && (forall i :: 0 <= i < |cs| ==> (i in positions <==> Kept(cs, comp, i)))
  }

  lemma SelectsNext(cs: seq<Hash>, comp: Comparator, positions: seq<int>, result: seq<Hash>)
    requires cs != [] && Selects(cs[..|cs| - 1], comp, positions, result)
    ensures var n := |cs| - 1;
            if Kept(cs, comp, n)
            then Selects(cs, comp, positions + [n], result + [cs[n]])
            else Selects(cs, comp, positions, result)
  {
    var n := |cs| - 1;
    forall i | 0 <= i < n ensures Kept(cs[..n], comp, i) <==> Kept(cs, comp, i) {
    }
    assert forall i :: i in positions + [n] <==> i in positions || i == n;
    assert n !in positions;
  }

  // The result lists exactly the elements that the comparator does not equate
  // with their immediate predecessor in the input.
  lemma DropsExactlyEquated(cs: seq<Hash>, comp: Comparator) returns (positions: seq<int>)
    ensures Selects(cs, comp, positions, Deduplicated(cs, comp))
    ensures forall i :: 0 <= i < |cs| ==> (i in positions <==> i == 0 || !comp(cs[i], cs[i - 1]))
  {
    positions := DropsExactlyKept(cs, comp);
  }

  lemma {:induction false} DropsExactlyKept(cs: seq<Hash>, comp: Comparator) returns (positions: seq<int>)
    ensures Selects(cs, comp, positions, Deduplicated(cs, comp))
  {
    positions := [];
    if cs != [] {
      var n := |cs| - 1;
      positions := DropsExactlyKept(cs[..n], comp);
      SelectsNext(cs, comp, positions, Deduplicated(cs[..n], comp));
      hide Selects;
      if Kept(cs, comp, n) {
        positions := positions + [n];
      }
    }
  }

  ghost predicate Equates(comp: Comparator)
  {
    && (forall a, b :: Same(comp, a, b) ==> Same(comp, b, a))
    && (forall a, b, c :: Same(comp, a, b) && Same(comp, b, c) ==> Same(comp, a, c))
  }

  lemma {:induction false} DroppedFollow(cs: seq<Hash>, comp: Comparator, i: int, j: int)
    requires Equates(comp) && 0 <= i < j < |cs| && forall k :: i < k <= j ==> !Kept(cs, comp, k)
    ensures Same(comp, cs[j], cs[i])
  {
    assert !Kept(cs, comp, j);
    if i < j - 1 {
      DroppedFollow(cs, comp, i, j - 1);
      assert Same(comp, cs[j], cs[j - 1]) && Same(comp, cs[j - 1], cs[i]);
    }
  }

  // With a symmetric and transitive comparator, comparing with the predecessor in
  // the input, kept or not, leaves no two neighbours equated in the result.
  lemma NoNeighboursEquated(cs: seq<Hash>, comp: Comparator)
    requires Equates(comp)
    ensures var r := Deduplicated(cs, comp); forall k :: 0 < k < |r| ==> !Same(comp, r[k], r[k - 1])
  {
    var r := Deduplicated(cs, comp);
    var positions := DropsExactlyEquated(cs, comp);
    forall k | 0 < k < |r| ensures !Same(comp, r[k], r[k - 1]) {
      var i, j := positions[k - 1], positions[k];
      assert Kept(cs, comp, j) by {
        assert j in positions;
      }
      forall m | i < m < j ensures !Kept(cs, comp, m) {
        BetweenPositions(positions, k, m);
      }
      if i < j - 1 {
        DroppedFollow(cs, comp, i, j - 1);
        NotThrough(comp, cs[j], cs[j - 1], cs[i]);
      }
      assert cs[j] == r[k] && cs[i] == r[k - 1];
    }
  }

  lemma NotThrough(comp: Comparator, x: Hash, y: Hash, z: Hash)
    requires Equates(comp) && Same(comp, y, z) && !Same(comp, x, y)
    ensures !Same(comp, x, z)
  {
    assert Same(comp, z, y);
  }

  lemma BetweenPositions(positions: seq<int>, k: int, m: int)
    requires forall i, j :: 0 <= i < j < |positions| ==> positions[i] < positions[j]
    requires 0 < k < |positions| && positions[k - 1] < m < positions[k]
    ensures m !in positions
  {
    forall i | 0 <= i < |positions| ensures positions[i] != m {
      assert i < k - 1 || i == k - 1 || i == k || k < i;
    }
  }
}
