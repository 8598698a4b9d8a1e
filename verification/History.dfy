// Commit history: a finite acyclic graph of commits with dates.

module History {

  // Commits are known by their hashes; only equality of hashes matters.
  type Hash = int

  datatype Commit = Commit(date: int, parents: seq<Hash>)

  type Store = map<Hash, Commit>

  // A hash depends on the hashes of the parents, so histories have no cycles:
  // commits can be ranked above the parents the store has.
  ghost predicate IsRank(s: Store, rank: map<Hash, nat>)
  {
    && rank.Keys == s.Keys
    && forall c, p :: c in s && p in s[c].parents && p in s ==> rank[p] < rank[c]
  }

  ghost predicate Acyclic(s: Store)
  {
    exists rank :: IsRank(s, rank)
  }

  ghost function Rank(s: Store): (rank: map<Hash, nat>)
    requires Acyclic(s)
    ensures IsRank(s, rank)
  {
    var rank :| IsRank(s, rank);
    rank
  }

  // Above every parent, stored or not.
  ghost function Height(s: Store, c: Hash): nat
    requires Acyclic(s)
  {
    if c in s then Rank(s)[c] + 1 else 0
  }

  ghost predicate IsParent(s: Store, p: Hash, c: Hash)
  {
    c in s && p in s[c].parents
  }

  lemma ParentIsLower(s: Store, p: Hash, c: Hash)
    requires Acyclic(s) && IsParent(s, p, c)
    ensures Height(s, p) < Height(s, c)
  {
  }

  // x is c or one of its ancestors.
  ghost predicate Ancestor(s: Store, x: Hash, c: Hash)
    requires Acyclic(s)
    decreases Height(s, c)
  {
    x == c || exists p :: IsParent(s, p, c) && Height(s, p) < Height(s, c) && Ancestor(s, x, p)
  }

  ghost predicate ProperAncestor(s: Store, x: Hash, c: Hash)
    requires Acyclic(s)
  {
    x != c && Ancestor(s, x, c)
  }

  lemma ParentIsAncestor(s: Store, p: Hash, c: Hash)
    requires Acyclic(s) && IsParent(s, p, c)
    ensures ProperAncestor(s, p, c)
  {
    ParentIsLower(s, p, c);
    assert Ancestor(s, p, p);
  }

  lemma {:induction false} AncestorIsLower(s: Store, x: Hash, c: Hash)
    requires Acyclic(s) && ProperAncestor(s, x, c)
    ensures Height(s, x) < Height(s, c)
    decreases Height(s, c)
  {
    var p :| IsParent(s, p, c) && Height(s, p) < Height(s, c) && Ancestor(s, x, p);
    if x != p {
      AncestorIsLower(s, x, p);
    }
  }

  lemma {:induction false} AncestorTransitive(s: Store, x: Hash, y: Hash, c: Hash)
    requires Acyclic(s) && Ancestor(s, x, y) && Ancestor(s, y, c)
    ensures Ancestor(s, x, c)
    decreases Height(s, c)
  {
    if y != c {
      var p :| IsParent(s, p, c) && Height(s, p) < Height(s, c) && Ancestor(s, y, p);
      AncestorTransitive(s, x, y, p);
    }
  }

  // A proper ancestor is a parent of some descendant-or-self of c's line.
  lemma {:induction false} LastStep(s: Store, x: Hash, c: Hash) returns (y: Hash)
    requires Acyclic(s) && ProperAncestor(s, x, c)
    ensures IsParent(s, x, y) && Ancestor(s, y, c)
    decreases Height(s, c)
  {
    var p :| IsParent(s, p, c) && Height(s, p) < Height(s, c) && Ancestor(s, x, p);
    if x == p {
      y := c;
    } else {
      y := LastStep(s, x, p);
      ParentIsAncestor(s, p, c);
      AncestorTransitive(s, y, p, c);
    }
  }

  // Commits are added, and none is changed.
  ghost predicate Extends(s: Store, s': Store)
  {
    forall c :: c in s ==> c in s' && s'[c] == s[c]
  }

  // Ancestors stay ancestors.
  lemma {:induction false} AncestorSurvives(s: Store, s': Store, x: Hash, c: Hash)
    requires Acyclic(s) && Acyclic(s') && Extends(s, s') && Ancestor(s, x, c)
    ensures Ancestor(s', x, c)
    decreases Height(s, c)
  {
    if x != c {
      var p :| IsParent(s, p, c) && Height(s, p) < Height(s, c) && Ancestor(s, x, p);
      AncestorSurvives(s, s', x, p);
      ParentIsLower(s', p, c);
    }
  }

  // Dates strictly decrease from child to parent.
  ghost predicate StrictDates(s: Store)
  {
    forall c, p :: c in s && p in s && p in s[c].parents ==> s[p].date < s[c].date
  }

  lemma {:induction false} AncestorIsStoredEarlier(s: Store, x: Hash, c: Hash)
    requires Acyclic(s) && StrictDates(s) && Ancestor(s, x, c) && x in s && c in s
    ensures s[x].date <= s[c].date
    ensures x != c ==> s[x].date < s[c].date
    decreases Height(s, c)
  {
    if x != c {
      var p :| IsParent(s, p, c) && Height(s, p) < Height(s, c) && Ancestor(s, x, p);
      StoredAncestorLine(s, x, p);
      AncestorIsStoredEarlier(s, x, p);
    }
  }

  // Only stored commits have ancestors other than themselves.
  lemma StoredAncestorLine(s: Store, x: Hash, c: Hash)
    requires Acyclic(s) && Ancestor(s, x, c) && x in s
    ensures c in s
  {
  }

  // ---------- What a merge base is ----------

  ghost predicate Common(s: Store, one: Hash, two: Hash, c: Hash)
    requires Acyclic(s)
  {
    Ancestor(s, c, one) && Ancestor(s, c, two)
  }

  // A common ancestor hidden behind no other.
  ghost predicate IsMergeBase(s: Store, one: Hash, two: Hash, c: Hash)
    requires Acyclic(s)
  {
    Common(s, one, two, c) && !Behind(s, one, two, c)
  }

  // A proper ancestor of some common ancestor.
  ghost predicate Behind(s: Store, one: Hash, two: Hash, c: Hash)
    requires Acyclic(s)
  {
    exists d :: Common(s, one, two, d) && ProperAncestor(s, c, d)
  }

  lemma BehindIsCommon(s: Store, one: Hash, two: Hash, c: Hash)
    requires Acyclic(s) && Behind(s, one, two, c)
    ensures Common(s, one, two, c)
  {
    var d :| Common(s, one, two, d) && ProperAncestor(s, c, d);
    AncestorTransitive(s, c, d, one);
    AncestorTransitive(s, c, d, two);
  }

  // The ancestors of a commit that is behind, or common, are behind.
  lemma BehindIsClosed(s: Store, one: Hash, two: Hash, x: Hash, c: Hash)
    requires Acyclic(s) && Ancestor(s, x, c)
    requires Behind(s, one, two, c) || (Common(s, one, two, c) && x != c)
    ensures Behind(s, one, two, x)
  {
    if Behind(s, one, two, c) {
      var d :| Common(s, one, two, d) && ProperAncestor(s, c, d);
      AncestorTransitive(s, x, c, d);
      AncestorIsLower(s, c, d);
      if x == d {
        AncestorIsLowerOrSame(s, x, c);
        assert false;
      }
    }
  }

  lemma AncestorIsLowerOrSame(s: Store, x: Hash, c: Hash)
    requires Acyclic(s) && Ancestor(s, x, c)
    ensures Height(s, x) <= Height(s, c)
  {
    if x != c {
      AncestorIsLower(s, x, c);
    }
  }

  // ---------- Termination measure of walks over the history ----------

  // The number of paths that lead down from a commit.
  ghost function Weight(s: Store, c: Hash): nat
    requires Acyclic(s)
    decreases Height(s, c), 0
  {
    if c in s then 1 + WeightOfAll(s, c, s[c].parents) else 1
  }

  ghost function WeightOfAll(s: Store, c: Hash, parents: seq<Hash>): nat
    requires Acyclic(s) && c in s && forall p :: p in parents ==> p in s[c].parents
    decreases Height(s, c), 0, |parents|
  {
    if parents == [] then 0
    else
      ParentIsLower(s, parents[|parents| - 1], c);
      WeightOfAll(s, c, parents[..|parents| - 1]) + Weight(s, parents[|parents| - 1])
  }

  ghost function TotalWeight(s: Store, cs: set<Hash>): nat
    requires Acyclic(s)
  {
    if c :| c in cs then Weight(s, c) + TotalWeight(s, cs - {c}) else 0
  }

  lemma {:induction false} TotalWeightRemove(s: Store, cs: set<Hash>, c: Hash)
    requires Acyclic(s) && c in cs
    ensures TotalWeight(s, cs) == Weight(s, c) + TotalWeight(s, cs - {c})
    decreases cs
  {
    var d :| d in cs && TotalWeight(s, cs) == Weight(s, d) + TotalWeight(s, cs - {d});
    if d != c {
      TotalWeightRemove(s, cs - {d}, c);
      TotalWeightRemove(s, cs - {c}, d);
      assert cs - {d} - {c} == cs - {c} - {d};
    }
  }

  lemma TotalWeightAdd(s: Store, cs: set<Hash>, c: Hash)
    requires Acyclic(s)
    ensures TotalWeight(s, cs + {c}) <= TotalWeight(s, cs) + Weight(s, c)
  {
    if c in cs {
      assert cs + {c} == cs;
    } else {
      TotalWeightRemove(s, cs + {c}, c);
      assert cs + {c} - {c} == cs;
    }
  }
}
