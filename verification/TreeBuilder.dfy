// Building the tree objects of a commit from the flat list of index entries.

module TreeBuilder {

  // ---------- Entries, trees and hashes ----------

  // A clean path is the list of its components.
  type Path = seq<string>

  datatype Mode = Dir | File(code: int)

  // Storing an object gives a hash that stands for its content: the hash of a
  // tree is the tree.
  datatype Hash = Zero | Blob(id: int) | Tree(entries: seq<TreeEntry>)

  datatype TreeEntry = TreeEntry(name: string, mode: Mode, hash: Hash)

  datatype IndexEntry = IndexEntry(path: Path, mode: Mode, hash: Hash)

  // Names are not empty and hold no separator; a leaf is a stored object.
  ghost predicate Clean(e: IndexEntry)
  {
    && e.path != [] && (forall i :: 0 <= i < |e.path| ==> e.path[i] != "" && '/' !in e.path[i])
    && e.mode != Dir && e.hash != Zero
  }

  ghost predicate CleanIndex(idx: seq<IndexEntry>)
  {
    && (forall i :: 0 <= i < |idx| ==> Clean(idx[i]))
    && (forall i, j :: 0 <= i < j < |idx| ==> idx[i].path != idx[j].path)
  }

  // ---------- The order of tree entries ----------

  ghost predicate Less(s: string, t: string)
  {
    t != [] && (s == [] || s[0] < t[0] || (s[0] == t[0] && Less(s[1..], t[1..])))
  }

  method IsLess(s: string, t: string) returns (r: bool)
    ensures r <==> Less(s, t)
  {
    var i := 0;
    while i < |s| && i < |t| && s[i] == t[i]
      invariant 0 <= i <= |s| && i <= |t|
      invariant Less(s, t) <==> Less(s[i..], t[i..])
    {
      assert s[i..][1..] == s[i + 1..] && t[i..][1..] == t[i + 1..];
      i := i + 1;
    }
    return i < |t| && (i == |s| || s[i] < t[i]);
  }

  lemma {:induction false} LessTransitive(s: string, t: string, u: string)
    requires Less(s, t) && Less(t, u)
    ensures Less(s, u)
  {
    if s != [] && s[0] == t[0] == u[0] {
      LessTransitive(s[1..], t[1..], u[1..]);
    }
  }

  lemma {:induction false} LessTotal(s: string, t: string)
    ensures Less(s, t) || s == t || Less(t, s)
    ensures !(Less(s, t) && Less(t, s)) && !Less(s, s)
  {
    if s != [] && t != [] {
      LessTotal(s[1..], t[1..]);
      assert s == [s[0]] + s[1..] && t == [t[0]] + t[1..];
    }
    if s != [] {
      LessTotal(s[1..], s[1..]);
    }
  }

  // A directory sorts as if its name ended in a separator.
  function SortName(te: TreeEntry): string
  {
    if te.mode == Dir then te.name + "/" else te.name
  }

  ghost predicate StrictlySorted(entries: seq<TreeEntry>)
  {
    forall i, j :: 0 <= i < j < |entries| ==> Less(SortName(entries[i]), SortName(entries[j]))
  }

  // A strictly sorted list is determined by what is in it.
  lemma {:induction false} SortedIsUnique(one: seq<TreeEntry>, two: seq<TreeEntry>)
    requires StrictlySorted(one) && StrictlySorted(two)
    requires forall te :: te in one <==> te in two
    ensures one == two
  {
    assert two != [] ==> two[0] in two;
    if one != [] {
      assert one[0] in one;
      FirstIsFirst(one, two);
      NotInTail(one);
      NotInTail(two);
      hide Less, SortName;
      SortedIsUnique(one[1..], two[1..]);
      assert one == [one[0]] + one[1..] && two == [two[0]] + two[1..];
    }
  }

  lemma NotInTail(entries: seq<TreeEntry>)
    requires StrictlySorted(entries) && entries != []
    ensures entries[0] !in entries[1..]
    ensures forall te :: te in entries <==> te == entries[0] || te in entries[1..]
  {
    LessTotal(SortName(entries[0]), SortName(entries[0]));
  }

  lemma FirstIsFirst(one: seq<TreeEntry>, two: seq<TreeEntry>)
    requires StrictlySorted(one) && StrictlySorted(two) && one != [] && two != []
    requires one[0] in two && two[0] in one
    ensures one[0] == two[0]
  {
    if one[0] != two[0] {
      assert Less(SortName(one[0]), SortName(two[0]));
      assert Less(SortName(two[0]), SortName(one[0]));
      LessTotal(SortName(one[0]), SortName(two[0]));
    }
  }

  // ---------- What a list of entries should become ----------

  // p is the root or lies above some entry.
  ghost predicate IsDir(kept: set<IndexEntry>, p: Path)
  {
    p == [] || exists e :: e in kept && p < e.path
  }

  ghost function EntryOf(p: Path, te: TreeEntry): IndexEntry
  {
    IndexEntry(p + [te.name], te.mode, te.hash)
  }

  // h is the stored tree of the entries below p: strictly sorted, with a leaf for
  // each entry that sits directly in p, a subtree for each directory in p, and
  // nothing else.
  ghost predicate Canonical(h: Hash, kept: set<IndexEntry>, p: Path)
    decreases h
  {
    && h.Tree? && StrictlySorted(h.entries)
    && (forall i :: 0 <= i < |h.entries| ==>
          var te := h.entries[i];
          if te.mode == Dir then IsDir(kept, p + [te.name]) && Canonical(te.hash, kept, p + [te.name])
          else EntryOf(p, te) in kept)
    && (forall te: TreeEntry :: te.mode != Dir && EntryOf(p, te) in kept ==> te in h.entries)
    && (forall name :: IsDir(kept, p + [name]) ==> HasDir(h.entries, name))
  }

  ghost predicate HasDir(entries: seq<TreeEntry>, name: string)
  {
    exists i :: 0 <= i < |entries| && entries[i].mode == Dir && entries[i].name == name
  }

  // The entries alone determine the stored tree: there is one canonical form.
  lemma {:induction false} CanonicalIsUnique(one: Hash, two: Hash, kept: set<IndexEntry>, p: Path)
    requires Canonical(one, kept, p) && Canonical(two, kept, p)
    ensures one == two
    decreases one
  {
    forall i, j | 0 <= i < |one.entries| && 0 <= j < |two.entries| && SameDir(one.entries[i], two.entries[j])
      ensures one.entries[i] == two.entries[j]
    {
      CanonicalIsUnique(one.entries[i].hash, two.entries[j].hash, kept, p + [one.entries[i].name]);
    }
    assert DirsAgree(one.entries, two.entries) && DirsAgree(two.entries, one.entries);
    EntriesOccur(one, two, kept, p);
    EntriesOccur(two, one, kept, p);
    SortedIsUnique(one.entries, two.entries);
  }

  ghost predicate SameDir(te: TreeEntry, te': TreeEntry)
  {
    te.mode == Dir && te'.mode == Dir && te.name == te'.name
  }

  ghost predicate DirsAgree(one: seq<TreeEntry>, two: seq<TreeEntry>)
  {
    forall i, j :: 0 <= i < |one| && 0 <= j < |two| && SameDir(one[i], two[j]) ==> one[i] == two[j]
  }

  lemma EntriesOccur(one: Hash, two: Hash, kept: set<IndexEntry>, p: Path)
    requires Canonical(one, kept, p) && Canonical(two, kept, p)
    requires DirsAgree(one.entries, two.entries)
    ensures forall te :: te in one.entries ==> te in two.entries
  {
    forall te | te in one.entries ensures te in two.entries {
      var i :| 0 <= i < |one.entries| && one.entries[i] == te;
      if te.mode == Dir {
        assert HasDir(two.entries, te.name);
        var j :| 0 <= j < |two.entries| && two.entries[j].mode == Dir && two.entries[j].name == te.name;
        assert SameDir(one.entries[i], two.entries[j]);
      } else {
        assert EntryOf(p, te) in kept;
      }
    }
  }

  // ---------- Flattening a stored tree ----------

  ghost function Flatten(h: Hash, p: Path): set<IndexEntry>
    decreases h
  {
    if h.Tree? then FlattenAll(h.entries, p) else {}
  }

  ghost function FlattenAll(entries: seq<TreeEntry>, p: Path): set<IndexEntry>
    decreases entries
  {
    if entries == [] then {}
    else FlattenOne(entries[0], p) + FlattenAll(entries[1..], p)
  }

  ghost function FlattenOne(te: TreeEntry, p: Path): set<IndexEntry>
    decreases te
  {
    if te.mode == Dir then Flatten(te.hash, p + [te.name]) else {EntryOf(p, te)}
  }

  lemma {:induction false} FlattenAllMembers(entries: seq<TreeEntry>, p: Path, e: IndexEntry)
    ensures e in FlattenAll(entries, p) <==> exists i :: 0 <= i < |entries| && e in FlattenOne(entries[i], p)
  {
    if entries != [] {
      FlattenAllMembers(entries[1..], p, e);
      if exists i :: 0 <= i < |entries| && e in FlattenOne(entries[i], p) {
        var i :| 0 <= i < |entries| && e in FlattenOne(entries[i], p);
        assert i > 0 ==> entries[i] == entries[1..][i - 1];
      }
      if e in FlattenAll(entries[1..], p) {
        var i :| 0 <= i < |entries[1..]| && e in FlattenOne(entries[1..][i], p);
        assert entries[i + 1] == entries[1..][i];
      }
    }
  }

  ghost predicate Leaves(kept: set<IndexEntry>)
  {
    forall e :: e in kept ==> e.path != [] && e.mode != Dir
  }

  // The tree of a directory holds exactly the entries below it.
  lemma {:induction false} FlattenIsBelow(h: Hash, kept: set<IndexEntry>, p: Path, e: IndexEntry)
    requires Canonical(h, kept, p) && Leaves(kept)
    ensures e in Flatten(h, p) <==> e in kept && p < e.path
    decreases h
  {
    FlattenAllMembers(h.entries, p, e);
    forall i | 0 <= i < |h.entries|
      ensures e in FlattenOne(h.entries[i], p) <==> EntryIsUnder(kept, p, h.entries[i], e)
    {
      var te := h.entries[i];
      if te.mode == Dir {
        FlattenIsBelow(te.hash, kept, p + [te.name], e);
      }
    }
    if e in kept && p < e.path {
      var name := e.path[|p|];
      assert p + [name] <= e.path;
      if p + [name] == e.path {
        assert EntryOf(p, TreeEntry(name, e.mode, e.hash)) == e;
      } else {
        assert IsDir(kept, p + [name]);
        assert HasDir(h.entries, name);
      }
    }
  }

  ghost predicate EntryIsUnder(kept: set<IndexEntry>, p: Path, te: TreeEntry, e: IndexEntry)
  {
    if te.mode == Dir then e in kept && p + [te.name] < e.path else e == EntryOf(p, te)
  }

  // ---------- Sorting ----------

  ghost predicate DistinctNames(entries: seq<TreeEntry>)
  {
    forall i, j :: 0 <= i < j < |entries| ==> SortName(entries[i]) != SortName(entries[j])
  }

  method InsertEntry(entries: seq<TreeEntry>, te: TreeEntry) returns (res: seq<TreeEntry>)
    requires StrictlySorted(entries) && forall i :: 0 <= i < |entries| ==> SortName(entries[i]) != SortName(te)
    ensures StrictlySorted(res)
    ensures forall x :: x in res <==> x == te || x in entries
  {
    var i := 0;
    while i < |entries|
      invariant 0 <= i <= |entries|
      invariant forall k :: 0 <= k < i ==> Less(SortName(entries[k]), SortName(te))
    {
      var before := IsLess(SortName(entries[i]), SortName(te));
      if !before {
        break;
      }
      i := i + 1;
    }
    forall k | i <= k < |entries| ensures Less(SortName(te), SortName(entries[k])) {
      LessTotal(SortName(te), SortName(entries[i]));
      if k > i {
        LessTransitive(SortName(te), SortName(entries[i]), SortName(entries[k]));
      }
    }
    res := entries[..i] + [te] + entries[i..];
    assert entries == entries[..i] + entries[i..];
  }

  // Stands for the library sort: with distinct names there is one sorted order.
  method SortEntries(entries: seq<TreeEntry>) returns (res: seq<TreeEntry>)
    requires DistinctNames(entries)
    ensures StrictlySorted(res)
    ensures forall te :: te in res <==> te in entries
  {
    res := [];
    for i := 0 to |entries|
      invariant StrictlySorted(res)
      invariant forall te :: te in res <==> te in entries[..i]
    {
      forall k | 0 <= k < |res| ensures SortName(res[k]) != SortName(entries[i]) {
        assert res[k] in res;
      }
      res := InsertEntry(res, entries[i]);
      assert entries[..i + 1] == entries[..i] + [entries[i]];
    }
  }

  // ---------- Which entries are kept ----------

  // An entry is dropped if, when its turn comes, its path is already a directory.
  ghost function Keep(idx: seq<IndexEntry>): set<IndexEntry>
  {
    if idx == [] then {}
    else
      var kept, last := Keep(idx[..|idx| - 1]), idx[|idx| - 1];
      if IsDir(kept, last.path) then kept else kept + {last}
  }

  ghost predicate SomeBelow(idx: seq<IndexEntry>, p: Path)
  {
    exists i :: 0 <= i < |idx| && p < idx[i].path
  }

  lemma DirAboveDir(kept: set<IndexEntry>, p: Path, q: Path)
    requires p < q && IsDir(kept, q)
    ensures IsDir(kept, p)
  {
    var e :| e in kept && q < e.path;
    assert p < e.path;
  }

  lemma SomeBelowNext(idx: seq<IndexEntry>, p: Path)
    requires idx != []
    ensures SomeBelow(idx, p) <==> SomeBelow(idx[..|idx| - 1], p) || p < idx[|idx| - 1].path
  {
    var rest := idx[..|idx| - 1];
    if SomeBelow(rest, p) {
      var i :| 0 <= i < |rest| && p < rest[i].path;
      assert p < idx[i].path;
    }
    if SomeBelow(idx, p) {
      var i :| 0 <= i < |idx| && p < idx[i].path;
      assert i < |rest| ==> p < rest[i].path;
    }
  }

  // Dropped entries make no difference to what is a directory.
  lemma {:induction false} KeepDirs(idx: seq<IndexEntry>, p: Path)
    ensures IsDir(Keep(idx), p) <==> p == [] || SomeBelow(idx, p)
  {
    if idx != [] {
      var rest, last := idx[..|idx| - 1], idx[|idx| - 1];
      KeepDirs(rest, p);
      SomeBelowNext(idx, p);
      if p < last.path && IsDir(Keep(rest), last.path) {
        DirAboveDir(Keep(rest), p, last.path);
      }
    }
  }

  ghost predicate KeptAt(idx: seq<IndexEntry>, i: int)
    requires 0 <= i < |idx|
  {
    !SomeBelow(idx[..i], idx[i].path)
  }

  ghost predicate KeptHere(idx: seq<IndexEntry>, i: int, e: IndexEntry)
  {
    0 <= i < |idx| && idx[i] == e && KeptAt(idx, i)
  }

  lemma KeptHereNext(idx: seq<IndexEntry>, i: int, e: IndexEntry)
    requires idx != []
    ensures KeptHere(idx, i, e) <==>
            KeptHere(idx[..|idx| - 1], i, e) || (i == |idx| - 1 && e == idx[i] && !SomeBelow(idx[..i], e.path))
  {
    var n := |idx| - 1;
    assert 0 <= i < n ==> idx[..n][..i] == idx[..i];
  }

  lemma {:induction false} KeepMembers(idx: seq<IndexEntry>, e: IndexEntry)
    requires CleanIndex(idx)
    ensures e in Keep(idx) <==> exists i :: KeptHere(idx, i, e)
  {
    if idx != [] {
      var n := |idx| - 1;
      KeepMembers(idx[..n], e);
      KeepDirs(idx[..n], idx[n].path);
      forall i ensures KeptHere(idx, i, e) <==>
                       KeptHere(idx[..n], i, e) || (i == n && e == idx[n] && !SomeBelow(idx[..n], e.path))
      {
        KeptHereNext(idx, i, e);
      }
      KeptHereNext(idx, n, e);
      assert Clean(idx[n]);
      hide KeptHere, SomeBelow, IsDir;
    }
  }

  ghost function EntriesOf(idx: seq<IndexEntry>): set<IndexEntry>
  {
    set e | e in idx
  }

  lemma KeptByIndex(idx: seq<IndexEntry>, j: int)
    requires CleanIndex(idx) && 0 <= j < |idx|
    ensures idx[j] in Keep(idx) <==> KeptAt(idx, j)
  {
    KeepMembers(idx, idx[j]);
    assert forall i :: KeptHere(idx, i, idx[j]) ==> i == j;
    assert KeptHere(idx, j, idx[j]) <==> KeptAt(idx, j);
    hide KeptHere, KeptAt;
  }

  lemma KeptAtMeans(idx: seq<IndexEntry>, j: int)
    requires 0 <= j < |idx|
    ensures KeptAt(idx, j) <==> forall i :: 0 <= i < j ==> !(idx[j].path < idx[i].path)
  {
    assert forall i :: 0 <= i < j ==> idx[..j][i] == idx[i];
  }

  // An entry is kept exactly if no entry before it lies below its path.
  lemma KeepsExactly(idx: seq<IndexEntry>, j: int)
    requires CleanIndex(idx) && 0 <= j < |idx|
    ensures idx[j] in Keep(idx) <==> forall i :: 0 <= i < j ==> !(idx[j].path < idx[i].path)
  {
    KeptByIndex(idx, j);
    KeptAtMeans(idx, j);
  }

  // Nothing is lost exactly if no path comes after a path below it.
  lemma KeepsAllIff(idx: seq<IndexEntry>)
    requires CleanIndex(idx)
    ensures Keep(idx) == EntriesOf(idx) <==> forall i, j :: 0 <= i < j < |idx| ==> !(idx[j].path < idx[i].path)
  {
    KeptIsClean(idx);
    forall j | 0 <= j < |idx|
      ensures idx[j] in Keep(idx) <==> forall i :: 0 <= i < j ==> !(idx[j].path < idx[i].path)
    {
      KeepsExactly(idx, j);
    }
    if Keep(idx) == EntriesOf(idx) {
      assert forall j :: 0 <= j < |idx| ==> idx[j] in EntriesOf(idx);
    }
  }

  lemma KeptIsClean(idx: seq<IndexEntry>)
    requires CleanIndex(idx)
    ensures forall e :: e in Keep(idx) ==> Clean(e) && e in idx
    ensures UniquePaths(Keep(idx))
  {
    forall e | e in Keep(idx) ensures Clean(e) && e in idx {
      KeepMembers(idx, e);
    }
    forall e, f | e in Keep(idx) && f in Keep(idx) && e.path == f.path ensures e == f {
      assert e in idx && f in idx;
      var i :| 0 <= i < |idx| && idx[i] == e;
      var j :| 0 <= j < |idx| && idx[j] == f;
    }
  }

  ghost predicate UniquePaths(kept: set<IndexEntry>)
  {
    forall e, f :: e in kept && f in kept && e.path == f.path ==> e == f
  }

  // ---------- The mutable trees ----------

  type Trees = map<Path, seq<TreeEntry>>

  // te belongs into the tree of p: a leaf that has been committed, or the
  // placeholder of a directory whose hash is not known yet.
  ghost predicate IsKid(kept: set<IndexEntry>, dirs: set<Path>, p: Path, te: TreeEntry)
  {
    if te.mode == Dir then te.hash == Zero && p + [te.name] in dirs else EntryOf(p, te) in kept
  }

  ghost predicate NodeOk(kept: set<IndexEntry>, dirs: set<Path>, p: Path, entries: seq<TreeEntry>)
  {
    && (forall te :: te in entries <==> IsKid(kept, dirs, p, te))
    && (forall i, j :: 0 <= i < j < |entries| ==> entries[i] != entries[j])
  }

  ghost predicate Built(trees: Trees, kept: set<IndexEntry>)
  {
    && [] in trees
    && (forall p, name :: p + [name] in trees ==> p in trees)
    && (forall p :: p in trees ==> NodeOk(kept, trees.Keys, p, trees[p]))
    && (forall p, te: TreeEntry :: EntryOf(p, te) in kept ==> p in trees)
  }

  ghost predicate DirsExact(dirs: set<Path>, kept: set<IndexEntry>)
  {
    forall p :: p in dirs <==> IsDir(kept, p)
  }

  // Adding a directory: an empty tree of its own, and a placeholder above it.
  lemma AddDir(trees: Trees, kept: set<IndexEntry>, p: Path, name: string)
    requires Built(trees, kept) && p in trees && p + [name] !in trees
    requires forall e :: e in kept ==> e.mode != Dir
    ensures Built(trees[p + [name] := []][p := trees[p] + [TreeEntry(name, Dir, Zero)]], kept)
  {
    var full, te := p + [name], TreeEntry(name, Dir, Zero);
    var trees' := trees[full := []][p := trees[p] + [te]];
    var dirs, dirs' := trees.Keys, trees'.Keys;
    assert dirs' == dirs + {full};
    forall q, n | q + [n] in trees' ensures q in trees' {
      if q + [n] == full {
        assert q == (q + [n])[..|q|] == p;
      }
    }
    forall q | q in trees' ensures NodeOk(kept, dirs', q, trees'[q]) {
      forall x ensures x in trees'[q] <==> IsKid(kept, dirs', q, x) {
        if q + [x.name] == full {
          assert q == full[..|p|] == p && x.name == full[|p|] == name;
        }
        if q == full {
          assert full + [x.name] !in dirs';
        } else {
          assert x in trees[q] <==> IsKid(kept, dirs, q, x);
        }
      }
      assert te !in trees[p];
    }
  }

  lemma AddLeaf(trees: Trees, kept: set<IndexEntry>, p: Path, e: IndexEntry)
    requires Built(trees, kept) && p in trees && e.path != [] && p == e.path[..|e.path| - 1]
    requires e.mode != Dir && e !in kept
    ensures Built(trees[p := trees[p] + [TreeEntry(e.path[|p|], e.mode, e.hash)]], kept + {e})
  {
    var te := TreeEntry(e.path[|p|], e.mode, e.hash);
    var trees' := trees[p := trees[p] + [te]];
    assert trees'.Keys == trees.Keys;
    assert e.path == p + [te.name] && EntryOf(p, te) == e;
    forall q, x: TreeEntry | EntryOf(q, x) == e ensures q == p && x == te {
      assert q == (q + [x.name])[..|q|] && x.name == (q + [x.name])[|q|];
    }
    forall q | q in trees' ensures NodeOk(kept + {e}, trees'.Keys, q, trees'[q]) {
      forall x ensures x in trees'[q] <==> IsKid(kept + {e}, trees'.Keys, q, x) {
        assert x in trees[q] <==> IsKid(kept, trees.Keys, q, x);
      }
      assert te !in trees[p];
    }
  }

  // A sort name tells a directory from a file, and gives the name back.
  lemma SortNameTells(x: TreeEntry, y: TreeEntry)
    requires '/' !in x.name && '/' !in y.name && SortName(x) == SortName(y)
    ensures x.name == y.name && (x.mode == Dir <==> y.mode == Dir)
  {
    var s := SortName(x);
    assert x.mode == Dir ==> s[..|s| - 1] == x.name && s[|s| - 1] == '/';
    assert y.mode == Dir ==> s[..|s| - 1] == y.name && s[|s| - 1] == '/';
    assert '/' in s <==> x.mode == Dir;
    assert '/' in s <==> y.mode == Dir;
  }

  ghost predicate PlainNames(entries: seq<TreeEntry>)
  {
    forall i :: 0 <= i < |entries| ==> '/' !in entries[i].name
  }

  // No two entries of a tree sort alike.
  lemma KidsHaveDistinctNames(kept: set<IndexEntry>, dirs: set<Path>, p: Path, entries: seq<TreeEntry>)
    requires NodeOk(kept, dirs, p, entries) && UniquePaths(kept) && DirsExact(dirs, kept)
    requires forall e :: e in kept ==> Clean(e)
    ensures DistinctNames(entries)
  {
    KidsArePlain(kept, dirs, p, entries);
    forall i, j | 0 <= i < j < |entries| ensures SortName(entries[i]) != SortName(entries[j]) {
      var x, y := entries[i], entries[j];
      assert IsKid(kept, dirs, p, x) && IsKid(kept, dirs, p, y) by {
        assert x in entries && y in entries;
      }
      if SortName(x) == SortName(y) {
        SortNameTells(x, y);
        assert false;
      }
    }
  }

  lemma KidsArePlain(kept: set<IndexEntry>, dirs: set<Path>, p: Path, entries: seq<TreeEntry>)
    requires NodeOk(kept, dirs, p, entries) && DirsExact(dirs, kept) && forall e :: e in kept ==> Clean(e)
    ensures PlainNames(entries)
  {
    forall i | 0 <= i < |entries| ensures '/' !in entries[i].name {
      var te := entries[i];
      var full := p + [te.name];
      assert te in entries && IsKid(kept, dirs, p, te);
      assert full[|p|] == te.name;
      if te.mode == Dir {
        var e :| e in kept && full < e.path;
        assert e.path[|p|] == full[|p|];
      } else {
        assert EntryOf(p, te).path == full;
      }
    }
  }

  class BuildTreeHelper {
    var trees: Trees
    var entries: map<Path, TreeEntry>

    constructor ()
      ensures trees == map[] && entries == map[]
    {
      trees, entries := map[], map[];
    }

    // One component of one entry.  The second map is never filled, so only the
    // first test can stop an entry.
    method DoBuildTree(e: IndexEntry, parent: Path, fullpath: Path, ghost kept: set<IndexEntry>)
      returns (ghost kept': set<IndexEntry>)
      requires entries == map[] && Built(trees, kept) && Clean(e) && forall k :: k in kept ==> Clean(k) && k.path != e.path
      requires parent in trees && parent < fullpath <= e.path && |fullpath| == |parent| + 1
      modifies this`trees
      ensures Built(trees, kept')
      ensures fullpath in old(trees) ==> trees == old(trees) && kept' == kept
      ensures fullpath !in old(trees) && fullpath == e.path ==> trees.Keys == old(trees).Keys && kept' == kept + {e}
      ensures fullpath !in old(trees) && fullpath != e.path ==> trees.Keys == old(trees).Keys + {fullpath} && kept' == kept
    {
      kept' := kept;
      if fullpath in trees {
        return;
      }
      if fullpath in entries {
        return;
      }
      var name := fullpath[|fullpath| - 1];
      assert fullpath == parent + [name];
      if fullpath == e.path {
        AddLeaf(trees, kept, parent, e);
        kept' := kept + {e};
        trees := trees[parent := trees[parent] + [TreeEntry(name, e.mode, e.hash)]];
      } else {
        AddDir(trees, kept, parent, name);
        trees := trees[fullpath := []];
        trees := trees[parent := trees[parent] + [TreeEntry(name, Dir, Zero)]];
      }
    }

    method CommitIndexEntry(e: IndexEntry, ghost kept: set<IndexEntry>) returns (ghost kept': set<IndexEntry>)
      requires entries == map[] && Built(trees, kept) && DirsExact(trees.Keys, kept)
      requires Clean(e) && forall k :: k in kept ==> Clean(k) && k.path != e.path
      modifies this`trees
      ensures Built(trees, kept') && DirsExact(trees.Keys, kept')
      ensures kept' == if IsDir(kept, e.path) then kept else kept + {e}
    {
      kept' := kept;
      var parts := e.path;
      var fullpath: Path := [];
      ghost var dirs := trees.Keys;
      for i := 0 to |parts|
        invariant fullpath == parts[..i]
        invariant i < |parts| ==> fullpath in trees && kept' == kept
        invariant i == |parts| ==> kept' == if e.path in dirs then kept else kept + {e}
        invariant Built(trees, kept') && Opened(dirs, e.path, i, trees.Keys)
      {
        var parent := fullpath;
        fullpath := fullpath + [parts[i]];
        OpenNext(dirs, e.path, i, trees.Keys);
        kept' := DoBuildTree(e, parent, fullpath, kept');
      }
      CommitKeepsDirs(dirs, kept, e, trees.Keys);
    }

    // Copies the tree of parent, its subtrees first; the result is its hash.
    method CopyTreeToStorageRecursive(parent: Path, ghost kept: set<IndexEntry>, ghost bound: nat) returns (hash: Hash)
      requires parent in trees && DirsExact(trees.Keys, kept) && UniquePaths(kept)
      requires (forall e :: e in kept ==> Clean(e)) && forall p :: p in trees ==> |p| <= bound
      requires BuiltBelow(trees, kept, parent)
      modifies this`trees
      ensures trees.Keys == old(trees).Keys && SameOutside(old(trees), trees, parent)
      ensures Canonical(hash, kept, parent)
      decreases bound - |parent|
    {
      hide Canonical, NodeOk, IsKid, DirsExact, UniquePaths, Clean, StrictlySorted, DistinctNames, BuiltBelow, SameOutside, Untouched;
      ghost var unsorted := trees[parent];
      assert NodeOk(kept, trees.Keys, parent, unsorted) by {
        BuiltHere(trees, kept, parent);
      }
      KidsHaveDistinctNames(kept, trees.Keys, parent, unsorted);
      var list := SortEntries(trees[parent]);
      ghost var sorted := list;
      CopyStarts(trees, kept, parent, list);
      trees := trees[parent := list];
      for i := 0 to |list|
        invariant |list| == |sorted| && Copied(old(trees), trees, kept, parent, sorted, list, i)
      {
        var e := list[i];
        SortedKid(kept, trees.Keys, parent, unsorted, sorted, i);
        if e.mode != Dir && e.hash != Zero {
          continue;
        }
        var path := parent + [e.name];
        ghost var before := trees;
        ChildIsBuilt(old(trees), trees, kept, parent, sorted, list, i);
        var h := CopyTreeToStorageRecursive(path, kept, bound);
        ChildIsCopied(old(trees), before, trees, kept, parent, sorted, list, i, h);
        list := list[i := e.(hash := h)];
        trees := trees[parent := list];
      }
      hash := Tree(list);
      CopiedIsCanonical(kept, trees.Keys, parent, unsorted, sorted, list);
    }

    // The stored root is the canonical tree of the entries that were kept, and
    // flattening it gives those entries back.
    method BuildTree(idx: seq<IndexEntry>) returns (root: Hash)
      requires CleanIndex(idx)
      modifies this
      ensures Canonical(root, Keep(idx), [])
      ensures Flatten(root, []) == Keep(idx)
    {
      trees := map[[] := []];
      entries := map[];
      ghost var kept: set<IndexEntry> := {};
      for i := 0 to |idx|
        invariant entries == map[] && kept == Keep(idx[..i])
        invariant Built(trees, kept) && DirsExact(trees.Keys, kept)
      {
        KeepNext(idx, i);
        kept := CommitIndexEntry(idx[i], kept);
      }
      assert idx[..|idx|] == idx;
      KeptIsClean(idx);
      ghost var bound := LongestPath(trees.Keys);
      root := CopyTreeToStorageRecursive([], kept, bound);
      FlattenIsKept(root, idx);
    }
  }

  lemma KeepNext(idx: seq<IndexEntry>, i: int)
    requires CleanIndex(idx) && 0 <= i < |idx|
    ensures forall k :: k in Keep(idx[..i]) ==> Clean(k) && k.path != idx[i].path
    ensures Clean(idx[i])
    ensures var kept := Keep(idx[..i]);
            Keep(idx[..i + 1]) == if IsDir(kept, idx[i].path) then kept else kept + {idx[i]}
  {
    KeptIsClean(idx[..i]);
    assert idx[..i + 1][..i] == idx[..i];
  }

  lemma FlattenIsKept(root: Hash, idx: seq<IndexEntry>)
    requires CleanIndex(idx) && Canonical(root, Keep(idx), [])
    ensures Flatten(root, []) == Keep(idx)
  {
    KeptIsClean(idx);
    forall e ensures e in Flatten(root, []) <==> e in Keep(idx) {
      FlattenIsBelow(root, Keep(idx), [], e);
    }
  }

  // The proper prefixes of a path, as far as its first i components, are directories.
  ghost predicate Opened(dirs: set<Path>, path: Path, i: int, dirs': set<Path>)
    requires 0 <= i <= |path|
  {
    forall p :: p in dirs' <==> p in dirs || (p <= path[..i] && p < path)
  }

  lemma OpenNext(dirs: set<Path>, path: Path, i: int, dirs': set<Path>)
    requires 0 <= i < |path| && Opened(dirs, path, i, dirs')
    ensures path[..i] + [path[i]] == path[..i + 1]
    ensures path[..i + 1] in dirs' <==> path[..i + 1] in dirs
    ensures i + 1 < |path| ==> Opened(dirs, path, i + 1, dirs' + {path[..i + 1]})
    ensures i + 1 < |path| && path[..i + 1] in dirs ==> Opened(dirs, path, i + 1, dirs')
    ensures i + 1 == |path| ==> Opened(dirs, path, i + 1, dirs')
  {
    forall p | i + 1 < |path|
      ensures p in dirs' + {path[..i + 1]} <==> p in dirs || (p <= path[..i + 1] && p < path)
    {
      PrefixStep(path, i, p);
    }
  }

  lemma PrefixStep(path: Path, i: int, p: Path)
    requires 0 <= i < |path|
    ensures p <= path[..i + 1] <==> p <= path[..i] || p == path[..i + 1]
  {
    if p <= path[..i + 1] && |p| <= i {
      assert p == path[..i + 1][..|p|] == path[..i][..|p|];
    }
  }

  ghost predicate BuiltBelow(trees: Trees, kept: set<IndexEntry>, p: Path)
  {
    forall q :: q in trees && p <= q ==> NodeOk(kept, trees.Keys, q, trees[q])
  }

  ghost predicate SameOutside(trees: Trees, trees': Trees, p: Path)
  {
    forall q :: q in trees && q in trees' && !(p <= q) ==> trees'[q] == trees[q]
  }

  // Every path under p still has the entries it had.
  ghost predicate Untouched(trees: Trees, trees': Trees, p: Path)
  {
    forall q :: q in trees && q in trees' && p <= q ==> trees'[q] == trees[q]
  }

  // The state of a copy when the first i entries are done: their subtrees are
  // stored, the others are as they were built.
  ghost predicate Copied(trees: Trees, trees': Trees, kept: set<IndexEntry>, p: Path,
                         sorted: seq<TreeEntry>, list: seq<TreeEntry>, i: int)
  {
    && trees'.Keys == trees.Keys && SameOutside(trees, trees', p) && Hashed(kept, p, sorted, list, i)
    && forall k :: 0 <= i <= k < |sorted| && sorted[k].mode == Dir ==> Untouched(trees, trees', p + [sorted[k].name])
  }

  lemma BuiltHere(trees: Trees, kept: set<IndexEntry>, p: Path)
    requires BuiltBelow(trees, kept, p) && p in trees
    ensures NodeOk(kept, trees.Keys, p, trees[p])
  {
  }

  lemma CopyStarts(trees: Trees, kept: set<IndexEntry>, p: Path, sorted: seq<TreeEntry>)
    requires p in trees
    ensures Copied(trees, trees[p := sorted], kept, p, sorted, sorted, 0)
  {
    forall k | 0 <= k < |sorted| ensures Untouched(trees, trees[p := sorted], p + [sorted[k].name]) {
      assert !(p + [sorted[k].name] <= p);
    }
  }

  lemma SortedKid(kept: set<IndexEntry>, dirs: set<Path>, p: Path, unsorted: seq<TreeEntry>, sorted: seq<TreeEntry>, i: int)
    requires NodeOk(kept, dirs, p, unsorted) && DirsExact(dirs, kept) && StrictlySorted(sorted) && 0 <= i < |sorted|
    requires (forall te :: te in sorted <==> te in unsorted) && forall e :: e in kept ==> Clean(e)
    ensures IsKid(kept, dirs, p, sorted[i]) && (sorted[i].mode == Dir <==> sorted[i].hash == Zero)
    ensures sorted[i].mode == Dir ==> p + [sorted[i].name] in dirs
    ensures forall k :: i < k < |sorted| && sorted[k].mode == Dir && sorted[i].mode == Dir ==> sorted[k].name != sorted[i].name
  {
    assert sorted[i] in sorted;
    LessTotal(SortName(sorted[i]), SortName(sorted[i]));
  }

  lemma ChildIsBuilt(trees: Trees, trees': Trees, kept: set<IndexEntry>, p: Path,
                     sorted: seq<TreeEntry>, list: seq<TreeEntry>, i: int)
    requires Copied(trees, trees', kept, p, sorted, list, i) && BuiltBelow(trees, kept, p)
    requires 0 <= i < |sorted| && sorted[i].mode == Dir
    ensures BuiltBelow(trees', kept, p + [sorted[i].name])
  {
    assert Untouched(trees, trees', p + [sorted[i].name]);
    forall q | q in trees' && p + [sorted[i].name] <= q ensures NodeOk(kept, trees'.Keys, q, trees'[q]) {
      assert p <= p + [sorted[i].name] <= q;
    }
  }

  lemma ChildIsCopied(trees: Trees, before: Trees, after: Trees, kept: set<IndexEntry>, p: Path,
                      sorted: seq<TreeEntry>, list: seq<TreeEntry>, i: int, h: Hash)
    requires Copied(trees, before, kept, p, sorted, list, i) && p in trees
    requires 0 <= i < |sorted| && sorted[i].mode == Dir
    requires after.Keys == before.Keys && SameOutside(before, after, p + [sorted[i].name])
    requires Canonical(h, kept, p + [sorted[i].name])
    requires forall k :: i < k < |sorted| && sorted[k].mode == Dir ==> sorted[k].name != sorted[i].name
    ensures var list' := list[i := list[i].(hash := h)];
            Copied(trees, after[p := list'], kept, p, sorted, list', i + 1)
  {
    var m := sorted[i].name;
    var list' := list[i := list[i].(hash := h)];
    var trees' := after[p := list'];
    forall q | q in trees && q in trees' && !(p <= q) ensures trees'[q] == trees[q] {
      assert p + [m] <= q ==> p <= q;
    }
    forall k | i + 1 <= k < |sorted| && sorted[k].mode == Dir ensures Untouched(trees, trees', p + [sorted[k].name]) {
      var n := sorted[k].name;
      assert Untouched(trees, before, p + [n]);
      SiblingsApart(before, after, p, m, n);
    }
  }

  lemma PassesThrough(p: Path, m: string, q: Path)
    requires p + [m] <= q
    ensures |q| > |p| && q[|p|] == m
  {
    assert q[|p|] == (p + [m])[|p|];
  }

  // Two subtrees of one tree share no path.
  lemma SiblingsApart(trees: Trees, trees': Trees, p: Path, m: string, n: string)
    requires m != n && forall q :: q in trees && q in trees' && !(p + [m] <= q) ==> trees'[q] == trees[q]
    ensures Untouched(trees, trees', p + [n])
  {
    forall q | q in trees && q in trees' && p + [n] <= q ensures trees'[q] == trees[q] {
      PassesThrough(p, n, q);
      if p + [m] <= q {
        PassesThrough(p, m, q);
      }
    }
  }

  // The first i entries have their final hashes; names and modes do not change.
  ghost predicate Hashed(kept: set<IndexEntry>, p: Path, sorted: seq<TreeEntry>, list: seq<TreeEntry>, i: int)
  {
    && |list| == |sorted|
    && forall k :: 0 <= k < |list| ==>
         if k < i && sorted[k].mode == Dir
         then list[k] == sorted[k].(hash := list[k].hash) && Canonical(list[k].hash, kept, p + [list[k].name])
         else list[k] == sorted[k]
  }

  lemma CopiedIsCanonical(kept: set<IndexEntry>, dirs: set<Path>, p: Path, unsorted: seq<TreeEntry>,
                          sorted: seq<TreeEntry>, list: seq<TreeEntry>)
    requires DirsExact(dirs, kept) && NodeOk(kept, dirs, p, unsorted)
    requires StrictlySorted(sorted) && forall te :: te in sorted <==> te in unsorted
    requires Hashed(kept, p, sorted, list, |list|)
    ensures Canonical(Tree(list), kept, p)
  {
    forall i | 0 <= i < |list|
      ensures if list[i].mode == Dir then IsDir(kept, p + [list[i].name]) else EntryOf(p, list[i]) in kept
    {
      assert sorted[i] in sorted && IsKid(kept, dirs, p, sorted[i]);
    }
    forall te: TreeEntry | te.mode != Dir && EntryOf(p, te) in kept ensures te in list {
      assert IsKid(kept, dirs, p, te) && te in sorted;
      var k :| 0 <= k < |sorted| && sorted[k] == te;
      assert list[k] == te;
    }
    forall name | IsDir(kept, p + [name]) ensures HasDir(list, name) {
      var te := TreeEntry(name, Dir, Zero);
      assert IsKid(kept, dirs, p, te) && te in sorted;
      var k :| 0 <= k < |sorted| && sorted[k] == te;
      assert list[k].mode == Dir && list[k].name == name;
    }
  }

  lemma CommitKeepsDirs(dirs: set<Path>, kept: set<IndexEntry>, e: IndexEntry, dirs': set<Path>)
    requires DirsExact(dirs, kept) && forall p :: p in dirs' <==> p in dirs || p < e.path
    ensures DirsExact(dirs', if IsDir(kept, e.path) then kept else kept + {e})
  {
    if IsDir(kept, e.path) && e.path != [] {
      var f :| f in kept && e.path < f.path;
      forall p | p < e.path ensures IsDir(kept, p) {
        assert p < f.path;
      }
    } else {
      forall p ensures IsDir(kept + {e}, p) <==> IsDir(kept, p) || p < e.path {
        if p < e.path {
          assert e in kept + {e};
        }
        if f :| f in kept && p < f.path {
          assert f in kept + {e};
        }
      }
    }
  }

  ghost function LongestPath(dirs: set<Path>): (n: nat)
    ensures forall p :: p in dirs ==> |p| <= n
  {
    if p :| p in dirs then
      var rest := LongestPath(dirs - {p});
      if |p| > rest then |p| else rest
    else 0
  }

  // ---------- Every set of entries has a canonical tree ----------

  ghost function DirsOf(kept: set<IndexEntry>): (dirs: set<Path>)
    ensures DirsExact(dirs, kept)
  {
    var dirs := {[]} + set e, n | e in kept && 0 <= n < |e.path| :: e.path[..n];
    assert forall p, e: IndexEntry :: p < e.path ==> p == e.path[..|p|];
    dirs
  }

  lemma {:induction false} ListOf(kids: set<TreeEntry>) returns (list: seq<TreeEntry>)
    ensures forall te :: te in list <==> te in kids
    ensures forall i, j :: 0 <= i < j < |list| ==> list[i] != list[j]
    decreases kids
  {
    list := [];
    if te :| te in kids {
      list := ListOf(kids - {te});
      assert forall i :: 0 <= i < |list| ==> list[i] in list;
      list := [te] + list;
    }
  }

  lemma KidsExist(kept: set<IndexEntry>, p: Path) returns (list: seq<TreeEntry>)
    requires forall e :: e in kept ==> Clean(e)
    ensures NodeOk(kept, DirsOf(kept), p, list)
  {
    var dirs := DirsOf(kept);
    var leaves := set e | e in kept && |e.path| == |p| + 1 && p < e.path :: TreeEntry(e.path[|p|], e.mode, e.hash);
    var below := set d | d in dirs && |d| == |p| + 1 && p < d :: TreeEntry(d[|p|], Dir, Zero);
    list := ListOf(leaves + below);
    forall te ensures te in list <==> IsKid(kept, dirs, p, te) {
      var full := p + [te.name];
      assert full[|p|] == te.name && forall d :: |d| == |p| + 1 && p < d ==> d == p + [d[|p|]];
      if te.mode == Dir {
        assert te.hash == Zero && full in dirs ==> te in below;
        assert te in below ==> full in dirs;
      } else {
        assert EntryOf(p, te) in kept ==> te in leaves by {
          assert EntryOf(p, te).path == full;
        }
        assert te in leaves ==> EntryOf(p, te) in kept;
      }
    }
  }

  lemma {:induction false} InsertedExists(entries: seq<TreeEntry>, te: TreeEntry) returns (res: seq<TreeEntry>)
    requires StrictlySorted(entries) && forall i :: 0 <= i < |entries| ==> SortName(entries[i]) != SortName(te)
    ensures StrictlySorted(res) && forall x :: x in res <==> x == te || x in entries
  {
    if entries == [] {
      res := [te];
    } else {
      LessTotal(SortName(te), SortName(entries[0]));
      if Less(SortName(te), SortName(entries[0])) {
        forall k | 0 <= k < |entries| ensures Less(SortName(te), SortName(entries[k])) {
          if k > 0 {
            LessTransitive(SortName(te), SortName(entries[0]), SortName(entries[k]));
          }
        }
        res := [te] + entries;
      } else {
        var rest := InsertedExists(entries[1..], te);
        forall k | 0 <= k < |rest| ensures Less(SortName(entries[0]), SortName(rest[k])) {
          assert rest[k] in rest;
        }
        res := [entries[0]] + rest;
        assert entries == [entries[0]] + entries[1..];
      }
    }
  }

  lemma {:induction false} SortedExists(entries: seq<TreeEntry>) returns (res: seq<TreeEntry>)
    requires DistinctNames(entries)
    ensures StrictlySorted(res) && forall te :: te in res <==> te in entries
  {
    res := [];
    if entries != [] {
      res := SortedExists(entries[1..]);
      forall k | 0 <= k < |res| ensures SortName(res[k]) != SortName(entries[0]) {
        assert res[k] in entries[1..];
      }
      res := InsertedExists(res, entries[0]);
      assert entries == [entries[0]] + entries[1..];
    }
  }

  // The first i entries have the hashes of their canonical subtrees.
  lemma {:induction false} HashedExists(kept: set<IndexEntry>, p: Path, sorted: seq<TreeEntry>, i: nat, bound: nat)
    returns (list: seq<TreeEntry>)
    requires UniquePaths(kept) && (forall e :: e in kept ==> Clean(e)) && forall d :: d in DirsOf(kept) ==> |d| <= bound
    requires i <= |sorted| && forall te :: te in sorted ==> IsKid(kept, DirsOf(kept), p, te)
    ensures Hashed(kept, p, sorted, list, i)
    decreases bound - |p|, 0, i
  {
    hide Canonical, Clean, UniquePaths;
    list := sorted;
    if i > 0 {
      list := HashedExists(kept, p, sorted, i - 1, bound);
      var te := sorted[i - 1];
      assert te in sorted;
      if te.mode == Dir {
        var h := CanonicalExists(kept, p + [te.name], bound);
        list := list[i - 1 := te.(hash := h)];
      }
    }
  }

  lemma {:induction false} CanonicalExists(kept: set<IndexEntry>, p: Path, bound: nat) returns (h: Hash)
    requires UniquePaths(kept) && (forall e :: e in kept ==> Clean(e)) && forall d :: d in DirsOf(kept) ==> |d| <= bound
    requires |p| <= bound
    ensures Canonical(h, kept, p)
    decreases bound - |p|, 1, 0
  {
    hide Canonical, StrictlySorted, IsKid, Clean;
    var unsorted := KidsExist(kept, p);
    KidsHaveDistinctNames(kept, DirsOf(kept), p, unsorted);
    var sorted := SortedExists(unsorted);
    var list := HashedExists(kept, p, sorted, |sorted|, bound);
    CopiedIsCanonical(kept, DirsOf(kept), p, unsorted, sorted, list);
    h := Tree(list);
  }

  lemma RootExists(idx: seq<IndexEntry>) returns (root: Hash)
    requires CleanIndex(idx)
    ensures Canonical(root, Keep(idx), [])
  {
    KeptIsClean(idx);
    root := CanonicalExists(Keep(idx), [], LongestPath(DirsOf(Keep(idx))));
  }

  // ---------- The order of a stored tree ----------

  // The full path of an entry, as the index writes it.
  ghost function Joined(path: Path): string
  {
    if path == [] then "" else if |path| == 1 then path[0] else path[0] + "/" + Joined(path[1..])
  }

  // What the paths in a directory start with.
  ghost function Opening(path: Path): string
  {
    if path == [] then "" else path[0] + "/" + Opening(path[1..])
  }

  lemma {:induction false} JoinedConcat(p: Path, q: Path)
    requires q != []
    ensures Joined(p + q) == Opening(p) + Joined(q)
  {
    if p == [] {
      assert p + q == q;
    } else {
      JoinedConcat(p[1..], q);
      assert (p + q)[1..] == p[1..] + q;
      Regrouped(p[0] + "/", Opening(p[1..]), Joined(q));
    }
  }

  lemma Regrouped(s: string, t: string, u: string)
    ensures s + (t + u) == s + t + u
  {
  }

  lemma JoinedBelow(p: Path, name: string, path: Path)
    requires p + [name] <= path
    ensures path == p + [name] ==> Joined(path) == Opening(p) + name
    ensures path != p + [name] ==> Joined(path) == Opening(p) + (name + "/" + Joined(path[|p| + 1..]))
  {
    var rest := path[|p| + 1..];
    var below := [name] + rest;
    assert path == p + below;
    JoinedConcat(p, below);
    assert below[1..] == rest;
    hide Opening;
  }

  lemma {:induction false} LessBehind(s: string, t: string, u: string)
    requires Less(t, u)
    ensures Less(s + t, s + u)
  {
    if s == [] {
      assert s + t == t && s + u == u;
    } else {
      LessBehind(s[1..], t, u);
      assert (s + t)[1..] == s[1..] + t && (s + u)[1..] == s[1..] + u;
    }
  }

  // What follows does not matter unless the smaller string is a prefix.
  lemma {:induction false} LessBefore(s: string, t: string, u: string, v: string)
    requires Less(s, t) && (s <= t ==> u == "")
    ensures Less(s + u, t + v)
  {
    if s == [] {
      assert s + u == "" && t + v != "";
    } else {
      assert (s + u)[1..] == s[1..] + u && (t + v)[1..] == t[1..] + v;
      if s[0] == t[0] {
        assert s[1..] <= t[1..] ==> s <= t;
        LessBefore(s[1..], t[1..], u, v);
      }
    }
  }

  // The leaves of a stored tree, in the order of its entries.
  ghost function Listing(h: Hash, p: Path): seq<IndexEntry>
    decreases h
  {
    if h.Tree? then ListingAll(h.entries, p) else []
  }

  ghost function ListingAll(entries: seq<TreeEntry>, p: Path): seq<IndexEntry>
    decreases entries
  {
    if entries == [] then [] else ListingOne(entries[0], p) + ListingAll(entries[1..], p)
  }

  ghost function ListingOne(te: TreeEntry, p: Path): seq<IndexEntry>
    decreases te
  {
    if te.mode == Dir then Listing(te.hash, p + [te.name]) else [EntryOf(p, te)]
  }

  lemma {:induction false} ListingMembers(h: Hash, p: Path, e: IndexEntry)
    ensures e in Listing(h, p) <==> e in Flatten(h, p)
    decreases h
  {
    if h.Tree? {
      ListingAllMembers(h.entries, p, e);
    }
  }

  lemma {:induction false} ListingAllMembers(entries: seq<TreeEntry>, p: Path, e: IndexEntry)
    ensures e in ListingAll(entries, p) <==> e in FlattenAll(entries, p)
    decreases entries
  {
    if entries != [] {
      var te := entries[0];
      if te.mode == Dir {
        ListingMembers(te.hash, p + [te.name], e);
      }
      ListingAllMembers(entries[1..], p, e);
    }
  }

  ghost predicate InPathOrder(leaves: seq<IndexEntry>)
  {
    forall i, j :: 0 <= i < j < |leaves| ==> Less(Joined(leaves[i].path), Joined(leaves[j].path))
  }

  // e lies at or below the entry te of directory p.
  ghost predicate LiesIn(p: Path, te: TreeEntry, e: IndexEntry)
  {
    p + [te.name] <= e.path && (te.mode == Dir <==> e.path != p + [te.name])
  }

  // The sort name of a directory is a prefix of no other.
  lemma DirPrefixIsSelf(x: TreeEntry, y: TreeEntry)
    requires x.mode == Dir && '/' !in y.name && SortName(x) <= SortName(y)
    ensures SortName(x) == SortName(y)
  {
    var n, t := |x.name|, SortName(y);
    forall i | 0 <= i < |y.name| ensures t[i] != '/' {
      assert t[i] == y.name[i] && y.name[i] in y.name;
    }
    assert SortName(x)[n] == '/' == t[n];
  }

  // The order of two entries of a tree is that of the full paths of their leaves.
  lemma SortNamesOrderPaths(p: Path, x: TreeEntry, y: TreeEntry, e: IndexEntry, e': IndexEntry)
    requires Less(SortName(x), SortName(y)) && '/' !in x.name && '/' !in y.name
    requires LiesIn(p, x, e) && LiesIn(p, y, e')
    ensures Less(Joined(e.path), Joined(e'.path))
  {
    hide Joined, Opening, Less;
    JoinedBelow(p, x.name, e.path);
    JoinedBelow(p, y.name, e'.path);
    var u := if x.mode == Dir then Joined(e.path[|p| + 1..]) else "";
    var v := if y.mode == Dir then Joined(e'.path[|p| + 1..]) else "";
    if x.mode == Dir && SortName(x) <= SortName(y) {
      DirPrefixIsSelf(x, y);
      LessTotal(SortName(x), SortName(x));
      assert false;
    }
    LessBefore(SortName(x), SortName(y), u, v);
    assert Joined(e.path) == Opening(p) + (SortName(x) + u);
    assert Joined(e'.path) == Opening(p) + (SortName(y) + v);
    LessBehind(Opening(p), SortName(x) + u, SortName(y) + v);
  }

  // The leaves under an entry of a canonical tree lie in it, and are in order.
  lemma {:induction false} ListingIsOrdered(h: Hash, kept: set<IndexEntry>, p: Path)
    requires Canonical(h, kept, p) && forall e :: e in kept ==> Clean(e)
    ensures InPathOrder(Listing(h, p))
    decreases h, 1
  {
    forall i | 0 <= i < |h.entries| ensures EntryIsListed(h.entries[i], p) {
      EntryListingIsOrdered(h, kept, p, i);
    }
    ListingAllIsOrdered(h.entries, p);
  }

  ghost predicate EntryIsListed(te: TreeEntry, p: Path)
  {
    && '/' !in te.name && InPathOrder(ListingOne(te, p))
    && forall e :: e in ListingOne(te, p) ==> LiesIn(p, te, e)
  }

  lemma {:induction false} EntryListingIsOrdered(h: Hash, kept: set<IndexEntry>, p: Path, i: int)
    requires Canonical(h, kept, p) && (forall e :: e in kept ==> Clean(e)) && 0 <= i < |h.entries|
    ensures EntryIsListed(h.entries[i], p)
    decreases h, 0
  {
    var te := h.entries[i];
    var full := p + [te.name];
    assert full[|p|] == te.name;
    if te.mode == Dir {
      var e :| e in kept && full < e.path;
      assert e.path[|p|] == full[|p|];
      ListingIsOrdered(te.hash, kept, full);
      forall e | e in ListingOne(te, p) ensures LiesIn(p, te, e) {
        ListingMembers(te.hash, full, e);
        FlattenIsBelow(te.hash, kept, full, e);
      }
    } else {
      assert EntryOf(p, te).path == full;
    }
  }

  lemma {:induction false} ListingAllIsOrdered(entries: seq<TreeEntry>, p: Path)
    requires StrictlySorted(entries) && forall i :: 0 <= i < |entries| ==> EntryIsListed(entries[i], p)
    ensures InPathOrder(ListingAll(entries, p))
    ensures forall e :: e in ListingAll(entries, p) ==> exists i :: 0 <= i < |entries| && LiesIn(p, entries[i], e)
  {
    if entries != [] {
      var first, rest := ListingOne(entries[0], p), ListingAll(entries[1..], p);
      ListingAllIsOrdered(entries[1..], p);
      forall e | e in rest ensures exists i :: 0 < i < |entries| && LiesIn(p, entries[i], e) {
        var i :| 0 <= i < |entries[1..]| && LiesIn(p, entries[1..][i], e);
        assert LiesIn(p, entries[i + 1], e);
      }
      assert EntryIsListed(entries[0], p);
      forall e, e' | e in first && e' in rest ensures Less(Joined(e.path), Joined(e'.path)) {
        var i :| 0 < i < |entries| && LiesIn(p, entries[i], e');
        assert EntryIsListed(entries[i], p);
        SortNamesOrderPaths(p, entries[0], entries[i], e, e');
      }
      OrderConcat(first, rest);
    }
  }

  lemma OrderConcat(one: seq<IndexEntry>, two: seq<IndexEntry>)
    requires InPathOrder(one) && InPathOrder(two)
    requires forall e, e' :: e in one && e' in two ==> Less(Joined(e.path), Joined(e'.path))
    ensures InPathOrder(one + two)
  {
    forall i, j | 0 <= i < |one| && 0 <= j < |two| ensures Less(Joined(one[i].path), Joined(two[j].path)) {
      assert one[i] in one && two[j] in two;
    }
  }

  // The leaves of the root, read in the order of its trees, are the entries kept in
  // the byte order of their full paths: the order of the index.
  lemma RootIsInPathOrder(idx: seq<IndexEntry>, root: Hash)
    requires CleanIndex(idx) && Canonical(root, Keep(idx), [])
    ensures InPathOrder(Listing(root, []))
    ensures forall e :: e in Listing(root, []) <==> e in Keep(idx)
  {
    KeptIsClean(idx);
    ListingIsOrdered(root, Keep(idx), []);
    FlattenIsKept(root, idx);
    forall e ensures e in Listing(root, []) <==> e in Keep(idx) {
      ListingMembers(root, [], e);
    }
  }

  // ---------- Round trip and canonical form ----------

  // The flattened tree is the index exactly if no path comes after one below it.
  lemma RoundTripIff(idx: seq<IndexEntry>, root: Hash)
    requires CleanIndex(idx) && Canonical(root, Keep(idx), [])
    ensures Flatten(root, []) == EntriesOf(idx) <==> forall i, j :: 0 <= i < j < |idx| ==> !(idx[j].path < idx[i].path)
  {
    FlattenIsKept(root, idx);
    KeepsAllIff(idx);
  }

  ghost predicate NoClash(idx: seq<IndexEntry>)
  {
    forall i, j :: 0 <= i < |idx| && 0 <= j < |idx| ==> !(idx[j].path < idx[i].path)
  }

  // Any two orders of the same entries give the same tree, unless some path is a
  // directory of another.
  lemma OrderDoesNotMatter(idx: seq<IndexEntry>, idx': seq<IndexEntry>, root: Hash, root': Hash)
    requires CleanIndex(idx) && CleanIndex(idx') && EntriesOf(idx) == EntriesOf(idx') && NoClash(idx)
    requires Canonical(root, Keep(idx), []) && Canonical(root', Keep(idx'), [])
    ensures root == root'
  {
    KeepsAllIff(idx);
    NoClashInAnyOrder(idx, idx');
    KeepsAllIff(idx');
    CanonicalIsUnique(root, root', Keep(idx), []);
  }

  // Entry k comes first, the others keep their order.
  ghost function MovedFirst(idx: seq<IndexEntry>, k: int): (r: seq<IndexEntry>)
    requires 0 <= k < |idx|
    ensures |r| == |idx| && r[0] == idx[k]
    ensures forall m :: 0 < m <= k ==> r[m] == idx[m - 1]
    ensures forall m :: k < m < |idx| ==> r[m] == idx[m]
  {
    [idx[k]] + idx[..k] + idx[k + 1..]
  }

  lemma MovedFirstIsReordering(idx: seq<IndexEntry>, k: int)
    requires CleanIndex(idx) && 0 <= k < |idx|
    ensures CleanIndex(MovedFirst(idx, k)) && EntriesOf(MovedFirst(idx, k)) == EntriesOf(idx)
  {
    var r := MovedFirst(idx, k);
    forall e | e in idx ensures e in r {
      var m :| 0 <= m < |idx| && idx[m] == e;
      assert r[if m == k then 0 else if m < k then m + 1 else m] == e;
    }
    forall e | e in r ensures e in idx {
      var m :| 0 <= m < |r| && r[m] == e;
      assert idx[if m == 0 then k else if m <= k then m - 1 else m] == e;
    }
    forall i | 0 <= i < |r| ensures Clean(r[i]) {
      assert r[i] == idx[if i == 0 then k else if i <= k then i - 1 else i];
    }
    forall i, j | 0 <= i < j < |r| ensures r[i].path != r[j].path {
      assert r[i] == idx[if i == 0 then k else if i <= k then i - 1 else i];
      assert r[j] == idx[if j <= k then j - 1 else j];
    }
  }

  // If a path is a directory of another, the order matters: the entry is kept
  // when it comes first and dropped when the one below it does.
  lemma ClashMakesOrderMatter(idx: seq<IndexEntry>, i: int, j: int)
    requires CleanIndex(idx) && 0 <= i < |idx| && 0 <= j < |idx| && idx[j].path < idx[i].path
    ensures idx[j] in Keep(MovedFirst(idx, j)) && idx[j] !in Keep(MovedFirst(idx, i))
  {
    var one, two := MovedFirst(idx, j), MovedFirst(idx, i);
    MovedFirstIsReordering(idx, j);
    MovedFirstIsReordering(idx, i);
    KeepsExactly(one, 0);
    var m := if j < i then j + 1 else j;
    assert two[m] == idx[j] && two[0] == idx[i];
    KeepsExactly(two, m);
  }

  ghost predicate Reordering(idx: seq<IndexEntry>, other: seq<IndexEntry>)
  {
    CleanIndex(other) && EntriesOf(other) == EntriesOf(idx)
  }

  ghost predicate IsRoot(root: Hash, idx: seq<IndexEntry>)
  {
    Canonical(root, Keep(idx), [])
  }

  // Otherwise, of the two orders that put either of them first, one gives a root
  // other than that of idx.
  lemma ClashChangesRoot(idx: seq<IndexEntry>, i: int, j: int) returns (other: seq<IndexEntry>, root: Hash, root': Hash)
    requires CleanIndex(idx) && 0 <= i < |idx| && 0 <= j < |idx| && idx[j].path < idx[i].path
    ensures Reordering(idx, other) && IsRoot(root, idx) && IsRoot(root', other) && root != root'
  {
    hide Canonical;
    ClashMakesOrderMatter(idx, i, j);
    MovedFirstIsReordering(idx, i);
    MovedFirstIsReordering(idx, j);
    hide CleanIndex, Keep, EntriesOf, MovedFirst;
    root := RootExists(idx);
    other := MovedFirst(idx, i);
    root' := RootExists(other);
    FlattenIsKept(root', other);
    if root == root' {
      other := MovedFirst(idx, j);
      root' := RootExists(other);
      FlattenIsKept(root', other);
    }
  }

  // So every order of the entries gives the same root exactly if no path is a
  // directory of another.
  lemma OrderMattersIff(idx: seq<IndexEntry>)
    requires CleanIndex(idx)
    ensures NoClash(idx) <==>
            forall other, root, root' :: Reordering(idx, other) && IsRoot(root, idx) && IsRoot(root', other) ==> root == root'
  {
    hide Canonical, CleanIndex, Keep, EntriesOf;
    if NoClash(idx) {
      forall other, root, root' | Reordering(idx, other) && IsRoot(root, idx) && IsRoot(root', other) ensures root == root' {
        OrderDoesNotMatter(idx, other, root, root');
      }
    } else {
      var i, j :| 0 <= i < |idx| && 0 <= j < |idx| && idx[j].path < idx[i].path;
      var other, root, root' := ClashChangesRoot(idx, i, j);
    }
  }

  lemma NoClashInAnyOrder(idx: seq<IndexEntry>, other: seq<IndexEntry>)
    requires NoClash(idx) && EntriesOf(other) == EntriesOf(idx)
    ensures NoClash(other)
  {
    forall i, j | 0 <= i < |other| && 0 <= j < |other| ensures !(other[j].path < other[i].path) {
      assert other[i] in EntriesOf(idx) && other[j] in EntriesOf(idx);
    }
  }
}
