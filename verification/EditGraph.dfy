// The edit graph of two files: points (x, y), where moving right deletes line x
// of the old file, moving down inserts line y of the new one, and moving
// diagonally keeps a line the two files share.  Everything the differ is
// measured against (reachability, longest common subsequence, edit distance) is
// defined here, without any reference to how the differ works.

module EditGraph {

  // One line of a file, with the number the reader gave it.
  datatype FileLine = FileLine(number: int, text: string)

  // Line i of a and line j of b exist and carry the same text.
  ghost predicate Matches(a: seq<FileLine>, b: seq<FileLine>, i: int, j: int)
  {
    0 <= i < |a| && 0 <= j < |b| && a[i].text == b[j].text
  }

  // (x, y) can be reached from the origin with exactly d horizontal or vertical
  // moves.  Those moves may leave the grid, as the search points of the differ
  // may; diagonal moves only exist inside it.
  ghost predicate Reach(a: seq<FileLine>, b: seq<FileLine>, d: int, x: int, y: int)
    decreases x + y
  {
    d >= 0 && x >= 0 && y >= 0 &&
    (|| (d == 0 && x == 0 && y == 0)
     || (x > 0 && Reach(a, b, d - 1, x - 1, y))
     || (y > 0 && Reach(a, b, d - 1, x, y - 1))
     || (Matches(a, b, x - 1, y - 1) && Reach(a, b, d, x - 1, y - 1)))
  }

  // Length of a longest common subsequence of the first x lines of a and the
  // first y lines of b.
  ghost function Lcs(a: seq<FileLine>, b: seq<FileLine>, x: nat, y: nat): nat
    requires x <= |a| && y <= |b|
    decreases x + y
  {
    if x == 0 || y == 0 then 0
    else if Matches(a, b, x - 1, y - 1) then 1 + Lcs(a, b, x - 1, y - 1)
    else Max(Lcs(a, b, x - 1, y), Lcs(a, b, x, y - 1))
  }

  ghost function Max(p: int, q: int): int
  {
    if p < q then q else p
  }

  ghost function Min(p: int, q: int): int
  {
    if p < q then p else q
  }

  // The least number of deletions plus insertions.
  ghost function Distance(a: seq<FileLine>, b: seq<FileLine>): int
  {
    |a| + |b| - 2 * Lcs(a, b, |a|, |b|)
  }

  // d moves change the diagonal by at most d, and by a number of d's parity.
  lemma {:induction false} ReachParity(a: seq<FileLine>, b: seq<FileLine>, d: int, x: int, y: int)
    requires Reach(a, b, d, x, y)
    ensures -d <= x - y <= d && (d + x - y) % 2 == 0
    decreases x + y
  {
    if d == 0 && x == 0 && y == 0 {
    } else if x > 0 && Reach(a, b, d - 1, x - 1, y) {
      ReachParity(a, b, d - 1, x - 1, y);
    } else if y > 0 && Reach(a, b, d - 1, x, y - 1) {
      ReachParity(a, b, d - 1, x, y - 1);
    } else {
      ReachParity(a, b, d, x - 1, y - 1);
    }
  }

  // Leaving the grid never pays: a point outside it is at least its overshoot
  // more expensive than the nearest grid point.
  lemma {:induction false} Clip(a: seq<FileLine>, b: seq<FileLine>, d: int, x: int, y: int)
    requires Reach(a, b, d, x, y)
    ensures var over := Max(0, x - |a|) + Max(0, y - |b|);
            Reach(a, b, d - over, Min(x, |a|), Min(y, |b|))
    decreases x + y
  {
    if d == 0 && x == 0 && y == 0 {
    } else if x > 0 && Reach(a, b, d - 1, x - 1, y) {
      Clip(a, b, d - 1, x - 1, y);
    } else if y > 0 && Reach(a, b, d - 1, x, y - 1) {
      Clip(a, b, d - 1, x, y - 1);
    } else {
      Clip(a, b, d, x - 1, y - 1);
    }
  }

  // Dropping the last line of either file costs at most one common line.
  lemma {:induction false} LcsStep(a: seq<FileLine>, b: seq<FileLine>, x: nat, y: nat)
    requires x <= |a| && y <= |b|
    ensures x > 0 ==> Lcs(a, b, x - 1, y) <= Lcs(a, b, x, y) <= Lcs(a, b, x - 1, y) + 1
    ensures y > 0 ==> Lcs(a, b, x, y - 1) <= Lcs(a, b, x, y) <= Lcs(a, b, x, y - 1) + 1
    decreases x + y
  {
    if x > 0 && y > 0 {
      LcsStep(a, b, x - 1, y);
      LcsStep(a, b, x, y - 1);
    }
  }

  lemma {:induction false} DistanceIsLowerBound(a: seq<FileLine>, b: seq<FileLine>, d: int, x: int, y: int)
    requires Reach(a, b, d, x, y) && x <= |a| && y <= |b|
    ensures d >= x + y - 2 * Lcs(a, b, x, y)
    decreases x + y
  {
    LcsStep(a, b, x, y);
    if d == 0 && x == 0 && y == 0 {
    } else if x > 0 && Reach(a, b, d - 1, x - 1, y) {
      DistanceIsLowerBound(a, b, d - 1, x - 1, y);
    } else if y > 0 && Reach(a, b, d - 1, x, y - 1) {
      DistanceIsLowerBound(a, b, d - 1, x, y - 1);
    } else {
      DistanceIsLowerBound(a, b, d, x - 1, y - 1);
    }
  }

  lemma {:induction false} DistanceIsReached(a: seq<FileLine>, b: seq<FileLine>, x: nat, y: nat)
    requires x <= |a| && y <= |b|
    ensures Reach(a, b, x + y - 2 * Lcs(a, b, x, y), x, y)
    decreases x + y
  {
    if x == 0 && y == 0 {
    } else if x == 0 {
      DistanceIsReached(a, b, x, y - 1);
    } else if y == 0 {
      DistanceIsReached(a, b, x - 1, y);
    } else if Matches(a, b, x - 1, y - 1) {
      DistanceIsReached(a, b, x - 1, y - 1);
    } else {
      DistanceIsReached(a, b, x - 1, y);
      DistanceIsReached(a, b, x, y - 1);
    }
  }

  // (n, m) is reached with Distance moves and with no fewer.
  lemma DistanceIsMinimal(a: seq<FileLine>, b: seq<FileLine>)
    ensures Reach(a, b, Distance(a, b), |a|, |b|)
    ensures forall d :: Reach(a, b, d, |a|, |b|) ==> Distance(a, b) <= d
    ensures 0 <= Distance(a, b) <= |a| + |b|
  {
    DistanceIsReached(a, b, |a|, |b|);
    forall d | Reach(a, b, d, |a|, |b|) ensures Distance(a, b) <= d {
      DistanceIsLowerBound(a, b, d, |a|, |b|);
    }
  }
}
