// The queue of the merge-base walk: a slice of marked commits kept as a binary
// heap, latest date first, in which a commit occurs at most once.  HeapPush and
// HeapPop, with the sifts Up and Down, are Go's container/heap over the slice.

module PriorityQueues {
  import opened History

  datatype Mark = Parent1 | Parent2 | Stale | Result

  // A bit set of marks.
  type Flags = set<Mark>

  class PrioritizedCommit {
    const value: Hash
    const priority: int
    var flags: Flags
    var index: int

    constructor (value: Hash, flags: Flags, priority: int)
      ensures this.value == value && this.flags == flags && this.priority == priority
    {
      this.value, this.flags, this.priority := value, flags, priority;
      this.index := 0;
    }
  }

  type Items = seq<PrioritizedCommit>

  // ---------- Heaps ----------

  // The integer division of the source truncates: the root is its own parent.
  function ParentIndex(j: nat): nat
  {
    if j == 0 then 0 else (j - 1) / 2
  }

  ghost predicate Ordered(items: Items, p: nat, c: nat)
  {
    p < |items| && c < |items| ==> items[p].priority >= items[c].priority
  }

  // Every item among the first n is no later than its parent.
  ghost predicate Heap(items: Items, n: nat)
  {
    forall c: nat :: 0 < c < n ==> Ordered(items, ParentIndex(c), c)
  }

  // A heap but for item j, which may be later than its parent.
  ghost predicate HeapAbove(items: Items, j: nat)
  {
    && (forall c: nat :: 0 < c < |items| && c != j ==> Ordered(items, ParentIndex(c), c))
    && (forall c: nat :: 0 < c < |items| && ParentIndex(c) == j && j > 0 ==> Ordered(items, ParentIndex(j), c))
  }

  // A heap of n items but for item i, which may be earlier than its children.
  ghost predicate HeapBelow(items: Items, n: nat, i: nat)
  {
    && (forall c: nat :: 0 < c < n && ParentIndex(c) != i ==> Ordered(items, ParentIndex(c), c))
    && (forall c: nat :: 0 < c < n && ParentIndex(c) == i && i > 0 ==> Ordered(items, ParentIndex(i), c))
  }

  ghost function Swapped(items: Items, i: nat, j: nat): Items
    requires i < |items| && j < |items|
  {
    items[i := items[j]][j := items[i]]
  }

  lemma SiftUp(items: Items, j: nat)
    requires j < |items| && j > 0 && HeapAbove(items, j)
    requires items[j].priority > items[ParentIndex(j)].priority
    ensures HeapAbove(Swapped(items, ParentIndex(j), j), ParentIndex(j))
  {
    var i := ParentIndex(j);
    var items' := Swapped(items, i, j);
    forall c: nat | 0 < c < |items| && c != i ensures Ordered(items', ParentIndex(c), c) {
      assert Ordered(items, ParentIndex(c), c) || c == j;
      assert i > 0 ==> Ordered(items, ParentIndex(i), i);
    }
    forall c: nat | 0 < c < |items| && ParentIndex(c) == i && i > 0 ensures Ordered(items', ParentIndex(i), c) {
      assert Ordered(items, ParentIndex(i), i);
      assert c != j ==> Ordered(items, i, c);
    }
  }

  lemma SiftDown(items: Items, n: nat, i: nat, j: nat)
    requires n <= |items| && i < n && 0 < j < n && ParentIndex(j) == i && HeapBelow(items, n, i)
    requires items[j].priority > items[i].priority
    requires forall c: nat :: 0 < c < n && ParentIndex(c) == i ==> Ordered(items, j, c)
    ensures HeapBelow(Swapped(items, i, j), n, j)
  {
    var items' := Swapped(items, i, j);
    forall c: nat | 0 < c < n && ParentIndex(c) != j ensures Ordered(items', ParentIndex(c), c) {
      assert ParentIndex(c) != i ==> Ordered(items, ParentIndex(c), c);
      assert i > 0 ==> Ordered(items, ParentIndex(i), j);
    }
    forall c: nat | 0 < c < n && ParentIndex(c) == j ensures Ordered(items', i, c) {
      assert Ordered(items, j, c);
    }
  }

  lemma {:induction false} RootIsLatest(items: Items, n: nat, c: nat)
    requires Heap(items, n) && c < n <= |items|
    ensures items[0].priority >= items[c].priority
  {
    if c > 0 {
      RootIsLatest(items, n, ParentIndex(c));
      assert Ordered(items, ParentIndex(c), c);
    }
  }

  lemma RootIsLatestOfAll(items: Items)
    requires items != [] && Heap(items, |items|)
    ensures forall it :: it in items ==> it.priority <= items[0].priority
  {
    forall it | it in items ensures it.priority <= items[0].priority {
      var k :| 0 <= k < |items| && items[k] == it;
      RootIsLatest(items, |items|, k);
    }
  }

  // With the last item moved to the root, only the root is out of place.
  lemma RootSwapped(items: Items)
    requires items != [] && Heap(items, |items|)
    ensures HeapBelow(Swapped(items, 0, |items| - 1), |items| - 1, 0)
  {
    var n := |items| - 1;
    forall c: nat | 0 < c < n && ParentIndex(c) != 0
      ensures Ordered(Swapped(items, 0, n), ParentIndex(c), c)
    {
      assert Ordered(items, ParentIndex(c), c);
    }
  }

  lemma HeapPrefix(items: Items, n: nat)
    requires n <= |items| && Heap(items, n)
    ensures Heap(items[..n], n)
  {
    forall c: nat | 0 < c < n ensures Ordered(items[..n], ParentIndex(c), c) {
      assert Ordered(items, ParentIndex(c), c);
    }
  }

  // ---------- The items as a set of marked commits ----------

  ghost predicate Distinct(items: Items)
  {
    forall i, j :: 0 <= i < j < |items| ==> items[i].value != items[j].value
  }

  ghost predicate Indexed(items: Items)
    reads items
  {
    forall i :: 0 <= i < |items| ==> items[i].index == i
  }

  ghost function Elements(items: Items): set<PrioritizedCommit>
  {
    set it | it in items
  }

  lemma SwapKeepsElements(items: Items, i: nat, j: nat)
    requires i < |items| && j < |items| && Distinct(items)
    ensures Elements(Swapped(items, i, j)) == Elements(items)
    ensures Distinct(Swapped(items, i, j))
  {
    var items' := Swapped(items, i, j);
    forall it | it in items ensures it in items' {
      var k :| 0 <= k < |items| && items[k] == it;
      assert items'[if k == i then j else if k == j then i else k] == it;
    }
  }

  lemma PrefixElements(items: Items)
    requires items != [] && Distinct(items)
    ensures Elements(items[..|items| - 1]) == Elements(items) - {items[|items| - 1]}
  {
  }

  ghost predicate Queued(items: Items, value: Hash)
  {
    exists i :: 0 <= i < |items| && items[i].value == value
  }

  // The marks of a queued item once the new item has been pushed.
  ghost function MarksAfter(flags: Flags, el: PrioritizedCommit, item: PrioritizedCommit): Flags
    reads item
  {
    if el.value == item.value then flags + item.flags else flags
  }

  class PriorityQueue {
    var items: Items

    // Heap order by date, one item per commit, and every item knows its place.
    ghost predicate Valid()
      reads this, items
    {
      Distinct(items) && Indexed(items) && Heap(items, |items|)
    }

    constructor ()
      ensures Valid() && items == []
    {
      items := [];
    }

    predicate Less(i: nat, j: nat)
      requires i < |items| && j < |items|
      reads this
    {
      items[i].priority > items[j].priority
    }

    method Swap(i: nat, j: nat)
      requires i < |items| && j < |items| && Distinct(items) && Indexed(items)
      modifies this, Elements(items)`index
      ensures items == Swapped(old(items), i, j) && Distinct(items) && Indexed(items)
      ensures Elements(items) == Elements(old(items))
    {
      SwapKeepsElements(items, i, j);
      items := items[i := items[j]][j := items[i]];
      items[i].index := i;
      items[j].index := j;
    }

    method Up(start: nat)
      requires start < |items| && Distinct(items) && Indexed(items) && HeapAbove(items, start)
      modifies this, Elements(items)`index
      ensures Valid() && Elements(items) == Elements(old(items))
      ensures old(items[start].priority <= items[0].priority) ==> items != [] && items[0] == old(items[0])
    {
      var j: nat := start;
      while true
        invariant j <= start < |items| == |old(items)| && Distinct(items) && Indexed(items) && HeapAbove(items, j)
        invariant items[j] == old(items[start])
        invariant j > 0 ==> items[0] == old(items[0])
        invariant j == 0 && j < start ==> old(items[start].priority > items[0].priority)
        invariant Elements(items) == Elements(old(items))
        decreases j
      {
        var i := ParentIndex(j);
        if i == j || !Less(j, i) {
          break;
        }
        SiftUp(items, j);
        Swap(i, j);
        j := i;
      }
    }

    // The child of i with the later date, the left one if they are equal.
    method LaterChild(i: nat, n: nat) returns (j: nat)
      requires n <= |items| && 2 * i + 1 < n
      ensures i < j < n && ParentIndex(j) == i
      ensures forall c: nat :: 0 < c < n && ParentIndex(c) == i ==> Ordered(items, j, c)
    {
      var j1 := 2 * i + 1;
      j := j1;
      var j2 := j1 + 1;
      if j2 < n && Less(j2, j1) {
        j := j2;
      }
    }

    // Sifts the root of the first n items down; the others stay where they are.
    method Down(n: nat)
      requires n < |items| && Distinct(items) && Indexed(items) && HeapBelow(items, n, 0)
      modifies this, Elements(items)`index
      ensures Distinct(items) && Indexed(items) && Heap(items, n)
      ensures Elements(items) == Elements(old(items)) && |items| == |old(items)| && items[n] == old(items[n])
    {
      var i: nat := 0;
      while 2 * i + 1 < n
        invariant |items| == |old(items)| && items[n] == old(items[n])
        invariant Distinct(items) && Indexed(items) && Elements(items) == Elements(old(items))
        invariant HeapBelow(items, n, i)
        decreases n - i
      {
        var j := LaterChild(i, n);
        if !Less(j, i) {
          break;
        }
        SiftDown(items, n, i, j);
        Swap(i, j);
        i := j;
      }
    }

    // A commit already queued only takes over the marks of the new item.
    method Push(item: PrioritizedCommit)
      requires Distinct(items) && Indexed(items) && item !in items
      modifies this, Elements(items)`flags, item`index
      ensures Distinct(items) && Indexed(items)
      ensures forall el :: el in old(items) ==> el.flags == MarksAfter(old(el.flags), el, item)
      ensures items == old(items) + if Queued(old(items), item.value) then [] else [item]
    {
      var n := |items|;
      var hasEl := false;
      for i := 0 to |items|
        invariant items == old(items) && n == |items| && Distinct(items) && Indexed(items)
        invariant !hasEl && forall k :: 0 <= k < i ==> items[k].value != item.value
        invariant forall el :: el in items ==> el.flags == old(el.flags)
        invariant item.flags == old(item.flags)
      {
        if items[i].value == item.value {
          items[i].flags := items[i].flags + item.flags;
          hasEl := true;
          break;
        }
      }
      if !hasEl {
        item.index := n;
        items := items + [item];
      }
    }

    method Pop() returns (item: PrioritizedCommit)
      requires items != [] && Distinct(items) && Indexed(items)
      modifies this, Elements(items)`index
      ensures item == old(items[|items| - 1]) && items == old(items[..|items| - 1])
      ensures Distinct(items) && Indexed(items) && item.index == -1
    {
      var n := |items|;
      item := items[n - 1];
      item.index := -1;
      items := items[..n - 1];
    }

    // An item no later than the first one does not take its place.
    method HeapPush(item: PrioritizedCommit)
      requires Valid() && item !in items
      modifies this, Elements(items)`flags, Elements(items)`index, item`index
      ensures Valid()
      ensures forall el :: el in old(items) ==> el.flags == MarksAfter(old(el.flags), el, item)
      ensures Elements(items) == Elements(old(items)) + if Queued(old(items), item.value) then {} else {item}
      ensures old(items) != [] && item.priority <= old(items[0]).priority ==> items != [] && items[0] == old(items[0])
    {
      if items != [] {
        RootIsLatestOfAll(items);
      }
      Push(item);
      Up(|items| - 1);
    }

    // Returns the first item, which is a latest.
    method HeapPop() returns (item: PrioritizedCommit)
      requires Valid() && items != []
      modifies this, Elements(items)`index
      ensures Valid() && item.index == -1
      ensures item == old(items[0]) && Elements(items) == Elements(old(items)) - {item}
      ensures forall el :: el in old(items) ==> el.priority <= item.priority
    {
      hide Heap, HeapBelow, Ordered;
      var n := |items| - 1;
      ghost var before := items;
      RootIsLatestOfAll(before);
      Swap(0, n);
      RootSwapped(before);
      Down(n);
      PrefixElements(items);
      HeapPrefix(items, n);
      item := Pop();
    }

    method Interesting() returns (r: bool)
      ensures r <==> exists el :: el in items && Stale !in el.flags
    {
      for i := 0 to |items|
        invariant forall k :: 0 <= k < i ==> Stale in items[k].flags
      {
        if Stale !in items[i].flags {
          return true;
        }
      }
      return false;
    }
  }
}
