// The LRU caches: a map to the elements of a list, with a budget.  BufferLRU and
// ObjectLRU are this class for slices and for encoded objects of fixed hash and
// size; the list stands for container/list.

module ObjectCache {
  import opened RecencyList
  import opened Wrappers

  class Element<V> {
    var value: Item<V>

    constructor (value: Item<V>)
      ensures this.value == value
    {
      this.value := value;
    }
  }

  function RemoveElement<V>(ll: seq<Element<V>>, e: Element<V>): seq<Element<V>>
  {
    if ll == [] then [] else if ll[0] == e then ll[1..] else [ll[0]] + RemoveElement(ll[1..], e)
  }

  lemma {:induction false} RemoveAt<V>(ll: seq<Element<V>>, i: int)
    requires 0 <= i < |ll| && forall j :: 0 <= j < i ==> ll[j] != ll[i]
    ensures RemoveElement(ll, ll[i]) == ll[..i] + ll[i + 1..]
  {
    if i > 0 {
      RemoveAt(ll[1..], i - 1);
      assert ll[..i] + ll[i + 1..] == [ll[0]] + (ll[1..][..i - 1] + ll[1..][i..]);
    }
  }

  // The elements show the list.
  ghost predicate Shows<V>(ll: seq<Element<V>>, list: seq<Item<V>>)
    reads ll
  {
    |ll| == |list| && forall i :: 0 <= i < |ll| ==> ll[i].value == list[i]
  }

  // The map leads to exactly the elements of the list, by their keys.
  ghost predicate Maps<V>(ll: seq<Element<V>>, list: seq<Item<V>>, cache: map<int, Element<V>>)
    requires |ll| == |list|
  {
    && DistinctKeys(list)
    && (forall i :: 0 <= i < |list| ==> list[i].key in cache && cache[list[i].key] == ll[i])
    && (forall k :: k in cache ==> HasKey(list, k))
  }

  lemma MapsDistinct<V>(ll: seq<Element<V>>, list: seq<Item<V>>, cache: map<int, Element<V>>)
    requires |ll| == |list| && Maps(ll, list, cache) && Shows(ll, list)
    ensures forall i, j :: 0 <= i < j < |ll| ==> ll[i] != ll[j]
  {
  }

  lemma DropLast<V>(ll: seq<Element<V>>, list: seq<Item<V>>, cache: map<int, Element<V>>)
    requires |ll| == |list| > 0 && Maps(ll, list, cache)
    ensures var n := |ll| - 1; Maps(ll[..n], list[..n], cache - {list[n].key})
  {
    var n := |ll| - 1;
    forall k | k in cache && k != list[n].key ensures HasKey(list[..n], k) {
      var i :| 0 <= i < |list| && list[i].key == k;
      assert list[..n][i].key == k;
    }
  }

  lemma AddFirst<V>(ll: seq<Element<V>>, list: seq<Item<V>>, cache: map<int, Element<V>>, e: Element<V>, item: Item<V>)
    requires |ll| == |list| && Maps(ll, list, cache) && item.key !in cache
    ensures !HasKey(list, item.key)
    ensures Maps([e] + ll, [item] + list, cache[item.key := e])
  {
    forall k | k in cache ensures HasKey([item] + list, k) {
      var i :| 0 <= i < |list| && list[i].key == k;
      assert ([item] + list)[i + 1].key == k;
    }
    assert ([item] + list)[0].key == item.key;
  }

  lemma MappedIff<V>(ll: seq<Element<V>>, list: seq<Item<V>>, cache: map<int, Element<V>>, key: int)
    requires |ll| == |list| && Maps(ll, list, cache)
    ensures key in cache <==> HasKey(list, key)
  {
  }

  // Element i moves to the front.
  ghost function Rotate<T>(s: seq<T>, i: int): (r: seq<T>)
    requires 0 <= i < |s|
    ensures |r| == |s| && r[0] == s[i]
    ensures forall m :: 0 < m <= i ==> r[m] == s[m - 1]
    ensures forall m :: i < m < |s| ==> r[m] == s[m]
  {
    [s[i]] + (s[..i] + s[i + 1..])
  }

  // It may change its value, but not its key.
  ghost function Updated<V>(list: seq<Item<V>>, i: int, item: Item<V>): seq<Item<V>>
    requires 0 <= i < |list|
  {
    Rotate(list, i)[0 := item]
  }

  lemma UpdatedIsPut<V>(list: seq<Item<V>>, i: int, item: Item<V>)
    requires DistinctKeys(list) && 0 <= i < |list| && item.key == list[i].key
    ensures Updated(list, i, item) == [item] + Without(list, item.key)
    ensures Total(Updated(list, i, item)) == Total(list) + item.size - list[i].size
  {
    WithoutAt(list, i);
    UpdateTotal(list, i, item);
  }

  lemma UpdatedKeys<V>(list: seq<Item<V>>, i: int, item: Item<V>, k: int)
    requires 0 <= i < |list| && item.key == list[i].key && HasKey(list, k)
    ensures HasKey(Updated(list, i, item), k)
  {
    var j :| 0 <= j < |list| && list[j].key == k;
    assert Updated(list, i, item)[if j == i then 0 else if j < i then j + 1 else j].key == k;
  }

  lemma UpdatedMaps<V>(ll: seq<Element<V>>, list: seq<Item<V>>, cache: map<int, Element<V>>, i: int, item: Item<V>)
    requires |ll| == |list| && Maps(ll, list, cache) && 0 <= i < |ll| && item.key == list[i].key
    ensures Maps(Rotate(ll, i), Updated(list, i, item), cache)
  {
    var list' := Updated(list, i, item);
    forall k | k in cache ensures HasKey(list', k) {
      UpdatedKeys(list, i, item, k);
    }
    forall m | 0 <= m < |list'|
      ensures list'[m].key == list[if m == 0 then i else if m <= i then m - 1 else m].key
    {
    }
  }

  class LRU<V> {
    const MaxSize: int
    var actualSize: int
    var ll: seq<Element<V>>
    var cache: map<int, Element<V>>
    ghost var list: seq<Item<V>>

    // The list, most recently used first, is what the elements show; its total is
    // known and within the budget.
    ghost predicate Valid()
      reads this, ll
    {
      && Shows(ll, list) && Maps(ll, list, cache)
      && actualSize == Total(list) && WithinBudget(list, MaxSize)
    }

    constructor (maxSize: int)
      ensures Valid() && list == [] && MaxSize == maxSize
    {
      MaxSize, actualSize, ll, cache, list := maxSize, 0, [], map[], [];
    }

    // Drops elements from the back until the budget is met.  The list cannot run
    // out first, so the test for an empty one in ObjectLRU never succeeds.
    method Evict()
      requires Shows(ll, list) && Maps(ll, list, cache) && actualSize == Total(list) && MaxSize >= 0
      modifies this
      ensures Valid() && list == Fitting(old(list), MaxSize)
      ensures ll <= old(ll)
    {
      hide Fitting, HasKey, Total, DistinctKeys;
      ghost var full := list;
      FittingIsLongest(full, MaxSize);
      while actualSize > MaxSize
        invariant ll <= old(ll) && list <= full && |Fitting(full, MaxSize)| <= |list|
        invariant Shows(ll, list) && Maps(ll, list, cache) && actualSize == Total(list)
        decreases |ll|
      {
        OverBudgetIsNotEmpty(list, MaxSize);
        if |ll| == 0 {
          assert false;
        }
        ghost var n := |list| - 1;
        var last := ll[|ll| - 1];
        var lastSize := last.value.size;
        DropLast(ll, list, cache);
        LastSize(list);
        FittingIsShorter(full, list, MaxSize);
        ll := ll[..|ll| - 1];
        cache := cache - {last.value.key};
        list := list[..n];
        actualSize := actualSize - lastSize;
      }
      FittingIsAll(full, list, MaxSize);
      FittingIsDistinct(full, MaxSize);
    }

    // Moves element i to the front and gives it a value of the same key.
    method MoveToFront(e: Element<V>, ghost i: int, item: Item<V>)
      requires Shows(ll, list) && Maps(ll, list, cache) && 0 <= i < |ll| && e == ll[i] && item.key == list[i].key
      modifies this`ll, this`list, e
      ensures Shows(ll, list) && Maps(ll, list, cache)
      ensures ll == Rotate(old(ll), i) && list == Updated(old(list), i, item)
      ensures forall x :: x in ll ==> x in old(ll)
    {
      MapsDistinct(ll, list, cache);
      RemoveAt(ll, i);
      UpdatedMaps(ll, list, cache, i, item);
      ll := [e] + RemoveElement(ll, e);
      e.value := item;
      list := Updated(list, i, item);
    }

    // An item whose key is known replaces the one there, which may overfill the cache.
    method Update(item: Item<V>)
      requires Valid() && item.key in cache
      modifies this, ll
      ensures Shows(ll, list) && Maps(ll, list, cache) && actualSize == Total(list) && MaxSize >= 0
      ensures list == [item] + Without(old(list), item.key)
      ensures forall e :: e in ll ==> e in old(ll)
    {
      hide Without, Total, DistinctKeys, Rotate, Updated;
      var ee := cache[item.key];
      ghost var i :| 0 <= i < |list| && list[i].key == item.key;
      var delta := item.size - ee.value.size;
      UpdatedIsPut(list, i, item);
      MoveToFront(ee, i, item);
      actualSize := actualSize + delta;
    }

    method Insert(item: Item<V>)
      requires Valid() && item.key !in cache
      modifies this
      ensures Shows(ll, list) && Maps(ll, list, cache) && actualSize == Total(list)
      ensures list == [item] + old(list)
      ensures forall e :: e in ll ==> e in old(ll) || fresh(e)
    {
      var ee := new Element(item);
      AddFirst(ll, list, cache, ee, item);
      ll := [ee] + ll;
      cache := cache[item.key := ee];
      list := [item] + list;
      actualSize := actualSize + item.size;
    }

    method Put(item: Item<V>)
      requires Valid()
      modifies this, ll
      ensures Valid() && list == RecencyList.Put(old(list), MaxSize, item)
      ensures forall e :: e in ll ==> e in old(ll) || fresh(e)
    {
      hide Fitting, Without;
      MappedIff(ll, list, cache, item.key);
      if item.key in cache {
        Update(item);
      } else {
        if item.size > MaxSize {
          return;
        }
        Insert(item);
      }
      Evict();
    }

    method Get(key: int) returns (value: Option<V>)
      requires Valid()
      modifies this`ll, this`list, ll
      ensures Valid() && list == Touch(old(list), key)
      ensures value == if HasKey(old(list), key) then Some(list[0].value) else None
    {
      if key !in cache {
        return None;
      }
      var ee := cache[key];
      ghost var i :| 0 <= i < |list| && list[i].key == key;
      TouchAt(list, i);
      TouchKeeps(list, key);
      UpdatedIsPut(list, i, list[i]);
      MoveToFront(ee, i, ee.value);
      return Some(ee.value.value);
    }

    method Clear()
      modifies this
      ensures Valid() && list == []
    {
      ll, cache, actualSize, list := [], map[], 0, [];
    }
  }

  lemma OverBudgetIsNotEmpty<V>(list: seq<Item<V>>, max: int)
    requires Total(list) > max >= 0
    ensures list != []
  {
  }

  lemma LastSize<V>(list: seq<Item<V>>)
    requires list != []
    ensures Total(list) == Total(list[..|list| - 1]) + list[|list| - 1].size
  {
    var n := |list| - 1;
    assert list == list[..n] + [list[n]];
    TotalConcat(list[..n], [list[n]]);
  }

  // A list over budget is longer than the prefix that fits.
  lemma FittingIsShorter<V>(full: seq<Item<V>>, list: seq<Item<V>>, max: int)
    requires list <= full && |Fitting(full, max)| <= |list| && Total(list) > max && list != []
    ensures |Fitting(full, max)| < |list|
  {
    FittingIsLongest(full, max);
    assert full[..|list|] == list;
  }

  // A list within budget is no longer than it.
  lemma FittingIsAll<V>(full: seq<Item<V>>, list: seq<Item<V>>, max: int)
    requires list <= full && |Fitting(full, max)| <= |list| && Total(list) <= max
    ensures list == Fitting(full, max)
  {
    FittingIsLongest(full, max);
    assert list == full[..|list|];
  }

  lemma FittingIsDistinct<V>(full: seq<Item<V>>, max: int)
    requires DistinctKeys(full)
    ensures WithinBudget(Fitting(full, max), max)
  {
    FittingIsLongest(full, max);
  }
}
