// What the object caches compute: a list of items, most recently used first, of
// which only the longest prefix that fits the budget is kept.

module RecencyList {

  datatype Item<V> = Item(key: int, size: nat, value: V)

  ghost function Total<V>(list: seq<Item<V>>): nat
  {
    if list == [] then 0 else list[0].size + Total(list[1..])
  }

  ghost predicate DistinctKeys<V>(list: seq<Item<V>>)
  {
    forall i, j :: 0 <= i < j < |list| ==> list[i].key != list[j].key
  }

  ghost predicate HasKey<V>(list: seq<Item<V>>, key: int)
  {
    exists i :: 0 <= i < |list| && list[i].key == key
  }

  ghost function Without<V>(list: seq<Item<V>>, key: int): seq<Item<V>>
  {
    if list == [] then []
    else (if list[0].key == key then [] else [list[0]]) + Without(list[1..], key)
  }

  // The longest prefix within the budget.
  ghost function Fitting<V>(list: seq<Item<V>>, max: int): seq<Item<V>>
  {
    if list == [] || list[0].size > max then [] else [list[0]] + Fitting(list[1..], max - list[0].size)
  }

  // An item that is new and alone too big is refused; an update never is.
  ghost function Put<V>(list: seq<Item<V>>, max: int, item: Item<V>): seq<Item<V>>
  {
    if HasKey(list, item.key) then Fitting([item] + Without(list, item.key), max)
    else if item.size > max then list
    else Fitting([item] + list, max)
  }

  ghost function Touch<V>(list: seq<Item<V>>, key: int): seq<Item<V>>
  {
    if i :| 0 <= i < |list| && list[i].key == key then [list[i]] + Without(list, key) else list
  }

  // Fitting keeps a prefix that fits, and no longer prefix does.
  lemma {:induction false} FittingIsLongest<V>(list: seq<Item<V>>, max: int)
    ensures Fitting(list, max) <= list
    ensures Fitting(list, max) == [] || Total(Fitting(list, max)) <= max
    ensures forall n :: |Fitting(list, max)| < n <= |list| ==> Total(list[..n]) > max
  {
    if list != [] {
      TotalGrows(list, 1);
      if list[0].size > max {
        forall n | 0 < n <= |list| ensures Total(list[..n]) > max {
          TotalGrows(list, n);
        }
      } else {
        var rest := max - list[0].size;
        FittingIsLongest(list[1..], rest);
        assert ([list[0]] + Fitting(list[1..], rest))[1..] == Fitting(list[1..], rest);
        forall n | |Fitting(list, max)| < n <= |list| ensures Total(list[..n]) > max {
          assert list[..n][1..] == list[1..][..n - 1];
        }
      }
    }
  }

  lemma TotalGrows<V>(list: seq<Item<V>>, n: nat)
    requires 0 < n <= |list|
    ensures Total(list[..n]) >= list[0].size
  {
  }

  lemma {:induction false} TotalConcat<V>(one: seq<Item<V>>, two: seq<Item<V>>)
    ensures Total(one + two) == Total(one) + Total(two)
  {
    if one == [] {
      assert one + two == two;
    } else {
      TotalConcat(one[1..], two);
      assert (one + two)[1..] == one[1..] + two;
    }
  }

  lemma {:induction false} WithoutMembers<V>(list: seq<Item<V>>, key: int)
    ensures forall it :: it in Without(list, key) <==> it in list && it.key != key
  {
    if list != [] {
      WithoutMembers(list[1..], key);
      assert list == [list[0]] + list[1..];
    }
  }

  lemma HasKeyTail<V>(list: seq<Item<V>>, k: int)
    requires list != []
    ensures HasKey(list, k) <==> list[0].key == k || HasKey(list[1..], k)
  {
    if HasKey(list[1..], k) {
      var i :| 0 <= i < |list[1..]| && list[1..][i].key == k;
      assert list[i + 1].key == k;
    }
    if i :| 0 < i < |list| && list[i].key == k {
      assert list[1..][i - 1].key == k;
    }
  }

  lemma {:induction false} WithoutKeys<V>(list: seq<Item<V>>, key: int)
    ensures forall k :: HasKey(Without(list, key), k) <==> HasKey(list, k) && k != key
    ensures DistinctKeys(list) ==> DistinctKeys(Without(list, key))
  {
    if list != [] {
      var rest := Without(list[1..], key);
      WithoutKeys(list[1..], key);
      assert Without(list, key) == if list[0].key == key then rest else [list[0]] + rest;
      forall k ensures HasKey(Without(list, key), k) <==> HasKey(list, k) && k != key {
        HasKeyTail(list, k);
        HasKeyTail([list[0]] + rest, k);
        assert ([list[0]] + rest)[1..] == rest;
      }
      assert DistinctKeys(list) ==> !HasKey(list[1..], list[0].key);
    }
  }

  // Removing the one item of a key.
  lemma {:induction false} WithoutAt<V>(list: seq<Item<V>>, i: int)
    requires DistinctKeys(list) && 0 <= i < |list|
    ensures Without(list, list[i].key) == list[..i] + list[i + 1..]
  {
    var key := list[i].key;
    if i == 0 {
      WithoutNothing(list[1..], key);
    } else {
      WithoutAt(list[1..], i - 1);
      assert list[..i] + list[i + 1..] == [list[0]] + (list[1..][..i - 1] + list[1..][i..]);
    }
  }

  lemma {:induction false} WithoutNothing<V>(list: seq<Item<V>>, key: int)
    requires !HasKey(list, key)
    ensures Without(list, key) == list
  {
    if list != [] {
      assert forall i :: 0 <= i < |list[1..]| ==> list[1..][i] == list[i + 1];
      WithoutNothing(list[1..], key);
    }
  }

  lemma {:induction false} TotalWithout<V>(list: seq<Item<V>>, i: int)
    requires 0 <= i < |list|
    ensures Total(list[..i] + list[i + 1..]) == Total(list) - list[i].size
  {
    if i == 0 {
      assert list[..0] + list[1..] == list[1..];
    } else {
      TotalWithout(list[1..], i - 1);
      assert (list[..i] + list[i + 1..])[1..] == list[1..][..i - 1] + list[1..][i..];
    }
  }

  lemma TotalCons<V>(item: Item<V>, list: seq<Item<V>>)
    ensures Total([item] + list) == item.size + Total(list)
  {
    assert ([item] + list)[1..] == list;
  }

  // Updating an item moves it to the front and changes the total by the difference.
  lemma UpdateTotal<V>(list: seq<Item<V>>, i: int, item: Item<V>)
    requires DistinctKeys(list) && 0 <= i < |list| && list[i].key == item.key
    ensures Total([item] + Without(list, item.key)) == Total(list) + item.size - list[i].size
  {
    hide Total, Without, DistinctKeys;
    WithoutAt(list, i);
    TotalWithout(list, i);
    TotalCons(item, Without(list, item.key));
  }

  lemma TouchAt<V>(list: seq<Item<V>>, i: int)
    requires DistinctKeys(list) && 0 <= i < |list|
    ensures Touch(list, list[i].key) == [list[i]] + Without(list, list[i].key)
  {
  }

  // ---------- What the operations leave ----------

  // r is the longest prefix of full that fits.
  ghost predicate LongestFit<V>(r: seq<Item<V>>, full: seq<Item<V>>, max: int)
  {
    && r <= full && (r == [] || Total(r) <= max)
    && forall n :: |r| < n <= |full| ==> Total(full[..n]) > max
  }

  // A Put that is refused changes nothing; one that is accepted leaves the new item
  // followed by the others in their order, as far as they fit.
  lemma PutLeaves<V>(list: seq<Item<V>>, max: int, item: Item<V>)
    requires DistinctKeys(list)
    ensures forall i :: 0 <= i < |list| && list[i].key == item.key ==>
                          LongestFit(Put(list, max, item), [item] + (list[..i] + list[i + 1..]), max)
    ensures !HasKey(list, item.key) && item.size <= max ==> LongestFit(Put(list, max, item), [item] + list, max)
    ensures !HasKey(list, item.key) && item.size > max ==> Put(list, max, item) == list
  {
    hide Fitting, Without, Total;
    forall i | 0 <= i < |list| && list[i].key == item.key
      ensures LongestFit(Put(list, max, item), [item] + (list[..i] + list[i + 1..]), max)
    {
      WithoutAt(list, i);
      FittingIsLongest([item] + (list[..i] + list[i + 1..]), max);
    }
    FittingIsLongest([item] + list, max);
  }

  // A Get moves the item it finds to the front and keeps the others in their order.
  lemma TouchLeaves<V>(list: seq<Item<V>>, key: int)
    requires DistinctKeys(list)
    ensures forall i :: 0 <= i < |list| && list[i].key == key ==> Touch(list, key) == [list[i]] + (list[..i] + list[i + 1..])
    ensures !HasKey(list, key) ==> Touch(list, key) == list
  {
    forall i | 0 <= i < |list| && list[i].key == key ensures Touch(list, key) == [list[i]] + (list[..i] + list[i + 1..]) {
      TouchAt(list, i);
      WithoutAt(list, i);
    }
  }

  // ---------- Runs ----------

  datatype Operation<V> = OpPut(item: Item<V>) | OpGet(key: int) | OpClear

  ghost function Run<V>(ops: seq<Operation<V>>, max: int): seq<Item<V>>
  {
    if ops == [] then []
    else
      var list, op := Run(ops[..|ops| - 1], max), ops[|ops| - 1];
      match op
      case OpPut(item) => Put(list, max, item)
      case OpGet(key) => Touch(list, key)
      case OpClear => []
  }

  // item is what the last Put of its key put, and nothing was cleared since.
  ghost predicate LastPut<V>(ops: seq<Operation<V>>, item: Item<V>)
  {
    exists i :: 0 <= i < |ops| && IsLastPut(ops, item, i)
  }

  ghost predicate IsLastPut<V>(ops: seq<Operation<V>>, item: Item<V>, i: int)
    requires 0 <= i < |ops|
  {
    && ops[i] == OpPut(item)
    && forall j :: i < j < |ops| ==> !ops[j].OpClear? && !(ops[j].OpPut? && ops[j].item.key == item.key)
  }

  ghost predicate WithinBudget<V>(list: seq<Item<V>>, max: int)
  {
    DistinctKeys(list) && (list == [] || Total(list) <= max)
  }

  lemma PutKeepsBudget<V>(list: seq<Item<V>>, max: int, item: Item<V>)
    requires WithinBudget(list, max)
    ensures WithinBudget(Put(list, max, item), max)
  {
    if HasKey(list, item.key) {
      WithoutKeys(list, item.key);
      PrependDistinct(item, Without(list, item.key));
      FittingIsLongest([item] + Without(list, item.key), max);
    } else if item.size <= max {
      PrependDistinct(item, list);
      FittingIsLongest([item] + list, max);
    }
  }

  lemma PrependDistinct<V>(item: Item<V>, list: seq<Item<V>>)
    requires DistinctKeys(list) && !HasKey(list, item.key)
    ensures DistinctKeys([item] + list)
  {
  }

  // Touching an item moves it to the front and changes nothing else.
  lemma TouchKeeps<V>(list: seq<Item<V>>, key: int)
    requires DistinctKeys(list)
    ensures DistinctKeys(Touch(list, key)) && Total(Touch(list, key)) == Total(list)
    ensures forall it :: it in Touch(list, key) <==> it in list
    ensures |Touch(list, key)| == |list|
  {
    if i :| 0 <= i < |list| && list[i].key == key && Touch(list, key) == [list[i]] + Without(list, key) {
      WithoutAt(list, i);
      WithoutMembers(list, key);
      WithoutKeys(list, key);
      PrependDistinct(list[i], Without(list, key));
      UpdateTotal(list, i, list[i]);
    }
  }

  // Over every run: keys stay distinct, the budget is kept, and what the cache
  // has for a key is what the last Put of that key put, since the last Clear.
  lemma {:induction false} RunsAreCoherent<V>(ops: seq<Operation<V>>, max: int)
    ensures WithinBudget(Run(ops, max), max)
    ensures forall it :: it in Run(ops, max) ==> LastPut(ops, it)
  {
    if ops != [] {
      var n := |ops| - 1;
      var before, list, op := ops[..n], Run(ops[..n], max), ops[n];
      RunsAreCoherent(before, max);
      if op.OpPut? {
        PutKeepsBudget(list, max, op.item);
      } else if op.OpGet? {
        TouchKeeps(list, op.key);
      }
      forall it | it in Run(ops, max) ensures LastPut(ops, it) {
        if op == OpPut(it) {
          assert IsLastPut(ops, it, n);
        } else {
          OldItemsStay(list, max, op, it);
          var i :| 0 <= i < |before| && IsLastPut(before, it, i);
          assert IsLastPut(ops, it, i);
        }
      }
    }
  }

  // An item that is there after an operation that did not put it was there
  // before, and the operation did not concern its key or clear the cache.
  lemma OldItemsStay<V>(list: seq<Item<V>>, max: int, op: Operation<V>, it: Item<V>)
    requires WithinBudget(list, max) && op != OpPut(it) && !op.OpClear?
    requires op.OpPut? ==> it in Put(list, max, op.item)
    requires op.OpGet? ==> it in Touch(list, op.key)
    ensures it in list && (op.OpPut? ==> op.item.key != it.key)
  {
    if op.OpGet? {
      TouchKeeps(list, op.key);
    } else {
      var key := op.item.key;
      FittingIsLongest([op.item] + Without(list, key), max);
      FittingIsLongest([op.item] + list, max);
      WithoutMembers(list, key);
      if !HasKey(list, key) && it in list {
        var k :| 0 <= k < |list| && list[k] == it;
      }
    }
  }

  ghost predicate Uses<V>(op: Operation<V>, key: int)
  {
    (op.OpPut? && op.item.key == key) || (op.OpGet? && op.key == key)
  }

  // The last use of one key came after every use of another.
  ghost predicate UsedAfter<V>(ops: seq<Operation<V>>, key: int, other: int)
  {
    exists m :: 0 <= m < |ops| && LastUsedFrom(ops, key, other, m)
  }

  ghost predicate LastUsedFrom<V>(ops: seq<Operation<V>>, key: int, other: int, m: int)
    requires 0 <= m < |ops|
  {
    Uses(ops[m], key) && forall n :: m <= n < |ops| ==> !Uses(ops[n], other)
  }

  ghost predicate InUseOrder<V>(ops: seq<Operation<V>>, list: seq<Item<V>>)
  {
    forall i, j :: 0 <= i < j < |list| ==> UsedAfter(ops, list[i].key, list[j].key)
  }

  // An operation that does not use the second of two keys keeps their order.
  lemma UsedAfterNext<V>(ops: seq<Operation<V>>, key: int, other: int)
    requires ops != [] && !Uses(ops[|ops| - 1], other)
    requires Uses(ops[|ops| - 1], key) || UsedAfter(ops[..|ops| - 1], key, other)
    ensures UsedAfter(ops, key, other)
  {
    var n := |ops| - 1;
    if Uses(ops[n], key) {
      assert LastUsedFrom(ops, key, other, n);
    } else {
      var m :| 0 <= m < n && LastUsedFrom(ops[..n], key, other, m);
      assert LastUsedFrom(ops, key, other, m);
    }
  }

  // A list that starts with the key just used and goes on in the old order.
  lemma FrontIsInUseOrder<V>(ops: seq<Operation<V>>, item: Item<V>, rest: seq<Item<V>>, r: seq<Item<V>>)
    requires ops != [] && Uses(ops[|ops| - 1], item.key) && r <= [item] + rest
    requires InUseOrder(ops[..|ops| - 1], rest) && !HasKey(rest, item.key)
    ensures InUseOrder(ops, r)
  {
    forall i, j | 0 <= i < j < |r| ensures UsedAfter(ops, r[i].key, r[j].key) {
      assert r[j] == rest[j - 1] && (i > 0 ==> r[i] == rest[i - 1]);
      UsedAfterNext(ops, r[i].key, r[j].key);
    }
  }

  lemma WithoutOneIsInUseOrder<V>(ops: seq<Operation<V>>, list: seq<Item<V>>, i: int)
    requires InUseOrder(ops, list) && DistinctKeys(list) && 0 <= i < |list|
    ensures InUseOrder(ops, list[..i] + list[i + 1..]) && !HasKey(list[..i] + list[i + 1..], list[i].key)
  {
    var rest := list[..i] + list[i + 1..];
    forall m | 0 <= m < |rest| ensures rest[m] == list[if m < i then m else m + 1] {
    }
  }

  lemma UnusedIsInUseOrder<V>(ops: seq<Operation<V>>, list: seq<Item<V>>)
    requires ops != [] && InUseOrder(ops[..|ops| - 1], list)
    requires forall i :: 0 <= i < |list| ==> !Uses(ops[|ops| - 1], list[i].key)
    ensures InUseOrder(ops, list)
  {
    forall i, j | 0 <= i < j < |list| ensures UsedAfter(ops, list[i].key, list[j].key) {
      UsedAfterNext(ops, list[i].key, list[j].key);
    }
  }

  // Over every run the list is in the order of last use, latest first, so what does
  // not fit is what was used least recently.
  lemma {:induction false} RunsAreInUseOrder<V>(ops: seq<Operation<V>>, max: int)
    ensures InUseOrder(ops, Run(ops, max))
  {
    if ops != [] {
      var before, op := ops[..|ops| - 1], ops[|ops| - 1];
      var list := Run(before, max);
      RunsAreInUseOrder(before, max);
      RunsAreCoherent(before, max);
      if !op.OpClear? {
        UseKeepsOrder(ops, max, list);
      }
    }
  }

  lemma UseKeepsOrder<V>(ops: seq<Operation<V>>, max: int, list: seq<Item<V>>)
    requires ops != [] && InUseOrder(ops[..|ops| - 1], list) && DistinctKeys(list)
    ensures var op := ops[|ops| - 1];
            && (op.OpPut? ==> InUseOrder(ops, Put(list, max, op.item)))
            && (op.OpGet? ==> InUseOrder(ops, Touch(list, op.key)))
  {
    hide Put, Touch, InUseOrder, Total;
    var op := ops[|ops| - 1];
    if op.OpClear? {
      return;
    }
    var key := if op.OpPut? then op.item.key else op.key;
    if op.OpPut? {
      PutLeaves(list, max, op.item);
    } else {
      TouchLeaves(list, key);
    }
    if i :| 0 <= i < |list| && list[i].key == key {
      var rest := list[..i] + list[i + 1..];
      WithoutOneIsInUseOrder(ops[..|ops| - 1], list, i);
      FrontIsInUseOrder(ops, if op.OpPut? then op.item else list[i], rest, if op.OpPut? then Put(list, max, op.item) else Touch(list, key));
    } else {
      UnusedIsInUseOrder(ops, list);
      if op.OpPut? && op.item.size <= max {
        FrontIsInUseOrder(ops, op.item, list, Put(list, max, op.item));
      }
    }
  }
}
