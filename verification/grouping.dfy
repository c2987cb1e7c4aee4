/** `Enumerable.GroupBy`: the distinct keys in order of first appearance, each with the items
    that have it, in their original order. */
module Grouping {

  datatype Group<K, T> = Group(key: K, items: seq<T>)

  /** The items with key `k`, in order. */
  function Filter<T, K(==)>(items: seq<T>, key: T -> K, k: K): (r: seq<T>)
    ensures |r| <= |items|
    ensures forall i :: 0 <= i < |r| ==> key(r[i]) == k
    decreases |items|
  {
    if |items| == 0 then []
    else
      var last := items[|items| - 1];
      Filter(items[..|items| - 1], key, k) + (if key(last) == k then [last] else [])
  }

  /** The keys of `items`, each once, in order of first appearance. */
  function Keys<T, K(==)>(items: seq<T>, key: T -> K): (r: seq<K>)
    ensures forall i, j :: 0 <= i < j < |r| ==> r[i] != r[j]
    ensures forall i :: 0 <= i < |items| ==> key(items[i]) in r
    ensures forall x :: x in r ==> exists i :: 0 <= i < |items| && key(items[i]) == x
    decreases |items|
  {
    if |items| == 0 then []
    else
      var init := items[..|items| - 1];
      var ks := Keys(init, key);
      var last := key(items[|items| - 1]);
      assert forall i :: 0 <= i < |init| ==> items[i] == init[i];
      if last in ks then ks else ks + [last]
  }

  function GroupBy<T, K(==)>(items: seq<T>, key: T -> K): (r: seq<Group<K, T>>)
    ensures |r| == |Keys(items, key)|
    ensures forall i :: 0 <= i < |r| ==> r[i] == Group(Keys(items, key)[i], Filter(items, key, Keys(items, key)[i]))
  {
    var ks := Keys(items, key);
    seq(|ks|, i requires 0 <= i < |ks| => Group(ks[i], Filter(items, key, ks[i])))
  }

  /** Total size of the groups for the keys `ks`. */
  function TotalSize<T, K(==)>(items: seq<T>, key: T -> K, ks: seq<K>): nat
    decreases |ks|
  {
    if |ks| == 0 then 0 else TotalSize(items, key, ks[..|ks| - 1]) + |Filter(items, key, ks[|ks| - 1])|
  }

  lemma FilterSnoc<T, K>(items: seq<T>, key: T -> K, k: K, x: T)
    ensures Filter(items + [x], key, k) == Filter(items, key, k) + (if key(x) == k then [x] else [])
  {
    assert (items + [x])[..|items|] == items;
  }

  /** A key that no item has selects nothing. */
  lemma {:induction false} FilterAbsent<T, K>(items: seq<T>, key: T -> K, k: K)
    requires forall i :: 0 <= i < |items| ==> key(items[i]) != k
    ensures Filter(items, key, k) == []
    decreases |items|
  {
    if |items| > 0 {
      FilterAbsent(items[..|items| - 1], key, k);
    }
  }

  /** A group is never empty: a key is listed exactly when some item has it. */
  lemma {:induction false} FilterNonEmptyIffKey<T, K>(items: seq<T>, key: T -> K, k: K)
    ensures |Filter(items, key, k)| > 0 <==> k in Keys(items, key)
    decreases |items|
  {
    if |items| > 0 {
      var init := items[..|items| - 1];
      FilterNonEmptyIffKey(init, key, k);
      if k !in Keys(items, key) {
        FilterAbsent(items, key, k);
      }
    }
  }

  /** One more item adds one to the groups of the keys that contain its key once. */
  lemma {:induction false} TotalSizeSnoc<T, K>(items: seq<T>, key: T -> K, ks: seq<K>, x: T)
    requires forall i, j :: 0 <= i < j < |ks| ==> ks[i] != ks[j]
    ensures TotalSize(items + [x], key, ks) == TotalSize(items, key, ks) + (if key(x) in ks then 1 else 0)
    decreases |ks|
  {
    if |ks| > 0 {
      var init := ks[..|ks| - 1];
      TotalSizeSnoc(items, key, init, x);
      FilterSnoc(items, key, ks[|ks| - 1], x);
      assert key(x) in ks <==> key(x) in init || key(x) == ks[|ks| - 1];
      assert key(x) == ks[|ks| - 1] ==> key(x) !in init;
    }
  }

  /** The groups partition the items: their sizes add up to the number of items. */
  lemma {:induction false} GroupSizesAddUp<T, K>(items: seq<T>, key: T -> K)
    ensures TotalSize(items, key, Keys(items, key)) == |items|
    decreases |items|
  {
    if |items| > 0 {
      var init, x := items[..|items| - 1], items[|items| - 1];
      assert items == init + [x];
      var ks := Keys(init, key);
      GroupSizesAddUp(init, key);
      TotalSizeSnoc(init, key, ks, x);
      if key(x) !in ks {
        NewKeyGroup(init, key, x);
      }
    }
  }

  /** An item with a new key opens a group of its own, of size one. */
  lemma NewKeyGroup<T, K>(init: seq<T>, key: T -> K, x: T)
    requires key(x) !in Keys(init, key)
    ensures Keys(init + [x], key) == Keys(init, key) + [key(x)]
    ensures TotalSize(init + [x], key, Keys(init + [x], key))
            == TotalSize(init + [x], key, Keys(init, key)) + 1
  {
    var ks := Keys(init, key);
    assert (init + [x])[..|init|] == init;
    FilterAbsent(init, key, key(x));
    FilterSnoc(init, key, key(x), x);
    assert (ks + [key(x)])[..|ks|] == ks;
  }

  /** Every item sits in the group of its own key. */
  lemma {:induction false} ItemInOwnGroup<T, K>(items: seq<T>, key: T -> K, i: nat)
    requires i < |items|
    ensures items[i] in Filter(items, key, key(items[i]))
    decreases |items|
  {
    if i < |items| - 1 {
      var init := items[..|items| - 1];
      ItemInOwnGroup(init, key, i);
    }
  }

  /** Some item before position `b` has key `k`. */
  ghost predicate OccursBefore<T, K>(items: seq<T>, key: T -> K, k: K, b: int) {
    exists a :: 0 <= a < b && a < |items| && key(items[a]) == k
  }

  /** The groups come in order of first appearance: wherever a later group's key occurs, every
      earlier group's key has already occurred before it. */
  ghost predicate FirstAppearanceOrder<T, K>(items: seq<T>, key: T -> K) {
    var ks := Keys(items, key);
    forall i, j, b :: 0 <= i < j < |ks| && 0 <= b < |items| && key(items[b]) == ks[j] ==>
      OccursBefore(items, key, ks[i], b)
  }

  /** `GroupBy` orders its groups by the first appearance of their keys. */
  lemma {:induction false} KeysInFirstAppearanceOrder<T, K>(items: seq<T>, key: T -> K)
    ensures FirstAppearanceOrder(items, key)
    decreases |items|
  {
    if |items| > 0 {
      var ks := Keys(items, key);
      KeysInFirstAppearanceOrder(items[..|items| - 1], key);
      forall i, j, b | 0 <= i < j < |ks| && 0 <= b < |items| && key(items[b]) == ks[j]
        ensures OccursBefore(items, key, ks[i], b)
      {
        FirstAppearanceStep(items, key, i, j, b);
      }
    }
  }

  /** One pair of groups, one occurrence: the order of the items before the last carries over. */
  lemma FirstAppearanceStep<T, K>(items: seq<T>, key: T -> K, i: nat, j: nat, b: nat)
    requires |items| > 0 && FirstAppearanceOrder(items[..|items| - 1], key)
    requires i < j < |Keys(items, key)| && b < |items| && key(items[b]) == Keys(items, key)[j]
    ensures OccursBefore(items, key, Keys(items, key)[i], b)
  {
    if b < |items| - 1 {
      EarlierOccurrence(items, key, i, j, b);
    } else {
      LastOccurrence(items, key, i, j);
    }
  }

  /** An occurrence before the last item: the order already holds among the earlier items. */
  lemma EarlierOccurrence<T, K>(items: seq<T>, key: T -> K, i: nat, j: nat, b: nat)
    requires |items| > 0 && FirstAppearanceOrder(items[..|items| - 1], key)
    requires i < j < |Keys(items, key)| && b < |items| - 1 && key(items[b]) == Keys(items, key)[j]
    ensures OccursBefore(items, key, Keys(items, key)[i], b)
  {
    var init := items[..|items| - 1];
    var ks, ki := Keys(items, key), Keys(init, key);
    assert init[b] == items[b];
    assert key(init[b]) in ki;
    assert j < |ki| && ks[j] == ki[j] && ks[i] == ki[i];
    assert OccursBefore(init, key, ki[i], b);
    var a :| 0 <= a < b && a < |init| && key(init[a]) == ki[i];
    assert items[a] == init[a];
  }

  /** An occurrence at the last item: every earlier group's key occurs among the earlier items. */
  lemma LastOccurrence<T, K>(items: seq<T>, key: T -> K, i: nat, j: nat)
    requires |items| > 0
    requires i < j < |Keys(items, key)| && key(items[|items| - 1]) == Keys(items, key)[j]
    ensures OccursBefore(items, key, Keys(items, key)[i], |items| - 1)
  {
    var init := items[..|items| - 1];
    var ks, ki := Keys(items, key), Keys(init, key);
    assert i < |ki| && ks[i] == ki[i];
    assert ki[i] in ki;
    var a :| 0 <= a < |init| && key(init[a]) == ki[i];
    assert items[a] == init[a];
  }
}
