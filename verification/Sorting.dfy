/** The merge sort of cJSON_Utils.c as a function on sequences, and what it guarantees. */
module Sorting {
  import opened Prelude

  /** True if the key of `x` comes strictly before that of `y`. */
  predicate Before<T>(key: T -> Str, cased: bool, x: T, y: T) {
    Order(cased, key(x), key(y)) < 0
  }

  /** True if every item comes strictly before the next. */
  predicate Ascending<T>(key: T -> Str, cased: bool, items: seq<T>) {
    forall i | 0 <= i < |items| - 1 :: Before(key, cased, items[i], items[i + 1])
  }

  /** Merging takes from the second list unless the first one's item comes strictly before. */
  function Merge<T>(key: T -> Str, cased: bool, first: seq<T>, second: seq<T>): (merged: seq<T>)
    ensures |merged| == |first| + |second|
    decreases |first| + |second|
  {
    if first == [] then second
    else if second == [] then first
    else if Before(key, cased, first[0], second[0]) then
      [first[0]] + Merge(key, cased, first[1..], second)
    else
      [second[0]] + Merge(key, cased, first, second[1..])
  }

  /** Where a list is split: behind the longer half. */
  function Half(n: nat): (m: nat)
    ensures n >= 2 ==> 0 < m < n
  {
    (n + 1) / 2
  }

  /** `sort_list`: ascending lists are left alone, others split, sorted and merged. */
  function Sort<T>(key: T -> Str, cased: bool, items: seq<T>): (sorted: seq<T>)
    ensures |sorted| == |items|
    decreases |items|
  {
    if |items| <= 1 || Ascending(key, cased, items) then items
    else
      var m := Half(|items|);
      Merge(key, cased, Sort(key, cased, items[..m]), Sort(key, cased, items[m..]))
  }

  /** Non-decreasing key order. */
  ghost predicate Sorted<T>(key: T -> Str, cased: bool, items: seq<T>) {
    forall i, j | 0 <= i <= j < |items| :: Order(cased, key(items[i]), key(items[j])) <= 0
  }

  lemma MultisetCons<T>(items: seq<T>)
    requires items != []
    ensures multiset(items) == multiset{items[0]} + multiset(items[1..])
  {
    assert items == [items[0]] + items[1..];
  }

  lemma {:induction false} MergePermutes<T>(key: T -> Str, cased: bool, first: seq<T>,
      second: seq<T>)
    ensures multiset(Merge(key, cased, first, second)) == multiset(first) + multiset(second)
    decreases |first| + |second|
  {
    hide Before;
    var merged := Merge(key, cased, first, second);
    if first == [] {
    } else if second == [] {
    } else if Before(key, cased, first[0], second[0]) {
      var rest := Merge(key, cased, first[1..], second);
      assert merged[0] == first[0] && merged[1..] == rest;
      hide Merge;
      MergePermutes(key, cased, first[1..], second);
      MultisetCons(first);
      MultisetCons(merged);
    } else {
      var rest := Merge(key, cased, first, second[1..]);
      assert merged[0] == second[0] && merged[1..] == rest;
      hide Merge;
      MergePermutes(key, cased, first, second[1..]);
      MultisetCons(second);
      MultisetCons(merged);
    }
  }

  /** Sorting keeps exactly the input items. */
  lemma {:induction false} SortPermutes<T>(key: T -> Str, cased: bool, items: seq<T>)
    ensures multiset(Sort(key, cased, items)) == multiset(items)
    decreases |items|
  {
    hide Merge, Ascending;
    if |items| > 1 && !Ascending(key, cased, items) {
      var m := Half(|items|);
      var first, second := items[..m], items[m..];
      var sorted := Merge(key, cased, Sort(key, cased, first), Sort(key, cased, second));
      assert Sort(key, cased, items) == sorted;
      hide Sort;
      SortPermutes(key, cased, first);
      SortPermutes(key, cased, second);
      MergePermutes(key, cased, Sort(key, cased, first), Sort(key, cased, second));
      assert items == first + second;
    }
  }

  lemma {:induction false} AscendingSorted<T>(key: T -> Str, cased: bool, items: seq<T>)
    requires Ascending(key, cased, items)
    ensures Sorted(key, cased, items)
  {
    hide Order;
    forall i, j | 0 <= i <= j < |items| ensures Order(cased, key(items[i]), key(items[j])) <= 0 {
      AscendingPair(key, cased, items, i, j);
    }
  }

  lemma {:induction false} AscendingPair<T>(key: T -> Str, cased: bool, items: seq<T>, i: nat,
      j: nat)
    requires Ascending(key, cased, items) && i <= j < |items|
    ensures Order(cased, key(items[i]), key(items[j])) <= 0
    decreases j - i
  {
    OrderTotal(cased, key(items[i]), key(items[i]));
    if i < j {
      AscendingPair(key, cased, items, i, j - 1);
      assert Before(key, cased, items[j - 1], items[j - 1 + 1]);
      OrderTransitive(cased, key(items[i]), key(items[j - 1]), key(items[j]));
    }
  }

  lemma OrderTotal(cased: bool, a: Str, b: Str)
    ensures Order(cased, a, b) == 0 <==> Fold(cased, a) == Fold(cased, b)
    ensures Order(cased, a, b) == -Order(cased, b, a)
  {
    LexTotal(Fold(cased, a), Fold(cased, b));
  }

  lemma OrderTransitive(cased: bool, a: Str, b: Str, c: Str)
    requires Order(cased, a, b) <= 0 && Order(cased, b, c) <= 0
    ensures Order(cased, a, c) <= 0
    ensures Order(cased, a, b) < 0 || Order(cased, b, c) < 0 ==>
      Order(cased, a, c) < 0
  {
    LexTransitive(Fold(cased, a), Fold(cased, b), Fold(cased, c));
  }

  /** True if the item's key is not after that of any of the items. */
  ghost predicate Least<T>(key: T -> Str, cased: bool, x: T, items: seq<T>) {
    forall y | y in items :: Order(cased, key(x), key(y)) <= 0
  }

  lemma SortedCons<T>(key: T -> Str, cased: bool, x: T, items: seq<T>)
    requires Sorted(key, cased, items) && Least(key, cased, x, items)
    ensures Sorted(key, cased, [x] + items)
  {
    hide Order;
    OrderTotal(cased, key(x), key(x));
  }

  lemma SortedTail<T>(key: T -> Str, cased: bool, items: seq<T>)
    requires Sorted(key, cased, items) && items != []
    ensures Sorted(key, cased, items[1..]) && Least(key, cased, items[0], items)
  {
    hide Order;
  }

  lemma LeastOfBoth<T>(key: T -> Str, cased: bool, x: T, y: T, items: seq<T>)
    requires Order(cased, key(x), key(y)) <= 0 && Least(key, cased, y, items)
    ensures Least(key, cased, x, items)
  {
    hide Order;
    forall z | z in items ensures Order(cased, key(x), key(z)) <= 0 {
      OrderTransitive(cased, key(x), key(y), key(z));
    }
  }

  lemma LeastOfMerge<T>(key: T -> Str, cased: bool, x: T, first: seq<T>, second: seq<T>)
    requires Least(key, cased, x, first) && Least(key, cased, x, second)
    ensures Least(key, cased, x, Merge(key, cased, first, second))
  {
    hide Order, Merge;
    MergePermutes(key, cased, first, second);
    var merged := Merge(key, cased, first, second);
    forall y | y in merged ensures Order(cased, key(x), key(y)) <= 0 {
      assert y in multiset(merged);
    }
  }

  lemma {:induction false} MergeSorted<T>(key: T -> Str, cased: bool, first: seq<T>, second: seq<T>)
    requires Sorted(key, cased, first) && Sorted(key, cased, second)
    ensures Sorted(key, cased, Merge(key, cased, first, second))
    decreases |first| + |second|
  {
    hide Order, Sorted, Least;
    if first == [] {
    } else if second == [] {
    } else {
      SortedTail(key, cased, first);
      SortedTail(key, cased, second);
      var x, y := first[0], second[0];
      OrderTotal(cased, key(x), key(y));
      if Before(key, cased, x, y) {
        LeastOfBoth(key, cased, x, y, second);
        LeastOfTail(key, cased, x, first);
        LeastOfMerge(key, cased, x, first[1..], second);
        MergeSorted(key, cased, first[1..], second);
        SortedCons(key, cased, x, Merge(key, cased, first[1..], second));
      } else {
        LeastOfBoth(key, cased, y, x, first);
        LeastOfTail(key, cased, y, second);
        LeastOfMerge(key, cased, y, first, second[1..]);
        MergeSorted(key, cased, first, second[1..]);
        SortedCons(key, cased, y, Merge(key, cased, first, second[1..]));
      }
    }
  }

  lemma LeastOfTail<T>(key: T -> Str, cased: bool, x: T, items: seq<T>)
    requires items != [] && Least(key, cased, x, items)
    ensures Least(key, cased, x, items[1..])
  {
    hide Order;
  }

  /** Sorting yields non-decreasing key order. */
  lemma {:induction false} SortSorted<T>(key: T -> Str, cased: bool, items: seq<T>)
    ensures Sorted(key, cased, Sort(key, cased, items))
    decreases |items|
  {
    hide Merge, Order;
    if |items| <= 1 {
      if |items| == 1 {
        OrderTotal(cased, key(items[0]), key(items[0]));
      }
    } else if Ascending(key, cased, items) {
      AscendingSorted(key, cased, items);
    } else {
      var m := Half(|items|);
      SortSorted(key, cased, items[..m]);
      SortSorted(key, cased, items[m..]);
      MergeSorted(key, cased, Sort(key, cased, items[..m]), Sort(key, cased, items[m..]));
    }
  }

  /** The sort is not stable: of two items with equal keys the second comes first. */
  lemma EqualKeysSwap<T>(key: T -> Str, cased: bool, x: T, y: T)
    requires Order(cased, key(x), key(y)) == 0
    ensures Sort(key, cased, [x, y]) == [y, x]
  {
    hide Order;
    var items := [x, y];
    assert !Before(key, cased, items[0], items[0 + 1]);
    assert items[..1] == [x] && items[1..] == [y];
    assert Merge(key, cased, [x], [y]) == [y] + Merge(key, cased, [x], []);
    assert Sort(key, cased, items) == Merge(key, cased, [x], [y]);
  }

  /** Three items in order, given with the second one last. */
  lemma SortedThree<T>(key: T -> Str, cased: bool, x: T, y: T, z: T)
    requires Before(key, cased, x, y) && Before(key, cased, y, z)
    ensures Sort(key, cased, [x, z, y]) == [x, y, z] && Sort(key, cased, [z, x, y]) == [x, y, z]
    ensures x != y && y != z && x != z
  {
    OrderTotal(cased, key(x), key(x));
    OrderTotal(cased, key(y), key(z));
    OrderTotal(cased, key(x), key(z));
    OrderTransitive(cased, key(x), key(y), key(z));
    hide Order;
    SortedTwoAndOne(key, cased, x, z, y);
    SortedTwoAndOne(key, cased, z, x, y);
    MergedOne(key, cased, x, y, z);
  }

  lemma SortedTwoAndOne<T>(key: T -> Str, cased: bool, a: T, b: T, c: T)
    requires !Before(key, cased, a, b) || !Before(key, cased, b, c)
    ensures Sort(key, cased, [a, b, c])
         == Merge(key, cased, if Before(key, cased, a, b) then [a, b] else [b, a], [c])
  {
    hide Before;
    var s := [a, b, c];
    assert s[0] == a && s[1] == b && s[2] == c;
    assert !Ascending(key, cased, s) by {
      assert !Before(key, cased, s[0], s[0 + 1]) || !Before(key, cased, s[1], s[1 + 1]);
    }
    assert s[..2] == [a, b] && s[2..] == [c];
    SortedTwo(key, cased, a, b);
    assert Sort(key, cased, [c]) == [c];
  }

  lemma SortedTwo<T>(key: T -> Str, cased: bool, a: T, b: T)
    ensures Sort(key, cased, [a, b]) == if Before(key, cased, a, b) then [a, b] else [b, a]
  {
    hide Before;
    var s := [a, b];
    if Before(key, cased, a, b) {
      assert Ascending(key, cased, s);
    } else {
      assert !Before(key, cased, s[0], s[0 + 1]);
      assert s[..1] == [a] && s[1..] == [b] && [b][1..] == [];
      assert Sort(key, cased, [a]) == [a] && Sort(key, cased, [b]) == [b];
      assert Merge(key, cased, [a], []) == [a];
    }
  }

  lemma MergedOne<T>(key: T -> Str, cased: bool, x: T, y: T, z: T)
    requires Before(key, cased, x, y) && Before(key, cased, y, z) && !Before(key, cased, z, y)
    ensures Merge(key, cased, [x, z], [y]) == [x, y, z]
  {
    hide Before;
    assert [x, z][1..] == [z] && [y][1..] == [];
    assert Merge(key, cased, [z], []) == [z];
    assert Merge(key, cased, [z], [y]) == [y] + [z];
  }
}
