/**
 `sort_list` of cJSON_Utils.c on the items themselves: an in-place merge sort of a chain. It walks and
 cuts the chain by its `next` pointers and sets each `prev` while it merges, except for the first item's,
 which in a list outside of the sort points at the last item.
 */
module SortList {
  import opened Prelude
  import opened ChildList
  import opened Sorting

  function KeyOf(item: Item): Str {
    item.key
  }

  /** The test for a chain that is ascending already. */
  method IsAscending(list: Item, ghost items: seq<Item>, cased: bool) returns (ascending: bool)
    requires Chained(list, items) && items != []
    ensures ascending <==> Ascending(KeyOf, cased, items)
  {
    hide Order;
    var current := list;
    ghost var i := 0;
    while current.next != null && Order(cased, current.key, current.next.key) < 0
      invariant 0 <= i < |items| && current == items[i]
      invariant forall j | 0 <= j < i :: Before(KeyOf, cased, items[j], items[j + 1])
      decreases |items| - i
    {
      NextOf(list, items, i);
      current := current.next;
      i := i + 1;
    }
    NextOf(list, items, i);
    ascending := current.next == null;
    assert !ascending ==> !Before(KeyOf, cased, items[i], items[i + 1]);
  }

  /** Two pointers, one twice as fast as the other, find where the second half begins. */
  method FindHalf(list: Item, ghost items: seq<Item>) returns (second: Item)
    requires Chained(list, items) && |items| >= 2
    ensures second == items[Half(|items|)]
  {
    var slow: Item?, fast: Item? := list, list;
    ghost var i, j := 0, 0;
    while fast != null
      invariant 0 <= i <= |items| && 0 <= j <= |items|
      invariant i < |items| ==> slow == items[i]
      invariant i == |items| ==> slow == null
      invariant j < |items| ==> fast == items[j]
      invariant j == |items| ==> fast == null
      invariant if j < |items| then j == 2 * i else i == Half(|items|)
      decreases |items| - j
    {
      NextOf(list, items, i);
      NextOf(list, items, j);
      slow := slow.next;
      fast := fast.next;
      i, j := i + 1, j + 1;
      if fast != null {
        NextOf(list, items, j);
        fast := fast.next;
        j := j + 1;
      }
    }
    second := slow;
  }

  /** Cuts a chain in two before the item at `m`. */
  method Split(list: Item, second: Item, ghost items: seq<Item>, ghost m: nat)
    requires Chained(list, items) && 0 < m < |items| && second == items[m]
    requires second.prev != null
    modifies second.prev`next, second`prev
    ensures Chained(list, items[..m]) && Chained(second, items[m..]) && second.prev == null
  {
    assert second.prev == items[m - 1];
    second.prev.next := null;
    second.prev := null;
  }

  /** A chain whose last `next` pointer does not matter yet. */
  ghost predicate Open(head: Item?, items: seq<Item>)
    reads items
  {
    && Distinct(items)
    && (items == [] <==> head == null)
    && (items != [] ==> head == items[0])
    && (forall i | 0 <= i < |items| - 1 :: items[i].next == items[i + 1])
    && (forall i | 0 < i < |items| :: items[i].prev == items[i - 1])
  }

  /** Appends one item, or the first of a chain, to the merged list. */
  method Append(result: Item?, tail: Item?, smaller: Item,
      ghost merged: seq<Item>) returns (newResult: Item)
    requires Open(result, merged) && smaller !in merged
    requires merged != [] ==> tail == merged[|merged| - 1]
    modifies (if tail == null || result == null then {} else {tail})`next, smaller`prev
    ensures Open(newResult, merged + [smaller])
    ensures smaller.next == old(smaller.next)
    ensures newResult == (if result == null then smaller else result) && newResult.prev == old(newResult.prev)
  {
    if result == null {
      newResult := smaller;
    } else {
      tail.next := smaller;
      smaller.prev := tail;
      newResult := result;
    }
  }

  lemma ChainTail(head: Item?, items: seq<Item>)
    requires Chained(head, items) && items != []
    ensures Chained(items[0].next, items[1..])
  {
  }

  /** Appends what is left of a chain. */
  method AppendRest(result: Item?, tail: Item?, rest: Item, ghost merged: seq<Item>,
      ghost items: seq<Item>) returns (newResult: Item)
    requires Open(result, merged) && Chained(rest, items) && items != []
    requires Distinct(merged + items)
    requires merged != [] ==> tail == merged[|merged| - 1]
    modifies (if tail == null || result == null then {} else {tail})`next, rest`prev
    ensures Chained(newResult, merged + items)
    ensures newResult == (if result == null then rest else result) && newResult.prev == old(newResult.prev)
  {
    if result == null {
      assert merged + items == items;
      return rest;
    }
    assert items[0] == (merged + items)[|merged|];
    forall i | 0 <= i < |items| ensures items[i] != tail {
      assert (merged + items)[|merged| - 1] == tail && (merged + items)[|merged| + i] == items[i];
    }
    tail.next := rest;
    rest.prev := tail;
    newResult := result;
  }

  lemma ChainHead(head: Item?, items: seq<Item>)
    requires Chained(head, items)
    ensures head == null <==> items == []
    ensures items != [] ==> head == items[0]
  {
  }

  lemma StartOpen()
    ensures Open(null, []) && Chained(null, [])
  {
  }

  lemma OpenHead(head: Item?, items: seq<Item>)
    requires Open(head, items)
    ensures head == null <==> items == []
  {
  }

  /** Moving the first of `fs` behind `merged` keeps all three apart. */
  lemma Apart(merged: seq<Item>, fs: seq<Item>, ss: seq<Item>)
    requires Distinct(merged + fs + ss) && fs != []
    ensures fs[0] !in merged && fs[0] !in fs[1..] && fs[0] !in ss
    ensures forall x | x in merged :: x !in fs && x !in ss
    ensures Distinct(merged + [fs[0]] + fs[1..] + ss)
  {
    var all := merged + fs + ss;
    assert all == merged + [fs[0]] + fs[1..] + ss;
    forall i, j | 0 <= i < |merged| && 0 <= j < |fs| ensures merged[i] != fs[j] {
      assert all[i] == merged[i] && all[|merged| + j] == fs[j];
    }
    forall i, j | 0 <= i < |merged| && 0 <= j < |ss| ensures merged[i] != ss[j] {
      assert all[i] == merged[i] && all[|merged| + |fs| + j] == ss[j];
    }
    forall j | 1 <= j < |fs| ensures fs[0] != fs[j] {
      assert all[|merged|] == fs[0] && all[|merged| + j] == fs[j];
    }
    forall j | 0 <= j < |ss| ensures fs[0] != ss[j] {
      assert all[|merged|] == fs[0] && all[|merged| + |fs| + j] == ss[j];
    }
  }

  lemma Swapped(merged: seq<Item>, fs: seq<Item>, ss: seq<Item>)
    requires Distinct(merged + fs + ss)
    ensures Distinct(merged + ss + fs)
  {
    var all, swapped := merged + fs + ss, merged + ss + fs;
    forall i, j | 0 <= i < j < |swapped| ensures swapped[i] != swapped[j] {
      var i' := if i < |merged| then i else if i < |merged| + |ss| then i + |fs| else i - |ss|;
      var j' := if j < |merged| then j else if j < |merged| + |ss| then j + |fs| else j - |ss|;
      assert swapped[i] == all[i'] && swapped[j] == all[j'];
    }
  }

  /** What a list's first item contributes to the merge. */
  lemma MergeStep(cased: bool, fs: seq<Item>, ss: seq<Item>)
    requires fs != [] && ss != []
    ensures Merge(KeyOf, cased, fs, ss) ==
      if Order(cased, fs[0].key, ss[0].key) < 0 then [fs[0]] + Merge(KeyOf, cased, fs[1..], ss)
      else [ss[0]] + Merge(KeyOf, cased, fs, ss[1..])
  {
  }

  ghost predicate Within(items: seq<Item>, all: set<Item>) {
    forall x | x in items :: x in all
  }

  /** Moves the first item of `xs` behind the merged list; the other list is untouched. */
  method TakeHead(result: Item?, tail: Item?, from: Item, ghost merged: seq<Item>, ghost xs: seq<Item>,
      ghost other: Item?, ghost ys: seq<Item>)
    returns (newResult: Item, rest: Item?)
    requires Open(result, merged) && Chained(from, xs) && xs != [] && Chained(other, ys)
    requires Distinct(merged + xs + ys)
    requires tail == null <==> merged == []
    requires merged != [] ==> tail == merged[|merged| - 1]
    modifies (if tail == null then {} else {tail})`next, from`prev
    ensures Open(newResult, merged + [from]) && Chained(rest, xs[1..]) && Chained(other, ys)
    ensures from == xs[0] && Distinct(merged + [from] + xs[1..] + ys)
    ensures newResult == (if result == null then from else result) && newResult.prev == old(newResult.prev)
  {
    hide Distinct;
    ChainHead(from, xs);
    ChainTail(from, xs);
    OpenHead(result, merged);
    Apart(merged, xs, ys);
    hide Chained, Open;
    assert tail != null ==> tail in merged;
    assert forall x | x in xs[1..] :: x in xs && x != from && x != tail;
    assert forall x | x in ys :: x != from && x != tail;
    newResult := Append(result, tail, from, merged);
    rest := from.next;
  }

  /** The state of a merge: a merged list and two chains still to be merged, all apart. */
  ghost predicate Merging(result: Item?, tail: Item?, first: Item?, second: Item?,
                          merged: seq<Item>, fs: seq<Item>, ss: seq<Item>, all: set<Item>)
    reads merged, fs, ss
  {
    && Open(result, merged) && Chained(first, fs) && Chained(second, ss)
    && (merged != [] ==> tail == merged[|merged| - 1])
    && (tail == null <==> merged == [])
    && (fs == [] && ss == [] ==> merged == [] && result == null)
    && Distinct(merged + fs + ss)
    && Within(fs, all) && Within(ss, all) && (tail != null ==> tail in all)
  }

  /** Moves the smaller of the two first items behind the merged list. */
  method TakeSmaller(result: Item?, tail: Item?, first: Item, second: Item, cased: bool,
                     ghost merged: seq<Item>, ghost fs: seq<Item>, ghost ss: seq<Item>, ghost all: set<Item>)
    returns (result': Item?, tail': Item?, first': Item?, second': Item?, ghost merged': seq<Item>,
        ghost fs': seq<Item>, ghost ss': seq<Item>)
    requires Merging(result, tail, first, second, merged, fs, ss, all)
    modifies all`next, all`prev
    ensures Merging(result', tail', first', second', merged', fs', ss', all)
    ensures merged' + Merge(KeyOf, cased, fs', ss') == merged + Merge(KeyOf, cased, fs, ss)
    ensures |fs'| + |ss'| < |fs| + |ss|
    ensures result' != null && (result' == result || (result == null && (result' == first || result' == second)))
    ensures result'.prev == old(result'.prev)
  {
    hide Chained, Distinct, Open, Order, Merge, KeyOf;
    ChainHead(first, fs);
    ChainHead(second, ss);
    MergeStep(cased, fs, ss);
    ghost var rest := Merge(KeyOf, cased, fs, ss)[1..];
    if Order(cased, first.key, second.key) < 0 {
      tail', second', merged', fs', ss' := first, second, merged + [first], fs[1..], ss;
      result', first' := TakeHead(result, tail, first, merged, fs, second, ss);
    } else {
      Swapped(merged, fs, ss);
      tail', first', merged', fs', ss' := second, first, merged + [second], fs, ss[1..];
      result', second' := TakeHead(result, tail, second, merged, ss, first, fs);
      Swapped(merged', ss', fs');
    }
    assert merged' + rest == merged + Merge(KeyOf, cased, fs, ss);
  }

  /** The merge: items move to the result one by one, then the rest of the longer list follows. */
  method MergeLists(first0: Item?, second0: Item?, cased: bool, ghost f: seq<Item>,
      ghost s: seq<Item>, ghost all: set<Item>) returns (result: Item?)
    requires Chained(first0, f) && Chained(second0, s) && Distinct(f + s)
    requires Within(f, all) && Within(s, all)
    modifies all`next, all`prev
    ensures Chained(result, Merge(KeyOf, cased, f, s))
    ensures result != null ==> (result == first0 || result == second0) && result.prev == old(result.prev)
  {
    hide Chained, Distinct, Open, Order, Merge, KeyOf;
    var first, second := first0, second0;
    var tail: Item? := null;
    result := null;
    ghost var merged: seq<Item>, fs, ss := [], f, s;
    ghost var goal := Merge(KeyOf, cased, f, s);
    assert merged + fs + ss == f + s;
    StartOpen();
    assert [] + goal == goal;
    while first != null && second != null
      invariant Merging(result, tail, first, second, merged, fs, ss, all)
      invariant merged + Merge(KeyOf, cased, fs, ss) == goal
      invariant KeepsPrev(result, first0, second0, first, second)
      invariant result != null ==> result.prev == old(result.prev)
      invariant result == null ==> first0 != null ==> first0.prev == old(first0.prev)
      invariant result == null ==> second0 != null ==> second0.prev == old(second0.prev)
      decreases |fs| + |ss|
    {
      result, tail, first, second, merged, fs, ss :=
        TakeSmaller(result, tail, first, second, cased, merged, fs, ss, all);
    }
    result := FinishMerge(result, tail, first, second, cased, merged, fs, ss);
  }

  /** The merged list starts with one of the two first items, or both are still to be taken. */
  ghost predicate KeepsPrev(result: Item?, first0: Item?, second0: Item?, first: Item?, second: Item?) {
    if result == null then first == first0 && second == second0 else result == first0 || result == second0
  }

  /** The end of the merge, when one list is used up. */
  method FinishMerge(merging: Item?, tail: Item?, first: Item?, second: Item?, cased: bool,
      ghost merged: seq<Item>, ghost fs: seq<Item>, ghost ss: seq<Item>)
    returns (result: Item?)
    requires Open(merging, merged) && Chained(first, fs) && Chained(second, ss)
    requires first == null || second == null
    requires fs == [] && ss == [] ==> merged == [] && merging == null
    requires merged != [] ==> tail == merged[|merged| - 1]
    requires tail == null <==> merged == []
    requires Distinct(merged + fs + ss)
    modifies (if tail == null then {} else {tail})`next, fs`prev, ss`prev
    ensures Chained(result, merged + Merge(KeyOf, cased, fs, ss))
    ensures merging != null ==> result == merging
    ensures merging == null ==> result == if first != null then first else second
    ensures result != null ==> result.prev == old(result.prev)
  {
    hide Distinct, Open, Chained, Merge, Order;
    ChainHead(first, fs);
    ChainHead(second, ss);
    OpenHead(merging, merged);
    MergeEnds(cased, fs, ss);
    result := merging;
    if first != null {
      assert merged + fs + ss == merged + fs;
      result := AppendRest(result, tail, first, merged, fs);
    } else if second != null {
      assert merged + fs + ss == merged + ss;
      result := AppendRest(result, tail, second, merged, ss);
    } else {
      StartOpen();
      assert merged + Merge(KeyOf, cased, fs, ss) == [];
    }
  }

  lemma MergeEnds(cased: bool, fs: seq<Item>, ss: seq<Item>)
    ensures fs == [] ==> Merge(KeyOf, cased, fs, ss) == ss
    ensures ss == [] ==> Merge(KeyOf, cased, fs, ss) == fs
  {
  }

  lemma HalvesApart(items: seq<Item>, m: nat, first: seq<Item>, second: seq<Item>, cased: bool)
    requires Distinct(items) && m <= |items|
    requires first == Sort(KeyOf, cased, items[..m])
    requires second == Sort(KeyOf, cased, items[m..])
    ensures Distinct(first + second)
    ensures forall x | x in first :: x in items[..m]
    ensures forall x | x in second :: x in items[m..]
  {
    hide Sort;
    SortPermutes(KeyOf, cased, items[..m]);
    SortPermutes(KeyOf, cased, items[m..]);
    SameMembers(first, items[..m]);
    SameMembers(second, items[m..]);
    assert items == items[..m] + items[m..];
    assert multiset(first + second) == multiset(items);
    PermutedDistinct(items, first + second);
  }

  lemma SameMembers(a: seq<Item>, b: seq<Item>)
    requires multiset(a) == multiset(b)
    ensures forall x | x in a :: x in b
  {
    forall x | x in a ensures x in b {
      assert x in multiset(a);
    }
  }

  lemma {:induction false} DistinctCounts(items: seq<Item>, x: Item)
    requires Distinct(items)
    ensures multiset(items)[x] <= 1
  {
    if items != [] {
      assert items == [items[0]] + items[1..];
      DistinctCounts(items[1..], x);
      if x == items[0] {
        assert x !in items[1..];
      }
    }
  }

  lemma PermutedDistinct(a: seq<Item>, b: seq<Item>)
    requires Distinct(a) && multiset(a) == multiset(b)
    ensures Distinct(b)
  {
    forall i, j | 0 <= i < j < |b| ensures b[i] != b[j] {
      DistinctCounts(a, b[i]);
      assert b == b[..j] + b[j..];
      assert b[i] in b[..j] && b[j] in b[j..];
      assert multiset(b) == multiset(b[..j]) + multiset(b[j..]);
    }
  }

  /**
   `sort_list`: the returned chain is the items in the order the merge sort gives them, every later
   `prev` is correct, and nothing but links of these items has changed. The first item's `prev` is what
   it was if that item was first before, and null otherwise.
   */
  method SortItems(list: Item?, cased: bool, ghost items: seq<Item>) returns (result: Item?)
    requires Chained(list, items)
    modifies items`next, items`prev
    ensures Chained(result, Sort(KeyOf, cased, items))
    ensures result != null ==> result.prev == if result == list then old(result.prev) else null
    decreases |items|, 1
  {
    hide Merge, Order;
    ChainEnd(list, items);
    if list == null || list.next == null {
      return list;
    }
    var ascending := IsAscending(list, items, cased);
    if ascending {
      return list;
    }
    var second := FindHalf(list, items);
    ghost var m := Half(|items|);
    PrevInChain(list, items, m);
    Split(list, second, items, m);
    result := SortHalves(list, second, cased, items, m);
  }

  lemma ChainEnd(head: Item?, items: seq<Item>)
    requires Chained(head, items)
    ensures head == null || head.next == null <==> |items| <= 1
  {
    if |items| > 1 {
      NextOf(head, items, 0);
    }
  }

  lemma PrevInChain(head: Item?, items: seq<Item>, i: nat)
    requires Chained(head, items) && 0 < i < |items|
    ensures items[i].prev == items[i - 1]
  {
  }

  /** Sorts the two halves and merges them. */
  method SortHalves(list: Item, second: Item, cased: bool, ghost items: seq<Item>,
      ghost m: nat) returns (result: Item?)
    requires Distinct(items) && 0 < m < |items|
    requires Chained(list, items[..m]) && Chained(second, items[m..]) && second.prev == null
    modifies items`next, items`prev
    ensures Chained(result, Merge(KeyOf, cased, Sort(KeyOf, cased, items[..m]), Sort(KeyOf, cased, items[m..])))
    ensures result != null ==> result.prev == if result == list then old(result.prev) else null
    decreases |items|, 0
  {
    hide Merge, Sort, Order, Chained, Distinct;
    ghost var fs, ss := Sort(KeyOf, cased, items[..m]), Sort(KeyOf, cased, items[m..]);
    HalvesApart(items, m, fs, ss, cased);
    DistinctHalves(items, m);
    assert forall i | 0 <= i < |fs| :: fs[i] in fs && fs[i] !in items[m..];
    ghost var back := items[m..];
    assert forall i | 0 <= i < |back| :: back[i] in back && back[i] !in items[..m];
    ChainHead(list, items[..m]);
    ChainHead(second, back);
    var f := SortItems(list, cased, items[..m]);
    ChainHead(f, fs);
    assert second.prev == null;
    var s := SortItems(second, cased, items[m..]);
    ChainHead(s, ss);
    assert f == fs[0] && f.prev == if f == list then old(list.prev) else null;
    assert s != null && s in items[m..] && s.prev == null;
    result := MergeLists(f, s, cased, fs, ss, set x | x in items);
  }

  lemma DistinctHalves(items: seq<Item>, m: nat)
    requires Distinct(items) && m <= |items|
    ensures forall x | x in items[..m] :: x !in items[m..] && x in items
    ensures forall x | x in items[m..] :: x in items
  {
  }

  /**
   `sort_object`: the children in key order, for any chain of children, as an earlier sort may have left
   it. The first item's `prev` is kept if the item stays first, and null otherwise, so that the list is
   well formed afterwards exactly if it is empty or that `prev` happens to name the new last item.
   */
  method SortObject(parent: Item?, cased: bool)
    requires parent != null ==> Chained(parent.child, parent.kids) && parent !in parent.kids
    modifies parent, (if parent == null then [] else parent.kids)
    ensures parent != null ==>
      && parent.kids == Sort(KeyOf, cased, old(parent.kids))
      && Chained(parent.child, parent.kids) && parent !in parent.kids
      && multiset(parent.kids) == multiset(old(parent.kids)) && Sorted(KeyOf, cased, parent.kids)
    ensures parent != null ==>
      var was, kids := old(parent.kids), parent.kids;
      && |kids| == |was|
      && (was != [] ==> kids[0].prev == if kids[0] == was[0] then old(was[0].prev) else null)
      && (parent.Valid() <==> was == [] || (kids[0] == was[0] && old(was[0].prev) == kids[|kids| - 1]))
    ensures parent != null && old(parent.Valid()) ==>
      (parent.Valid() <==> parent.kids == [] || SameEnds(old(parent.kids), parent.kids))
  {
    hide Sort, Chained, Sorted, Linked;
    if parent == null {
      return;
    }
    ghost var was, sorted := parent.kids, Sort(KeyOf, cased, parent.kids);
    SortPermutes(KeyOf, cased, was);
    SortSorted(KeyOf, cased, was);
    ChainHead(parent.child, was);
    if parent.Valid() {
      LinkedEnds(parent.child, was);
    }
    parent.child := SortItems(parent.child, cased, was);
    parent.kids := sorted;
    SameMembers(sorted, was);
    ChainHead(parent.child, sorted);
    LinkedIff(parent.child, sorted);
  }

  /** Both lists have the same first and the same last item. */
  ghost predicate SameEnds(a: seq<Item>, b: seq<Item>) {
    a != [] && b != [] && a[0] == b[0] && a[|a| - 1] == b[|b| - 1]
  }

  lemma LinkedEnds(head: Item?, items: seq<Item>)
    requires Linked(head, items)
    ensures Chained(head, items) && (items != [] ==> head == items[0] && items[0].prev == items[|items| - 1])
  {
  }

  lemma LinkedIff(head: Item?, items: seq<Item>)
    requires Chained(head, items)
    ensures Linked(head, items) <==> items == [] || items[0].prev == items[|items| - 1]
  {
  }

  /**
   Sorting an object and then adding an item appends it exactly if sorting moved neither the first nor
   the last item. If another item has come first, the new one is dropped; otherwise it goes behind the
   old last item, and the items sorted behind that one are lost.
   */
  method AddAfterSorting(parent: Item, cased: bool, item: Item)
    requires parent.Valid() && item !in parent.kids && item != parent && item.next == null
    modifies parent, parent.kids, item
    ensures var was, sorted, kids := old(parent.kids), Sort(KeyOf, cased, old(parent.kids)), parent.kids;
      && Chained(parent.child, kids) && |sorted| == |was|
      && (kids == sorted + [item] <==> was == [] || SameEnds(was, sorted))
      && (was != [] && sorted[0] != was[0] ==> kids == sorted)
      && (was != [] && sorted[0] == was[0] ==>
            exists j | 0 <= j < |sorted| :: sorted[j] == was[|was| - 1] && kids == sorted[..j + 1] + [item])
  {
    hide Sort, Chained, Linked, Sorted;
    ghost var was := parent.kids;
    LinkedEnds(parent.child, was);
    SortObject(parent, cased);
    ghost var sorted := parent.kids;
    assert was != [] ==> sorted[0].prev == if sorted[0] == was[0] then was[|was| - 1] else null;
    SameMembers(sorted, was);
    SameMembers(was, sorted);
    assert forall i | 0 <= i < |sorted| :: sorted[i] in sorted && sorted[i] in was;
    if was != [] {
      assert was[0] in sorted && was[|was| - 1] in sorted;
    }
    var ok := parent.AddItemToArray(item);
    if was != [] && sorted[0] == was[0] {
      ghost var j :| 0 <= j < |sorted| && sorted[j] == was[|was| - 1];
      assert parent.kids == sorted[..j + 1] + [item];
      CutShort(sorted, j, item);
    }
  }

  lemma CutShort(items: seq<Item>, j: nat, item: Item)
    requires j < |items|
    ensures items[..j + 1] + [item] == items + [item] <==> j == |items| - 1
  {
    assert j == |items| - 1 ==> items[..j + 1] == items;
    assert |items[..j + 1] + [item]| == j + 2;
  }

  /**
   Both happen to three members with distinct keys. In the order x, z, y, where y comes between x and z,
   the first item stays first and z is lost; in the order z, x, y the new item is dropped.
   */
  method AddToThree(parent: Item, cased: bool, item: Item, ghost x: Item, ghost y: Item, ghost z: Item)
    requires parent.Valid() && item !in parent.kids && item != parent && item.next == null
    requires Order(cased, KeyOf(x), KeyOf(y)) < 0 && Order(cased, KeyOf(y), KeyOf(z)) < 0
    requires parent.kids == [x, z, y] || parent.kids == [z, x, y]
    modifies parent, parent.kids, item
    ensures parent.kids == if old(parent.kids) == [x, z, y] then [x, y, item] else [x, y, z]
  {
    hide Sort, Order;
    ghost var was := parent.kids;
    OrderTotal(cased, KeyOf(x), KeyOf(x));
    OrderTotal(cased, KeyOf(y), KeyOf(y));
    SortedThree(KeyOf, cased, x, y, z);
    AddAfterSorting(parent, cased, item);
    if was == [x, z, y] {
      ghost var j :| 0 <= j < 3 && [x, y, z][j] == y && parent.kids == [x, y, z][..j + 1] + [item];
      assert [x, y, z][..2] == [x, y];
    }
  }
}
