/**
 The doubly linked child list of cJSON.c. Its items are chained by `next` up to null and back by `prev`,
 and the first item's `prev` is the last item, so that an item can be appended without a walk. Adding,
 inserting, detaching and replacing each keep that.
 */
module ChildList {
  import opened Prelude

  /** An item with its children; every operation is tied to one on the sequence of children. */
  class Item {
    var next: Item?
    var prev: Item?
    var child: Item?
    /** The member name; its bytes do not change while the item is in a list. */
    const key: Str
    /** The children, first to last. */
    ghost var kids: seq<Item>

    constructor (key: Str)
      ensures this.key == key && next == null && prev == null && child == null && kids == []
    {
      this.key := key;
      next, prev, child := null, null, null;
      kids := [];
    }

    /** The child pointer heads a well-formed list of the children. */
    ghost predicate Valid()
      reads this, kids
    {
      this !in kids && Linked(child, kids)
    }

    /** The item at an index, or null. */
    method GetArrayItem(index: nat) returns (item: Item?)
      requires Valid()
      ensures index < |kids| ==> item == kids[index]
      ensures index >= |kids| ==> item == null
    {
      item := child;
      var left := index;
      ghost var at := 0;
      while item != null && left > 0
        invariant at + left == index && left >= 0 && at <= |kids|
        invariant at < |kids| ==> item != null && item == kids[at]
        invariant at == |kids| ==> item == null
        decreases left
      {
        NextOf(child, kids, at);
        item := item.next;
        left := left - 1;
        at := at + 1;
      }
    }

    /**
     `add_item_to_array`. The item goes behind the one that the first item's `prev` names, and every
     item after that one is lost; if that `prev` is null the item itself is dropped. Either way success
     is reported. Only sorting leaves such lists.
     */
    method AddItemToArray(item: Item?) returns (ok: bool)
      requires Chained(child, kids) && this !in kids
      requires kids != [] ==> kids[0].prev == null || kids[0].prev in kids
      requires item != null ==> item !in kids && item.next == null
      modifies this, kids, item
      ensures ok <==> item != null && item != this
      ensures Chained(child, kids) && this !in kids
      ensures !ok || (old(kids) != [] && old(kids[0].prev) == null) ==> kids == old(kids)
      ensures forall j | 0 <= j < |old(kids)| && old(kids[0].prev) == old(kids)[j] && ok ::
        Valid() && kids == old(kids)[..j + 1] + [item]
      ensures old(Valid()) ==> Valid() && kids == if ok then old(kids) + [item] else old(kids)
    {
      if item == null || item == this {
        return false;
      }
      if child == null {
        child := item;
        item.prev := item;
        item.next := null;
        kids := [item];
      } else if child.prev != null {
        ghost var j :| 0 <= j < |kids| && kids[j] == child.prev;
        assert j == |kids| - 1 ==> kids[..j + 1] == kids;
        AddBehind(item, j);
      }
      return true;
    }

    /** Adds an item behind the one at `j`, which the first item's `prev` names. */
    method AddBehind(item: Item, ghost j: nat)
      requires Chained(child, kids) && this !in kids && j < |kids| && kids[0].prev == kids[j]
      requires item !in kids && item.next == null && item != this
      modifies this, (kids[0] as Item)`prev, (kids[j] as Item)`next, item
      ensures Valid() && kids == old(kids)[..j + 1] + [item]
    {
      SuffixObject(child.prev, item);
      child.prev := item;
      kids := kids[..j + 1] + [item];
    }

    /** `cJSON_DetachItemViaPointer`. */
    method DetachItemViaPointer(item: Item?) returns (detached: Item?)
      requires Valid() && (item != null ==> item in kids)
      modifies this, kids
      ensures detached == item && Valid()
      ensures item == null ==> kids == old(kids)
      ensures item != null ==> item.next == null && item.prev == null
      ensures item != null ==>
        exists k | 0 <= k < |old(kids)| :: old(kids)[k] == item && kids == Without(old(kids), k)
    {
      if item == null {
        return null;
      }
      ghost var k :| 0 <= k < |kids| && kids[k] == item;
      PrevOf(child, kids, k);
      if item != child && item.prev == null {
        return null;
      }
      Unlink(item, k);
      return item;
    }

    /** Takes the item at `k` out of the chain. */
    method Unlink(item: Item, ghost k: nat)
      requires Valid() && k < |kids| && kids[k] == item
      modifies this, kids
      ensures Valid() && kids == Without(old(kids), k)
      ensures item.next == null && item.prev == null
    {
      ghost var was := kids;
      Neighbours(was, k);
      hide Distinct, With, Without;
      Bypass(item);
      Removed(child, was, k);
      kids := Without(kids, k);
    }

    /** Its pointers, and those that led to it. */
    method Bypass(item: Item)
      requires child != null && item.next != item && (item != child ==> item.prev != null && item.prev != item)
      modifies this`child, item, (if item.next == null then {} else {item.next})`prev
      modifies (if item == child || item.prev == null then {} else {item.prev})`next
      modifies (if item == child || item.next != null then {} else {child})`prev
      ensures child == if item == old(child) then old(item.next) else old(child)
      ensures item != old(child) ==> old(item.prev).next == old(item.next)
      ensures old(item.next) != null ==> old(item.next).prev == old(item.prev)
      ensures item != child && old(item.next) == null && child != null ==> child.prev == old(item.prev)
      ensures item.next == null && item.prev == null
    {
      if item != child {
        item.prev.next := item.next;
      }
      if item.next != null {
        item.next.prev := item.prev;
      }
      if item == child {
        child := item.next;
      } else if item.next == null {
        child.prev := item.prev;
      }
      item.prev := null;
      item.next := null;
    }

    /** `cJSON_InsertItemInArray`. */
    method InsertItemInArray(which: int, item: Item?) returns (ok: bool)
      requires Valid() && item != this
      requires item != null ==> item !in kids && item.next == null
      modifies this, kids, item
      ensures ok <==> which >= 0 && item != null
      ensures Valid()
      ensures kids == if !ok then old(kids)
                      else With(old(kids), if which < |old(kids)| then which else |old(kids)|, item)
    {
      if which < 0 || item == null {
        return false;
      }
      var after := GetArrayItem(which);
      WithAtEnd(kids, item);
      hide With;
      if after == null {
        ok := AddItemToArray(item);
        return;
      }
      if after != child && after.prev == null {
        PrevOf(child, kids, which);
        return false;
      }
      InsertBefore(after, item, which);
      return true;
    }

    /** Inserts `item` before `after`, the item at `k`. */
    method InsertBefore(after: Item, item: Item, ghost k: nat)
      requires Valid() && k < |kids| && kids[k] == after
      requires item !in kids && item != this
      modifies this, kids, item
      ensures Valid() && kids == With(old(kids), k, item)
    {
      ghost var was := kids;
      Neighbours(was, k);
      hide Distinct, With, Without;
      Splice(after, item);
      Inserted(child, was, k, item);
      kids := With(kids, k, item);
    }

    /** Its pointers, and those that lead to it. */
    method Splice(after: Item, item: Item)
      requires item != after && (after != child ==> after.prev != null && after.prev != item)
      modifies this`child, item, after`prev
      modifies (if after == child || after.prev == null then {} else {after.prev})`next
      ensures item.next == after && after.prev == item && item.prev == old(after.prev)
      ensures child == if after == old(child) then item else old(child)
      ensures after != old(child) ==> old(after.prev).next == item
    {
      item.next := after;
      item.prev := after.prev;
      after.prev := item;
      if after == child {
        child := item;
      } else {
        item.prev.next := item;
      }
    }

    /** `cJSON_ReplaceItemViaPointer`. */
    method ReplaceItemViaPointer(item: Item?, replacement: Item?) returns (ok: bool)
      requires Valid() && (item != null ==> item in kids)
      requires replacement != null ==> replacement == item || (replacement !in kids && replacement != this)
      modifies this, kids, replacement
      ensures ok <==> item != null && replacement != null
      ensures Valid()
      ensures !ok || item == replacement ==> kids == old(kids)
      ensures ok && item != replacement ==>
        exists k | 0 <= k < |old(kids)| :: old(kids)[k] == item && kids == old(kids)[k := replacement]
    {
      if child == null || replacement == null || item == null {
        return false;
      }
      if replacement == item {
        return true;
      }
      ghost var k :| 0 <= k < |kids| && kids[k] == item;
      Substitute(item, replacement, k);
      return true;
    }

    /** Puts `replacement` in the place of the item at `k`. */
    method Substitute(item: Item, replacement: Item, ghost k: nat)
      requires Valid() && k < |kids| && kids[k] == item && replacement !in kids
      requires replacement != this
      modifies this, kids, replacement
      ensures Valid() && kids == old(kids)[k := replacement]
    {
      ghost var was := kids;
      Neighbours(was, k);
      hide Distinct, With, Without;
      Exchange(item, replacement);
      Substituted(child, was, k, replacement);
      kids := kids[k := replacement];
    }

    /** Its pointers, and those that led to the item. */
    method Exchange(item: Item, replacement: Item)
      requires child != null && item != replacement && item.next != item && item.next != replacement
      requires child != replacement && item.prev != null && item.prev != replacement
      requires item == item.prev ==> item == child
      modifies this`child, item, replacement, (if item.next == null then {} else {item.next})`prev
      modifies (if item == child then {} else {item.prev})`next
      modifies (if item == child || item.next != null then {} else {child})`prev
      ensures replacement.next == old(item.next)
      ensures replacement.prev == if old(item.prev) == item then replacement else old(item.prev)
      ensures child == if item == old(child) then replacement else old(child)
      ensures item != old(child) ==> old(item.prev).next == replacement
      ensures old(item.next) != null ==> old(item.next).prev == replacement
      ensures item != old(child) && old(item.next) == null ==> child.prev == replacement
    {
      replacement.next := item.next;
      replacement.prev := item.prev;
      if replacement.next != null {
        replacement.next.prev := replacement;
      }
      if child == item {
        if child.prev == child {
          replacement.prev := replacement;
        }
        child := replacement;
      } else {
        if replacement.prev != null {
          replacement.prev.next := replacement;
        }
        if replacement.next == null {
          child.prev := replacement;
        }
      }
      item.next := null;
      item.prev := null;
    }

    /** `detach_item_from_array` of the utilities. */
    method DetachItemFromArray(which: nat) returns (detached: Item?)
      requires Valid()
      modifies this, kids
      ensures Valid()
      ensures which >= |old(kids)| ==> detached == null && kids == old(kids)
      ensures which < |old(kids)| ==>
        detached == old(kids)[which] && detached.next == null && detached.prev == null
        && kids == Without(old(kids), which)
    {
      var c := GetArrayItem(which);
      if c == null {
        return null;
      }
      Unlink(c, which);
      return c;
    }

    /** `insert_item_in_array` of the utilities: unlike the library's, it refuses an index past the end. */
    method InsertItemAt(which: nat, item: Item) returns (ok: bool)
      requires Valid() && item !in kids && item != this && item.next == null
      modifies this, kids, item
      ensures ok <==> which <= |old(kids)|
      ensures Valid() && kids == if ok then With(old(kids), which, item) else old(kids)
    {
      var after := child;
      var left := which;
      ghost var at := 0;
      while after != null && left > 0
        invariant at + left == which && left >= 0 && at <= |kids|
        invariant at < |kids| ==> after != null && after == kids[at]
        invariant at == |kids| ==> after == null
        decreases left
        modifies {}
      {
        NextOf(child, kids, at);
        after := after.next;
        left := left - 1;
        at := at + 1;
      }
      if left > 0 {
        return false;
      }
      WithAtEnd(kids, item);
      hide With;
      if after == null {
        ok := AddItemToArray(item);
        return true;
      }
      InsertBefore(after, item, which);
      return true;
    }

    /** The loop of parsing and duplicating: new items linked one behind the other, the first one's `prev` last. */
    method LinkAll(items: seq<Item>)
      requires Distinct(items) && this !in items
      requires forall i | 0 <= i < |items| :: items[i].next == null
      modifies this, items
      ensures Valid() && kids == items
    {
      var head: Item?, current: Item? := null, null;
      var i := 0;
      while i < |items|
        invariant 0 <= i <= |items|
        invariant Chained(head, items[..i])
        invariant if i == 0 then current == null else current == items[i - 1]
        invariant forall j | i <= j < |items| :: items[j].next == null
      {
        ghost var chain := items[..i];
        assert items[..i + 1] == chain + [items[i]];
        if head == null {
          head := items[i];
        } else {
          ChainOnto(head, chain, current, items[i]);
        }
        current := items[i];
        i := i + 1;
      }
      assert items[..i] == items;
      if head != null {
        head.prev := current;
      }
      child := head;
      kids := items;
    }
  }

  /** Extends a chain by one item. */
  method ChainOnto(ghost head: Item?, ghost chain: seq<Item>, last: Item, item: Item)
    requires Chained(head, chain) && chain != [] && last == chain[|chain| - 1]
    requires item !in chain && item.next == null
    modifies last`next, item`prev
    ensures Chained(head, chain + [item])
  {
    last.next := item;
    item.prev := last;
  }

  method SuffixObject(before: Item, item: Item)
    modifies before`next, item`prev
    ensures before.next == item && item.prev == before
  {
    before.next := item;
    item.prev := before;
  }

  /** No item occurs twice. */
  ghost predicate Distinct(items: seq<Item>) {
    forall i, j | 0 <= i < j < |items| :: items[i] != items[j]
  }

  /** From `head`, the chain of `next` pointers runs through `items` and ends; `prev` is its inverse. */
  ghost predicate Chained(head: Item?, items: seq<Item>)
    reads items
  {
    && Distinct(items)
    && (items == [] ==> head == null)
    && (items != [] ==> head == items[0] && items[|items| - 1].next == null)
    && (forall i | 0 <= i < |items| - 1 :: items[i].next == items[i + 1])
    && (forall i | 0 < i < |items| :: items[i].prev == items[i - 1])
  }

  /** What `next` and `prev` are at each place of a list. */
  function NextAt(items: seq<Item>, i: nat): Item? {
    if i + 1 < |items| then items[i + 1] else null
  }

  function PrevAt(items: seq<Item>, i: nat): Item?
    requires i < |items|
  {
    if i > 0 then items[i - 1] else items[|items| - 1]
  }

  lemma MakeLinked(head: Item?, items: seq<Item>)
    requires Distinct(items) && head == if items == [] then null else items[0]
    requires forall i | 0 <= i < |items| :: items[i].next == NextAt(items, i)
    requires forall i | 0 <= i < |items| :: items[i].prev == PrevAt(items, i)
    ensures Linked(head, items)
  {
    if items != [] {
      var last := |items| - 1;
      assert items[last].next == NextAt(items, last);
    }
    forall i | 0 <= i < |items| - 1 ensures items[i].next == items[i + 1] {
      assert items[i].next == NextAt(items, i);
    }
  }

  /** The neighbours of the item at `k`, and that no other item is one of them. */
  lemma Neighbours(items: seq<Item>, k: nat)
    requires Distinct(items) && k < |items|
    ensures forall i | 0 <= i < |items| :: items[i] == items[k] ==> i == k
    ensures k > 0 ==> forall i | 0 <= i < |items| :: items[i] == items[k - 1] ==> i == k - 1
    ensures k + 1 < |items| ==> forall i | 0 <= i < |items| :: items[i] == items[k + 1] ==> i == k + 1
    ensures forall i | 0 <= i < |items| :: items[i] == items[0] ==> i == 0
  {
  }

  /** The links after an item has been put before the one at `k`. */
  lemma Inserted(head: Item?, was: seq<Item>, k: nat, item: Item)
    requires Distinct(was) && item !in was && k < |was|
    requires head == if k == 0 then item else was[0]
    requires item.next == was[k] && was[k].prev == item
    requires item.prev == if k > 0 then was[k - 1] else was[|was| - 1]
    requires k > 0 ==> was[k - 1].next == item
    requires forall i | 0 <= i < |was| - 1 && i != k - 1 :: was[i].next == was[i + 1]
    requires forall i | 0 < i < |was| && i != k :: was[i].prev == was[i - 1]
    requires was[|was| - 1].next == null && (k > 0 ==> was[0].prev == was[|was| - 1])
    ensures Linked(head, With(was, k, item))
    ensures forall x: Item :: x in With(was, k, item) ==> x == item || x in was
  {
    WithIndex(was, k, item);
    DistinctWith(was, k, item);
    var r := With(was, k, item);
    hide With, Distinct;
    forall i | 0 <= i < |r| ensures r[i].next == NextAt(r, i) && r[i].prev == PrevAt(r, i) {
      if i < k {
        assert r[i] == was[i];
      } else if i > k {
        assert r[i] == was[i - 1];
      }
    }
    MakeLinked(head, r);
  }

  lemma DistinctWith(was: seq<Item>, k: nat, item: Item)
    requires Distinct(was) && item !in was && k <= |was|
    ensures Distinct(With(was, k, item))
  {
    WithIndex(was, k, item);
    hide With;
  }

  /** The links after the item at `k` has been taken out. */
  lemma Removed(head: Item?, was: seq<Item>, k: nat)
    requires Distinct(was) && k < |was|
    requires head == if k > 0 then was[0] else if |was| > 1 then was[1] else null
    requires k > 0 ==> was[k - 1].next == if k + 1 < |was| then was[k + 1] else null
    requires k + 1 < |was| ==> was[k + 1].prev == if k > 0 then was[k - 1] else was[|was| - 1]
    requires k > 0 && k == |was| - 1 ==> was[0].prev == was[k - 1]
    requires forall i | 0 <= i < |was| - 1 && i != k - 1 && i != k :: was[i].next == was[i + 1]
    requires forall i | 0 < i < |was| && i != k && i != k + 1 :: was[i].prev == was[i - 1]
    requires k < |was| - 1 ==> was[|was| - 1].next == null && (k > 0 ==> was[0].prev == was[|was| - 1])
    ensures Linked(head, Without(was, k))
    ensures forall x: Item :: x in Without(was, k) ==> x in was
  {
    WithoutIndex(was, k);
    DistinctWithout(was, k);
    var r := Without(was, k);
    assert r != [] ==> r[0] == was[if k == 0 then 1 else 0];
    hide *;
    forall i | 0 <= i < |r| ensures r[i].next == NextAt(r, i) && r[i].prev == PrevAt(r, i) {
      RemovedAt(was, k, i);
    }
    MakeLinked(head, r);
  }

  lemma RemovedAt(was: seq<Item>, k: nat, i: nat)
    requires k < |was| && i < |was| - 1
    ensures var r, j := Without(was, k), if i < k then i else i + 1;
      && r[i] == was[j]
      && NextAt(r, i) == NextAt(was, if i == k - 1 then k else j)
      && PrevAt(r, i) == if i == 0 && k == |was| - 1 then was[k - 1] else PrevAt(was, if i == k then k else j)
  {
    WithoutIndex(was, k);
  }

  lemma DistinctWithout(was: seq<Item>, k: nat)
    requires Distinct(was) && k < |was|
    ensures Distinct(Without(was, k))
  {
    WithoutIndex(was, k);
    hide Without;
  }

  /** The links after the item at `k` has been replaced. */
  lemma Substituted(head: Item?, was: seq<Item>, k: nat, item: Item)
    requires Distinct(was) && item !in was && k < |was|
    requires head == if k == 0 then item else was[0]
    requires item.next == if k + 1 < |was| then was[k + 1] else null
    requires item.prev == if k > 0 then was[k - 1] else if |was| == 1 then item else was[|was| - 1]
    requires k > 0 ==> was[k - 1].next == item
    requires k + 1 < |was| ==> was[k + 1].prev == item
    requires k > 0 && k == |was| - 1 ==> was[0].prev == item
    requires forall i | 0 <= i < |was| - 1 && i != k - 1 && i != k :: was[i].next == was[i + 1]
    requires forall i | 0 < i < |was| && i != k && i != k + 1 :: was[i].prev == was[i - 1]
    requires k < |was| - 1 ==> was[|was| - 1].next == null && (k > 0 ==> was[0].prev == was[|was| - 1])
    ensures Linked(head, was[k := item])
    ensures forall x: Item :: x in was[k := item] ==> x == item || x in was
  {
    var r := was[k := item];
    assert Distinct(r);
    hide *;
    forall i | 0 <= i < |r| ensures r[i].next == NextAt(r, i) && r[i].prev == PrevAt(r, i) {
      SubstitutedAt(was, k, item, i);
    }
    MakeLinked(head, r);
  }

  lemma SubstitutedAt(was: seq<Item>, k: nat, item: Item, i: nat)
    requires k < |was| && i < |was|
    ensures var r := was[k := item];
      && r[i] == (if i == k then item else was[i])
      && NextAt(r, i) == (if i == k - 1 then item else NextAt(was, i))
      && PrevAt(r, i) == if i == k + 1 || (i == 0 && k == |was| - 1) then item else PrevAt(was, i)
  {
  }

  /** The `next` pointer of an item in a chain. */
  lemma NextOf(head: Item?, items: seq<Item>, i: nat)
    requires Chained(head, items) && i < |items|
    ensures items[i].next == if i + 1 < |items| then items[i + 1] else null
  {
  }

  /** The `prev` pointer of an item in a list. */
  lemma PrevOf(head: Item?, items: seq<Item>, i: nat)
    requires Linked(head, items) && i < |items|
    ensures items[i].prev == if i > 0 then items[i - 1] else items[|items| - 1]
  {
  }

  /** A chain whose first item points back to the last. */
  ghost predicate Linked(head: Item?, items: seq<Item>)
    reads items
  {
    Chained(head, items) && (items != [] ==> items[0].prev == items[|items| - 1])
  }
}
