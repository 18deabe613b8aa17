/**
 Objects whose members are linked items. Whatever value each item stands for, looking a member up, removing one,
 adding one and sorting on the heap are the operations on member lists that patching and merging are made of.
 */
module HeapObject {
  import opened Prelude
  import opened Json
  import opened ChildList
  import opened Sorting
  import opened SortList
  import opened Compare

  /** The members that linked items are, if each stands for the value given. */
  ghost function Members(items: seq<Item>, value: Item -> Json): (m: seq<Member>)
    ensures |m| == |items|
    ensures forall i | 0 <= i < |items| :: m[i] == Member(items[i].key, value(items[i]))
  {
    seq(|items|, i requires 0 <= i < |items| => Member(items[i].key, value(items[i])))
  }

  lemma MembersOfParts(items: seq<Item>, value: Item -> Json, k: nat)
    requires k <= |items|
    ensures Members(items[..k], value) == Members(items, value)[..k]
    ensures Members(items[k..], value) == Members(items, value)[k..]
  {
  }

  /** Taking an item out takes its member out. */
  lemma MembersWithout(items: seq<Item>, value: Item -> Json, k: nat)
    requires k < |items|
    ensures Members(Without(items, k), value) == Without(Members(items, value), k)
  {
  }

  /** Adding an item behind the others adds its member. */
  lemma MembersBehind(items: seq<Item>, value: Item -> Json, item: Item)
    ensures Members(items + [item], value) == Members(items, value) + [Member(item.key, value(item))]
  {
  }

  /** `get_object_item` on the linked items. */
  method LookUp(parent: Item, cased: bool, key: Str, ghost value: Item -> Json) returns (item: Item?, ghost k: nat)
    requires parent.Valid()
    ensures k == Find(cased, Members(parent.kids, value), key)
    ensures item == if k < |parent.kids| then parent.kids[k] else null
  {
    hide Fold;
    ghost var kids, all := parent.kids, Members(parent.kids, value);
    item, k := parent.child, 0;
    assert all[0..] == all;
    while item != null && Fold(cased, item.key) != Fold(cased, key)
      invariant k <= |kids| && item == if k < |kids| then kids[k] else null
      invariant Find(cased, all, key) == k + Find(cased, all[k..], key)
      decreases |kids| - k
    {
      NextOf(parent.child, kids, k);
      assert all[k..][0] == all[k] && all[k..][1..] == all[k + 1..];
      item, k := item.next, k + 1;
    }
  }

  /** `cJSON_DetachItemFromObject` and its case-sensitive variant. */
  method DetachItemFromObject(parent: Item, cased: bool, key: Str, ghost value: Item -> Json)
    returns (detached: Item?)
    requires parent.Valid()
    modifies parent, parent.kids
    ensures parent.Valid() && forall x: Item :: x in parent.kids ==> x in old(parent.kids)
    ensures Members(parent.kids, value) == RemoveKey(cased, Members(old(parent.kids), value), key)
    ensures detached == null <==> Find(cased, Members(old(parent.kids), value), key) == |old(parent.kids)|
    ensures detached != null ==>
      && detached.next == null && detached.prev == null && detached in old(parent.kids) && detached !in parent.kids
      && Fold(cased, detached.key) == Fold(cased, key)
  {
    ghost var was := parent.kids;
    ghost var k: nat;
    detached, k := LookUp(parent, cased, key, value);
    hide Find, Fold;
    if detached != null {
      MembersWithout(was, value, k);
      OnlyThere(parent.child, was, k);
      parent.Unlink(detached, k);
    }
  }

  lemma OnlyThere(head: Item?, items: seq<Item>, k: nat)
    requires Linked(head, items) && k < |items|
    ensures items[k] !in Without(items, k) && forall x: Item :: x in Without(items, k) ==> x in items
  {
  }

  /**
   What merging and adding do to a member: any old one is taken out and the new one is added behind the
   others. The item already bears the key, which `cJSON_AddItemToObject` gives it.
   */
  method ReplaceMember(parent: Item, cased: bool, item: Item, ghost value: Item -> Json) returns (replaced: Item?)
    requires parent.Valid() && item !in parent.kids && item != parent && item.next == null
    modifies parent, parent.kids, item
    ensures parent.Valid()
    ensures Members(parent.kids, value)
         == RemoveKey(cased, Members(old(parent.kids), value), item.key) + [Member(item.key, value(item))]
  {
    hide RemoveKey, Find, Fold, Linked, Chained;
    replaced := DetachItemFromObject(parent, cased, item.key, value);
    MembersBehind(parent.kids, value, item);
    LinkedParts(parent.child, parent.kids);
    assert forall i | 0 <= i < |parent.kids| :: parent.kids[i] in parent.kids;
    var ok := parent.AddItemToArray(item);
  }

  lemma LinkedParts(head: Item?, items: seq<Item>)
    requires Linked(head, items)
    ensures Chained(head, items) && (items != [] ==> items[0].prev in items)
  {
  }

  // ----- sorting -----

  lemma {:induction false} MergeAlike(cased: bool, first: seq<Item>, second: seq<Item>, value: Item -> Json)
    ensures Members(Merge(KeyOf, cased, first, second), value)
         == Merge(MemberKey, cased, Members(first, value), Members(second, value))
    decreases |first| + |second|
  {
    hide Order;
    var x, y := Members(first, value), Members(second, value);
    if first != [] && second != [] {
      MembersOfParts(first, value, 1);
      MembersOfParts(second, value, 1);
      if Before(KeyOf, cased, first[0], second[0]) {
        MergeAlike(cased, first[1..], second, value);
        MembersFront(first[0], Merge(KeyOf, cased, first[1..], second), value);
      } else {
        MergeAlike(cased, first, second[1..], value);
        MembersFront(second[0], Merge(KeyOf, cased, first, second[1..]), value);
      }
    }
  }

  lemma MembersFront(item: Item, items: seq<Item>, value: Item -> Json)
    ensures Members([item] + items, value) == [Member(item.key, value(item))] + Members(items, value)
  {
  }

  lemma {:induction false} SortAlike(cased: bool, items: seq<Item>, value: Item -> Json)
    ensures Members(Sort(KeyOf, cased, items), value) == Sort(MemberKey, cased, Members(items, value))
    decreases |items|
  {
    hide Order, Merge;
    var m := Members(items, value);
    assert forall i | 0 <= i < |items| - 1 ::
      Before(KeyOf, cased, items[i], items[i + 1]) <==> Before(MemberKey, cased, m[i], m[i + 1]);
    assert Ascending(KeyOf, cased, items) <==> Ascending(MemberKey, cased, m);
    if |items| > 1 && !Ascending(KeyOf, cased, items) {
      var h := Half(|items|);
      MembersOfParts(items, value, h);
      SortAlike(cased, items[..h], value);
      SortAlike(cased, items[h..], value);
      MergeAlike(cased, Sort(KeyOf, cased, items[..h]), Sort(KeyOf, cased, items[h..]), value);
    }
  }

  /** `sort_object`: the members are sorted as the comparing and generating functions are taken to sort them. */
  method SortMembersOf(parent: Item, cased: bool, ghost value: Item -> Json)
    requires Chained(parent.child, parent.kids) && parent !in parent.kids
    modifies parent, parent.kids
    ensures Chained(parent.child, parent.kids) && parent !in parent.kids
    ensures Members(parent.kids, value) == SortMembers(cased, Members(old(parent.kids), value))
  {
    hide Sort, Sorted, Chained;
    SortAlike(cased, parent.kids, value);
    SortedIs(cased, Members(parent.kids, value));
    SortObject(parent, cased);
  }

  lemma SortedIs(cased: bool, m: seq<Member>)
    ensures SortMembers(cased, m) == Sort(MemberKey, cased, m)
  {
    hide Sort, Height;
  }
}
