/** Keys whose order and identity case does not change. */
module CaseOrder {
  import opened Prelude
  import opened Json
  import opened Sorting
  import opened Compare

  /** Lower-casing keeps the `strcmp` order of the keys strict; in particular no two match up to case. */
  ghost predicate CaseKeepsOrder(keys: iset<Str>) {
    forall a, b | a in keys && b in keys && Lex(a, b) < 0 :: Order(false, a, b) < 0
  }

  /** Case keeps the order of "A" and "B", but not that of "B" and "a", nor of "A" and "a". */
  lemma SomeKeys()
    ensures CaseKeepsOrder(iset{[65], [66]})
    ensures !CaseKeepsOrder(iset{[66], [97]}) && !CaseKeepsOrder(iset{[65], [97]})
  {
    assert Fold(false, [65]) == [97] && Fold(false, [66]) == [98] && Fold(false, [97]) == [97];
    hide Fold;
    assert Order(false, [65], [66]) < 0 && Lex([65], [66]) < 0 < Lex([66], [65]);
    assert Order(false, [66], [97]) >= 0 && Lex([66], [97]) < 0;
    assert Order(false, [65], [97]) >= 0 && Lex([65], [97]) < 0;
    assert Lex([65], [65]) == 0 && Lex([66], [66]) == 0;
    hide Lex, Order;
    Breaks(iset{[66], [97]}, [66], [97]);
    Breaks(iset{[65], [97]}, [65], [97]);
  }

  lemma Breaks(keys: iset<Str>, a: Str, b: Str)
    requires a in keys && b in keys && Lex(a, b) < 0 && Order(false, a, b) >= 0
    ensures !CaseKeepsOrder(keys)
  {
  }

  lemma SameOrder(keys: iset<Str>, a: Str, b: Str)
    requires CaseKeepsOrder(keys) && a in keys && b in keys
    ensures Order(false, a, b) < 0 <==> Order(true, a, b) < 0
    ensures Order(false, a, b) == 0 <==> Order(true, a, b) == 0
  {
    FoldCase(a);
    FoldCase(b);
    LexTotal(a, b);
    OrderTotal(false, a, b);
  }

  lemma KeptApart(keys: iset<Str>)
    requires CaseKeepsOrder(keys)
    ensures CaseDistinct(keys)
  {
    hide Fold;
    forall a, b | a in keys && b in keys && Fold(false, a) == Fold(false, b) ensures a == b {
      LexTotal(a, b);
      OrderTotal(false, a, b);
    }
  }

  // ----- sorting -----

  ghost predicate SameBefore<T(!new)>(key: T -> Str, items: seq<T>) {
    forall x, y | x in items && y in items :: Before(key, false, x, y) <==> Before(key, true, x, y)
  }

  lemma {:induction false} SameMerge<T(!new)>(key: T -> Str, first: seq<T>, second: seq<T>)
    requires SameBefore(key, first + second)
    ensures Merge(key, false, first, second) == Merge(key, true, first, second)
    decreases |first| + |second|
  {
    hide Before;
    if first != [] && second != [] {
      assert first[0] in first + second && second[0] in first + second;
      if Before(key, false, first[0], second[0]) {
        SameMerge(key, first[1..], second);
      } else {
        SameMerge(key, first, second[1..]);
      }
    }
  }

  lemma {:induction false} SameSort<T(!new)>(key: T -> Str, items: seq<T>)
    requires SameBefore(key, items)
    ensures Sort(key, false, items) == Sort(key, true, items)
    decreases |items|
  {
    hide Before, Merge;
    assert Ascending(key, false, items) <==> Ascending(key, true, items);
    if |items| > 1 && !Ascending(key, true, items) {
      var m := Half(|items|);
      var a, b := items[..m], items[m..];
      SameSort(key, a);
      SameSort(key, b);
      SortPermutes(key, true, a);
      SortPermutes(key, true, b);
      var x, y := Sort(key, true, a), Sort(key, true, b);
      hide Sort;
      forall z | z in x + y ensures z in items {
        assert z in multiset(x) || z in multiset(y);
      }
      SameMerge(key, x, y);
    }
  }

  lemma SameSortMembers(keys: iset<Str>, x: seq<Member>)
    requires CaseKeepsOrder(keys) && KeysOf(keys, x)
    ensures SortMembers(false, x) == SortMembers(true, x)
    ensures KeysOf(keys, SortMembers(true, x))
  {
    hide Order, KeysIn, Sort;
    forall a, b | a in x && b in x ensures Before(MemberKey, false, a, b) <==> Before(MemberKey, true, a, b) {
      SameOrder(keys, a.key, b.key);
    }
    SameSort(MemberKey, x);
    SortedKeys(true, keys, x);
  }

  // ----- comparing -----

  /** Comparing with and without case comes to the same, and leaves the same keys. */
  lemma {:induction false} SameCompare(keys: iset<Str>, a: Json, b: Json)
    requires CaseKeepsOrder(keys) && KeysIn(keys, a) && KeysIn(keys, b)
    ensures CompareJson(false, a, b) == CompareJson(true, a, b)
    ensures var r := CompareJson(true, a, b); KeysIn(keys, r.a) && KeysIn(keys, r.b)
    decreases Height(a), 1, 0
  {
    hide CompareItems, CompareMembers, SortMembers, CaseKeepsOrder;
    match (a, b)
    case (Array(x), Array(y)) => SameItems(keys, x, y, Height(a));
    case (Object(x), Object(y)) =>
      SameSortMembers(keys, x);
      SameSortMembers(keys, y);
      SameMembers(keys, SortMembers(true, x), SortMembers(true, y), Height(a));
    case _ =>
  }

  lemma {:induction false} SameItems(keys: iset<Str>, x: seq<Json>, y: seq<Json>, bound: nat)
    requires CaseKeepsOrder(keys) && forall i | 0 <= i < |x| :: Height(x[i]) < bound
    requires KeysIn(keys, Array(x)) && KeysIn(keys, Array(y))
    ensures CompareItems(false, x, y, bound) == CompareItems(true, x, y, bound)
    ensures var r := CompareItems(true, x, y, bound); KeysIn(keys, Array(r.x)) && KeysIn(keys, Array(r.y))
    decreases bound, 0, |x|
  {
    hide CompareJson, Height, CaseKeepsOrder;
    if x != [] && y != [] {
      SameCompare(keys, x[0], y[0]);
      if CompareJson(true, x[0], y[0]).same {
        SameItems(keys, x[1..], y[1..], bound);
      }
    }
  }

  lemma {:induction false} SameMembers(keys: iset<Str>, x: seq<Member>, y: seq<Member>, bound: nat)
    requires CaseKeepsOrder(keys) && forall i | 0 <= i < |x| :: Height(x[i].value) < bound
    requires KeysOf(keys, x) && KeysOf(keys, y)
    ensures CompareMembers(false, x, y, bound) == CompareMembers(true, x, y, bound)
    ensures var r := CompareMembers(true, x, y, bound); KeysOf(keys, r.x) && KeysOf(keys, r.y)
    decreases bound, 0, |x|
  {
    hide CompareJson, Height, CaseKeepsOrder, Order, KeysIn;
    if x != [] && y != [] {
      SameOrder(keys, x[0].key, y[0].key);
      SameCompare(keys, x[0].value, y[0].value);
      if CompareJson(true, x[0].value, y[0].value).same {
        SameMembers(keys, x[1..], y[1..], bound);
      }
    }
  }

  // ----- meaning -----

  lemma {:induction false} UniqueWithCase(v: Json)
    requires Unique(false, v)
    ensures Unique(true, v)
    decreases v
  {
    match v
    case Array(items) =>
      forall i | 0 <= i < |items| ensures Unique(true, items[i]) {
        UniqueWithCase(items[i]);
      }
    case Object(members) =>
      forall i | 0 <= i < |members| ensures Unique(true, members[i].value) {
        UniqueWithCase(members[i].value);
      }
    case _ =>
  }

  lemma {:induction false} UniqueWithoutCase(keys: iset<Str>, v: Json)
    requires CaseDistinct(keys) && KeysIn(keys, v) && Unique(true, v)
    ensures Unique(false, v)
    decreases v
  {
    match v
    case Array(items) =>
      forall i | 0 <= i < |items| ensures Unique(false, items[i]) {
        UniqueWithoutCase(keys, items[i]);
      }
    case Object(members) =>
      forall i | 0 <= i < |members| ensures Unique(false, members[i].value) {
        UniqueWithoutCase(keys, members[i].value);
      }
      hide Fold;
      forall i, j | 0 <= i < j < |members| ensures Fold(false, members[i].key) != Fold(false, members[j].key) {
        assert members[i].key in keys && members[j].key in keys;
      }
    case _ =>
  }

  /** Two trees mean the same with case exactly if they do without. */
  lemma SameMeaning(keys: iset<Str>, a: Json, b: Json)
    requires CaseKeepsOrder(keys) && KeysIn(keys, a) && KeysIn(keys, b)
    requires Unique(false, a) && Unique(false, b)
    ensures Meaning(true, a) == Meaning(true, b) <==> Meaning(false, a) == Meaning(false, b)
  {
    hide CompareJson, Meaning, Unique;
    UniqueWithCase(a);
    UniqueWithCase(b);
    SameCompare(keys, a, b);
    CompareJsonIsEquality(false, a, b);
    CompareJsonIsEquality(true, a, b);
  }
}
