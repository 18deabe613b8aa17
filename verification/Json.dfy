/** JSON values as cJSON keeps them, and what they mean regardless of member order. */
module Json {
  import opened Prelude

  /**
   A number whose double is an `int` is kept by that value; any other number is kept by its literal.
   Objects keep their members in list order, and a key may occur twice.
   */
  datatype Json =
    | Null
    | False
    | True
    | Number(n: int)
    | Real(literal: Str)
    | String(s: Str)
    | Array(items: seq<Json>)
    | Object(members: seq<Member>)

  datatype Member = Member(key: Str, value: Json)

  function MemberKey(m: Member): Str {
    m.key
  }

  /** A JSON value with objects as maps. */
  datatype Value =
    | VNull
    | VBool(b: bool)
    | VNumber(n: int)
    | VReal(literal: Str)
    | VString(s: Str)
    | VArray(items: seq<Value>)
    | VObject(members: map<Str, Value>)

  /** What `v` means when keys are compared with or without case; of equal keys the first counts. */
  function Meaning(cased: bool, v: Json): Value
    decreases v, 1
  {
    match v
    case Null => VNull
    case False => VBool(false)
    case True => VBool(true)
    case Number(n) => VNumber(n)
    case Real(literal) => VReal(literal)
    case String(s) => VString(s)
    case Array(items) => VArray(seq(|items|, i requires 0 <= i < |items| => Meaning(cased, items[i])))
    case Object(members) => VObject(MeaningOf(cased, members))
  }

  function MeaningOf(cased: bool, members: seq<Member>): map<Str, Value>
    decreases members, 0
  {
    if members == [] then map[]
    else
      MeaningOf(cased, members[1..])[Fold(cased, members[0].key) := Meaning(cased, members[0].value)]
  }

  /** The index of the first member with a matching key, or the number of members: `get_object_item`. */
  function Find(cased: bool, members: seq<Member>, key: Str): (k: nat)
    ensures k <= |members|
    ensures k < |members| ==> Fold(cased, members[k].key) == Fold(cased, key)
    ensures forall i | 0 <= i < k :: Fold(cased, members[i].key) != Fold(cased, key)
  {
    if members == [] then 0
    else if Fold(cased, members[0].key) == Fold(cased, key) then 0
    else 1 + Find(cased, members[1..], key)
  }

  /** The loop of `get_object_item` over a member list. */
  method GetObjectItem(cased: bool, members: seq<Member>, key: Str) returns (k: nat)
    ensures k == Find(cased, members, key)
  {
    k := 0;
    assert members[0..] == members;
    while k < |members| && Fold(cased, members[k].key) != Fold(cased, key)
      invariant k <= |members|
      invariant Find(cased, members, key) == k + Find(cased, members[k..], key)
    {
      hide Fold;
      assert members[k..][1..] == members[k + 1..];
      k := k + 1;
    }
  }

  /** No two members have matching keys. */
  ghost predicate DistinctKeys(cased: bool, members: seq<Member>) {
    forall i, j | 0 <= i < j < |members| :: Fold(cased, members[i].key) != Fold(cased, members[j].key)
  }

  /** In no object of `v` do two members have matching keys. */
  ghost predicate Unique(cased: bool, v: Json) {
    match v
    case Array(items) => forall i | 0 <= i < |items| :: Unique(cased, items[i])
    case Object(members) =>
      DistinctKeys(cased, members) && forall i | 0 <= i < |members| :: Unique(cased, members[i].value)
    case _ => true
  }

  /** The map a member list means, seen from a key: the first match decides. */
  lemma {:induction false} MeaningAt(cased: bool, members: seq<Member>, key: Str)
    ensures var k := Find(cased, members, key); var m := MeaningOf(cased, members);
      && (k < |members| <==> Fold(cased, key) in m)
      && (k < |members| ==> m[Fold(cased, key)] == Meaning(cased, members[k].value))
  {
    hide Meaning, Fold;
    if members != [] {
      MeaningAt(cased, members[1..], key);
    }
  }

  lemma {:induction false} MeaningKeys(cased: bool, members: seq<Member>)
    ensures forall f | f in MeaningOf(cased, members) ::
      exists i :: 0 <= i < |members| && Fold(cased, members[i].key) == f
  {
    hide Meaning, Fold;
    if members != [] {
      MeaningKeys(cased, members[1..]);
      forall f | f in MeaningOf(cased, members)
        ensures exists i :: 0 <= i < |members| && Fold(cased, members[i].key) == f
      {
        if f != Fold(cased, members[0].key) {
          assert f in MeaningOf(cased, members[1..]);
          var i :| 0 <= i < |members[1..]| && Fold(cased, members[1..][i].key) == f;
          assert members[i + 1] == members[1..][i];
        } else {
          assert members[0] == members[0];
        }
      }
    }
  }

  /** With distinct keys, every member is in the map under its own key. */
  lemma MeaningOfMember(cased: bool, members: seq<Member>, i: nat)
    requires DistinctKeys(cased, members) && i < |members|
    ensures var m := MeaningOf(cased, members); var f := Fold(cased, members[i].key);
      f in m && m[f] == Meaning(cased, members[i].value)
    ensures Find(cased, members, members[i].key) == i
  {
    hide Meaning, MeaningOf, Fold;
    MeaningAt(cased, members, members[i].key);
  }

  /** With distinct keys, member order does not matter. */
  lemma MeaningOfPermutation(cased: bool, a: seq<Member>, b: seq<Member>)
    requires multiset(a) == multiset(b) && DistinctKeys(cased, a)
    ensures DistinctKeys(cased, b)
    ensures MeaningOf(cased, a) == MeaningOf(cased, b)
  {
    hide Meaning, MeaningOf, Fold;
    PermutationDistinct(cased, a, b);
    PermutationIncluded(cased, a, b);
    PermutationIncluded(cased, b, a);
  }

  lemma PermutationIncluded(cased: bool, a: seq<Member>, b: seq<Member>)
    requires multiset(a) == multiset(b) && DistinctKeys(cased, a)
    requires DistinctKeys(cased, b)
    ensures var m, n := MeaningOf(cased, a), MeaningOf(cased, b);
      forall f | f in m :: f in n && n[f] == m[f]
  {
    hide Meaning, MeaningOf, Fold;
    var m, n := MeaningOf(cased, a), MeaningOf(cased, b);
    MeaningKeys(cased, a);
    forall f | f in m ensures f in n && n[f] == m[f] {
      var i :| 0 <= i < |a| && Fold(cased, a[i].key) == f;
      assert a[i] in multiset(a);
      assert a[i] in b;
      var j :| 0 <= j < |b| && b[j] == a[i];
      MeaningOfMember(cased, a, i);
      MeaningOfMember(cased, b, j);
    }
  }

  lemma PermutationDistinct(cased: bool, a: seq<Member>, b: seq<Member>)
    requires multiset(a) == multiset(b) && DistinctKeys(cased, a)
    ensures DistinctKeys(cased, b)
  {
    hide Fold;
    forall i, j | 0 <= i < j < |b| ensures Fold(cased, b[i].key) != Fold(cased, b[j].key) {
      assert b[i] in multiset(a) && b[j] in multiset(a);
      var p :| 0 <= p < |a| && a[p] == b[i];
      var q :| 0 <= q < |a| && a[q] == b[j];
      if b[i] == b[j] {
        TwiceInMultiset(b, i, j);
        OnceInMultiset(cased, a, p);
      } else {
        assert p != q;
      }
    }
  }

  lemma TwiceInMultiset(b: seq<Member>, i: nat, j: nat)
    requires i < j < |b| && b[i] == b[j]
    ensures multiset(b)[b[i]] >= 2
  {
    assert b == b[..j] + b[j..];
    assert b[i] in b[..j] && b[j] in b[j..];
  }

  lemma {:induction false} OnceInMultiset(cased: bool, a: seq<Member>, p: nat)
    requires DistinctKeys(cased, a) && p < |a|
    ensures multiset(a)[a[p]] == 1
  {
    hide Fold;
    assert a == a[..p] + [a[p]] + a[p + 1..];
    assert a[p] !in a[..p] && a[p] !in a[p + 1..];
  }

  // ----- changing member lists -----

  ghost predicate UniqueValues(cased: bool, members: seq<Member>) {
    forall i | 0 <= i < |members| :: Unique(cased, members[i].value)
  }

  /** `cJSON_DetachItemFromObject` and `cJSON_DeleteItemFromObject`: the first match goes. */
  function RemoveKey(cased: bool, members: seq<Member>, key: Str): seq<Member> {
    var k := Find(cased, members, key);
    if k < |members| then Without(members, k) else members
  }

  lemma WithoutAt(members: seq<Member>, k: nat)
    requires k < |members|
    ensures var r := Without(members, k);
      forall i | 0 <= i < |r| :: r[i] == if i < k then members[i] else members[i + 1]
    ensures var r := Without(members, k);
      forall i | 0 <= i < |members| && i != k :: r[if i < k then i else i - 1] == members[i]
  {
  }

  lemma WithoutDistinct(cased: bool, members: seq<Member>, k: nat)
    requires DistinctKeys(cased, members) && k < |members|
    ensures DistinctKeys(cased, Without(members, k))
    ensures UniqueValues(cased, members) ==> UniqueValues(cased, Without(members, k))
  {
    hide Fold, Unique, Without;
    WithoutAt(members, k);
    var r := Without(members, k);
    forall i, j | 0 <= i < j < |r| ensures Fold(cased, r[i].key) != Fold(cased, r[j].key) {
      var p, q := if i < k then i else i + 1, if j < k then j else j + 1;
      assert r[i] == members[p] && r[j] == members[q];
    }
    if UniqueValues(cased, members) {
      forall i | 0 <= i < |r| ensures Unique(cased, r[i].value) {
        assert r[i] == members[if i < k then i else i + 1];
      }
    }
  }

  /** What is left in the map after a removal was there before, under another key. */
  lemma WithoutIncluded(cased: bool, members: seq<Member>, k: nat)
    requires DistinctKeys(cased, members) && k < |members|
    ensures forall g | g in MeaningOf(cased, Without(members, k)) ::
      g in MeaningOf(cased, members) && g != Fold(cased, members[k].key)
  {
    hide Meaning, MeaningOf, Fold, Unique, Without;
    var r := Without(members, k);
    WithoutAt(members, k);
    MeaningKeys(cased, r);
    forall g | g in MeaningOf(cased, r)
      ensures g in MeaningOf(cased, members) && g != Fold(cased, members[k].key)
    {
      var j :| 0 <= j < |r| && Fold(cased, r[j].key) == g;
      MeaningOfMember(cased, members, if j < k then j else j + 1);
    }
  }

  /** Every other member stays in the map. */
  lemma WithoutKeeps(cased: bool, members: seq<Member>, k: nat)
    requires DistinctKeys(cased, members) && k < |members|
    ensures var m, n := MeaningOf(cased, members), MeaningOf(cased, Without(members, k));
      forall g | g in m && g != Fold(cased, members[k].key) :: g in n && n[g] == m[g]
  {
    hide Meaning, MeaningOf, Fold, Unique, Without;
    var r := Without(members, k);
    WithoutAt(members, k);
    WithoutDistinct(cased, members, k);
    var m, n := MeaningOf(cased, members), MeaningOf(cased, r);
    MeaningKeys(cased, members);
    forall g | g in m && g != Fold(cased, members[k].key) ensures g in n && n[g] == m[g] {
      var i :| 0 <= i < |members| && Fold(cased, members[i].key) == g;
      MeaningOfMember(cased, members, i);
      MeaningOfMember(cased, r, if i < k then i else i - 1);
    }
  }

  /** Removing a member removes its key from the map. */
  lemma RemoveMeaning(cased: bool, members: seq<Member>, key: Str)
    requires DistinctKeys(cased, members)
    ensures var r := RemoveKey(cased, members, key);
      && DistinctKeys(cased, r)
      && MeaningOf(cased, r) == MeaningOf(cased, members) - {Fold(cased, key)}
      && (UniqueValues(cased, members) ==> UniqueValues(cased, r))
  {
    hide Meaning, MeaningOf, Fold, UniqueValues, DistinctKeys, Without;
    var k := Find(cased, members, key);
    MeaningAt(cased, members, key);
    if k < |members| {
      WithoutDistinct(cased, members, k);
      WithoutIncluded(cased, members, k);
      WithoutKeeps(cased, members, k);
    }
  }

  lemma MapUpdatesSwap<K, V>(m: map<K, V>, f: K, v: V, g: K, w: V)
    requires f != g
    ensures m[f := v][g := w] == m[g := w][f := v]
  {
  }

  lemma AppendDistinct(cased: bool, members: seq<Member>, m: Member)
    requires DistinctKeys(cased, members)
    requires Fold(cased, m.key) !in MeaningOf(cased, members)
    ensures DistinctKeys(cased, members + [m])
  {
    hide Meaning, MeaningOf, Fold;
    forall i | 0 <= i < |members| ensures Fold(cased, members[i].key) != Fold(cased, m.key) {
      MeaningOfMember(cased, members, i);
    }
  }

  /** Adding a member with a new key adds it to the map. */
  lemma {:induction false} AppendMeaning(cased: bool, members: seq<Member>, m: Member)
    requires Fold(cased, m.key) !in MeaningOf(cased, members)
    ensures MeaningOf(cased, members + [m])
         == MeaningOf(cased, members)[Fold(cased, m.key) := Meaning(cased, m.value)]
  {
    hide Meaning, Fold;
    if members == [] {
      assert [] + [m] == [m];
      assert MeaningOf(cased, [m]) == MeaningOf(cased, [m][1..])[Fold(cased, m.key) := Meaning(cased, m.value)];
    } else {
      assert (members + [m])[0] == members[0] && (members + [m])[1..] == members[1..] + [m];
      var rest := MeaningOf(cased, members[1..]);
      assert MeaningOf(cased, members) == rest[Fold(cased, members[0].key) := Meaning(cased, members[0].value)];
      AppendMeaning(cased, members[1..], m);
      assert MeaningOf(cased, members + [m])
          == MeaningOf(cased, members[1..] + [m])[Fold(cased, members[0].key) := Meaning(cased, members[0].value)];
      hide MeaningOf;
      MapUpdatesSwap(rest, Fold(cased, m.key), Meaning(cased, m.value),
                     Fold(cased, members[0].key), Meaning(cased, members[0].value));
    }
  }

  // ----- the keys that occur -----

  /** Every key in `v` belongs to `keys`. */
  ghost predicate KeysIn(keys: iset<Str>, v: Json) {
    match v
    case Array(items) => forall i | 0 <= i < |items| :: KeysIn(keys, items[i])
    case Object(members) => KeysOf(keys, members)
    case _ => true
  }

  ghost predicate KeysOf(keys: iset<Str>, members: seq<Member>) {
    forall i | 0 <= i < |members| :: members[i].key in keys && KeysIn(keys, members[i].value)
  }

  /** No two distinct keys match up to case. */
  ghost predicate CaseDistinct(keys: iset<Str>) {
    forall a, b | a in keys && b in keys && Fold(false, a) == Fold(false, b) :: a == b
  }

  lemma FoldCase(s: Str)
    ensures Fold(true, s) == s
  {
  }

  /** Where keys are told apart by more than their case, both lookups find the same member. */
  lemma {:induction false} CaseDoesNotMatter(keys: iset<Str>, members: seq<Member>, t: Str)
    requires CaseDistinct(keys) && KeysOf(keys, members) && t in keys
    ensures Find(false, members, t) == Find(true, members, t)
  {
    hide Fold, KeysIn;
    if members != [] {
      assert members[0].key in keys;
      assert Fold(true, members[0].key) == Fold(true, t) <==> members[0].key == t by {
        FoldCase(members[0].key);
        FoldCase(t);
      }
      CaseDoesNotMatter(keys, members[1..], t);
    }
  }

  lemma KeysWithout(keys: iset<Str>, members: seq<Member>, k: nat)
    requires KeysOf(keys, members) && k < |members|
    ensures KeysOf(keys, Without(members, k))
  {
    hide KeysIn, Without;
    WithoutAt(members, k);
    var r := Without(members, k);
    forall i | 0 <= i < |r| ensures r[i].key in keys && KeysIn(keys, r[i].value) {
      assert r[i] == members[if i < k then i else i + 1];
    }
  }

  // ----- nesting -----

  const CIRCULAR_LIMIT := 10000

  /** How many levels of children lie below `v`. */
  function Height(v: Json): nat
    decreases v, 1
  {
    match v
    case Array(items) => HeightOfItems(items)
    case Object(members) => HeightOfMembers(members)
    case _ => 0
  }

  function HeightOfItems(items: seq<Json>): (h: nat)
    ensures forall i | 0 <= i < |items| :: Height(items[i]) < h
    decreases items, 0
  {
    if items == [] then 0
    else
      var h := HeightOfItems(items[1..]);
      assert forall i | 1 <= i < |items| :: items[i] == items[1..][i - 1];
      if Height(items[0]) < h then h else Height(items[0]) + 1
  }

  function HeightOfMembers(members: seq<Member>): (h: nat)
    ensures forall i | 0 <= i < |members| :: Height(members[i].value) < h
    decreases members, 0
  {
    if members == [] then 0
    else
      var h := HeightOfMembers(members[1..]);
      assert forall i | 1 <= i < |members| :: members[i] == members[1..][i - 1];
      if Height(members[0].value) < h then h else Height(members[0].value) + 1
  }

  /** `cJSON_Duplicate_rec` at a nesting depth: refuses children below the circularity limit. */
  function DuplicateAt(v: Json, depth: nat): Option<Json>
    decreases v, 1
  {
    match v
    case Array(items) =>
      var copies := DuplicateItems(items, depth);
      if copies.None? then None else Some(Array(copies.value))
    case Object(members) =>
      var copies := DuplicateMembers(members, depth);
      if copies.None? then None else Some(Object(copies.value))
    case _ => Some(v)
  }

  function DuplicateItems(items: seq<Json>, depth: nat): Option<seq<Json>>
    decreases items, 0
  {
    if items == [] then Some([])
    else if depth >= CIRCULAR_LIMIT then None
    else
      var first, rest := DuplicateAt(items[0], depth + 1), DuplicateItems(items[1..], depth);
      if first.None? || rest.None? then None else Some([first.value] + rest.value)
  }

  function DuplicateMembers(members: seq<Member>, depth: nat): Option<seq<Member>>
    decreases members, 0
  {
    if members == [] then Some([])
    else if depth >= CIRCULAR_LIMIT then None
    else
      var first, rest := DuplicateAt(members[0].value, depth + 1), DuplicateMembers(members[1..], depth);
      if first.None? || rest.None? then None else Some([Member(members[0].key, first.value)] + rest.value)
  }

  /** `cJSON_Duplicate`. */
  function Duplicate(v: Json): Option<Json> {
    DuplicateAt(v, 0)
  }

  /** `cJSON_Duplicate_rec`: the copies of the children are appended one by one. */
  method DuplicateRec(v: Json, depth: nat) returns (copy: Option<Json>)
    ensures copy == DuplicateAt(v, depth)
    decreases v
  {
    match v
    case Array(items) =>
      var k, copies := 0, [];
      assert items[0..] == items;
      BehindStep([], Null, DuplicateItems(items, depth));
      while k < |items|
        invariant k <= |items|
        invariant DuplicateItems(items, depth) == Behind(copies, DuplicateItems(items[k..], depth))
      {
        if depth >= CIRCULAR_LIMIT {
          return None;
        }
        assert items[k..][0] == items[k] && items[k..][1..] == items[k + 1..];
        var c := DuplicateRec(items[k], depth + 1);
        if c.None? {
          return None;
        }
        BehindStep(copies, c.value, DuplicateItems(items[k + 1..], depth));
        k, copies := k + 1, copies + [c.value];
      }
      assert copies + [] == copies;
      return Some(Array(copies));
    case Object(members) =>
      var k, copies := 0, [];
      assert members[0..] == members;
      BehindStep([], Member([], Null), DuplicateMembers(members, depth));
      while k < |members|
        invariant k <= |members|
        invariant DuplicateMembers(members, depth) == Behind(copies, DuplicateMembers(members[k..], depth))
      {
        if depth >= CIRCULAR_LIMIT {
          return None;
        }
        assert members[k..][0] == members[k] && members[k..][1..] == members[k + 1..];
        var c := DuplicateRec(members[k].value, depth + 1);
        if c.None? {
          return None;
        }
        var m := Member(members[k].key, c.value);
        BehindStep(copies, m, DuplicateMembers(members[k + 1..], depth));
        k, copies := k + 1, copies + [m];
      }
      assert copies + [] == copies;
      return Some(Object(copies));
    case _ => return Some(v);
  }

  /** The copies so far and those to come. */
  function Behind<T>(copies: seq<T>, rest: Option<seq<T>>): Option<seq<T>> {
    if rest.None? then None else Some(copies + rest.value)
  }

  lemma BehindStep<T>(copies: seq<T>, copy: T, rest: Option<seq<T>>)
    ensures Behind(copies, Behind([copy], rest)) == Behind(copies + [copy], rest)
    ensures Behind([], rest) == rest
  {
    if rest.Some? {
      assert [] + rest.value == rest.value;
      assert copies + ([copy] + rest.value) == copies + [copy] + rest.value;
    }
  }

  /** A duplicate is the same value, and exists exactly up to the nesting limit. */
  lemma {:induction false} DuplicateExact(v: Json, depth: nat)
    requires depth <= CIRCULAR_LIMIT
    ensures DuplicateAt(v, depth) == if depth + Height(v) <= CIRCULAR_LIMIT then Some(v) else None
    decreases v, 1
  {
    match v
    case Array(items) => DuplicateItemsExact(items, depth);
    case Object(members) => DuplicateMembersExact(members, depth);
    case _ =>
  }

  lemma {:induction false} DuplicateItemsExact(items: seq<Json>, depth: nat)
    requires depth <= CIRCULAR_LIMIT
    ensures DuplicateItems(items, depth) == if depth + HeightOfItems(items) <= CIRCULAR_LIMIT then Some(items) else None
    decreases items, 0
  {
    if items != [] && depth < CIRCULAR_LIMIT {
      DuplicateExact(items[0], depth + 1);
      DuplicateItemsExact(items[1..], depth);
      assert items == [items[0]] + items[1..];
    }
  }

  lemma {:induction false} DuplicateMembersExact(members: seq<Member>, depth: nat)
    requires depth <= CIRCULAR_LIMIT
    ensures DuplicateMembers(members, depth)
         == if depth + HeightOfMembers(members) <= CIRCULAR_LIMIT then Some(members) else None
    decreases members, 0
  {
    if members != [] && depth < CIRCULAR_LIMIT {
      DuplicateExact(members[0].value, depth + 1);
      DuplicateMembersExact(members[1..], depth);
      assert members == [members[0]] + members[1..];
    }
  }

  /** The height of a list is the least bound of its members' heights. */
  lemma {:induction false} HeightLeast(members: seq<Member>, bound: nat)
    requires forall i | 0 <= i < |members| :: Height(members[i].value) < bound
    ensures HeightOfMembers(members) <= bound
  {
    hide Height;
    if members != [] {
      assert forall i | 0 <= i < |members[1..]| :: members[1..][i] == members[i + 1];
      HeightLeast(members[1..], bound);
    }
  }

  lemma {:induction false} HeightLeastItems(items: seq<Json>, bound: nat)
    requires forall i | 0 <= i < |items| :: Height(items[i]) < bound
    ensures HeightOfItems(items) <= bound
  {
    hide Height;
    if items != [] {
      HeightLeastItems(items[1..], bound);
    }
  }
}
