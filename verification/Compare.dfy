/**
 The two equality tests: cJSON_Compare of cJSON.c looks every member up in the other object;
 compare_json of cJSON_Utils.c sorts both objects in place and walks them side by side.
 */
module Compare {
  import opened Prelude
  import opened Json
  import opened Sorting

  // ----- cJSON_Compare -----

  /** `cJSON_Compare`. */
  predicate Compare(cased: bool, a: Json, b: Json)
    decreases Height(a) + Height(b), 1
  {
    match (a, b)
    case (Null, Null) => true
    case (False, False) => true
    case (True, True) => true
    case (Number(m), Number(n)) => m == n
    case (Real(l), Real(k)) => l == k
    case (String(s), String(t)) => s == t
    case (Array(x), Array(y)) =>
      |x| == |y| && forall i | 0 <= i < |x| :: Compare(cased, x[i], y[i])
    case (Object(x), Object(y)) =>
      && (forall i | 0 <= i < |x| :: Matched(cased, x[i], y, Height(a), Height(b)))
      && (forall j | 0 <= j < |y| :: Matched(cased, y[j], x, Height(b), Height(a)))
    case _ => false
  }

  /** True if the other object has a matching member with an equal value. */
  predicate Matched(cased: bool, m: Member, others: seq<Member>, bound: nat, otherBound: nat)
    requires Height(m.value) < bound
    requires forall i | 0 <= i < |others| :: Height(others[i].value) < otherBound
    decreases bound + otherBound, 0
  {
    var k := Find(cased, others, m.key);
    k < |others| && Compare(cased, m.value, others[k].value)
  }

  /** `cJSON_Compare` as written: arrays side by side, each object's members looked up in the other. */
  method CompareTrees(cased: bool, a: Json, b: Json) returns (same: bool)
    ensures same == Compare(cased, a, b)
    decreases Height(a) + Height(b), 1
  {
    hide HeightOfItems, HeightOfMembers, Matched, Fold;
    if a.Array? && b.Array? {
      var k := 0;
      while k < |a.items| && k < |b.items|
        invariant k <= |a.items| && k <= |b.items|
        invariant forall i | 0 <= i < k :: Compare(cased, a.items[i], b.items[i])
      {
        var equal := CompareTrees(cased, a.items[k], b.items[k]);
        if !equal {
          return false;
        }
        k := k + 1;
      }
      return |a.items| == |b.items|;
    } else if a.Object? && b.Object? {
      same := AllMatched(cased, a.members, b.members, Height(a), Height(b));
      if same {
        same := AllMatched(cased, b.members, a.members, Height(b), Height(a));
      }
    } else {
      same := a == b;
    }
  }

  /** One of its two loops over members. */
  method AllMatched(cased: bool, members: seq<Member>, others: seq<Member>, ghost bound: nat,
      ghost otherBound: nat) returns (all: bool)
    requires forall i | 0 <= i < |members| :: Height(members[i].value) < bound
    requires forall i | 0 <= i < |others| :: Height(others[i].value) < otherBound
    ensures all <==> forall i | 0 <= i < |members| :: Matched(cased, members[i], others, bound, otherBound)
    decreases bound + otherBound, 0
  {
    hide Compare, Height, Fold;
    var k := 0;
    while k < |members|
      invariant k <= |members|
      invariant forall i | 0 <= i < k :: Matched(cased, members[i], others, bound, otherBound)
    {
      var found := GetObjectItem(cased, others, members[k].key);
      if found == |others| {
        return false;
      }
      var equal := CompareTrees(cased, members[k].value, others[found].value);
      if !equal {
        return false;
      }
      k := k + 1;
    }
    return true;
  }

  /** On trees with unique keys `cJSON_Compare` decides equality of meaning. */
  lemma {:induction false} CompareIsEquality(cased: bool, a: Json, b: Json)
    requires Unique(cased, a) && Unique(cased, b)
    ensures Compare(cased, a, b) <==> Meaning(cased, a) == Meaning(cased, b)
    decreases Height(a) + Height(b), 2
  {
    match (a, b)
    case (Array(x), Array(y)) => ArraysEqual(cased, x, y);
    case (Object(x), Object(y)) => ObjectsEqual(cased, x, y);
    case _ =>
  }

  lemma {:induction false} ArraysEqual(cased: bool, x: seq<Json>, y: seq<Json>)
    requires Unique(cased, Array(x)) && Unique(cased, Array(y))
    ensures Compare(cased, Array(x), Array(y)) <==> Meaning(cased, Array(x)) == Meaning(cased, Array(y))
    decreases Height(Array(x)) + Height(Array(y)), 1
  {
    hide Meaning;
    if |x| == |y| {
      forall i | 0 <= i < |x|
        ensures Compare(cased, x[i], y[i]) <==> Meaning(cased, x[i]) == Meaning(cased, y[i])
      {
        CompareIsEquality(cased, x[i], y[i]);
      }
      ArrayMeanings(cased, x, y);
    } else {
      ArrayLength(cased, x);
      ArrayLength(cased, y);
    }
  }

  lemma ArrayLength(cased: bool, x: seq<Json>)
    ensures Meaning(cased, Array(x)).VArray?
    ensures |Meaning(cased, Array(x)).items| == |x|
  {
  }

  lemma {:induction false} ObjectsEqual(cased: bool, x: seq<Member>, y: seq<Member>)
    requires Unique(cased, Object(x)) && Unique(cased, Object(y))
    ensures Compare(cased, Object(x), Object(y)) <==> Meaning(cased, Object(x)) == Meaning(cased, Object(y))
    decreases Height(Object(x)) + Height(Object(y)), 1
  {
    hide Included, Matched, MeaningOf;
    var p, q := Height(Object(x)), Height(Object(y));
    forall i | 0 <= i < |x| ensures Matched(cased, x[i], y, p, q) <==> Included(cased, x[i], y) {
      MatchedIsIncluded(cased, x[i], y, p, q);
    }
    forall j | 0 <= j < |y| ensures Matched(cased, y[j], x, q, p) <==> Included(cased, y[j], x) {
      MatchedIsIncluded(cased, y[j], x, q, p);
    }
    MutualInclusion(cased, x, y);
  }

  lemma ArrayMeanings(cased: bool, x: seq<Json>, y: seq<Json>)
    requires |x| == |y|
    ensures Meaning(cased, Array(x)) == Meaning(cased, Array(y))
       <==> forall i | 0 <= i < |x| :: Meaning(cased, x[i]) == Meaning(cased, y[i])
  {
    var p, q := Meaning(cased, Array(x)).items, Meaning(cased, Array(y)).items;
    assert forall i | 0 <= i < |x| :: p[i] == Meaning(cased, x[i]) && q[i] == Meaning(cased, y[i]);
  }

  /** True if the map of `others` gives the member's key the member's value. */
  predicate Included(cased: bool, m: Member, others: seq<Member>) {
    var f, known := Fold(cased, m.key), MeaningOf(cased, others);
    f in known && known[f] == Meaning(cased, m.value)
  }

  lemma {:induction false} MatchedIsIncluded(cased: bool, m: Member, others: seq<Member>,
      bound: nat, otherBound: nat)
    requires Height(m.value) < bound
    requires forall i | 0 <= i < |others| :: Height(others[i].value) < otherBound
    requires Unique(cased, m.value)
    requires forall i | 0 <= i < |others| :: Unique(cased, others[i].value)
    ensures Matched(cased, m, others, bound, otherBound) <==> Included(cased, m, others)
    decreases bound + otherBound, 0
  {
    MeaningAt(cased, others, m.key);
    var k := Find(cased, others, m.key);
    if k < |others| {
      CompareIsEquality(cased, m.value, others[k].value);
    }
  }

  lemma MutualInclusion(cased: bool, x: seq<Member>, y: seq<Member>)
    requires DistinctKeys(cased, x) && DistinctKeys(cased, y)
    ensures MeaningOf(cased, x) == MeaningOf(cased, y)
       <==> (forall i | 0 <= i < |x| :: Included(cased, x[i], y))
            && (forall j | 0 <= j < |y| :: Included(cased, y[j], x))
  {
    hide *;
    var m, n := MeaningOf(cased, x), MeaningOf(cased, y);
    if m == n {
      SameIncludes(cased, x, y);
      SameIncludes(cased, y, x);
    }
    if (forall i | 0 <= i < |x| :: Included(cased, x[i], y)) && (forall j | 0 <= j < |y| :: Included(cased, y[j], x)) {
      IncludedMeaning(cased, x, y);
      IncludedMeaning(cased, y, x);
      SameMaps(m, n);
    }
  }

  predicate Within(m: map<Str, Value>, n: map<Str, Value>) {
    forall f | f in m :: f in n && n[f] == m[f]
  }

  lemma SameMaps(m: map<Str, Value>, n: map<Str, Value>)
    requires Within(m, n) && Within(n, m)
    ensures m == n
  {
  }

  lemma SameIncludes(cased: bool, x: seq<Member>, y: seq<Member>)
    requires DistinctKeys(cased, x) && MeaningOf(cased, x) == MeaningOf(cased, y)
    ensures forall i | 0 <= i < |x| :: Included(cased, x[i], y)
  {
    hide Meaning, MeaningOf, Fold;
    forall i | 0 <= i < |x| ensures Included(cased, x[i], y) {
      MeaningOfMember(cased, x, i);
    }
  }

  lemma IncludedMeaning(cased: bool, x: seq<Member>, y: seq<Member>)
    requires DistinctKeys(cased, x) && forall i | 0 <= i < |x| :: Included(cased, x[i], y)
    ensures Within(MeaningOf(cased, x), MeaningOf(cased, y))
  {
    hide Meaning, MeaningOf, Fold;
    MeaningKeys(cased, x);
    var m, n := MeaningOf(cased, x), MeaningOf(cased, y);
    forall f | f in m ensures f in n && n[f] == m[f] {
      var i :| 0 <= i < |x| && Fold(cased, x[i].key) == f;
      MeaningOfMember(cased, x, i);
    }
  }

  // ----- compare_json -----

  /** The verdict of `compare_json`, and its two arguments as the sorting leaves them. */
  datatype Outcome = Outcome(same: bool, a: Json, b: Json)

  datatype ItemsOutcome = ItemsOutcome(same: bool, x: seq<Json>, y: seq<Json>)

  datatype MembersOutcome = MembersOutcome(same: bool, x: seq<Member>, y: seq<Member>)

  /** `compare_json`. */
  function CompareJson(cased: bool, a: Json, b: Json): Outcome
    decreases Height(a), 1, 0
  {
    match (a, b)
    case (Null, Null) => Outcome(true, a, b)
    case (False, False) => Outcome(true, a, b)
    case (True, True) => Outcome(true, a, b)
    case (Number(m), Number(n)) => Outcome(m == n, a, b)
    case (Real(l), Real(k)) => Outcome(l == k, a, b)
    case (String(s), String(t)) => Outcome(s == t, a, b)
    case (Array(x), Array(y)) =>
      var r := CompareItems(cased, x, y, Height(a));
      Outcome(r.same, Array(r.x), Array(r.y))
    case (Object(x), Object(y)) =>
      var r := CompareMembers(cased, SortMembers(cased, x), SortMembers(cased, y), Height(a));
      Outcome(r.same, Object(r.x), Object(r.y))
    case _ => Outcome(false, a, b)
  }

  /** The walk over two arrays, up to the first difference. */
  function CompareItems(cased: bool, x: seq<Json>, y: seq<Json>,
      ghost bound: nat): (r: ItemsOutcome)
    requires forall i | 0 <= i < |x| :: Height(x[i]) < bound
    decreases bound, 0, |x|
  {
    if x == [] || y == [] then ItemsOutcome(x == [] && y == [], x, y)
    else
      var first := CompareJson(cased, x[0], y[0]);
      if !first.same then ItemsOutcome(false, [first.a] + x[1..], [first.b] + y[1..])
      else
        var rest := CompareItems(cased, x[1..], y[1..], bound);
        ItemsOutcome(rest.same, [first.a] + rest.x, [first.b] + rest.y)
  }

  /** The walk over two sorted objects, up to the first difference. */
  function CompareMembers(cased: bool, x: seq<Member>, y: seq<Member>,
      ghost bound: nat): (r: MembersOutcome)
    requires forall i | 0 <= i < |x| :: Height(x[i].value) < bound
    decreases bound, 0, |x|
  {
    if x == [] || y == [] then MembersOutcome(x == [] && y == [], x, y)
    else if Order(cased, x[0].key, y[0].key) != 0 then MembersOutcome(false, x, y)
    else
      var first := CompareJson(cased, x[0].value, y[0].value);
      var x0, y0 := Member(x[0].key, first.a), Member(y[0].key, first.b);
      if !first.same then MembersOutcome(false, [x0] + x[1..], [y0] + y[1..])
      else
        var rest := CompareMembers(cased, x[1..], y[1..], bound);
        MembersOutcome(rest.same, [x0] + rest.x, [y0] + rest.y)
  }

  /** `compare_json` as written, with the arguments as its sorting leaves them. */
  method CompareInPlace(cased: bool, a: Json, b: Json) returns (r: Outcome)
    ensures r == CompareJson(cased, a, b)
    decreases Height(a), 1
  {
    if a.Array? && b.Array? {
      var same, x, y := WalkItems(cased, a.items, b.items, Height(a));
      r := Outcome(same, Array(x), Array(y));
    } else if a.Object? && b.Object? {
      var x, y := SortMembers(cased, a.members), SortMembers(cased, b.members);
      var same: bool;
      same, x, y := WalkMembers(cased, x, y, Height(a));
      r := Outcome(same, Object(x), Object(y));
    } else {
      r := Outcome(a == b, a, b);
    }
  }

  /** Its loop over two arrays. */
  method WalkItems(cased: bool, a: seq<Json>, b: seq<Json>, ghost bound: nat) returns (same: bool,
      x: seq<Json>, y: seq<Json>)
    requires forall i | 0 <= i < |a| :: Height(a[i]) < bound
    ensures ItemsOutcome(same, x, y) == CompareItems(cased, a, b, bound)
    decreases bound, 0
  {
    hide CompareJson, Height, CompareItems, After;
    var k := 0;
    x, y := [], [];
    AfterItems([], [], a, b, CompareItems(cased, a, b, bound));
    while k < |a| && k < |b|
      invariant k <= |a| && k <= |b|
      invariant CompareItems(cased, a, b, bound) == After(x, y, CompareItems(cased, a[k..], b[k..], bound))
    {
      ItemsRound(cased, a, b, k, bound);
      var first := CompareInPlace(cased, a[k], b[k]);
      k := k + 1;
      if !first.same {
        AfterItems(x, y, [first.a], [first.b], ItemsOutcome(false, a[k..], b[k..]));
        AfterIs(x + [first.a], y + [first.b], ItemsOutcome(false, a[k..], b[k..]));
        return false, x + [first.a] + a[k..], y + [first.b] + b[k..];
      }
      AfterItems(x, y, [first.a], [first.b], CompareItems(cased, a[k..], b[k..], bound));
      x, y := x + [first.a], y + [first.b];
    }
    ItemsOver(cased, a, b, k, bound);
    AfterIs(x, y, ItemsOutcome(|a| == |b|, a[k..], b[k..]));
    same, x, y := |a| == |b|, x + a[k..], y + b[k..];
  }

  /** The outcome of the rest behind what has been walked. */
  function After(x: seq<Json>, y: seq<Json>, r: ItemsOutcome): ItemsOutcome {
    ItemsOutcome(r.same, x + r.x, y + r.y)
  }

  lemma AfterIs(x: seq<Json>, y: seq<Json>, r: ItemsOutcome)
    ensures After(x, y, r) == ItemsOutcome(r.same, x + r.x, y + r.y)
  {
  }

  lemma AfterItems(x: seq<Json>, y: seq<Json>, u: seq<Json>, v: seq<Json>, r: ItemsOutcome)
    ensures After(x, y, After(u, v, r)) == After(x + u, y + v, r) && After([], [], r) == r
    ensures u[0..] == u && v[0..] == v
  {
    assert x + (u + r.x) == x + u + r.x && y + (v + r.y) == y + v + r.y;
    assert [] + r.x == r.x && [] + r.y == r.y;
  }

  lemma ItemsRound(cased: bool, a: seq<Json>, b: seq<Json>, k: nat, bound: nat)
    requires k < |a| && k < |b| && forall i | 0 <= i < |a| :: Height(a[i]) < bound
    ensures var first := CompareJson(cased, a[k], b[k]);
      CompareItems(cased, a[k..], b[k..], bound)
      == After([first.a], [first.b],
           if first.same then CompareItems(cased, a[k + 1..], b[k + 1..], bound)
           else ItemsOutcome(false, a[k + 1..], b[k + 1..]))
  {
    hide CompareJson, Height;
    var p, q := a[k..], b[k..];
    assert p[0] == a[k] && p[1..] == a[k + 1..] && q[0] == b[k] && q[1..] == b[k + 1..];
  }

  lemma ItemsOver(cased: bool, a: seq<Json>, b: seq<Json>, k: nat, bound: nat)
    requires k <= |a| && k <= |b| && (k == |a| || k == |b|)
    requires forall i | 0 <= i < |a| :: Height(a[i]) < bound
    ensures CompareItems(cased, a[k..], b[k..], bound) == ItemsOutcome(|a| == |b|, a[k..], b[k..])
  {
    hide CompareJson, Height;
  }

  /** Its loop over two sorted objects. */
  method WalkMembers(cased: bool, a: seq<Member>, b: seq<Member>,
      ghost bound: nat) returns (same: bool, x: seq<Member>, y: seq<Member>)
    requires forall i | 0 <= i < |a| :: Height(a[i].value) < bound
    ensures MembersOutcome(same, x, y) == CompareMembers(cased, a, b, bound)
    decreases bound, 0
  {
    hide CompareJson, Height, Order, CompareMembers, Beyond;
    var k := 0;
    x, y := [], [];
    BeyondMembers([], [], a, b, CompareMembers(cased, a, b, bound));
    while k < |a| && k < |b|
      invariant k <= |a| && k <= |b|
      invariant CompareMembers(cased, a, b, bound) == Beyond(x, y, CompareMembers(cased, a[k..], b[k..], bound))
    {
      MembersRound(cased, a, b, k, bound);
      if Order(cased, a[k].key, b[k].key) != 0 {
        BeyondIs(x, y, MembersOutcome(false, a[k..], b[k..]));
        return false, x + a[k..], y + b[k..];
      }
      var first := CompareInPlace(cased, a[k].value, b[k].value);
      var x0, y0 := Member(a[k].key, first.a), Member(b[k].key, first.b);
      k := k + 1;
      if !first.same {
        BeyondMembers(x, y, [x0], [y0], MembersOutcome(false, a[k..], b[k..]));
        BeyondIs(x + [x0], y + [y0], MembersOutcome(false, a[k..], b[k..]));
        return false, x + [x0] + a[k..], y + [y0] + b[k..];
      }
      BeyondMembers(x, y, [x0], [y0], CompareMembers(cased, a[k..], b[k..], bound));
      x, y := x + [x0], y + [y0];
    }
    MembersOver(cased, a, b, k, bound);
    BeyondIs(x, y, MembersOutcome(|a| == |b|, a[k..], b[k..]));
    same, x, y := |a| == |b|, x + a[k..], y + b[k..];
  }

  function Beyond(x: seq<Member>, y: seq<Member>, r: MembersOutcome): MembersOutcome {
    MembersOutcome(r.same, x + r.x, y + r.y)
  }

  lemma BeyondIs(x: seq<Member>, y: seq<Member>, r: MembersOutcome)
    ensures Beyond(x, y, r) == MembersOutcome(r.same, x + r.x, y + r.y)
  {
  }

  lemma BeyondMembers(x: seq<Member>, y: seq<Member>, u: seq<Member>, v: seq<Member>, r: MembersOutcome)
    ensures Beyond(x, y, Beyond(u, v, r)) == Beyond(x + u, y + v, r) && Beyond([], [], r) == r
    ensures u[0..] == u && v[0..] == v
  {
    assert x + (u + r.x) == x + u + r.x && y + (v + r.y) == y + v + r.y;
    assert [] + r.x == r.x && [] + r.y == r.y;
  }

  lemma MembersRound(cased: bool, a: seq<Member>, b: seq<Member>, k: nat, bound: nat)
    requires k < |a| && k < |b| && forall i | 0 <= i < |a| :: Height(a[i].value) < bound
    ensures var all := CompareMembers(cased, a[k..], b[k..], bound);
      if Order(cased, a[k].key, b[k].key) != 0 then all == MembersOutcome(false, a[k..], b[k..])
      else
        var first := CompareJson(cased, a[k].value, b[k].value);
        all == Beyond([Member(a[k].key, first.a)], [Member(b[k].key, first.b)],
          if first.same then CompareMembers(cased, a[k + 1..], b[k + 1..], bound)
          else MembersOutcome(false, a[k + 1..], b[k + 1..]))
  {
    hide CompareJson, Height, Order;
    var p, q := a[k..], b[k..];
    assert p[0] == a[k] && p[1..] == a[k + 1..] && q[0] == b[k] && q[1..] == b[k + 1..];
  }

  lemma MembersOver(cased: bool, a: seq<Member>, b: seq<Member>, k: nat, bound: nat)
    requires k <= |a| && k <= |b| && (k == |a| || k == |b|)
    requires forall i | 0 <= i < |a| :: Height(a[i].value) < bound
    ensures CompareMembers(cased, a[k..], b[k..], bound) == MembersOutcome(|a| == |b|, a[k..], b[k..])
  {
    hide CompareJson, Height, Order;
  }

  /** `sort_object` on values. */
  function SortMembers(cased: bool, x: seq<Member>): (s: seq<Member>)
    ensures forall i | 0 <= i < |s| :: Height(s[i].value) < Height(Object(x))
  {
    var s := Sort(MemberKey, cased, x);
    SortPermutes(MemberKey, cased, x);
    SortedHeights(x, s);
    s
  }

  lemma SortedHeights(x: seq<Member>, s: seq<Member>)
    requires multiset(s) == multiset(x)
    ensures forall i | 0 <= i < |s| :: Height(s[i].value) < Height(Object(x))
  {
    hide Height;
    forall i | 0 <= i < |s| ensures Height(s[i].value) < Height(Object(x)) {
      assert s[i] in multiset(x);
      MemberHeight(x, s[i]);
    }
  }

  lemma MemberHeight(x: seq<Member>, m: Member)
    requires m in x
    ensures Height(m.value) < Height(Object(x))
  {
    var i :| 0 <= i < |x| && x[i] == m;
    assert HeightOfMembers(x) == Height(Object(x));
  }

  lemma SortedKeys(cased: bool, keys: iset<Str>, x: seq<Member>)
    requires KeysOf(keys, x)
    ensures KeysOf(keys, SortMembers(cased, x))
  {
    hide KeysIn, Sort;
    SortPermutes(MemberKey, cased, x);
    var s := SortMembers(cased, x);
    forall i | 0 <= i < |s| ensures s[i].key in keys && KeysIn(keys, s[i].value) {
      assert s[i] in multiset(x);
      var j :| 0 <= j < |x| && x[j] == s[i];
    }
  }

  // ----- its verdict -----

  /** Strictly increasing keys. */
  ghost predicate Increasing(cased: bool, s: seq<Member>) {
    forall i, j | 0 <= i < j < |s| :: Order(cased, s[i].key, s[j].key) < 0
  }

  /** Sorting an object with distinct keys gives strictly increasing keys and the same map. */
  lemma SortedMembers(cased: bool, x: seq<Member>)
    requires DistinctKeys(cased, x)
    ensures var s := SortMembers(cased, x);
      multiset(s) == multiset(x) && Increasing(cased, s) && MeaningOf(cased, s) == MeaningOf(cased, x)
    ensures UniqueValues(cased, x) ==> UniqueValues(cased, SortMembers(cased, x))
  {
    hide MeaningOf, Order, Fold, Unique;
    var s := SortMembers(cased, x);
    SortPermutes(MemberKey, cased, x);
    SortSorted(MemberKey, cased, x);
    hide Sort;
    MeaningOfPermutation(cased, x, s);
    forall i, j | 0 <= i < j < |s| ensures Order(cased, s[i].key, s[j].key) < 0 {
      OrderTotal(cased, s[i].key, s[j].key);
      assert Order(cased, MemberKey(s[i]), MemberKey(s[j])) <= 0;
    }
    PermutedUnique(cased, x, s);
  }

  lemma PermutedUnique(cased: bool, x: seq<Member>, s: seq<Member>)
    requires multiset(s) == multiset(x)
    ensures UniqueValues(cased, x) ==> UniqueValues(cased, s)
  {
    hide Unique;
    if UniqueValues(cased, x) {
      forall i | 0 <= i < |s| ensures Unique(cased, s[i].value) {
        assert s[i] in multiset(x);
        var j :| 0 <= j < |x| && x[j] == s[i];
      }
    }
  }

  /** On trees with unique keys `compare_json` decides equality of meaning. */
  lemma {:induction false} CompareJsonIsEquality(cased: bool, a: Json, b: Json)
    requires Unique(cased, a) && Unique(cased, b)
    ensures CompareJson(cased, a, b).same <==> Meaning(cased, a) == Meaning(cased, b)
    decreases Height(a), 1, 0
  {
    hide CompareItems, CompareMembers, SortMembers, MeaningOf;
    match (a, b)
    case (Array(x), Array(y)) =>
      CompareItemsSame(cased, x, y, Height(a));
      ArrayLength(cased, x);
      ArrayLength(cased, y);
      if |x| == |y| {
        ArrayMeanings(cased, x, y);
      }
    case (Object(x), Object(y)) =>
      SortedMembers(cased, x);
      SortedMembers(cased, y);
      CompareMembersSame(cased, SortMembers(cased, x), SortMembers(cased, y), Height(a));
    case _ =>
  }

  lemma {:induction false} CompareItemsSame(cased: bool, x: seq<Json>, y: seq<Json>, bound: nat)
    requires forall i | 0 <= i < |x| :: Height(x[i]) < bound
    requires (forall i | 0 <= i < |x| :: Unique(cased, x[i]))
    requires (forall i | 0 <= i < |y| :: Unique(cased, y[i]))
    ensures CompareItems(cased, x, y, bound).same
       <==> |x| == |y| && forall i | 0 <= i < |x| :: Meaning(cased, x[i]) == Meaning(cased, y[i])
    decreases bound, 0, |x|
  {
    hide Meaning, CompareJson, Unique, Height;
    if x != [] && y != [] {
      CompareJsonIsEquality(cased, x[0], y[0]);
      if CompareJson(cased, x[0], y[0]).same {
        CompareItemsSame(cased, x[1..], y[1..], bound);
        assert forall i | 1 <= i < |x| :: x[i] == x[1..][i - 1];
        assert forall i | 1 <= i < |y| :: y[i] == y[1..][i - 1];
        assert forall i | 0 <= i < |x[1..]| :: x[1..][i] == x[i + 1];
      }
    }
  }

  lemma {:induction false} CompareMembersSame(cased: bool, x: seq<Member>, y: seq<Member>,
      bound: nat)
    requires forall i | 0 <= i < |x| :: Height(x[i].value) < bound
    requires Increasing(cased, x) && Increasing(cased, y)
    requires UniqueValues(cased, x) && UniqueValues(cased, y)
    ensures CompareMembers(cased, x, y, bound).same <==> MeaningOf(cased, x) == MeaningOf(cased, y)
    decreases bound, 0, |x|
  {
    hide Meaning, CompareJson, Unique, Height, Order, Fold;
    if x == [] || y == [] {
      if y != [] {
        HeadOfMap(cased, y);
      }
      if x != [] {
        HeadOfMap(cased, x);
      }
    } else {
      OrderTotal(cased, x[0].key, y[0].key);
      HeadOfMap(cased, x);
      HeadOfMap(cased, y);
      if Order(cased, x[0].key, y[0].key) < 0 {
        KeyBelow(cased, x[0].key, y);
      } else if Order(cased, x[0].key, y[0].key) > 0 {
        KeyBelow(cased, y[0].key, x);
      } else {
        CompareJsonIsEquality(cased, x[0].value, y[0].value);
        CompareMembersSame(cased, x[1..], y[1..], bound);
      }
    }
  }

  /** The head of an increasing list is in the map, and only there. */
  lemma HeadOfMap(cased: bool, x: seq<Member>)
    requires Increasing(cased, x) && x != []
    ensures var f := Fold(cased, x[0].key); var m := MeaningOf(cased, x);
      && f in m && m[f] == Meaning(cased, x[0].value)
      && f !in MeaningOf(cased, x[1..])
      && m == MeaningOf(cased, x[1..])[f := Meaning(cased, x[0].value)]
      && MeaningOf(cased, x[1..]) == m - {f}
  {
    hide Meaning, Order, Fold;
    TailLacksHead(cased, x);
    MapHead(MeaningOf(cased, x), MeaningOf(cased, x[1..]), Fold(cased, x[0].key), Meaning(cased, x[0].value));
  }

  lemma MapHead<K, V>(m: map<K, V>, rest: map<K, V>, f: K, v: V)
    requires m == rest[f := v] && f !in rest
    ensures rest == m - {f}
  {
  }

  lemma TailLacksHead(cased: bool, x: seq<Member>)
    requires Increasing(cased, x) && x != []
    ensures Fold(cased, x[0].key) !in MeaningOf(cased, x[1..])
  {
    hide Meaning, MeaningOf, Order, Fold;
    var f := Fold(cased, x[0].key);
    MeaningKeys(cased, x[1..]);
    if f in MeaningOf(cased, x[1..]) {
      var i :| 0 <= i < |x[1..]| && Fold(cased, x[1..][i].key) == f;
      OrderTotal(cased, x[0].key, x[i + 1].key);
    }
  }

  lemma KeyBelow(cased: bool, key: Str, y: seq<Member>)
    requires Increasing(cased, y) && y != [] && Order(cased, key, y[0].key) < 0
    ensures Fold(cased, key) !in MeaningOf(cased, y)
  {
    hide Meaning, MeaningOf, Order, Fold;
    MeaningKeys(cased, y);
    if Fold(cased, key) in MeaningOf(cased, y) {
      var i :| 0 <= i < |y| && Fold(cased, y[i].key) == Fold(cased, key);
      OrderTotal(cased, key, y[i].key);
      if i > 0 {
        OrderTransitive(cased, key, y[0].key, y[i].key);
      }
    }
  }

  /** The fast equality test agrees with the slow one. */
  lemma FastEqualsSlow(cased: bool, a: Json, b: Json)
    requires Unique(cased, a) && Unique(cased, b)
    ensures CompareJson(cased, a, b).same == Compare(cased, a, b)
  {
    hide CompareJson, Compare, Meaning, Unique;
    CompareJsonIsEquality(cased, a, b);
    CompareIsEquality(cased, a, b);
  }

  // ----- its side effect -----

  /** Member lists that differ only in the order inside their values. */
  ghost predicate Alike(cased: bool, x: seq<Member>, y: seq<Member>) {
    |x| == |y| && forall i | 0 <= i < |x| ::
      && x[i].key == y[i].key && Meaning(cased, x[i].value) == Meaning(cased, y[i].value)
      && (Unique(cased, x[i].value) <==> Unique(cased, y[i].value))
  }

  lemma {:induction false} AlikeMeaning(cased: bool, x: seq<Member>, y: seq<Member>)
    requires Alike(cased, x, y)
    ensures MeaningOf(cased, x) == MeaningOf(cased, y)
    ensures DistinctKeys(cased, x) <==> DistinctKeys(cased, y)
  {
    hide Meaning, Unique, Fold;
    if x != [] {
      assert forall i | 0 <= i < |x[1..]| :: x[1..][i] == x[i + 1] && y[1..][i] == y[i + 1];
      AlikeMeaning(cased, x[1..], y[1..]);
    }
  }

  lemma AlikeItself(cased: bool, x: seq<Member>)
    ensures Alike(cased, x, x)
  {
  }

  lemma AlikeCons(cased: bool, m: Member, rest: seq<Member>, y: seq<Member>)
    requires y != [] && m.key == y[0].key
    requires Meaning(cased, m.value) == Meaning(cased, y[0].value)
    requires Unique(cased, m.value) <==> Unique(cased, y[0].value)
    requires Alike(cased, rest, y[1..])
    ensures Alike(cased, [m] + rest, y)
  {
    hide Meaning, Unique;
    forall i | 0 < i < |y| ensures ([m] + rest)[i] == rest[i - 1] && y[i] == y[1..][i - 1] {
    }
  }

  /** Under either way of comparing keys, the sorting leaves both arguments what they mean. */
  lemma {:induction false} CompareJsonKeeps(cased: bool, keyCase: bool, a: Json, b: Json)
    requires Unique(keyCase, a) && Unique(keyCase, b)
    ensures var r := CompareJson(cased, a, b);
      && Meaning(keyCase, r.a) == Meaning(keyCase, a) && Unique(keyCase, r.a)
      && Meaning(keyCase, r.b) == Meaning(keyCase, b) && Unique(keyCase, r.b)
    decreases Height(a), 1, 0
  {
    hide CompareItems, CompareMembers, SortMembers, MeaningOf;
    match (a, b)
    case (Array(x), Array(y)) =>
      CompareItemsKeeps(cased, keyCase, x, y, Height(a));
      var r := CompareItems(cased, x, y, Height(a));
      ArrayMeanings(keyCase, x, r.x);
      ArrayMeanings(keyCase, y, r.y);
    case (Object(x), Object(y)) =>
      ObjectsKeep(cased, keyCase, x, y);
    case _ =>
  }

  lemma {:induction false} CompareItemsKeeps(cased: bool, keyCase: bool, x: seq<Json>,
      y: seq<Json>, bound: nat)
    requires forall i | 0 <= i < |x| :: Height(x[i]) < bound
    requires (forall i | 0 <= i < |x| :: Unique(keyCase, x[i]))
    requires (forall i | 0 <= i < |y| :: Unique(keyCase, y[i]))
    ensures var r := CompareItems(cased, x, y, bound);
      && |r.x| == |x| && |r.y| == |y|
      && (forall i | 0 <= i < |x| ::
            Meaning(keyCase, r.x[i]) == Meaning(keyCase, x[i]) && Unique(keyCase, r.x[i]))
      && (forall i | 0 <= i < |y| ::
            Meaning(keyCase, r.y[i]) == Meaning(keyCase, y[i]) && Unique(keyCase, r.y[i]))
    decreases bound, 0, |x|
  {
    hide Meaning, CompareJson, Unique, Height;
    if x != [] && y != [] {
      CompareJsonKeeps(cased, keyCase, x[0], y[0]);
      if CompareJson(cased, x[0], y[0]).same {
        CompareItemsKeeps(cased, keyCase, x[1..], y[1..], bound);
        var all, rest := CompareItems(cased, x, y, bound), CompareItems(cased, x[1..], y[1..], bound);
        forall i | 1 <= i < |x| ensures all.x[i] == rest.x[i - 1] && x[i] == x[1..][i - 1] {
        }
        forall i | 1 <= i < |y| ensures all.y[i] == rest.y[i - 1] && y[i] == y[1..][i - 1] {
        }
      }
    }
  }

  lemma {:induction false} ObjectsKeep(cased: bool, keyCase: bool, x: seq<Member>, y: seq<Member>)
    requires Unique(keyCase, Object(x)) && Unique(keyCase, Object(y))
    ensures var r := CompareMembers(cased, SortMembers(cased, x), SortMembers(cased, y), Height(Object(x)));
      && MeaningOf(keyCase, r.x) == MeaningOf(keyCase, x) && Unique(keyCase, Object(r.x))
      && MeaningOf(keyCase, r.y) == MeaningOf(keyCase, y) && Unique(keyCase, Object(r.y))
    decreases Height(Object(x)), 0, |x| + 1
  {
    var sx, sy := SortMembers(cased, x), SortMembers(cased, y);
    SortPermutes(MemberKey, cased, x);
    SortPermutes(MemberKey, cased, y);
    PermutedUnique(keyCase, x, sx);
    PermutedUnique(keyCase, y, sy);
    MeaningOfPermutation(keyCase, x, sx);
    MeaningOfPermutation(keyCase, y, sy);
    hide CompareMembers, SortMembers, MeaningOf;
    CompareMembersKeeps(cased, keyCase, sx, sy, Height(Object(x)));
    var r := CompareMembers(cased, sx, sy, Height(Object(x)));
    AlikeMeaning(keyCase, r.x, sx);
    AlikeMeaning(keyCase, r.y, sy);
  }

  lemma {:induction false} CompareMembersKeeps(cased: bool, keyCase: bool, x: seq<Member>,
      y: seq<Member>, bound: nat)
    requires forall i | 0 <= i < |x| :: Height(x[i].value) < bound
    requires UniqueValues(keyCase, x) && UniqueValues(keyCase, y)
    ensures var r := CompareMembers(cased, x, y, bound); Alike(keyCase, r.x, x) && Alike(keyCase, r.y, y)
    decreases bound, 0, |x|
  {
    hide Meaning, CompareJson, Unique, Height, Order, Alike;
    AlikeItself(keyCase, x);
    AlikeItself(keyCase, y);
    if x != [] && y != [] && Order(cased, x[0].key, y[0].key) == 0 {
      AlikeItself(keyCase, x[1..]);
      AlikeItself(keyCase, y[1..]);
      CompareJsonKeeps(cased, keyCase, x[0].value, y[0].value);
      var first := CompareJson(cased, x[0].value, y[0].value);
      var x0, y0 := Member(x[0].key, first.a), Member(y[0].key, first.b);
      if first.same {
        CompareMembersKeeps(cased, keyCase, x[1..], y[1..], bound);
        var rest := CompareMembers(cased, x[1..], y[1..], bound);
        AlikeCons(keyCase, x0, rest.x, x);
        AlikeCons(keyCase, y0, rest.y, y);
      } else {
        AlikeCons(keyCase, x0, x[1..], x);
        AlikeCons(keyCase, y0, y[1..], y);
      }
    }
  }

  // ----- the sorting keeps the nesting -----

  lemma {:induction false} CompareJsonHeights(cased: bool, a: Json, b: Json)
    ensures var r := CompareJson(cased, a, b); Height(r.a) <= Height(a) && Height(r.b) <= Height(b)
    decreases Height(a), 1, 0
  {
    hide CompareItems, CompareMembers, SortMembers, HeightOfItems, HeightOfMembers;
    match (a, b)
    case (Array(x), Array(y)) =>
      CompareItemsHeights(cased, x, y, Height(a));
      var r := CompareItems(cased, x, y, Height(a));
      ItemsBound(y, r.y);
      ItemsBound(x, r.x);
    case (Object(x), Object(y)) =>
      var sx, sy := SortMembers(cased, x), SortMembers(cased, y);
      CompareMembersHeights(cased, sx, sy, Height(a));
      var r := CompareMembers(cased, sx, sy, Height(a));
      HeightLeast(r.x, Height(a));
      HeightLeast(r.y, Height(b));
    case _ =>
  }

  lemma ItemsBound(x: seq<Json>, y: seq<Json>)
    requires |x| == |y| && forall i | 0 <= i < |x| :: Height(y[i]) <= Height(x[i])
    ensures HeightOfItems(y) <= HeightOfItems(x)
  {
    hide Height;
    HeightLeastItems(y, HeightOfItems(x));
  }

  lemma {:induction false} CompareItemsHeights(cased: bool, x: seq<Json>, y: seq<Json>, bound: nat)
    requires forall i | 0 <= i < |x| :: Height(x[i]) < bound
    ensures var r := CompareItems(cased, x, y, bound);
      && |r.x| == |x| && (forall i | 0 <= i < |x| :: Height(r.x[i]) <= Height(x[i]))
      && |r.y| == |y| && (forall i | 0 <= i < |y| :: Height(r.y[i]) <= Height(y[i]))
    decreases bound, 0, |x|
  {
    hide CompareJson, Height;
    if x != [] && y != [] {
      CompareJsonHeights(cased, x[0], y[0]);
      if CompareJson(cased, x[0], y[0]).same {
        CompareItemsHeights(cased, x[1..], y[1..], bound);
      }
    }
  }

  lemma {:induction false} CompareMembersHeights(cased: bool, x: seq<Member>, y: seq<Member>,
      bound: nat)
    requires forall i | 0 <= i < |x| :: Height(x[i].value) < bound
    ensures var r := CompareMembers(cased, x, y, bound);
      && |r.x| == |x| && (forall i | 0 <= i < |x| :: Height(r.x[i].value) <= Height(x[i].value))
      && |r.y| == |y| && (forall i | 0 <= i < |y| :: Height(r.y[i].value) <= Height(y[i].value))
    decreases bound, 0, |x|
  {
    hide CompareJson, Height, Order;
    if x != [] && y != [] && Order(cased, x[0].key, y[0].key) == 0 {
      CompareJsonHeights(cased, x[0].value, y[0].value);
      if CompareJson(cased, x[0].value, y[0].value).same {
        CompareMembersHeights(cased, x[1..], y[1..], bound);
      }
    }
  }
}
